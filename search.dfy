/**
 * "First element satisfying a predicate", the selection rule of the lookup
 * (a boolean mask over the table followed by taking row 0), stated twice:
 * as the first matching index, and as the filtered sequence the mask yields.
 */
module Search {
  import opened Wrappers

  /** The index of the first element of `s` that satisfies `p`, if any. */
  function FirstWhere<T>(s: seq<T>, p: T -> bool): (r: Option<nat>)
    ensures r.Some? ==> r.value < |s| && p(s[r.value])
    ensures r.Some? ==> forall j :: 0 <= j < r.value ==> !p(s[j])
    ensures r.None? ==> forall j :: 0 <= j < |s| ==> !p(s[j])
  {
    FirstWhereFrom(s, p, 0)
  }

  /** The index of the first element of `s` at or after `i` that satisfies `p`, if any. */
  function FirstWhereFrom<T>(s: seq<T>, p: T -> bool, i: nat): (r: Option<nat>)
    ensures r.Some? ==> i <= r.value < |s| && p(s[r.value])
    ensures r.Some? ==> forall j :: i <= j < r.value ==> !p(s[j])
    ensures r.None? ==> forall j :: i <= j < |s| ==> !p(s[j])
    decreases |s| - i
  {
    if i >= |s| then None
    else if p(s[i]) then Some(i)
    else FirstWhereFrom(s, p, i + 1)
  }

  /** The elements of `s` that satisfy `p` (a boolean-mask selection). */
  function Filter<T>(s: seq<T>, p: T -> bool): (r: seq<T>)
    ensures |r| <= |s|
    ensures forall i :: 0 <= i < |r| ==> p(r[i])
    ensures |r| == 0 <==> FirstWhere(s, p).None?
    ensures |r| > 0 ==> r[0] == s[FirstWhere(s, p).value]
  {
    FilterFrom(s, p, 0)
  }

  /** The elements of `s` from index `i` on that satisfy `p`. */
  function FilterFrom<T>(s: seq<T>, p: T -> bool, i: nat): (r: seq<T>)
    ensures i <= |s| ==> |r| <= |s| - i
    ensures forall k :: 0 <= k < |r| ==> p(r[k])
    ensures |r| == 0 <==> FirstWhereFrom(s, p, i).None?
    ensures |r| > 0 ==> r[0] == s[FirstWhereFrom(s, p, i).value]
    decreases |s| - i
  {
    if i >= |s| then []
    else if p(s[i]) then [s[i]] + FilterFrom(s, p, i + 1)
    else FilterFrom(s, p, i + 1)
  }

  /** The mask keeps every element that satisfies `p`, and only elements of `s`, each at most as often as in `s`. */
  lemma FilterSelects<T>(s: seq<T>, p: T -> bool)
    ensures multiset(Filter(s, p)) <= multiset(s)
    ensures forall i :: 0 <= i < |s| && p(s[i]) ==> s[i] in Filter(s, p)
  {
    FilterFromSelects(s, p, 0);
    assert s[0..] == s;
  }

  lemma {:induction false} FilterFromSelects<T>(s: seq<T>, p: T -> bool, i: nat)
    requires i <= |s|
    ensures multiset(FilterFrom(s, p, i)) <= multiset(s[i..])
    ensures forall k :: i <= k < |s| && p(s[k]) ==> s[k] in FilterFrom(s, p, i)
    decreases |s| - i
  {
    if i < |s| {
      FilterFromSelects(s, p, i + 1);
      assert s[i..] == [s[i]] + s[i + 1..];
    }
  }

  /** The contract of `FirstWhere` pins down its result: any index that is first is the one returned. */
  lemma FirstWhereIs<T>(s: seq<T>, p: T -> bool, i: nat)
    requires i < |s| && p(s[i])
    requires forall j :: 0 <= j < i ==> !p(s[j])
    ensures FirstWhere(s, p) == Some(i)
  {
  }

  /** Two predicates that agree on the elements of `s` pick the same first index. */
  lemma FirstWhereAgree<T>(s: seq<T>, p: T -> bool, q: T -> bool)
    requires forall j :: 0 <= j < |s| ==> p(s[j]) == q(s[j])
    ensures FirstWhere(s, p) == FirstWhere(s, q)
  {
    match FirstWhere(s, q)
    case Some(i) => FirstWhereIs(s, p, i);
    case None =>
  }

  lemma InsertedAt<T>(s: seq<T>, k: nat, x: T, j: nat)
    requires k <= |s| && j <= |s|
    ensures (s[..k] + [x] + s[k..])[j] == if j < k then s[j] else if j == k then x else s[j - 1]
  {
  }

  lemma FirstWhereSkipsInsertedFound<T>(s: seq<T>, k: nat, x: T, p: T -> bool, i: nat)
    requires k <= |s| && !p(x) && FirstWhere(s, p) == Some(i)
    ensures FirstWhere(s[..k] + [x] + s[k..], p) == Some(if i < k then i else i + 1)
  {
    var i' := if i < k then i else i + 1;
    InsertedAt(s, k, x, i');
    forall j | 0 <= j < i' ensures !p((s[..k] + [x] + s[k..])[j]) {
      InsertedAt(s, k, x, j);
    }
    FirstWhereIs(s[..k] + [x] + s[k..], p, i');
  }

  lemma FirstWhereSkipsInsertedMissing<T>(s: seq<T>, k: nat, x: T, p: T -> bool)
    requires k <= |s| && !p(x) && FirstWhere(s, p).None?
    ensures FirstWhere(s[..k] + [x] + s[k..], p).None?
  {
    forall j | 0 <= j < |s| + 1 ensures !p((s[..k] + [x] + s[k..])[j]) {
      InsertedAt(s, k, x, j);
    }
  }

  /**
   * Inserting an element that does not satisfy `p` at position `k` leaves the
   * search finding the same element: nothing if nothing was found, otherwise
   * the old hit, one place later when it sat at or after `k`.
   */
  lemma FirstWhereSkipsInserted<T>(s: seq<T>, k: nat, x: T, p: T -> bool)
    requires k <= |s| && !p(x)
    ensures FirstWhere(s[..k] + [x] + s[k..], p) ==
      match FirstWhere(s, p)
      case None => None
      case Some(i) => Some(if i < k then i else i + 1)
  {
    match FirstWhere(s, p)
    case Some(i) => FirstWhereSkipsInsertedFound(s, k, x, p, i);
    case None => FirstWhereSkipsInsertedMissing(s, k, x, p);
  }

  /** Searching one element further: an earlier hit stays, otherwise the new element decides. */
  lemma FirstWhereExtend<T>(s: seq<T>, x: T, p: T -> bool)
    ensures FirstWhere(s + [x], p) ==
      if FirstWhere(s, p).Some? then FirstWhere(s, p) else if p(x) then Some(|s|) else None
  {
    match FirstWhere(s, p)
    case Some(k) =>
      assert (s + [x])[k] == s[k];
      forall j | 0 <= j < k ensures !p((s + [x])[j]) {
        assert (s + [x])[j] == s[j];
      }
      FirstWhereIs(s + [x], p, k);
    case None =>
      forall j | 0 <= j < |s| ensures !p((s + [x])[j]) {
        assert (s + [x])[j] == s[j];
      }
      if p(x) {
        FirstWhereIs(s + [x], p, |s|);
      } else {
        assert (s + [x])[|s|] == x;
      }
  }

  /** An element that fails `p` extends a hit-free prefix by one. */
  lemma FirstWhereMissExtends<T>(s: seq<T>, i: nat, p: T -> bool)
    requires i < |s| && FirstWhere(s[..i], p).None? && !p(s[i])
    ensures FirstWhere(s[..i + 1], p).None?
  {
    assert s[..i + 1] == s[..i] + [s[i]];
    FirstWhereExtend(s[..i], s[i], p);
  }

  /** After a hit-free prefix, an element that satisfies `p` is the first hit. */
  lemma FirstWhereAfterMisses<T>(s: seq<T>, i: nat, p: T -> bool)
    requires i < |s| && FirstWhere(s[..i], p).None? && p(s[i])
    ensures FirstWhere(s, p) == Some(i)
  {
    forall k | 0 <= k < i ensures !p(s[k]) {
      assert s[..i][k] == s[k];
    }
    FirstWhereIs(s, p, i);
  }

  /** Whatever follows the first hit does not matter. */
  lemma FirstWhereIgnoresSuffix<T>(s: seq<T>, more: seq<T>, p: T -> bool)
    requires FirstWhere(s, p).Some?
    ensures FirstWhere(s + more, p) == FirstWhere(s, p)
  {
    var i := FirstWhere(s, p).value;
    assert (s + more)[i] == s[i];
    forall j | 0 <= j < i ensures !p((s + more)[j]) {
      assert (s + more)[j] == s[j];
    }
    FirstWhereIs(s + more, p, i);
  }
}
