/**
 * The string operations the service relies on, written out so that their
 * behaviour is explicit: Python's `str.strip()`, `str.split(c)[0]`,
 * `str.replace(p, "")`, and the case-insensitive substring test that the
 * lookup performs on table cells.
 */
module Text {

  /** The characters Python's `str.isspace()` accepts; `str.strip()` removes exactly these. */
  predicate IsSpace(c: char) {
    var n := c as int;
    (0x09 <= n <= 0x0D) || (0x1C <= n <= 0x20) || n == 0x85 || n == 0xA0 || n == 0x1680
    || (0x2000 <= n <= 0x200A) || n == 0x2028 || n == 0x2029 || n == 0x202F || n == 0x205F
    || n == 0x3000
  }

  predicate AllSpace(s: string) {
    forall i :: 0 <= i < |s| ==> IsSpace(s[i])
  }

  /** Neither the first nor the last character is whitespace. */
  predicate NoSurroundingSpace(s: string) {
    |s| == 0 || (!IsSpace(s[0]) && !IsSpace(s[|s| - 1]))
  }

  /** The first index at or after `i` that is not whitespace, or `|s|`. */
  function SkipSpaces(s: string, i: nat): (k: nat)
    requires i <= |s|
    ensures i <= k <= |s|
    ensures forall m :: i <= m < k ==> IsSpace(s[m])
    ensures k < |s| ==> !IsSpace(s[k])
    decreases |s| - i
  {
    if i == |s| || !IsSpace(s[i]) then i else SkipSpaces(s, i + 1)
  }

  /** Going back from `j`, no further than `lo`: the start of the whitespace run that ends at `j`. */
  function SkipSpacesBack(s: string, lo: nat, j: nat): (k: nat)
    requires lo <= j <= |s|
    ensures lo <= k <= j
    ensures forall m :: k <= m < j ==> IsSpace(s[m])
    ensures k > lo ==> !IsSpace(s[k - 1])
    decreases j
  {
    if j == lo || !IsSpace(s[j - 1]) then j else SkipSpacesBack(s, lo, j - 1)
  }

  /**
   * Python's `s.strip()`: the slice of `s` left after removing the whitespace
   * at both ends.
   */
  function Strip(s: string): (r: string)
    ensures NoSurroundingSpace(r)
    ensures |r| <= |s|
  {
    var i := SkipSpaces(s, 0);
    var j := SkipSpacesBack(s, i, |s|);
    s[i..j]
  }

  /** `Strip` only cuts whitespace: its result is a slice of the input with whitespace on either side. */
  lemma StripSlices(s: string)
    ensures exists i, j :: 0 <= i <= j <= |s| && Strip(s) == s[i..j] && AllSpace(s[..i]) && AllSpace(s[j..])
  {
    var i := SkipSpaces(s, 0);
    var j := SkipSpacesBack(s, i, |s|);
    assert AllSpace(s[..i]) by {
      forall m | 0 <= m < i ensures IsSpace(s[..i][m]) {
        assert s[..i][m] == s[m];
      }
    }
    assert AllSpace(s[j..]) by {
      forall m | 0 <= m < |s| - j ensures IsSpace(s[j..][m]) {
        assert s[j..][m] == s[j + m];
      }
    }
    assert Strip(s) == s[i..j];
  }

  /**
   * Any way of writing `s` as whitespace, a middle part without surrounding
   * whitespace, and whitespace, has `Strip(s)` as its middle part.
   */
  lemma StripUnique(s: string, i: nat, j: nat)
    requires i <= j <= |s| && AllSpace(s[..i]) && AllSpace(s[j..]) && NoSurroundingSpace(s[i..j])
    ensures Strip(s) == s[i..j]
  {
    var l := SkipSpaces(s, 0);
    forall m | 0 <= m < i ensures IsSpace(s[m]) {
      assert s[..i][m] == s[m];
    }
    forall m | j <= m < |s| ensures IsSpace(s[m]) {
      assert s[j..][m - j] == s[m];
    }
    if i < j {
      assert !IsSpace(s[i]) by { assert s[i..j][0] == s[i]; }
      assert !IsSpace(s[j - 1]) by { assert s[i..j][j - i - 1] == s[j - 1]; }
      assert l == i;
      assert SkipSpacesBack(s, l, |s|) == j;
    } else {
      assert l == |s|;
    }
  }

  /** A text without surrounding whitespace is its own `strip()`. */
  lemma StripKeeps(s: string)
    requires NoSurroundingSpace(s)
    ensures Strip(s) == s
  {
    assert s[..0] == [] && s[|s|..] == [] && s[0..|s|] == s;
    StripUnique(s, 0, |s|);
  }

  /** The first index at or after `i` that holds `c`, or `|s|`. */
  function IndexOf(s: string, c: char, i: nat): (k: nat)
    requires i <= |s|
    ensures i <= k <= |s|
    ensures forall m :: i <= m < k ==> s[m] != c
    ensures k < |s| ==> s[k] == c
    decreases |s| - i
  {
    if i == |s| || s[i] == c then i else IndexOf(s, c, i + 1)
  }

  /** Python's `s.split(c)[0]`: the text before the first `c`, or all of `s` when there is none. */
  function BeforeFirst(s: string, c: char): (r: string)
    ensures r <= s
    ensures c !in r
    ensures |r| < |s| ==> s[|r|] == c
  {
    var k := IndexOf(s, c, 0);
    assert forall m :: 0 <= m < k ==> s[..k][m] != c;
    s[..k]
  }

  /** The contract of `BeforeFirst` pins down its result: the prefix up to the first `c`. */
  lemma BeforeFirstUnique(s: string, c: char, n: nat)
    requires n <= |s| && c !in s[..n] && (n < |s| ==> s[n] == c)
    ensures BeforeFirst(s, c) == s[..n]
  {
    var r := BeforeFirst(s, c);
    assert r == s[..|r|];
  }

  /** ASCII lower-casing; other characters are left alone. */
  function ToLower(c: char): char {
    if 'A' <= c <= 'Z' then (c as int + 32) as char else c
  }

  function Lower(s: string): string {
    seq(|s|, i requires 0 <= i < |s| => ToLower(s[i]))
  }

  /** `pat` occurs in `s` starting at index `i`. */
  predicate OccursAt(pat: string, s: string, i: int) {
    0 <= i && i + |pat| <= |s| && s[i..i + |pat|] == pat
  }

  /** `pat` occurs somewhere in `s` (an unanchored substring test). */
  predicate Occurs(pat: string, s: string) {
    exists i | 0 <= i <= |s| - |pat| :: OccursAt(pat, s, i)
  }

  /** `needle` occurs in `hay` when both are compared ignoring ASCII case. */
  predicate ContainsIgnoringCase(hay: string, needle: string): (b: bool)
    ensures |needle| == 0 ==> b
    ensures b ==> |needle| <= |hay|
  {
    assert |needle| == 0 ==> OccursAt(Lower(needle), Lower(hay), 0);
    Occurs(Lower(needle), Lower(hay))
  }

  /** A text contains each of its prefixes, whatever the case. */
  lemma PrefixContained(needle: string, hay: string)
    requires needle <= hay
    ensures ContainsIgnoringCase(hay, needle)
  {
    assert Lower(hay)[0..|needle|] == Lower(needle);
    assert OccursAt(Lower(needle), Lower(hay), 0);
  }

  /**
   * Python's `s.replace(pat, "")`: scanning from the left, every occurrence of
   * `pat` that does not overlap an earlier deleted one is deleted.
   */
  function RemoveAll(s: string, pat: string): (r: string)
    requires |pat| > 0
    ensures |r| <= |s|
    decreases |s|
  {
    if |s| < |pat| then s
    else if s[..|pat|] == pat then RemoveAll(s[|pat|..], pat)
    else [s[0]] + RemoveAll(s[1..], pat)
  }

  /** Text in which `pat` does not occur comes back unchanged. */
  lemma {:induction false} RemoveAllUnchanged(s: string, pat: string)
    requires |pat| > 0 && !Occurs(pat, s)
    ensures RemoveAll(s, pat) == s
    decreases |s|
  {
    if |s| >= |pat| {
      assert !OccursAt(pat, s, 0);
      if Occurs(pat, s[1..]) {
        var i :| 0 <= i <= |s[1..]| - |pat| && OccursAt(pat, s[1..], i);
        assert s[1..][i..i + |pat|] == s[i + 1..i + 1 + |pat|];
        assert OccursAt(pat, s, i + 1);
      }
      RemoveAllUnchanged(s[1..], pat);
    }
  }

  /** A prefix holding no character that starts `pat` passes through untouched. */
  lemma {:induction false} RemoveAllKeepsPrefix(b: string, t: string, pat: string)
    requires |pat| > 0 && pat[0] !in b
    ensures RemoveAll(b + t, pat) == b + RemoveAll(t, pat)
    decreases |b|
  {
    if |b| > 0 {
      var s := b + t;
      if |s| >= |pat| {
        assert s[..|pat|][0] == b[0];
        assert s[1..] == b[1..] + t;
        RemoveAllKeepsPrefix(b[1..], t, pat);
        assert b == [b[0]] + b[1..];
      } else {
        assert |t| < |pat|;
      }
    } else {
      assert b + t == t;
    }
  }

  /** An occurrence of `pat` at the very start is deleted. */
  lemma RemoveAllDropsLeading(t: string, pat: string)
    requires |pat| > 0
    ensures RemoveAll(pat + t, pat) == RemoveAll(t, pat)
  {
    assert (pat + t)[..|pat|] == pat;
    assert (pat + t)[|pat|..] == t;
  }

  /**
   * Left to right: the text before the first occurrence of `pat` is kept,
   * that occurrence is deleted, and the deletion carries on after it.
   * Together with `RemoveAllUnchanged` this determines `RemoveAll` on every input.
   */
  lemma RemoveAllFirst(s: string, pat: string, i: nat)
    requires |pat| > 0 && OccursAt(pat, s, i)
    requires forall j :: 0 <= j < i ==> !OccursAt(pat, s, j)
    ensures RemoveAll(s, pat) == s[..i] + RemoveAll(s[i + |pat|..], pat)
  {
    var b, t := s[..i], s[i..];
    assert s == b + t;
    assert t[..|pat|] == s[i..i + |pat|];
    assert t[|pat|..] == s[i + |pat|..];
    RemoveAllBefore(b, t, pat);
  }

  /** `RemoveAllFirst` with the text split at the first occurrence: `b` holds none, `t` starts with one. */
  lemma {:induction false} RemoveAllBefore(b: string, t: string, pat: string)
    requires |pat| > 0 && |pat| <= |t| && t[..|pat|] == pat
    requires forall j :: 0 <= j < |b| ==> !OccursAt(pat, b + t, j)
    ensures RemoveAll(b + t, pat) == b + RemoveAll(t[|pat|..], pat)
    decreases |b|
  {
    if |b| == 0 {
      assert b + t == t;
    } else {
      RemoveAllBeforeStep(b, t, pat);
      RemoveAllBefore(b[1..], t, pat);
      assert [b[0]] + (b[1..] + RemoveAll(t[|pat|..], pat)) == b + RemoveAll(t[|pat|..], pat);
    }
  }

  /** Peeling the first character of `b` off: it is kept, and `b[1..]` still holds no occurrence. */
  lemma RemoveAllBeforeStep(b: string, t: string, pat: string)
    requires |pat| > 0 && |b| > 0
    requires forall j :: 0 <= j < |b| ==> !OccursAt(pat, b + t, j)
    ensures RemoveAll(b + t, pat) == [b[0]] + RemoveAll(b[1..] + t, pat)
    ensures forall j :: 0 <= j < |b| - 1 ==> !OccursAt(pat, b[1..] + t, j)
  {
    var s := b + t;
    assert s[1..] == b[1..] + t && s[0] == b[0];
    assert !OccursAt(pat, s, 0);
    RemoveAllStep(s, pat);
    NoOccurrenceShifts(s, pat, |b|);
  }

  /** Without an occurrence at the start, the first character is kept. */
  lemma RemoveAllStep(s: string, pat: string)
    requires |pat| > 0 && |s| > 0 && !OccursAt(pat, s, 0)
    ensures RemoveAll(s, pat) == [s[0]] + RemoveAll(s[1..], pat)
  {
  }

  /** No occurrence before index `k` in `s` means none before `k - 1` in `s[1..]`. */
  lemma NoOccurrenceShifts(s: string, pat: string, k: nat)
    requires 0 < k <= |s| && forall j :: 0 <= j < k ==> !OccursAt(pat, s, j)
    ensures forall j :: 0 <= j < k - 1 ==> !OccursAt(pat, s[1..], j)
  {
    forall j | 0 <= j < k - 1 ensures !OccursAt(pat, s[1..], j) {
      assert !OccursAt(pat, s, j + 1);
      if j + |pat| <= |s| - 1 {
        assert s[1..][j..j + |pat|] == s[j + 1..j + 1 + |pat|];
      }
    }
  }

  /** The Markdown code-fence marker. */
  const Fence: string := "```"

  /** The number of backticks at the start of `s`. */
  function LeadingTicks(s: string): (k: nat)
    ensures k <= |s|
    ensures k < |s| ==> s[k] != '`'
  {
    if |s| == 0 || s[0] != '`' then 0 else 1 + LeadingTicks(s[1..])
  }

  lemma {:induction false} LeadingTicksAt(s: string, i: nat)
    requires i < LeadingTicks(s)
    ensures s[i] == '`'
  {
    if i > 0 { LeadingTicksAt(s[1..], i - 1); }
  }

  lemma LeadingTicksCons(c: char, r: string)
    ensures LeadingTicks([c] + r) == if c == '`' then 1 + LeadingTicks(r) else 0
  {
    assert ([c] + r)[1..] == r;
  }

  /** A text that does not start with a fence starts with fewer than three backticks. */
  lemma TicksBeforeNonFence(s: string)
    requires |s| >= 3 && s[..3] != Fence
    ensures LeadingTicks(s) < 3
  {
    if LeadingTicks(s) >= 3 {
      LeadingTicksAt(s, 0);
      LeadingTicksAt(s, 1);
      LeadingTicksAt(s, 2);
    }
  }

  lemma LeadingTicksFence(t: string)
    ensures LeadingTicks(Fence + t) == 3 + LeadingTicks(t)
  {
    var t1 := ['`'] + t;
    var t2 := ['`'] + t1;
    LeadingTicksCons('`', t);
    LeadingTicksCons('`', t1);
    LeadingTicksCons('`', t2);
    assert Fence == ['`', '`', '`'];
    assert Fence + t == ['`'] + t2;
  }

  /** Deleting fences keeps a leading run of fewer than three backticks as it is. */
  lemma {:induction false} RemoveFenceKeepsShortTicks(s: string)
    requires LeadingTicks(s) < 3
    ensures LeadingTicks(RemoveAll(s, Fence)) == LeadingTicks(s)
    decreases |s|
  {
    if |s| >= 3 {
      if s[..3] == Fence {
        assert s == Fence + s[3..];
        LeadingTicksFence(s[3..]);
        assert false;
      }
      var r := RemoveAll(s[1..], Fence);
      assert RemoveAll(s, Fence) == [s[0]] + r;
      assert s == [s[0]] + s[1..];
      LeadingTicksCons(s[0], r);
      LeadingTicksCons(s[0], s[1..]);
      if s[0] == '`' {
        RemoveFenceKeepsShortTicks(s[1..]);
      }
    }
  }

  /** After every fence has been deleted, no fence is left (deletion never creates a new one). */
  lemma {:induction false} RemoveFenceLeavesNone(s: string)
    ensures !Occurs(Fence, RemoveAll(s, Fence))
    decreases |s|
  {
    var out := RemoveAll(s, Fence);
    if |s| < 3 {
      assert out == s;
    } else if s[..3] == Fence {
      RemoveFenceLeavesNone(s[3..]);
    } else {
      var r := RemoveAll(s[1..], Fence);
      assert out == [s[0]] + r;
      RemoveFenceLeavesNone(s[1..]);
      if i :| 0 <= i <= |out| - |Fence| && OccursAt(Fence, out, i) {
        if i >= 1 {
          assert out[i..i + 3] == r[i - 1..i + 2];
          assert OccursAt(Fence, r, i - 1);
        } else {
          assert out[..3] == [s[0], r[0], r[1]];
          assert r == [r[0]] + r[1..] && r[1..] == [r[1]] + r[2..];
          LeadingTicksCons(r[0], r[1..]);
          LeadingTicksCons(r[1], r[2..]);
          TicksBeforeNonFence(s);
          RemoveFenceKeepsShortTicks(s[1..]);
          assert false;
        }
      }
    }
  }

  /** A text in which a longer pattern starting with `pat` occurs also contains `pat`. */
  lemma OccursPrefix(pat: string, more: string, s: string)
    requires Occurs(pat + more, s)
    ensures Occurs(pat, s)
  {
    var i :| 0 <= i <= |s| - |pat + more| && OccursAt(pat + more, s, i);
    assert s[i..i + |pat|] == s[i..i + |pat + more|][..|pat|];
    assert OccursAt(pat, s, i);
  }
}
