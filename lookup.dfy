/**
 * The two-tier reference-table lookup `find_medicine_details` (main.py):
 * first by medicine name, then, only when no row's name matches, by each
 * active salt in turn against the rows' composition text.
 */
module Lookup {
  import opened Wrappers
  import opened Text
  import opened Search

  /**
   * One row of the reference table. A cell is `None` when it is empty in the
   * file (pandas reads it as NaN) or when the column is absent; matching is
   * done only on the name and composition cells.
   */
  datatype Row = Row(
    name: Option<string>,
    composition: Option<string>,
    uses: Option<string>,
    sideEffects: Option<string>)

  /** The table loaded at start-up; `None` when the file was not found. */
  type Table = Option<seq<Row>>

  /** What a match yields: the row's uses and side-effects cells, passed through as they are. */
  datatype Details = Details(uses: Option<string>, sideEffects: Option<string>)

  function DetailsOf(row: Row): Details {
    Details(row.uses, row.sideEffects)
  }

  /** Python truthiness of the `medicine_name` argument: present and non-empty. */
  predicate HasName(name: Option<string>) {
    name.Some? && name.value != ""
  }

  /** `str.contains(name, case=False, na=False)` on the name cell: a missing cell never matches. */
  predicate NameMatches(name: string, row: Row): (b: bool)
    ensures row.name.None? ==> !b
    ensures b ==> |name| <= |row.name.value|
  {
    row.name.Some? && ContainsIgnoringCase(row.name.value, name)
  }

  function NameMatcher(name: string): Row -> bool {
    row => NameMatches(name, row)
  }

  /** The same test on the composition cell. */
  predicate CompositionMatches(salt: string, row: Row): (b: bool)
    ensures row.composition.None? ==> !b
    ensures b ==> |salt| <= |row.composition.value|
  {
    row.composition.Some? && ContainsIgnoringCase(row.composition.value, salt)
  }

  function CompositionMatcher(salt: string): Row -> bool {
    row => CompositionMatches(salt, row)
  }

  /**
   * `salt.split('(')[0].strip()`: the salt with any parenthesised dosage
   * cut off and the surrounding whitespace removed.
   */
  function CleanSalt(salt: string): (r: string)
    ensures '(' !in r
    ensures NoSurroundingSpace(r)
    ensures '(' !in salt && NoSurroundingSpace(salt) ==> r == salt
  {
    var head := BeforeFirst(salt, '(');
    assert '(' !in salt ==> head == salt;
    var r := Strip(head);
    assert forall c :: c in r ==> c in head;
    r
  }

  /** A salt that the second tier accepts: non-empty once cleaned, and found in some row's composition. */
  predicate SaltHits(rows: seq<Row>, salt: string) {
    var c := CleanSalt(salt);
    c != "" && FirstWhere(rows, CompositionMatcher(c)).Some?
  }

  function SaltHitter(rows: seq<Row>): string -> bool {
    salt => SaltHits(rows, salt)
  }

  /** The first tier: the index of the first row whose name contains the medicine name. */
  function NameTier(rows: seq<Row>, name: Option<string>): (r: Option<nat>)
    ensures r.Some? ==> HasName(name) && r.value < |rows| && NameMatches(name.value, rows[r.value])
    ensures r.Some? ==> forall j :: 0 <= j < r.value ==> !NameMatches(name.value, rows[j])
    ensures r.None? && HasName(name) ==> forall j :: 0 <= j < |rows| ==> !NameMatches(name.value, rows[j])
  {
    if HasName(name) then FirstWhere(rows, NameMatcher(name.value)) else None
  }

  /**
   * The lookup, stated declaratively: the first name match; failing that,
   * the first composition match of the first salt that has one; failing
   * that, no match.
   */
  function Lookup(table: Table, name: Option<string>, salts: seq<string>): (r: Option<Details>)
    ensures table.None? || table.value == [] ==> r.None?
  {
    if table.None? || |table.value| == 0 then None
    else
      var rows := table.value;
      match NameTier(rows, name)
      case Some(i) => Some(DetailsOf(rows[i]))
      case None => SaltTier(rows, salts)
  }

  /** The second tier: the first composition match of the first salt that has one. */
  function SaltTier(rows: seq<Row>, salts: seq<string>): (r: Option<Details>)
    ensures r.None? <==> forall k :: 0 <= k < |salts| ==> !SaltHits(rows, salts[k])
  {
    match FirstWhere(salts, SaltHitter(rows))
    case None => None
    case Some(k) =>
      Some(DetailsOf(rows[FirstWhere(rows, CompositionMatcher(CleanSalt(salts[k]))).value]))
  }

  /**
   * `find_medicine_details(medicine_name, active_salts)`: a masked selection
   * of the table and its row 0 for the name, then a loop over the salts that
   * skips those that clean to nothing and returns at the first one that
   * selects a row.
   */
  method FindMedicineDetails(table: Table, name: Option<string>, salts: seq<string>)
    returns (r: Option<Details>)
    ensures r == Lookup(table, name, salts)
  {
    if table.None? || |table.value| == 0 {
      return None;
    }
    var rows := table.value;
    if HasName(name) {
      var nameResult := Filter(rows, NameMatcher(name.value));
      if |nameResult| > 0 {
        return Some(DetailsOf(nameResult[0]));
      }
    }
    assert NameTier(rows, name).None?;
    for i := 0 to |salts|
      invariant FirstWhere(salts[..i], SaltHitter(rows)).None?
    {
      var cleaned := CleanSalt(salts[i]);
      if cleaned == "" {
        FirstWhereMissExtends(salts, i, SaltHitter(rows));
        continue;
      }
      var saltResult := Filter(rows, CompositionMatcher(cleaned));
      if |saltResult| > 0 {
        SaltTierPicks(rows, name, salts, i);
        return Some(DetailsOf(saltResult[0]));
      }
      FirstWhereMissExtends(salts, i, SaltHitter(rows));
    }
    assert salts[..|salts|] == salts;
    return None;
  }

  /** Salt `i` is the first to hit: the lookup yields the first row its composition search selects. */
  lemma SaltTierPicks(rows: seq<Row>, name: Option<string>, salts: seq<string>, i: nat)
    requires |rows| > 0 && NameTier(rows, name).None?
    requires i < |salts| && SaltHitter(rows)(salts[i])
    requires FirstWhere(salts[..i], SaltHitter(rows)).None?
    ensures Lookup(Some(rows), name, salts)
      == Some(DetailsOf(rows[FirstWhere(rows, CompositionMatcher(CleanSalt(salts[i]))).value]))
  {
    FirstWhereAfterMisses(salts, i, SaltHitter(rows));
  }

  // ---------------------------------------------------------------------
  // Properties of the lookup

  /**
   * When the name is non-empty and row `i` is the first whose name contains
   * it, the result is row `i`'s details, whatever the salts are.
   */
  lemma NameMatchWins(rows: seq<Row>, name: string, salts: seq<string>, i: nat)
    requires name != "" && i < |rows| && NameMatches(name, rows[i])
    requires forall j :: 0 <= j < i ==> !NameMatches(name, rows[j])
    ensures Lookup(Some(rows), Some(name), salts) == Some(DetailsOf(rows[i]))
  {
    FirstWhereIs(rows, NameMatcher(name), i);
  }

  /** Salts are consulted only when the name tier finds nothing. */
  lemma SaltsIgnoredOnNameMatch(rows: seq<Row>, name: Option<string>, salts1: seq<string>, salts2: seq<string>)
    requires NameTier(rows, name).Some?
    ensures Lookup(Some(rows), name, salts1) == Lookup(Some(rows), name, salts2)
  {
  }

  /** An absent or empty medicine name goes straight to the salt tier. */
  lemma NoNameMeansSaltTier(rows: seq<Row>, name: Option<string>, salts: seq<string>)
    requires !HasName(name)
    ensures Lookup(Some(rows), name, salts) == Lookup(Some(rows), None, salts)
  {
  }

  /**
   * The second tier: when no name matches, salt `k` is the first salt that
   * cleans to a non-empty text found in a composition, and row `i` is the
   * first row whose composition contains it, the result is row `i`'s details.
   */
  lemma FirstHittingSaltWins(rows: seq<Row>, name: Option<string>, salts: seq<string>, k: nat, i: nat)
    requires NameTier(rows, name).None?
    requires k < |salts| && CleanSalt(salts[k]) != ""
    requires forall j :: 0 <= j < k ==>
      CleanSalt(salts[j]) == "" || forall m :: 0 <= m < |rows| ==> !CompositionMatches(CleanSalt(salts[j]), rows[m])
    requires i < |rows| && CompositionMatches(CleanSalt(salts[k]), rows[i])
    requires forall m :: 0 <= m < i ==> !CompositionMatches(CleanSalt(salts[k]), rows[m])
    ensures Lookup(Some(rows), name, salts) == Some(DetailsOf(rows[i]))
  {
    FirstWhereIs(rows, CompositionMatcher(CleanSalt(salts[k])), i);
    forall j | 0 <= j < k ensures !SaltHitter(rows)(salts[j]) {
      var c := CleanSalt(salts[j]);
      if c != "" {
        assert forall m :: 0 <= m < |rows| ==> !CompositionMatcher(c)(rows[m]);
      }
    }
    FirstWhereIs(salts, SaltHitter(rows), k);
  }

  /** Once a salt has hit, the salts after it are never examined. */
  lemma LaterSaltsIgnored(rows: seq<Row>, name: Option<string>, salts: seq<string>, more: seq<string>)
    requires FirstWhere(salts, SaltHitter(rows)).Some?
    ensures Lookup(Some(rows), name, salts + more) == Lookup(Some(rows), name, salts)
  {
    if |rows| > 0 && NameTier(rows, name).None? {
      FirstWhereIgnoresSuffix(salts, more, SaltHitter(rows));
      var k := FirstWhere(salts, SaltHitter(rows)).value;
      assert (salts + more)[k] == salts[k];
      var i := FirstWhere(rows, CompositionMatcher(CleanSalt(salts[k]))).value;
      assert Lookup(Some(rows), name, salts) == Some(DetailsOf(rows[i]));
    }
  }

  /** A salt that cleans to nothing (empty, blank, or only a parenthesis) is skipped. */
  lemma EmptySaltSkipped(rows: seq<Row>, name: Option<string>, salts: seq<string>, k: nat, salt: string)
    requires k <= |salts| && CleanSalt(salt) == ""
    ensures Lookup(Some(rows), name, salts[..k] + [salt] + salts[k..]) == Lookup(Some(rows), name, salts)
  {
    EmptySaltSkippedBySaltTier(rows, salts, k, salt);
  }

  lemma EmptySaltSkippedBySaltTier(rows: seq<Row>, salts: seq<string>, k: nat, salt: string)
    requires k <= |salts| && CleanSalt(salt) == ""
    ensures SaltTier(rows, salts[..k] + [salt] + salts[k..]) == SaltTier(rows, salts)
  {
    var p := SaltHitter(rows);
    assert !p(salt);
    FirstWhereSkipsInserted(salts, k, salt, p);
    match FirstWhere(salts, p)
    case Some(i) => InsertedAt(salts, k, salt, if i < k then i else i + 1);
    case None =>
  }

  /** The lookup finds nothing exactly when neither tier has a hit. */
  lemma NoMatchIff(rows: seq<Row>, name: Option<string>, salts: seq<string>)
    ensures Lookup(Some(rows), name, salts).None? <==>
      (|rows| == 0 || (NameTier(rows, name).None? && forall k :: 0 <= k < |salts| ==> !SaltHits(rows, salts[k])))
  {
    if |rows| > 0 && NameTier(rows, name).None? && FirstWhere(salts, SaltHitter(rows)).Some? {
      var k := FirstWhere(salts, SaltHitter(rows)).value;
      assert SaltHits(rows, salts[k]);
    }
  }

  /** A match whose uses and side-effects cells are empty is still a match, not "no match". */
  lemma EmptyCellsStillMatch(rows: seq<Row>, name: string, salts: seq<string>)
    requires name != "" && |rows| > 0 && NameMatches(name, rows[0])
    requires rows[0].uses.None? && rows[0].sideEffects.None?
    ensures Lookup(Some(rows), Some(name), salts) == Some(Details(None, None))
  {
    NameMatchWins(rows, name, salts, 0);
  }

  /**
   * A row whose name and composition cells are both missing never matches:
   * inserting it anywhere in the table leaves every lookup's result unchanged.
   */
  lemma BlankRowSkipped(rows: seq<Row>, k: nat, blank: Row, name: Option<string>, salts: seq<string>)
    requires k <= |rows| && blank.name.None? && blank.composition.None?
    ensures Lookup(Some(rows[..k] + [blank] + rows[k..]), name, salts) == Lookup(Some(rows), name, salts)
  {
    BlankRowNameTier(rows, k, blank, name);
    BlankRowSaltTier(rows, k, blank, salts);
    if |rows| == 0 {
      assert NameTier(rows, name).None?;
    }
  }

  lemma BlankRowNameTier(rows: seq<Row>, k: nat, blank: Row, name: Option<string>)
    requires k <= |rows| && blank.name.None?
    ensures NameTier(rows[..k] + [blank] + rows[k..], name).None? == NameTier(rows, name).None?
    ensures NameTier(rows, name).Some? ==>
      (rows[..k] + [blank] + rows[k..])[NameTier(rows[..k] + [blank] + rows[k..], name).value] == rows[NameTier(rows, name).value]
  {
    if HasName(name) {
      FirstWhereSkipsInserted(rows, k, blank, NameMatcher(name.value));
      match FirstWhere(rows, NameMatcher(name.value))
      case Some(i) => InsertedAt(rows, k, blank, if i < k then i else i + 1);
      case None =>
    }
  }

  lemma BlankRowSaltTier(rows: seq<Row>, k: nat, blank: Row, salts: seq<string>)
    requires k <= |rows| && blank.composition.None?
    ensures SaltTier(rows[..k] + [blank] + rows[k..], salts) == SaltTier(rows, salts)
  {
    var rows' := rows[..k] + [blank] + rows[k..];
    forall j | 0 <= j < |salts| ensures SaltHitter(rows')(salts[j]) == SaltHitter(rows)(salts[j]) {
      FirstWhereSkipsInserted(rows, k, blank, CompositionMatcher(CleanSalt(salts[j])));
    }
    FirstWhereAgree(salts, SaltHitter(rows'), SaltHitter(rows));
    match FirstWhere(salts, SaltHitter(rows))
    case Some(s) =>
      var c := CompositionMatcher(CleanSalt(salts[s]));
      FirstWhereSkipsInserted(rows, k, blank, c);
      var i := FirstWhere(rows, c).value;
      InsertedAt(rows, k, blank, if i < k then i else i + 1);
    case None =>
  }

  /** A dosage in parentheses after a space is cut off, along with the space. */
  lemma CleanSaltDropsDosage(name: string, dosage: string)
    requires '(' !in name && NoSurroundingSpace(name)
    ensures CleanSalt(name + " (" + dosage) == name
  {
    var s := name + " (" + dosage;
    assert s[..|name| + 1] == name + " ";
    assert s[|name| + 1] == '(';
    BeforeFirstUnique(s, '(', |name| + 1);
    var h := name + " ";
    assert h[..|name|] == name && h[|name|..] == " ";
    StripUnique(h, 0, |name|);
  }

  /** A salt that is only whitespace and a dosage cleans to nothing. */
  lemma CleanSaltOnlyDosage(pad: string, dosage: string)
    requires AllSpace(pad) && '(' !in pad
    ensures CleanSalt(pad + "(" + dosage) == ""
  {
    var s := pad + "(" + dosage;
    assert s[..|pad|] == pad;
    assert s[|pad|] == '(';
    BeforeFirstUnique(s, '(', |pad|);
    assert pad[..|pad|] == pad && pad[|pad|..] == [];
    StripUnique(pad, |pad|, |pad|);
  }
}
