/**
 * The endpoint `extract_medicine_data` (main.py): it stops with a status-500
 * error when the extracted record carries `error`; otherwise it looks the
 * medicine up and writes `uses` and `side_effects` into the record in place,
 * either copied from the matched row or both set to a fixed sentinel.
 */
module Handler {
  import opened Wrappers
  import opened Text
  import opened Lookup
  import opened Records
  import opened Extractor

  /** `extracted_data.get("medicine_name")` as the lookup receives it; a value that is not a string counts as absent. */
  function MedicineNameOf(rec: Record): (name: Option<string>)
    ensures name.Some? <==> MedicineNameKey in rec && rec[MedicineNameKey].Str?
    ensures name.Some? ==> rec[MedicineNameKey] == Str(name.value)
  {
    if MedicineNameKey in rec && rec[MedicineNameKey].Str? then Some(rec[MedicineNameKey].s) else None
  }

  /**
   * `extracted_data.get("active_salts", [])` as the loop walks it: a list
   * gives its items, a string its characters, and a missing key or a null
   * nothing.
   */
  function ActiveSaltsOf(rec: Record): (salts: seq<string>)
    ensures ActiveSaltsKey !in rec ==> salts == []
    ensures ActiveSaltsKey in rec && rec[ActiveSaltsKey].Null? ==> salts == []
    ensures ActiveSaltsKey in rec && rec[ActiveSaltsKey].StrList? ==> salts == rec[ActiveSaltsKey].items
  {
    if ActiveSaltsKey !in rec then []
    else match rec[ActiveSaltsKey]
      case StrList(items) => items
      case Str(s) => seq(|s|, i requires 0 <= i < |s| => [s[i]])
      case _ => []
  }

  /** A cell as it lands in the response: its text, or null for an empty cell. */
  function CellValue(cell: Option<string>): Value {
    if cell.Some? then Str(cell.value) else Null
  }

  /**
   * The merge step: on a match, `update` with the row's two fields;
   * otherwise both fields set to the sentinel. Nothing else is touched.
   */
  function Merge(rec: Record, found: Option<Details>): (merged: Record)
    ensures merged.Keys == rec.Keys + {UsesKey, SideEffectsKey}
    ensures forall k :: k in rec && k != UsesKey && k != SideEffectsKey ==> merged[k] == rec[k]
    ensures found.Some? ==>
      merged[UsesKey] == CellValue(found.value.uses) && merged[SideEffectsKey] == CellValue(found.value.sideEffects)
    ensures found.None? ==>
      merged[UsesKey] == Str(NotFoundMessage) && merged[SideEffectsKey] == Str(NotFoundMessage)
  {
    match found
    case Some(d) => rec[UsesKey := CellValue(d.uses)][SideEffectsKey := CellValue(d.sideEffects)]
    case None => rec[UsesKey := Str(NotFoundMessage)][SideEffectsKey := Str(NotFoundMessage)]
  }

  /** What the endpoint answers for an extracted record, given the table. */
  function Handle(table: Table, rec: Record): (resp: Response)
    ensures resp.ServerError? <==> ErrorKey in rec
    ensures resp.ServerError? ==> resp.detail == rec[ErrorKey]
    ensures resp.Success? ==> resp.message == SuccessMessage
  {
    if ErrorKey in rec then ServerError(rec[ErrorKey])
    else Success(SuccessMessage, Merge(rec, Lookup.Lookup(table, MedicineNameOf(rec), ActiveSaltsOf(rec))))
  }

  /** The whole request: extraction from the model's reply, then the handler. */
  function Serve(table: Table, reply: Option<string>, parse: string -> Option<Record>): (resp: Response)
    ensures resp.ServerError? <==>
      reply.None? || parse(Cleanup(reply.value)).None? || ErrorKey in parse(Cleanup(reply.value)).value
  {
    Handle(table, ExtractDataFromImage(reply, parse))
  }

  /** The dictionary returned by the extractor, which the handler updates in place. */
  class ExtractedData {
    var fields: Record

    constructor (initial: Record)
      ensures fields == initial
    {
      fields := initial;
    }

    /** `d.update({"uses": ..., "side_effects": ...})` with a match's two cells. */
    method Update(details: Details)
      modifies this
      ensures fields == old(fields)[UsesKey := CellValue(details.uses)][SideEffectsKey := CellValue(details.sideEffects)]
    {
      fields := fields[UsesKey := CellValue(details.uses)][SideEffectsKey := CellValue(details.sideEffects)];
    }

    /** `d[key] = value`. */
    method Put(key: string, value: Value)
      modifies this
      ensures fields == old(fields)[key := value]
    {
      fields := fields[key := value];
    }
  }

  /**
   * `extract_medicine_data` after extraction: the error short-circuit, the
   * lookup, and the in-place merge into `data`.
   */
  method ExtractMedicineData(table: Table, data: ExtractedData) returns (resp: Response)
    modifies data
    ensures resp == Handle(table, old(data.fields))
    ensures ErrorKey in old(data.fields) ==> data.fields == old(data.fields)
    ensures ErrorKey !in old(data.fields) ==> resp == Success(SuccessMessage, data.fields)
  {
    if ErrorKey in data.fields {
      return ServerError(data.fields[ErrorKey]);
    }
    var medicineName := MedicineNameOf(data.fields);
    var activeSalts := ActiveSaltsOf(data.fields);
    var additionalDetails := FindMedicineDetails(table, medicineName, activeSalts);
    if additionalDetails.Some? {
      data.Update(additionalDetails.value);
    } else {
      data.Put(UsesKey, Str(NotFoundMessage));
      data.Put(SideEffectsKey, Str(NotFoundMessage));
    }
    return Success(SuccessMessage, data.fields);
  }

  // ---------------------------------------------------------------------
  // Properties of the handler

  /** A record carrying `error` yields that error, and the table is never consulted. */
  lemma ErrorShortCircuits(table1: Table, table2: Table, rec: Record)
    requires ErrorKey in rec
    ensures Handle(table1, rec) == ServerError(rec[ErrorKey])
    ensures Handle(table1, rec) == Handle(table2, rec)
  {
  }

  /**
   * On success both enrichment fields are present: either both the
   * sentinel, when the lookup found nothing, or both copied from the row it found.
   */
  lemma EnrichmentAlwaysPresent(table: Table, rec: Record)
    requires ErrorKey !in rec
    ensures Handle(table, rec).Success?
    ensures UsesKey in Handle(table, rec).data && SideEffectsKey in Handle(table, rec).data
    ensures Lookup.Lookup(table, MedicineNameOf(rec), ActiveSaltsOf(rec)).None? ==>
      Handle(table, rec).data[UsesKey] == Str(NotFoundMessage) && Handle(table, rec).data[SideEffectsKey] == Str(NotFoundMessage)
    ensures Lookup.Lookup(table, MedicineNameOf(rec), ActiveSaltsOf(rec)).Some? ==>
      exists row :: row in table.value && Handle(table, rec).data[UsesKey] == CellValue(row.uses)
        && Handle(table, rec).data[SideEffectsKey] == CellValue(row.sideEffects)
  {
    var found := Lookup.Lookup(table, MedicineNameOf(rec), ActiveSaltsOf(rec));
    if found.Some? {
      var rows := table.value;
      var name := MedicineNameOf(rec);
      var salts := ActiveSaltsOf(rec);
      match NameTier(rows, name)
      case Some(i) =>
        assert rows[i] in rows;
      case None =>
        var k := Search.FirstWhere(salts, SaltHitter(rows)).value;
        var i := Search.FirstWhere(rows, CompositionMatcher(CleanSalt(salts[k]))).value;
        assert rows[i] in rows;
    }
  }

  /** No field of the extracted record other than the two enrichment fields changes, and none is dropped. */
  lemma OtherFieldsUnchanged(table: Table, rec: Record)
    requires ErrorKey !in rec
    ensures Handle(table, rec).data.Keys == rec.Keys + {UsesKey, SideEffectsKey}
    ensures forall k :: k in rec && k != UsesKey && k != SideEffectsKey ==> Handle(table, rec).data[k] == rec[k]
  {
  }

  /** A failed model call or an unparsable reply becomes a status-500 error with a fixed message, whatever the table. */
  lemma ExtractionFailureIsServerError(table: Table, reply: Option<string>, parse: string -> Option<Record>)
    requires reply.None? || parse(Cleanup(reply.value)).None?
    ensures Serve(table, reply, parse) ==
      ServerError(Str(if reply.None? then InternalErrorMessage else ParseErrorMessage))
  {
  }

  // ---------------------------------------------------------------------
  // End-to-end scenarios

  /** A name contained in a row's name wins through substring containment. */
  lemma ParacetamolFoundByName()
    ensures
      var table := Some([Row(Some("Paracetamol 500"), Some("Paracetamol"), Some("Pain relief"), Some("Nausea"))]);
      var rec := map[MedicineNameKey := Str("Paracetamol"), ActiveSaltsKey := StrList([])];
      Handle(table, rec) == Success(SuccessMessage, rec[UsesKey := Str("Pain relief")][SideEffectsKey := Str("Nausea")])
  {
    var row := Row(Some("Paracetamol 500"), Some("Paracetamol"), Some("Pain relief"), Some("Nausea"));
    var rec := map[MedicineNameKey := Str("Paracetamol"), ActiveSaltsKey := StrList([])];
    PrefixContained("Paracetamol", "Paracetamol 500");
    assert MedicineNameOf(rec) == Some("Paracetamol");
    NameMatchWins([row], "Paracetamol", ActiveSaltsOf(rec), 0);
  }

  /** With no medicine name, the first salt, stripped of its dosage, finds the row by composition. */
  lemma IbuprofenFoundBySalt()
    ensures
      var table := Some([Row(Some("Brufen"), Some("Ibuprofen 200mg"), Some("Anti-inflammatory"), Some("Heartburn"))]);
      var rec := map[MedicineNameKey := Null, ActiveSaltsKey := StrList(["Ibuprofen (200mg)"])];
      Handle(table, rec) == Success(SuccessMessage, rec[UsesKey := Str("Anti-inflammatory")][SideEffectsKey := Str("Heartburn")])
  {
    var row := Row(Some("Brufen"), Some("Ibuprofen 200mg"), Some("Anti-inflammatory"), Some("Heartburn"));
    var rec := map[MedicineNameKey := Null, ActiveSaltsKey := StrList(["Ibuprofen (200mg)"])];
    IbuprofenSaltCleaned();
    PrefixContained("Ibuprofen", "Ibuprofen 200mg");
    assert MedicineNameOf(rec) == None;
    assert ActiveSaltsOf(rec) == ["Ibuprofen (200mg)"];
    FirstHittingSaltWins([row], None, ["Ibuprofen (200mg)"], 0, 0);
    ExtractedRecordHasNoError(Null, StrList(["Ibuprofen (200mg)"]));
    assert Handle(Some([row]), rec) == Success(SuccessMessage, Merge(rec, Some(DetailsOf(row))));
  }

  /** A record holding only the two extracted keys has no `error` key. */
  lemma ExtractedRecordHasNoError(name: Value, salts: Value)
    ensures ErrorKey !in map[MedicineNameKey := name, ActiveSaltsKey := salts]
  {
    assert ErrorKey[0] != MedicineNameKey[0] && ErrorKey[0] != ActiveSaltsKey[0];
  }

  lemma IbuprofenSaltCleaned()
    ensures CleanSalt("Ibuprofen (200mg)") == "Ibuprofen"
  {
    IbuprofenSaltSplits();
    IbuprofenIsBare();
    CleanSaltDropsDosage("Ibuprofen", "200mg)");
  }

  lemma IbuprofenSaltSplits()
    ensures "Ibuprofen" + " (" + "200mg)" == "Ibuprofen (200mg)"
  {
  }

  lemma IbuprofenIsBare()
    ensures '(' !in "Ibuprofen" && NoSurroundingSpace("Ibuprofen")
  {
  }

  /** Without the table file every successful request carries the sentinel in both fields. */
  lemma NoTableGivesSentinel(rec: Record)
    requires ErrorKey !in rec
    ensures Handle(None, rec).data[UsesKey] == Str(NotFoundMessage)
    ensures Handle(None, rec).data[SideEffectsKey] == Str(NotFoundMessage)
  {
  }
}
