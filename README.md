# Medicine label lookup: a verified model

The service takes a photo of a medicine label. It asks a vision model to
return the label's fields as JSON and cleans the reply of code-fence
markers before parsing it. It then looks the medicine up in a local table
loaded from a CSV file, and enriches the extracted record with the
medicine's uses and side effects. This project models that core in
Dafny and proves properties of it.

- **The lookup** (`find_medicine_details`) has two tiers.
  - The first is a case-insensitive substring search of the medicine name
    in the table's "Medicine Name" column.
  - Only when that selects nothing does the second tier run. It walks the
    active salts in order, cuts each one at its first `(` and trims it,
    skips a salt that ends up empty, and searches the "Composition"
    column for the rest.
  - The first row selected wins. A missing table, an empty table, or no
    hit in either tier gives "no match".
- **The reply cleanup** trims surrounding whitespace, then deletes every
  "```json" and then every "```".
- **The endpoint** (`extract_medicine_data`) works as follows.
  - An extracted record that carries an `error` key is answered with a
    status-500 error whose detail is that value.
  - Otherwise the record gets `uses` and `side_effects` written into it
    in place: they come from the matched row, or both are set to the
    text "No information found in our database.".
  - The record is then returned inside the success envelope.

Modules:

| file | module | contents |
|---|---|---|
| wrappers.dfy | `Wrappers` | `Option` |
| text.dfy | `Text` | Python's `strip`, `split(c)[0]` and `replace(p, "")`, and ASCII case-insensitive containment |
| search.dfy | `Search` | "first element satisfying a predicate" (`FirstWhere`) and the boolean-mask selection (`Filter`) |
| lookup.dfy | `Lookup` | table rows, the salt cleanup, the declarative lookup `Lookup`, and the imperative `FindMedicineDetails` proved equal to it |
| records.dfy | `Records` | JSON values and records, the response, and the service's fixed keys and messages |
| extractor.dfy | `Extractor` | the reply cleanup and the extractor's error records |
| handler.dfy | `Handler` | the endpoint: the error short-circuit, the argument reading, the in-place merge (class `ExtractedData`), and end-to-end scenarios |

The lookup is imperative in the source (a loop that returns from inside
it), and so is `Lookup.FindMedicineDetails`. Its contract ties it to the
function `Lookup.Lookup`, and the properties of the lookup are proved about
that function. The merge updates the extracted dictionary in place. It is
modelled by the class `Handler.ExtractedData`, whose methods state its new
contents, and by `Handler.ExtractMedicineData`, whose contract ties the
response and the new contents to the function `Handler.Handle`.

## Model

| member | source | states |
|---|---|---|
| Text.Strip | main.py:118 | the result has no whitespace (Python's `isspace` set) at either end and is no longer than the input |
| Text.StripSlices | main.py:118 | the result is a contiguous slice of the input, with only whitespace cut from either end |
| Text.StripKeeps | main.py:66 | a text without surrounding whitespace is its own `strip()` |
| Text.StripUnique | main.py:66 | any way of cutting whitespace-only ends that leaves no whitespace at either end gives exactly `strip`'s result |
| Text.BeforeFirst | main.py:66 | `split(c)[0]`: a prefix of the input without `c`, followed in the input by `c` when shorter |
| Text.BeforeFirstUnique | main.py:66 | a prefix free of `c` that ends at a `c` or at the end of the input is exactly `split(c)[0]` |
| Text.RemoveAll | main.py:118 | Python's `replace(pat, "")`, deleting non-overlapping occurrences from the left; the result is never longer than the input |
| Text.RemoveAllFirst | main.py:118 | the text before the first occurrence is kept, that occurrence is deleted, and deletion continues after it; with `RemoveAllUnchanged` this fixes the result on every input |
| Text.PrefixContained | main.py:54 | a needle that is a prefix of the cell is contained in it, ignoring case |
| Text.ContainsIgnoringCase | main.py:54 | `contains(needle, case=False)` on one cell, read as a literal substring test on the ASCII-lower-cased texts: an empty needle is always contained, and a contained needle is no longer than the cell |
| Text.RemoveAllUnchanged | main.py:118 | deleting a pattern that does not occur leaves the text unchanged |
| Text.RemoveAllKeepsPrefix | main.py:118 | a leading part free of the pattern's first character is kept as it is |
| Text.RemoveAllDropsLeading | main.py:118 | an occurrence at the very start is deleted |
| Text.RemoveFenceLeavesNone | main.py:118 | after deleting every "```", none is left, even where backticks ran together |
| Search.FirstWhere | main.py:54-56 | the index found is in range and satisfies the predicate, with none before it; "none" means no element satisfies it |
| Search.Filter | main.py:54-56 | every element the mask selects satisfies the predicate, and it selects no more rows than the table has; it is empty exactly when `FirstWhere` finds nothing, and its row 0 is `FirstWhere`'s element |
| Search.FilterSelects | main.py:54-56 | every element satisfying the predicate is selected, and the selection holds only elements of the table, none more often than there |
| Search.FirstWhereIs | main.py:56 | an index that satisfies the predicate with none before it is the one found |
| Search.FirstWhereAgree | main.py:54 | predicates that agree on every element find the same index |
| Search.FirstWhereSkipsInserted | main.py:54 | inserting an element that fails the predicate changes neither whether something is found nor which element |
| Search.FirstWhereExtend | main.py:64-76 | searching one element further keeps an earlier hit; otherwise the new element is the hit exactly when it satisfies the predicate |
| Search.FirstWhereIgnoresSuffix | main.py:64-76 | what follows the first hit does not change the hit |
| Lookup.CleanSalt | main.py:66 | the cleaned salt holds no `(` and has no surrounding whitespace; a salt already like that is kept as it is |
| Lookup.NameMatches | main.py:54 | the name test on one row: a row with a missing name cell never matches (`na=False`), and a match means the name is no longer than the cell |
| Lookup.CompositionMatches | main.py:70 | the same test on the composition cell: a missing cell never matches, and a match means the salt is no longer than the cell |
| Lookup.NameTier | main.py:53-60 | the first tier: it finds something only for a present, non-empty name; the row it finds matches the name and no earlier row does; when it finds nothing for a non-empty name, no row matches |
| Lookup.SaltTier | main.py:62-76 | the second tier finds nothing exactly when no salt is non-empty once cleaned and found in some composition |
| Lookup.CleanSaltDropsDosage | main.py:65-66 | "name (dosage" cleans to "name" |
| Lookup.CleanSaltOnlyDosage | main.py:65-68 | any salt made of whitespace, then `(` and a dosage, cleans to the empty text, which the loop skips |
| Lookup.Lookup | main.py:45-77 | the lookup as a function: a missing or empty table gives no match; otherwise the name tier's row, and when it finds none the salt tier's result (characterised by the lemmas below) |
| Lookup.FindMedicineDetails | main.py:45-77 | the loop over the salts returns exactly what the two-tier declarative lookup gives, for every table, name and salt list |
| Lookup.SaltTierPicks | main.py:70-76 | when salt `i` is the first to hit, the result is row 0 of its composition selection |
| Lookup.NameMatchWins | main.py:53-60 | a non-empty name whose first containing row is `i` yields row `i`'s uses and side effects, whatever the salts |
| Lookup.SaltsIgnoredOnNameMatch | main.py:53-63 | when the name tier hits, the salts do not affect the result |
| Lookup.NoNameMeansSaltTier | main.py:53 | an absent or empty name is the same as no name: only the salt tier is consulted |
| Lookup.FirstHittingSaltWins | main.py:62-76 | with no name hit, the first salt that cleans to a non-empty text found in some composition decides, and its first matching row is returned |
| Lookup.LaterSaltsIgnored | main.py:64-76 | once a salt hits, appending more salts changes nothing |
| Lookup.EmptySaltSkipped | main.py:66-68 | a salt that cleans to nothing can be inserted anywhere in the list without changing the result |
| Lookup.NoMatchIff | main.py:45-77 | no match exactly when the table is empty, or when the name tier misses and no salt hits (both directions) |
| Lookup.EmptyCellsStillMatch | main.py:56-60 | a matching row with empty uses and side-effects cells is still a match, carrying two empty cells |
| Lookup.BlankRowSkipped | main.py:54-70 | a row with missing name and composition cells never matches: inserting it anywhere leaves every lookup unchanged |
| Extractor.CleanupLeavesNoFence | main.py:118 | the cleaned reply contains neither "```" nor "```json" |
| Extractor.NoFenceNoJsonFence | main.py:118 | a text without "```" has no "```json" either |
| Extractor.Cleanup | main.py:118 | `strip()`, then deletion of every "```json", then of every "```"; the cleaned text is never longer than the reply (the fence-free result is `CleanupLeavesNoFence`) |
| Extractor.ExtractDataFromImage | main.py:98-126 | a failed call or a reply that does not parse once cleaned gives a record whose only key is `error`; otherwise the parsed record itself |
| Extractor.CleanupKeepsPlainText | main.py:118 | a reply without backticks or surrounding whitespace passes through unchanged |
| Extractor.CleanupUnwrapsFencedReply | main.py:118 | a reply wrapped as "```json" … "```" yields exactly what is between the fences |
| Extractor.CleanupExample | main.py:118 | a reply "```json", newline, `{}`, newline, "```" yields `{}` with the two newlines inside the fences kept |
| Extractor.CallFailureIsErrorOnly | main.py:124-126 | a failed model call or image read gives a record holding only `error` with the internal-error message |
| Extractor.ParseFailureIsErrorOnly | main.py:121-123 | a reply that does not parse once cleaned gives a record holding only `error` with the parse-error message |
| Extractor.FencedReplyLikeBare | main.py:118-119 | a fenced reply is extracted exactly as its bare JSON text would be |
| Handler.MedicineNameOf | main.py:176 | the name is present exactly when the record holds a string under `medicine_name`, and it is that string |
| Handler.ActiveSaltsOf | main.py:177 | a missing key or a null gives no salts; a list gives its items |
| Handler.Merge | main.py:183-187 | the merged record has the original keys plus `uses` and `side_effects`; every other key keeps its value; on a match both come from the row, otherwise both are the not-found text |
| Handler.Handle | main.py:172-189 | the answer is a server error exactly when the record carries `error`, with that value as detail; otherwise it is the success envelope |
| Handler.Serve | main.py:170-173 | a request ends in a server error exactly when the call fails, the cleaned reply does not parse, or the parsed record itself carries `error` |
| Handler.ExtractedData.Update | main.py:184 | the record afterwards is the old record with `uses` and `side_effects` set from the match |
| Handler.ExtractedData.Put | main.py:186-187 | the record afterwards is the old record with one key set |
| Handler.ExtractMedicineData | main.py:170-189 | the response equals `Handle` of the record as extracted; on error the record is untouched; otherwise the response carries the record as updated in place |
| Handler.ErrorShortCircuits | main.py:172-173 | a record with `error` gives that error whatever the table holds, so the lookup is never used |
| Handler.EnrichmentAlwaysPresent | main.py:180-187 | on success both enrichment fields are present: both the not-found text when nothing matched, or both taken from one row of the table |
| Handler.OtherFieldsUnchanged | main.py:183-187 | no key of the extracted record is dropped, and none except the two enrichment fields changes |
| Handler.ExtractionFailureIsServerError | main.py:121-126 | a failed model call or an unparsable reply ends as a status-500 error with the extractor's fixed message, whatever the table |
| Handler.ParacetamolFoundByName | main.py:53-60 | a label name contained in a row's name gives that row's uses and side effects |
| Handler.IbuprofenFoundBySalt | main.py:63-76 | with a null name, the salt "Ibuprofen (200mg)" finds the row whose composition is "Ibuprofen 200mg" |
| Handler.NoTableGivesSentinel | main.py:185-187 | without the table file every successful answer carries the not-found text in both fields |

## Left out

- The vision-model call, the image decoding and the prompt text (main.py:98-117) are not modelled. The model's reply is an input, and `None` stands for any exception raised before the reply text exists.
- `json.loads` is a parameter (`parse`) that yields a record or fails. A JSON document that is not an object is outside the model.
- Lookup.Lookup: `str.contains` defaults to a regular-expression search in pandas. The model tests literal substrings, so a name or salt holding regular-expression metacharacters (or an unbalanced parenthesis, which raises) is not modelled.
- Lookup.Lookup: case folding is ASCII only. Unicode case folding is not modelled.
- Lookup.Row: a missing CSV cell is a float NaN in pandas and is modelled as an empty cell (`None`). The response therefore carries `null` where the dictionary in the source would carry NaN.
- Lookup.BlankRowSkipped: when no row of the table has a text cell in the "Medicine Name" (or "Composition") column, pandas reads that column as floats and `.str.contains` at main.py:54 (or main.py:70) raises, so the request ends with status 500. The model treats such a column as matching nothing and answers with the not-found text; for example `[Row(None, None, Some("u"), Some("s"))]` with the name `"x"`. Inserting a blank row into an empty table is such a case, so there the lemma describes the model, not the source.
- A table missing the "Medicine Name" or "Composition" column raises `KeyError` in the source. The model's rows always have both columns.
- Handler.MedicineNameOf: a `medicine_name` that is truthy but not a string (a number, a list) makes the pandas search raise. The model treats it as absent.
- Handler.ActiveSaltsOf: the model walks only a list of strings and the characters of a string, and treats every other `active_salts` value as no salts. The source behaves differently in three cases. (1) A list holding a non-string item processes the strings before it in order and, when none of them hits, raises on that item (`split` on a non-string), which ends the request with status 500; so `["Ibuprofen (200mg)", null]` can still find a row by its first salt, while the model gives the not-found text. (2) `0`, `false` and other falsy values are skipped without error, as in the model, while a non-zero number or `true` raises when iterated. (3) A JSON object is iterated over its keys, which are walked as salts.
- Loading the CSV and stripping its column names (main.py:22-29) are not modelled. The table is an input, and `None` stands for a missing file.
- Reading the API key, the start-up prints, the FastAPI app and its CORS settings (main.py:13-41), the temporary file and its deletion (main.py:164-166, 190-192), and the error prints are not modelled. They are I/O and configuration.
- The commented-out earlier versions of the lookup and the endpoint (main.py:79-95, 129-158) are not modelled. They are dead code.
- The JSON encoding of the response is not modelled. The response is a Dafny value. FastAPI renders its JSON with NaN refused, so a matched row whose Uses or Side_effects cell is empty would make the encoding fail and the request end with status 500. `Handler.EnrichmentAlwaysPresent` and `Lookup.EmptyCellsStillMatch` describe the dictionary the handler returns, not that HTTP body.
