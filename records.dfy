/**
 * The JSON object the model's reply is parsed into, and the response the
 * endpoint produces from it.
 */
module Records {

  /**
   * A JSON value as far as the service looks at it: null, a string, a list
   * of strings (the shape `active_salts` is asked for), or anything else.
   */
  datatype Value = Null | Str(s: string) | StrList(items: seq<string>) | Other

  /** A parsed JSON object: keys to values. */
  type Record = map<string, Value>

  const ErrorKey: string := "error"
  const MedicineNameKey: string := "medicine_name"
  const ActiveSaltsKey: string := "active_salts"
  const UsesKey: string := "uses"
  const SideEffectsKey: string := "side_effects"

  /** The text the extractor reports when the cleaned reply is not JSON. */
  const ParseErrorMessage: string := "Failed to parse model response as JSON."
  /** The text the extractor reports for any other failure (model call, image decoding). */
  const InternalErrorMessage: string := "An internal error occurred during processing."
  /** The sentinel stored in both enrichment fields when the lookup finds nothing. */
  const NotFoundMessage: string := "No information found in our database."
  const SuccessMessage: string := "Data extracted successfully"

  /** The endpoint's outcome: the success envelope, or a status-500 error with the given detail. */
  datatype Response = Success(message: string, data: Record) | ServerError(detail: Value)
}
