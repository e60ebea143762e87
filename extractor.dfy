/**
 * `extract_data_from_image` (main.py): the model's reply is trimmed, its
 * code-fence markers are deleted, and the rest is parsed as JSON. The model
 * call itself is an input (`None` when it or the image decoding failed), and
 * the JSON parser is a parameter that either yields an object or fails.
 */
module Extractor {
  import opened Wrappers
  import opened Text
  import opened Records

  /** The fence marker with the language tag the model tends to add. */
  const JsonFence: string := "```json"

  /** `text.strip().replace("```json", "").replace("```", "")`. */
  function Cleanup(text: string): (r: string)
    ensures |r| <= |text|
  {
    RemoveAll(RemoveAll(Strip(text), JsonFence), Fence)
  }

  /**
   * The extractor: the parsed object when the reply arrives and its cleaned
   * text parses; otherwise a record holding only an `error` message.
   */
  function ExtractDataFromImage(reply: Option<string>, parse: string -> Option<Record>): (rec: Record)
    ensures reply.None? || parse(Cleanup(reply.value)).None? ==> rec.Keys == {ErrorKey}
    ensures reply.Some? && parse(Cleanup(reply.value)).Some? ==> rec == parse(Cleanup(reply.value)).value
  {
    match reply
    case None => map[ErrorKey := Str(InternalErrorMessage)]
    case Some(text) =>
      match parse(Cleanup(text))
      case Some(rec) => rec
      case None => map[ErrorKey := Str(ParseErrorMessage)]
  }

  // ---------------------------------------------------------------------
  // Properties of the cleanup

  /** No fence marker of either kind is left in the cleaned text. */
  lemma CleanupLeavesNoFence(text: string)
    ensures !Occurs(Fence, Cleanup(text))
    ensures !Occurs(JsonFence, Cleanup(text))
  {
    RemoveFenceLeavesNone(RemoveAll(Strip(text), JsonFence));
    NoFenceNoJsonFence(Cleanup(text));
  }

  /** The tagged marker begins with the plain one, so a text free of the plain one is free of both. */
  lemma NoFenceNoJsonFence(r: string)
    requires !Occurs(Fence, r)
    ensures !Occurs(JsonFence, r)
  {
    assert JsonFence == Fence + "json";
    if Occurs(JsonFence, r) {
      OccursPrefix(Fence, "json", r);
    }
  }

  /** Text without backticks and without surrounding whitespace comes back unchanged. */
  lemma CleanupKeepsPlainText(text: string)
    requires '`' !in text && NoSurroundingSpace(text)
    ensures Cleanup(text) == text
  {
    assert text + "" == text;
    RemoveAllKeepsPrefix(text, "", JsonFence);
    RemoveAllKeepsPrefix(text, "", Fence);
  }

  /** A reply wrapped as ```json ... ``` yields exactly what is between the fences. */
  lemma CleanupUnwrapsFencedReply(body: string)
    requires '`' !in body
    ensures Cleanup(JsonFence + body + Fence) == body
  {
    var text := JsonFence + body + Fence;
    assert text[0] == '`' && text[|text| - 1] == '`';
    assert Strip(text) == text;
    assert text == JsonFence + (body + Fence);
    RemoveAllDropsLeading(body + Fence, JsonFence);
    RemoveAllKeepsPrefix(body, Fence, JsonFence);
    assert RemoveAll(Fence, JsonFence) == Fence;
    RemoveAllKeepsPrefix(body, Fence, Fence);
    assert Fence + "" == Fence && body + "" == body;
    RemoveAllDropsLeading("", Fence);
  }

  /** A fenced reply keeps the newlines just inside its fences. */
  lemma CleanupExample()
    ensures Cleanup("```json\n{}\n```") == "\n{}\n"
  {
    ExampleReplyIsFenced();
    CleanupUnwrapsFencedReply("\n{}\n");
  }

  lemma ExampleReplyIsFenced()
    ensures JsonFence + "\n{}\n" + Fence == "```json\n{}\n```"
  {
  }

  // ---------------------------------------------------------------------
  // Properties of the extractor

  /** A failed model call gives the error-only record with the generic message. */
  lemma CallFailureIsErrorOnly(parse: string -> Option<Record>)
    ensures ExtractDataFromImage(None, parse).Keys == {ErrorKey}
    ensures ExtractDataFromImage(None, parse)[ErrorKey] == Str(InternalErrorMessage)
  {
  }

  /** A reply that is not JSON once cleaned gives the error-only record with the parse message. */
  lemma ParseFailureIsErrorOnly(text: string, parse: string -> Option<Record>)
    requires parse(Cleanup(text)).None?
    ensures ExtractDataFromImage(Some(text), parse).Keys == {ErrorKey}
    ensures ExtractDataFromImage(Some(text), parse)[ErrorKey] == Str(ParseErrorMessage)
  {
  }

  /** A fenced reply is extracted exactly as the bare JSON text would be. */
  lemma FencedReplyLikeBare(body: string, parse: string -> Option<Record>)
    requires '`' !in body && NoSurroundingSpace(body)
    ensures ExtractDataFromImage(Some(JsonFence + body + Fence), parse) == ExtractDataFromImage(Some(body), parse)
  {
    CleanupUnwrapsFencedReply(body);
    CleanupKeepsPlainText(body);
  }
}
