/** The text classification endpoint (api/classify-text.js): a POST with a
    non-empty `text` is sent to the language model, and whatever the model
    answers is coerced into one of the three labels `title`, `price` and
    `description`. The model call itself is a parameter: its reply is either
    a non-OK HTTP status, a body that does not parse, or the first choice's
    message content, which may be absent. */
module ClassifyText {
  import opened Wrappers
  import opened Text

  const ValidTypes: seq<string> := ["title", "price", "description"]

  /** What the upstream language model returned. */
  datatype GptReply = GptNotOk(status: int) | GptUnparsable | GptAnswer(content: Option<string>)

  /** The endpoint's responses: 405, 400, 500 for missing configuration, the
      upstream status passed through, 500 for an exception, and 200 with the
      label. */
  datatype ClassifyResponse =
    | MethodNotAllowed
    | TextRequired
    | ConfigurationMissing
    | GptFailed(status: int)
    | InternalError
    | Classified(text: string, kind: string)

  function StatusCode(r: ClassifyResponse): int {
    match r
    case MethodNotAllowed => 405
    case TextRequired => 400
    case ConfigurationMissing => 500
    case GptFailed(status) => status
    case InternalError => 500
    case Classified(_, _) => 200
  }

  predicate HasUpper(s: string) {
    exists i :: 0 <= i < |s| && 'A' <= s[i] <= 'Z'
  }

  /** `choices?.[0]?.message?.content?.trim().toLowerCase()`: an absent
      answer stays absent; a present one loses its surrounding whitespace and
      its capital letters. */
  function NormalizeAnswer(content: Option<string>): (r: Option<string>)
    ensures r.None? <==> content.None?
    ensures r.Some? ==> |r.value| <= |content.value| && !HasUpper(r.value)
    ensures r.Some? ==> r.value == [] || (!IsJsWhitespace(r.value[0]) && !IsJsWhitespace(r.value[|r.value| - 1]))
    ensures r.Some? ==> r.value == ToLower(Trim(content.value))
  {
    match content
    case None => None
    case Some(s) =>
      var t := Trim(s);
      var lowered := ToLower(t);
      assert lowered == [] || (lowered[0] == LowerChar(t[0]) && lowered[|t| - 1] == LowerChar(t[|t| - 1]));
      Some(lowered)
  }

  /** `validTypes.includes(c) ? c : 'description'`: the label is always one of
      the three; a valid one is kept, anything else (including no answer)
      becomes `description`. */
  function ValidateLabel(c: Option<string>): (t: string)
    ensures t in ValidTypes
    ensures c.Some? && c.value in ValidTypes ==> t == c.value
    ensures !(c.Some? && c.value in ValidTypes) ==> t == "description"
  {
    if c.Some? && c.value in ValidTypes then c.value else "description"
  }

  /** The handler. The checks come in the source's order: the HTTP method, then
      the presence of `text` (absent or empty is rejected), then the
      configuration, and only then the model. */
  function HandleClassify(httpMethod: string, text: Option<string>, configured: bool, reply: GptReply): (r: ClassifyResponse)
    ensures httpMethod != "POST" ==> r == MethodNotAllowed
    ensures httpMethod == "POST" && (text.None? || text.value == "") ==> r == TextRequired
    ensures r.Classified? ==> r.kind in ValidTypes && text == Some(r.text)
    ensures r.Classified? <==> httpMethod == "POST" && text.Some? && text.value != "" && configured && reply.GptAnswer?
    ensures StatusCode(r) == 200 <==> r.Classified? || (r.GptFailed? && r.status == 200)
  {
    if httpMethod != "POST" then MethodNotAllowed
    else if text.None? || text.value == "" then TextRequired
    else if !configured then ConfigurationMissing
    else match reply
      case GptNotOk(status) => GptFailed(status)
      case GptUnparsable => InternalError
      case GptAnswer(content) => Classified(text.value, ValidateLabel(NormalizeAnswer(content)))
  }

  /** Normalisation makes the label check forgiving of case and surrounding
      whitespace: an answer that is a valid label up to ASCII case and
      whitespace at either end comes out as that label. */
  lemma NormalizedLabelKept(s: string, expected: string)
    requires expected in ValidTypes
    requires ToLower(Trim(s)) == expected
    ensures ValidateLabel(NormalizeAnswer(Some(s))) == expected
  {
  }

  /** Conversely, an answer that is not a label up to case and outer
      whitespace is classified as a description. */
  lemma OtherAnswerIsDescription(s: string)
    requires ToLower(Trim(s)) !in ValidTypes
    ensures ValidateLabel(NormalizeAnswer(Some(s))) == "description"
  {
  }

  /** An answer of whitespace only (or nothing at all) is classified as a
      description. */
  lemma BlankAnswerIsDescription(s: string)
    requires AllWhitespace(s)
    ensures ValidateLabel(NormalizeAnswer(Some(s))) == "description"
  {
    TrimEmptyIff(s);
    assert NormalizeAnswer(Some(s)) == Some([]);
  }
}
