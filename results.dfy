/**
 * Outcomes shared by the four header parsers.
 *
 * Every failure in lib/index.js is a single "bad request" error that differs only in its
 * message. Here each failure has a kind of its own; `Message` gives the text lib/index.js
 * attaches to it, so two kinds that the library cannot tell apart share one message.
 */
module Results {

  datatype Option<+T> = None | Some(value: T)

  datatype Result<+T> = Success(value: T) | Failure(error: ParseError)

  /** The header a parser reads; used to tell the "missing header" failures apart. */
  datatype HeaderName = ContentTypeHeader | ContentLengthHeader | AcceptHeader | ContentDispositionHeader

  datatype ParseError =
    | MissingHeader(header: HeaderName)  // the header is absent or the empty string
    | MalformedMediaType                  // Content-Type is not `type/subtype[tail]`
    | MissingBoundary                     // multipart Content-Type with parameters but no boundary
    | MalformedLength                     // not `Content-Length: <digits>`
    | MalformedAcceptEntry                // some comma-separated Accept segment is malformed
    | MalformedDisposition                // Content-Disposition is not `form-data[; params]`
    | MissingParameters                   // `form-data` without a parameter list
    | UnsafeParameterName                 // a `__proto__` key, or a `name` whose value is `__proto__`
    | MalformedExtendedValue              // a `key*` without `charset'lang'value`, or bad %-encoding
    | MissingName                         // no non-empty `name` parameter

  /** The two words every message starts with. */
  const Missing := "Missing"
  const Invalid := "Invalid"

  /** The first word of the message for `e`: only an absent header other than Content-Type is "Missing". */
  function Opening(e: ParseError): string
  {
    if e.MissingHeader? && e.header != ContentTypeHeader then Missing else Invalid
  }

  /** What the message for `e` says after its first word. */
  function Detail(e: ParseError): string
  {
    match e
    case MissingHeader(ContentTypeHeader) => " content-type header"
    case MissingHeader(ContentLengthHeader) => " Content-Length header"
    case MissingHeader(AcceptHeader) => " Accept header"
    case MissingHeader(ContentDispositionHeader) => " content-disposition header"
    case MalformedMediaType => " content-type header"
    case MissingBoundary => " content-type header: multipart missing boundary"
    case MalformedLength => " Content-Length header format"
    case MalformedAcceptEntry => " Accept header format"
    case MalformedDisposition => " content-disposition header format"
    case MissingParameters => " content-disposition header missing parameters"
    case UnsafeParameterName => " content-disposition header format includes invalid parameters"
    case MalformedExtendedValue => " content-disposition header format includes invalid parameters"
    case MissingName => " content-disposition header missing name parameter"
  }

  /**
   * The message text of the bad-request error lib/index.js raises for `e`. Every message starts
   * with "Missing" or "Invalid", and with "Missing" exactly for an absent header other than
   * Content-Type.
   */
  function Message(e: ParseError): (m: string)
    ensures |m| >= |Missing| && (m[..|Missing|] == Missing || m[..|Invalid|] == Invalid)
    ensures m[..|Missing|] == Missing <==> e.MissingHeader? && e.header != ContentTypeHeader
  {
    var m := Opening(e) + Detail(e);
    assert m[..|Opening(e)|] == Opening(e);
    assert Missing[0] != Invalid[0];
    m
  }

  /**
   * An empty Content-Type and a malformed one carry the same message; a missing boundary has a
   * message of its own.
   */
  lemma ContentTypeMessages()
    ensures Message(MissingHeader(ContentTypeHeader)) == Message(MalformedMediaType)
    ensures Message(MissingBoundary) != Message(MalformedMediaType)
  {
  }

  /** An unsafe parameter name and a malformed extended value carry the same message. */
  lemma DispositionMessages()
    ensures Message(UnsafeParameterName) == Message(MalformedExtendedValue)
    ensures Message(MissingParameters) != Message(MalformedDisposition)
  {
  }
}
