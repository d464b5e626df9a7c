/**
 * The Status enum of SimpleWebServer and the fixed table handleError uses to
 * turn a status into the text it writes to the client.
 */
module ErrorTable {
  import opened Decimal
  import opened Text

  /** The request statuses of SimpleWebServer.Status. */
  datatype Status =
    | MalformedHeader
    | MalformedRequest
    | Forbidden
    | MissingContentLength
    | TooLarge
    | NotImplemented
    | BadHttp
    | InternalError

  /** The status code handleError reports; InternalError is the switch's default case. */
  function ErrorCode(st: Status): (code: nat)
    ensures 400 <= code < 600
    ensures code < 500 <==> !(st == NotImplemented || st == BadHttp || st == InternalError)
  {
    match st
    case MalformedRequest => 400
    case MalformedHeader => 400
    case Forbidden => 403
    case MissingContentLength => 411
    case TooLarge => 414
    case NotImplemented => 501
    case BadHttp => 505
    case InternalError => 500
  }

  /** The message of each status; it is never empty and does not end with a
      newline, so the response ends in exactly one blank line. */
  function ErrorMessage(st: Status): (m: string)
    ensures m != "" && m[|m| - 1] != '\n'
  {
    match st
    case MalformedRequest => "Malformed request"
    case MalformedHeader => "Malformed header"
    case Forbidden => "Forbidden"
    case MissingContentLength => "Missing content-length header"
    case TooLarge => "Too large of a request"
    case NotImplemented => "Not implemented"
    case BadHttp => "HTTP-Version needs to be either 1.0 or 1.1."
    case InternalError => "Internal error"
  }

  const StatusPrefix := "Return status "

  /** Everything handleError writes before it closes the writer:
      "Return status <code>: <message>" followed by two newlines. */
  function ErrorResponse(st: Status): (r: string)
    ensures StartsWith(r, StatusPrefix) && |r| >= |StatusPrefix| + 2
    ensures r[|r| - 2..] == "\n\n"
  {
    StatusPrefix + DecimalString(ErrorCode(st)) + ": " + ErrorMessage(st) + "\n\n"
  }

  /** The written text has the fixed layout: the prefix, three digits of the
      code, ": ", the message and a blank line. */
  lemma ErrorResponseLayout(st: Status)
    ensures var r := ErrorResponse(st);
      |r| == 21 + |ErrorMessage(st)| &&
      r[..14] == StatusPrefix &&
      r[14..17] == DecimalString(ErrorCode(st)) &&
      DecimalValue(r[14..17]) == ErrorCode(st) &&
      r[17..19] == ": " &&
      r[19..|r| - 2] == ErrorMessage(st) &&
      r[|r| - 2..] == "\n\n"
  {
    var code := DecimalString(ErrorCode(st));
    ThreeDigits(ErrorCode(st));
    DecimalRoundTrip(ErrorCode(st));
    ConcatSlices(StatusPrefix, code, ": ", ErrorMessage(st), "\n\n");
  }

  /** A client can tell every status apart from the text it receives. */
  lemma ErrorResponseInjective(a: Status, b: Status)
    requires ErrorResponse(a) == ErrorResponse(b)
    ensures a == b
  {
    ErrorResponseLayout(a);
    ErrorResponseLayout(b);
    var r := ErrorResponse(a);
    assert ErrorMessage(a) == r[19..|r| - 2] == ErrorMessage(b);
  }
}
