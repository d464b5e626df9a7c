/**
 * isValidRequest as a function: the header loop, then the size bound, the
 * tokenising of the request line into the server's command/pathname/
 * httpVersion fields, the version check, the containment check and the
 * Content-Length check, in that order. The result says which error (if any)
 * handleError is called with, the fields afterwards and how many lines of the
 * request stream were read.
 */
module Validation {
  import opened Wrappers
  import opened Text
  import opened Headers
  import opened Paths
  import opened ErrorTable

  /** The size bound on the request line, in UTF-8 bytes. */
  const Kilobyte := 1024

  /** The server's instance fields `command`, `pathname` and `httpVersion`;
      None stands for null. */
  datatype Fields = Fields(command: Option<string>, pathname: Option<string>, httpVersion: Option<string>)

  /** The fields of a newly constructed server. */
  const NoFields := Fields(None, None, None)

  /** The tokens are assigned in order, so a later field is set only if the
      earlier ones are. */
  predicate FieldsOk(f: Fields) {
    (f.httpVersion.Some? ==> f.pathname.Some?) && (f.pathname.Some? ==> f.command.Some?)
  }

  /** The three guarded token reads of isValidRequest: the fields take the
      tokens in order, and a field with no token left for it keeps its
      earlier value. */
  function AssignTokens(f: Fields, tokens: seq<string>): (g: Fields)
    ensures FieldsOk(f) ==> FieldsOk(g)
    ensures |tokens| >= 1 ==> g.command == Some(tokens[0])
    ensures |tokens| >= 2 ==> g.pathname == Some(tokens[1])
    ensures |tokens| >= 3 ==> g.httpVersion == Some(tokens[2])
    ensures |tokens| < 3 ==> g.httpVersion == f.httpVersion
    ensures |tokens| < 2 ==> g.pathname == f.pathname
    ensures |tokens| < 1 ==> g == f
  {
    Fields(if |tokens| >= 1 then Some(tokens[0]) else f.command,
           if |tokens| >= 2 then Some(tokens[1]) else f.pathname,
           if |tokens| >= 3 then Some(tokens[2]) else f.httpVersion)
  }

  /** How the header loop ends: at a malformed line, or at a blank line or the
      end of the stream with the last captured Content-Length value. `next` is
      the number of lines read. */
  datatype HeaderScan = BadHeader(next: nat) | HeadersDone(next: nat, contentLength: Option<string>)

  /** The header loop from line `i` on, with the contentLength variable `cl`. */
  function ScanHeaders(input: seq<string>, i: nat, cl: Option<string>): (r: HeaderScan)
    requires i <= |input|
    ensures i <= r.next <= |input|
    ensures r.BadHeader? ==> i < r.next && !HeaderMatches(input[r.next - 1])
    ensures r.HeadersDone? ==> r.next == |input| || (i < r.next && input[r.next - 1] == "")
    ensures r.HeadersDone? && cl.Some? ==> r.contentLength.Some?
    decreases |input| - i
  {
    if i == |input| || input[i] == "" then HeadersDone(if i == |input| then i else i + 1, cl)
    else if !HeaderMatches(input[i]) then BadHeader(i + 1)
    else ScanHeaders(input, i + 1, NextContentLength(input[i], cl))
  }

  /** One well-formed header line moves the loop on to the next line. */
  lemma ScanHeadersStep(input: seq<string>, i: nat, cl: Option<string>)
    requires i < |input| && input[i] != "" && HeaderMatches(input[i])
    ensures ScanHeaders(input, i, cl) == ScanHeaders(input, i + 1, NextContentLength(input[i], cl))
  {
  }

  /** Line `k` belongs to the header block that starts at line `i`: no blank
      line comes before it or is it. */
  ghost predicate InBlock(input: seq<string>, i: nat, k: nat) {
    i <= k < |input| && forall j :: i <= j <= k ==> input[j] != ""
  }

  /** Reference definition: every line of the header block has the header format. */
  ghost predicate HeadersWellFormed(input: seq<string>) {
    forall k: nat :: InBlock(input, 1, k) ==> HeaderMatches(input[k])
  }

  /** The header loop gets past the header block exactly when every line in it
      has the header format. */
  lemma {:induction false} ScanHeadersDoneIff(input: seq<string>, i: nat, cl: Option<string>)
    requires i <= |input|
    ensures ScanHeaders(input, i, cl).HeadersDone? <==> forall k: nat :: InBlock(input, i, k) ==> HeaderMatches(input[k])
    decreases |input| - i
  {
    if i == |input| || input[i] == "" {
    } else if !HeaderMatches(input[i]) {
      assert InBlock(input, i, i);
    } else {
      var cl' := NextContentLength(input[i], cl);
      ScanHeadersDoneIff(input, i + 1, cl');
      forall k: nat | InBlock(input, i + 1, k) ensures InBlock(input, i, k) { }
      forall k: nat | InBlock(input, i, k) && k != i ensures InBlock(input, i + 1, k) { }
    }
  }

  /** The first malformed line of the header block stops the loop: nothing
      after it is read. */
  lemma {:induction false} ScanHeadersStopsAtFirstBad(input: seq<string>, i: nat, cl: Option<string>, k: nat)
    requires i <= |input|
    requires InBlock(input, i, k) && !HeaderMatches(input[k])
    requires forall j :: i <= j < k ==> HeaderMatches(input[j])
    ensures ScanHeaders(input, i, cl) == BadHeader(k + 1)
    decreases k - i
  {
    assert input[i] != "";
    if i < k {
      var cl' := NextContentLength(input[i], cl);
      ScanHeadersStopsAtFirstBad(input, i + 1, cl', k);
    }
  }

  /** Outcome of isValidRequest: the status handleError is called with (None
      when the request is valid), the fields afterwards, and the lines read. */
  datatype Verdict = Verdict(error: Option<Status>, fields: Fields, next: nat)

  predicate IsSupportedVersion(v: string) {
    v == "HTTP/1.1" || v == "HTTP/1.0"
  }

  /** The checks isValidRequest makes once the fields hold the tokens, in
      order; `extraToken` says whether a fourth token was left over. */
  function CheckFields(g: Fields, extraToken: bool, contentLength: Option<string>): (error: Option<Status>)
    requires FieldsOk(g)
    ensures error.None? ==>
      g.httpVersion.Some? && IsSupportedVersion(g.httpVersion.value) && Contained(g.pathname.value)
  {
    if extraToken then Some(MalformedRequest)
    else if g.httpVersion.None? then Some(MalformedRequest)
    else if !IsSupportedVersion(g.httpVersion.value) then Some(BadHttp)
    else if !Contained(g.pathname.value) then Some(Forbidden)
    else if contentLength.None? && g.command.value == "PUT" then Some(MissingContentLength)
    else None
  }

  /** The error for the request line, if any, and the fields afterwards. */
  datatype LineCheck = LineCheck(error: Option<Status>, fields: Fields)

  /** What isValidRequest does with the request line after the header loop:
      the size bound, then the tokenising into the fields, then CheckFields. */
  function CheckRequestLine(f: Fields, request: string, contentLength: Option<string>): (c: LineCheck)
    requires FieldsOk(f)
    ensures FieldsOk(c.fields)
    ensures c.error.None? ==>
      c.fields.httpVersion.Some? && IsSupportedVersion(c.fields.httpVersion.value) && Contained(c.fields.pathname.value)
  {
    if Utf8Length(request) > Kilobyte then LineCheck(Some(TooLarge), f)
    else
      var tokens := Tokenize(request, ' ');
      var g := AssignTokens(f, tokens);
      LineCheck(CheckFields(g, |tokens| > 3, contentLength), g)
  }

  /** isValidRequest on the request stream `input` (its first line is the
      request line) with the fields `f` left by earlier requests. */
  function Validate(f: Fields, input: seq<string>): (v: Verdict)
    requires |input| >= 1 && FieldsOk(f)
    ensures FieldsOk(v.fields) && 1 <= v.next <= |input|
    ensures v.error.None? ==>
      v.fields.httpVersion.Some? && IsSupportedVersion(v.fields.httpVersion.value) && Contained(v.fields.pathname.value)
  {
    match ScanHeaders(input, 1, Some(""))
    case BadHeader(next) => Verdict(Some(MalformedHeader), f, next)
    case HeadersDone(next, contentLength) =>
      var c := CheckRequestLine(f, input[0], contentLength);
      Verdict(c.error, c.fields, next)
  }

  /** The header loop runs before the request line is looked at: the first
      malformed header line is reported, whatever the request line is, and
      nothing after it is read. */
  lemma BadHeaderWins(f: Fields, input: seq<string>, k: nat)
    requires |input| >= 1 && FieldsOk(f)
    requires InBlock(input, 1, k) && !HeaderMatches(input[k])
    requires forall j :: 1 <= j < k ==> HeaderMatches(input[j])
    ensures Validate(f, input) == Verdict(Some(MalformedHeader), f, k + 1)
  {
    ScanHeadersStopsAtFirstBad(input, 1, Some(""), k);
  }

  /** MalformedHeader is reported exactly when some line of the header block
      is malformed. */
  lemma MalformedHeaderIff(f: Fields, input: seq<string>)
    requires |input| >= 1 && FieldsOk(f)
    ensures Validate(f, input).error == Some(MalformedHeader) <==> !HeadersWellFormed(input)
  {
    ScanHeadersDoneIff(input, 1, Some(""));
  }

  /** With well-formed headers, the size bound comes first: TooLarge exactly
      when the request line has more than 1024 UTF-8 bytes (1024 passes), and
      then the fields are untouched. */
  lemma TooLargeIff(f: Fields, input: seq<string>)
    requires |input| >= 1 && FieldsOk(f) && HeadersWellFormed(input)
    ensures Validate(f, input).error == Some(TooLarge) <==> Utf8Length(input[0]) > Kilobyte
    ensures Utf8Length(input[0]) > Kilobyte ==> Validate(f, input).fields == f
  {
    ScanHeadersDoneIff(input, 1, Some(""));
  }

  /** A fourth token is rejected, but only after the first three tokens have
      been stored in the fields. */
  lemma ExtraTokenRejected(f: Fields, input: seq<string>)
    requires |input| >= 1 && FieldsOk(f) && HeadersWellFormed(input)
    requires Utf8Length(input[0]) <= Kilobyte
    requires |Tokenize(input[0], ' ')| > 3
    ensures var t := Tokenize(input[0], ' ');
      Validate(f, input) == Verdict(Some(MalformedRequest), Fields(Some(t[0]), Some(t[1]), Some(t[2])),
                                       ScanHeaders(input, 1, Some("")).next)
  {
    ScanHeadersDoneIff(input, 1, Some(""));
  }

  /** A request line with fewer than three tokens keeps the previous
      request's version: it is refused as malformed exactly when no earlier
      request ever set a version, and otherwise the old version (and, with
      fewer than two tokens, the old path) is checked in its place. */
  lemma MissingVersion(f: Fields, input: seq<string>)
    requires |input| >= 1 && FieldsOk(f) && HeadersWellFormed(input)
    requires Utf8Length(input[0]) <= Kilobyte
    requires |Tokenize(input[0], ' ')| < 3
    ensures Validate(f, input).error == Some(MalformedRequest) <==> f.httpVersion.None?
    ensures Validate(f, input).fields.httpVersion == f.httpVersion
  {
    ScanHeadersDoneIff(input, 1, Some(""));
  }

  /** The version test comes next: anything other than HTTP/1.0 and HTTP/1.1
      is BadHttp. */
  lemma BadVersionRejected(f: Fields, input: seq<string>)
    requires |input| >= 1 && FieldsOk(f) && HeadersWellFormed(input)
    requires Utf8Length(input[0]) <= Kilobyte && |Tokenize(input[0], ' ')| <= 3
    requires AssignTokens(f, Tokenize(input[0], ' ')).httpVersion.Some?
    requires !IsSupportedVersion(AssignTokens(f, Tokenize(input[0], ' ')).httpVersion.value)
    ensures Validate(f, input).error == Some(BadHttp)
  {
    ScanHeadersDoneIff(input, 1, Some(""));
  }

  /** Then containment: once the earlier rules pass, Forbidden is reported
      exactly when the path is not a canonical absolute path. */
  lemma ForbiddenIff(f: Fields, input: seq<string>)
    requires |input| >= 1 && FieldsOk(f) && HeadersWellFormed(input)
    requires Utf8Length(input[0]) <= Kilobyte && |Tokenize(input[0], ' ')| <= 3
    requires AssignTokens(f, Tokenize(input[0], ' ')).httpVersion.Some?
    requires IsSupportedVersion(AssignTokens(f, Tokenize(input[0], ' ')).httpVersion.value)
    ensures var path := AssignTokens(f, Tokenize(input[0], ' ')).pathname.value;
      Validate(f, input).error == Some(Forbidden) <==> !IsCanonicalAbsolute(path)
  {
    ScanHeadersDoneIff(input, 1, Some(""));
    ContainedIff(AssignTokens(f, Tokenize(input[0], ' ')).pathname.value);
  }

  /** The contentLength variable starts as the empty string and is only ever
      replaced by a string, so the Content-Length test never fires: no request
      is refused for a missing Content-Length. */
  lemma ContentLengthNeverEnforced(f: Fields, input: seq<string>)
    requires |input| >= 1 && FieldsOk(f)
    ensures Validate(f, input).error != Some(MissingContentLength)
  {
    var scan := ScanHeaders(input, 1, Some(""));
    if scan.HeadersDone? {
      assert scan.contentLength.Some?;
    }
  }

  /** A request is valid exactly when its header block is well formed, its
      line is at most 1024 bytes and has at most three tokens, and the fields
      it leaves hold a supported version and a contained path; a PUT needs
      no Content-Length. */
  lemma AcceptedIff(f: Fields, input: seq<string>)
    requires |input| >= 1 && FieldsOk(f)
    ensures var tokens := Tokenize(input[0], ' ');
      var g := AssignTokens(f, tokens);
      Validate(f, input).error.None? <==>
        HeadersWellFormed(input) && Utf8Length(input[0]) <= Kilobyte && |tokens| <= 3
        && g.httpVersion.Some? && IsSupportedVersion(g.httpVersion.value)
        && IsCanonicalAbsolute(g.pathname.value)
  {
    ScanHeadersDoneIff(input, 1, Some(""));
    ContentLengthNeverEnforced(f, input);
    var g := AssignTokens(f, Tokenize(input[0], ' '));
    if g.pathname.Some? {
      ContainedIff(g.pathname.value);
    }
  }
}
