/**
 * Whole connections, as processRequest sees them: a request line of three
 * words as a client writes it, any well-formed header block, and what the
 * server answers and keeps afterwards.
 */
module Scenarios {
  import opened Wrappers
  import opened Text
  import opened Paths
  import opened ErrorTable
  import opened Validation
  import opened Handlers
  import opened Exchange

  /** A token of a request line: non-empty and free of spaces. */
  predicate IsWord(w: string) {
    w != "" && ' ' !in w
  }

  /** The commands and versions the server knows are tokens. */
  lemma KnownWords()
    ensures IsWord("GET") && IsWord("PUT") && IsWord("HTTP/1.0") && IsWord("HTTP/1.1")
  {
    assert forall c :: c in "HTTP/1.0" ==> c != ' ';
    assert forall c :: c in "HTTP/1.1" ==> c != ' ';
  }

  /** `command path version`, separated by single spaces. */
  function RequestLine(command: string, path: string, version: string): (line: string) {
    command + " " + path + " " + version
  }

  lemma RequestLineLength(command: string, path: string, version: string)
    ensures |RequestLine(command, path, version)| == |command| + |path| + |version| + 2
  {
  }

  lemma RequestLineTokens(command: string, path: string, version: string)
    requires IsWord(command) && IsWord(path) && IsWord(version)
    ensures Tokenize(RequestLine(command, path, version), ' ') == [command, path, version]
  {
    var words := [command, path, version];
    assert words[1..] == [path, version] && words[1..][1..] == [version];
    assert JoinWith([version], ' ') == version;
    AppendAssoc(command + " ", path + " ", version);
    AppendAssoc(command + " ", path, " ");
    assert JoinWith(words, ' ') == RequestLine(command, path, version);
    TokenizeJoin(words, ' ');
  }

  /** A three-word request line of at most 256 characters below a
      well-formed header block sets all three fields, and the only rules
      left to refuse it are the version test and then containment. */
  lemma ThreeWordRequest(f: Fields, input: seq<string>, command: string, path: string, version: string)
    requires |input| >= 1 && FieldsOk(f) && HeadersWellFormed(input)
    requires IsWord(command) && IsWord(path) && IsWord(version)
    requires input[0] == RequestLine(command, path, version) && |input[0]| <= 256
    ensures var v := Validate(f, input);
      v.fields == Fields(Some(command), Some(path), Some(version)) &&
      v.next == ScanHeaders(input, 1, Some("")).next &&
      v.error == if !IsSupportedVersion(version) then Some(BadHttp)
                 else if !IsCanonicalAbsolute(path) then Some(Forbidden)
                 else None
  {
    RequestLineTokens(command, path, version);
    ScanHeadersDoneIff(input, 1, Some(""));
    ContentLengthNeverEnforced(f, input);
    ContainedIff(path);
  }

  /** Below a well-formed header block, "GET /../<rest> HTTP/1.1", with
      `rest` one token of at most 200 characters, is refused with 403, and
      nothing changes on disk. */
  lemma TraversalForbidden(s: State, input: seq<string>, rest: string)
    requires |input| >= 1 && FieldsOk(s.fields) && HeadersWellFormed(input)
    requires IsWord(rest) && |rest| <= 200
    requires input[0] == RequestLine("GET", "/../" + rest, "HTTP/1.1")
    ensures Respond(s, input).response == ErrorResponse(Forbidden)
    ensures Respond(s, input).state.store == s.store
  {
    var path := "/../" + rest;
    assert path[1] == '.';
    RequestLineLength("GET", path, "HTTP/1.1");
    ThreeWordRequest(s.fields, input, "GET", path, "HTTP/1.1");
    ClimbAboveRootRefused(rest);
    ContainedIff(path);
  }

  /** Below a well-formed header block, a request line of at most 256
      characters made of a one-token command, a one-token path and
      "HTTP/2.0" is refused with 505, and nothing changes on disk. */
  lemma Http2Refused(s: State, input: seq<string>, command: string, path: string)
    requires |input| >= 1 && FieldsOk(s.fields) && HeadersWellFormed(input)
    requires IsWord(command) && IsWord(path) && |input[0]| <= 256
    requires input[0] == RequestLine(command, path, "HTTP/2.0")
    ensures Respond(s, input).response == ErrorResponse(BadHttp)
    ensures Respond(s, input).state.store == s.store
  {
    ThreeWordRequest(s.fields, input, command, path, "HTTP/2.0");
  }

  /** Below a well-formed header block, a request line of three words
      separated by single spaces, of at most 256 characters, with a supported
      version, a canonical path and a command other than GET and PUT gets 501
      and changes nothing on disk, but its fields stay set. */
  lemma UnknownCommandNotImplemented(s: State, input: seq<string>, command: string, path: string, version: string)
    requires |input| >= 1 && FieldsOk(s.fields) && HeadersWellFormed(input)
    requires IsWord(command) && IsWord(path) && IsWord(version) && |input[0]| <= 256
    requires input[0] == RequestLine(command, path, version)
    requires command != "GET" && command != "PUT"
    requires IsSupportedVersion(version) && IsCanonicalAbsolute(path)
    ensures Respond(s, input) == Outcome(ErrorResponse(NotImplemented),
                                         State(Fields(Some(command), Some(path), Some(version)), s.store))
  {
    ThreeWordRequest(s.fields, input, command, path, version);
  }

  /** Below a well-formed header block, a request line "GET <path> <version>"
      of single-space-separated words, of at most 256 characters, with a
      supported version and a canonical path is answered by serveFile and
      changes nothing on disk. */
  lemma ValidGet(s: State, input: seq<string>, path: string, version: string)
    requires |input| >= 1 && FieldsOk(s.fields) && HeadersWellFormed(input)
    requires IsWord(path) && IsWord(version) && |input[0]| <= 256
    requires input[0] == RequestLine("GET", path, version)
    requires IsSupportedVersion(version) && IsCanonicalAbsolute(path)
    ensures Respond(s, input) ==
      Outcome(ServeResponse(s.store, path), State(Fields(Some("GET"), Some(path), Some(version)), s.store))
  {
    ThreeWordRequest(s.fields, input, "GET", path, version);
  }

  /** Below a well-formed header block, a request line "PUT <path> <version>"
      of single-space-separated words, of at most 256 characters, with a
      supported version and a canonical path is answered by updateFile, which
      reads the body from the line after the header block. No Content-Length
      header is needed. */
  lemma ValidPut(s: State, input: seq<string>, path: string, version: string)
    requires |input| >= 1 && FieldsOk(s.fields) && HeadersWellFormed(input)
    requires IsWord(path) && IsWord(version) && |input[0]| <= 256
    requires input[0] == RequestLine("PUT", path, version)
    requires IsSupportedVersion(version) && IsCanonicalAbsolute(path)
    ensures var u := UpdateOutcome(s.store, path, input, ScanHeaders(input, 1, Some("")).next);
      Respond(s, input) == Outcome(u.response, State(Fields(Some("PUT"), Some(path), Some(version)), u.store))
  {
    ThreeWordRequest(s.fields, input, "PUT", path, version);
    var v := Validate(s.fields, input);
    assert v.error.None? && v.fields.command.value == "PUT";
    assert Dispatch(v.fields.command.value) == UpdatePut;
  }

  /** A PUT line as in ValidPut reaches updateFile whatever its headers say,
      Content-Length or not, so its answer starts with the created or updated
      line. */
  lemma PutWithoutContentLength(s: State, input: seq<string>, path: string, version: string)
    requires |input| >= 1 && FieldsOk(s.fields) && HeadersWellFormed(input)
    requires IsWord(path) && IsWord(version) && |input[0]| <= 256
    requires input[0] == RequestLine("PUT", path, version)
    requires IsSupportedVersion(version) && IsCanonicalAbsolute(path)
    ensures var r := Respond(s, input).response;
      StartsWith(r, UpdatedLine) || StartsWith(r, CreatedLine)
  {
    ValidPut(s, input, path, version);
    UpdateReportsPriorFile(s.store, path, input, ScanHeaders(input, 1, Some("")).next);
  }

  /** A request line of one word below a well-formed header block replaces
      the command only: the path and the version checked are those left by
      earlier requests. */
  lemma OneWordRequest(f: Fields, input: seq<string>, command: string)
    requires |input| >= 1 && FieldsOk(f) && HeadersWellFormed(input)
    requires input[0] == command && IsWord(command) && |command| <= 256
    ensures var v := Validate(f, input);
      var g := Fields(Some(command), f.pathname, f.httpVersion);
      v.fields == g && v.next == ScanHeaders(input, 1, Some("")).next &&
      v.error == if g.httpVersion.None? then Some(MalformedRequest)
                 else if !IsSupportedVersion(g.httpVersion.value) then Some(BadHttp)
                 else if !IsCanonicalAbsolute(g.pathname.value) then Some(Forbidden)
                 else None
  {
    assert JoinWith([command], ' ') == command;
    TokenizeJoin([command], ' ');
    ScanHeadersDoneIff(input, 1, Some(""));
    ContentLengthNeverEnforced(f, input);
    if f.pathname.Some? {
      ContainedIff(f.pathname.value);
    }
  }

  /** The fields are never reset: below a well-formed header block, a
      request line holding only a command of at most 256 characters is served
      with the path and version of an earlier request, when that path is
      canonical and that version supported. */
  lemma StaleFieldsReused(s: State, input: seq<string>, command: string, path: string, version: string)
    requires |input| >= 1 && HeadersWellFormed(input)
    requires s.fields.command.Some? && s.fields.pathname == Some(path) && s.fields.httpVersion == Some(version)
    requires IsSupportedVersion(version) && IsCanonicalAbsolute(path)
    requires input[0] == command && IsWord(command) && |command| <= 256
    ensures Respond(s, input).state.fields == Fields(Some(command), Some(path), Some(version))
    ensures command == "PUT" ==>
      Respond(s, input).response == UpdateOutcome(s.store, path, input, ScanHeaders(input, 1, Some("")).next).response
    ensures command == "GET" ==> Respond(s, input).response == ServeResponse(s.store, path)
  {
    OneWordRequest(s.fields, input, command);
    var v := Validate(s.fields, input);
    assert v.fields == Fields(Some(command), Some(path), Some(version)) && v.error.None?;
    if command == "PUT" {
      assert Dispatch(command) == UpdatePut;
    } else if command == "GET" {
      assert Dispatch(command) == ServeGet;
    }
  }

  /** For a canonical one-token path other than "/" whose target is writable,
      what "PUT <path> HTTP/1.1" stores a later "GET <path> HTTP/1.1" returns:
      the body lines, each followed by the line separator, after the 200 head. */
  lemma PutThenGet(s: State, put: seq<string>, get: seq<string>, path: string)
    requires |put| >= 1 && |get| >= 1 && FieldsOk(s.fields)
    requires HeadersWellFormed(put) && HeadersWellFormed(get)
    requires IsWord(path) && path != "/" && IsCanonicalAbsolute(path) && |path| <= 200
    requires put[0] == RequestLine("PUT", path, "HTTP/1.1") && get[0] == RequestLine("GET", path, "HTTP/1.1")
    requires UpdateTarget(path) in s.store.writable
    ensures var o := Respond(s, put);
      Respond(o.state, get).response ==
        OkHead + FileText(ReadBody(put, ScanHeaders(put, 1, Some("")).next).lines)
  {
    RequestLineLength("PUT", path, "HTTP/1.1");
    RequestLineLength("GET", path, "HTTP/1.1");
    KnownWords();
    ValidPut(s, put, path, "HTTP/1.1");
    var o := Respond(s, put);
    ValidGet(o.state, get, path, "HTTP/1.1");
    ServeAfterUpdate(s.store, path, put, ScanHeaders(put, 1, Some("")).next);
  }

  /** For a canonical one-token path whose target is writable, a second PUT
      of the path the first one wrote reports "File updated". */
  lemma SecondPutUpdates(s: State, put: seq<string>, again: seq<string>, path: string)
    requires |put| >= 1 && |again| >= 1 && FieldsOk(s.fields)
    requires HeadersWellFormed(put) && HeadersWellFormed(again)
    requires IsWord(path) && IsCanonicalAbsolute(path) && |path| <= 200
    requires put[0] == RequestLine("PUT", path, "HTTP/1.1") && again[0] == RequestLine("PUT", path, "HTTP/1.0")
    requires UpdateTarget(path) in s.store.writable
    ensures StartsWith(Respond(Respond(s, put).state, again).response, UpdatedLine)
  {
    RequestLineLength("PUT", path, "HTTP/1.1");
    RequestLineLength("PUT", path, "HTTP/1.0");
    KnownWords();
    ValidPut(s, put, path, "HTTP/1.1");
    var o := Respond(s, put);
    ValidPut(o.state, again, path, "HTTP/1.0");
    SecondUpdateReportsUpdated(s.store, path, put, ScanHeaders(put, 1, Some("")).next,
                               again, ScanHeaders(again, 1, Some("")).next);
  }
}
