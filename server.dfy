/**
 * The SimpleWebServer object and the connection it talks to. The connection
 * stands for the socket's BufferedReader (a cursor over the request lines,
 * where reading past the end gives null) and its OutputStreamWriter (the text
 * written so far and whether it has been closed). Each method is proved to do
 * what the matching function of Validation, Handlers or Exchange describes.
 */
module Server {
  import opened Wrappers
  import opened Text
  import opened Decimal
  import opened Headers
  import opened Paths
  import opened ErrorTable
  import opened Validation
  import opened Handlers
  import opened Exchange

  class Connection {
    /** The lines the client sends, without their line terminators. */
    const input: seq<string>
    /** How many lines readLine has returned so far. */
    var pos: nat
    /** Everything written to the client. */
    var output: string
    var closed: bool

    predicate Valid()
      reads this
    {
      pos <= |input|
    }

    constructor (lines: seq<string>)
      ensures Valid() && input == lines && pos == 0 && output == "" && !closed
    {
      input := lines;
      pos := 0;
      output := "";
      closed := false;
    }

    /** BufferedReader.readLine: the next line, or None (null) at the end of the stream. */
    method ReadLine() returns (line: Option<string>)
      requires Valid()
      modifies this`pos
      ensures Valid()
      ensures old(pos) < |input| ==> line == Some(input[old(pos)]) && pos == old(pos) + 1
      ensures old(pos) == |input| ==> line == None && pos == old(pos)
    {
      if pos < |input| {
        line := Some(input[pos]);
        pos := pos + 1;
      } else {
        line := None;
      }
    }

    /** OutputStreamWriter.write on an open writer. */
    method Write(text: string)
      requires !closed
      modifies this`output
      ensures output == old(output) + text
    {
      output := output + text;
    }

    /** OutputStreamWriter.close; closing again has no effect. */
    method Close()
      modifies this`closed
      ensures closed
    {
      closed := true;
    }
  }

  class SimpleWebServer {
    /** The instance fields the request line is tokenised into; None is null.
        They are never reset between requests. */
    var command: Option<string>
    var pathname: Option<string>
    var httpVersion: Option<string>
    /** The filesystem the handlers read and write. */
    var store: Store

    function CurrentFields(): Fields
      reads this
    {
      Fields(command, pathname, httpVersion)
    }

    function CurrentState(): State
      reads this
    {
      State(CurrentFields(), store)
    }

    /** The fields were assigned in token order, and the empty name is
        neither a file nor writable. */
    predicate Valid()
      reads this
    {
      FieldsOk(CurrentFields()) && StoreOk(store)
    }

    constructor (files: Store)
      requires StoreOk(files)
      ensures Valid() && CurrentFields() == NoFields && store == files
    {
      command, pathname, httpVersion := None, None, None;
      store := files;
    }

    /** handleError: writes the status line and message of `st`, then closes. */
    method HandleError(conn: Connection, st: Status)
      requires !conn.closed
      modifies conn`output, conn`closed
      ensures conn.output == old(conn.output) + ErrorResponse(st) && conn.closed
    {
      var statusCode := ErrorCode(st);
      var errorMessage := ErrorMessage(st);
      var responseMessage := StatusPrefix + DecimalString(statusCode) + ": " + errorMessage;
      conn.Write(responseMessage + "\n\n");
      conn.Close();
    }

    /** isValidRequest on a fresh connection. */
    method IsValidRequest(conn: Connection) returns (valid: bool)
      requires Valid() && conn.Valid() && conn.pos == 0 && |conn.input| >= 1 && !conn.closed
      modifies this`command, this`pathname, this`httpVersion, conn`pos, conn`output, conn`closed
      ensures Valid() && conn.Valid()
      ensures var v := Validate(old(CurrentFields()), conn.input);
        valid == v.error.None? && CurrentFields() == v.fields && conn.pos == v.next &&
        (valid ==> conn.output == old(conn.output)) &&
        (!valid ==> conn.output == old(conn.output) + ErrorResponse(v.error.value)) &&
        conn.closed == !valid
    {
      ghost var f := CurrentFields();
      var read := conn.ReadLine();
      var request := read.value;
      var malformed, contentLength := ReadHeaders(conn);
      if malformed {
        return false;
      }
      ghost var c := CheckRequestLine(f, request, contentLength);
      assert Validate(f, conn.input) == Verdict(c.error, c.fields, conn.pos);

      if Utf8Length(request) > Kilobyte {
        HandleError(conn, TooLarge);
        return false;
      }
      var extraToken := AssignRequestTokens(request);
      assert c == LineCheck(CheckFields(CurrentFields(), extraToken, contentLength), CurrentFields());
      if extraToken {
        HandleError(conn, MalformedRequest);
        return false;
      }
      if httpVersion.None? {
        HandleError(conn, MalformedRequest);
        return false;
      }
      if !(httpVersion.value == "HTTP/1.1" || httpVersion.value == "HTTP/1.0") {
        HandleError(conn, BadHttp);
        return false;
      }
      var tmpFile := ChildOfRoot(pathname.value);
      if pathname.value != CanonicalPath(tmpFile) {
        HandleError(conn, Forbidden);
        return false;
      }
      if contentLength.None? && command.value == "PUT" {
        HandleError(conn, MissingContentLength);
        return false;
      }
      return true;
    }

    /** The StringTokenizer part of isValidRequest: the fields take the first
        three tokens of the request line, as many as there are; `extraToken`
        says whether a token is left over. */
    method AssignRequestTokens(request: string) returns (extraToken: bool)
      modifies this`command, this`pathname, this`httpVersion
      ensures var tokens := Tokenize(request, ' ');
        CurrentFields() == AssignTokens(old(CurrentFields()), tokens) && extraToken == (|tokens| > 3)
    {
      var tokens := Tokenize(request, ' ');
      var next := 0;
      if next < |tokens| {
        command := Some(tokens[next]);
        next := next + 1;
      }
      if next < |tokens| {
        pathname := Some(tokens[next]);
        next := next + 1;
      }
      if next < |tokens| {
        httpVersion := Some(tokens[next]);
        next := next + 1;
      }
      extraToken := next < |tokens|;
    }

    /** The header loop of isValidRequest: reads header lines up to a blank
        line or the end of the stream, stops with the MalformedHeader error at
        the first line without the header format, and captures the value of
        each `Content-Length:` line. */
    method ReadHeaders(conn: Connection) returns (malformed: bool, contentLength: Option<string>)
      requires conn.Valid() && conn.pos == 1 && !conn.closed
      modifies conn`pos, conn`output, conn`closed
      ensures conn.Valid()
      ensures var scan := ScanHeaders(conn.input, 1, Some(""));
        malformed == scan.BadHeader? && conn.pos == scan.next &&
        (!malformed ==> contentLength == scan.contentLength) &&
        (malformed ==> conn.output == old(conn.output) + ErrorResponse(MalformedHeader)) &&
        (!malformed ==> conn.output == old(conn.output)) &&
        conn.closed == malformed
    {
      contentLength := Some("");
      var line := conn.ReadLine();
      ghost var i: nat := 1;
      while line.Some? && line.value != ""
        invariant conn.Valid() && !conn.closed && conn.output == old(conn.output)
        invariant 1 <= i <= |conn.input|
        invariant line.Some? ==> conn.pos == i + 1 && line.value == conn.input[i]
        invariant line.None? ==> conn.pos == i == |conn.input|
        invariant ScanHeaders(conn.input, 1, Some("")) == ScanHeaders(conn.input, i, contentLength)
        decreases |conn.input| - i
      {
        if !HeaderMatches(line.value) {
          HandleError(conn, MalformedHeader);
          return true, contentLength;
        }
        ScanHeadersStep(conn.input, i, contentLength);
        contentLength := NextContentLength(line.value, contentLength);
        line := conn.ReadLine();
        i := i + 1;
      }
      return false, contentLength;
    }

    /** serveFile: the 404 head when the file cannot be opened, otherwise the
        200 head and the file's characters, read one at a time. */
    method ServeFile(conn: Connection, path: string)
      requires path != [] && !conn.closed
      modifies conn`output
      ensures conn.output == old(conn.output) + ServeResponse(store, path)
    {
      var name := path;
      if name[0] == '/' {
        name := name[1..];
      }
      if name == "" {
        name := IndexFile;
      }
      if name !in store.files {
        conn.Write(NotFoundHead);
        return;
      }
      var content := store.files[name];
      AppendAssoc(conn.output, OkHead, content);
      conn.Write(OkHead);
      var sb := "";
      var c := 0;
      while c < |content|
        invariant 0 <= c <= |content| && sb == content[..c]
        invariant conn.output == old(conn.output) + OkHead
      {
        PrefixSnoc(content, c);
        sb := sb + [content[c]];
        c := c + 1;
      }
      assert sb == content;
      conn.Write(sb);
    }

    /** updateFile: reports created or updated before opening the file, then
        writes the body into it. */
    method UpdateFile(conn: Connection, path: string)
      requires conn.Valid() && !conn.closed
      modifies this`store, conn`pos, conn`output, conn`closed
      ensures conn.Valid()
      ensures var u := UpdateOutcome(old(store), path, conn.input, old(conn.pos));
        conn.output == old(conn.output) + u.response && store == u.store && conn.pos == u.next &&
        (conn.closed <==> UpdateTarget(path) !in old(store).writable)
    {
      var name := path;
      if StartsWith(name, "/") {
        name := name[1..];
      }
      ghost var out0 := conn.output;
      ghost var status := if name in store.files then UpdatedLine else CreatedLine;
      if name in store.files {
        conn.Write(UpdatedLine);
      } else {
        conn.Write(CreatedLine);
      }
      if name !in store.writable {
        AppendAssoc(out0, status, ErrorResponse(InternalError));
        HandleError(conn, InternalError);
        return;
      }
      WriteBody(conn, name);
    }

    /** The BufferedWriter part of updateFile, once the file is open: every
        line read up to a blank line or the end of the stream is written
        followed by the line separator, and what the writer holds when it is
        closed replaces the file's content. */
    method WriteBody(conn: Connection, name: string)
      requires conn.Valid()
      modifies this`store, conn`pos
      ensures conn.Valid()
      ensures var body := ReadBody(conn.input, old(conn.pos));
        store == Store(old(store).files[name := FileText(body.lines)], old(store).writable) &&
        conn.pos == body.next
    {
      ghost var start := conn.pos;
      var text := "";
      var line := conn.ReadLine();
      ghost var written: seq<string> := [];
      ghost var k: nat := start;
      while line.Some? && line.value != ""
        invariant conn.Valid() && start <= k <= |conn.input|
        invariant line.Some? ==> conn.pos == k + 1 && line.value == conn.input[k]
        invariant line.None? ==> conn.pos == k == |conn.input|
        invariant store == old(store) && text == FileText(written)
        invariant ReadBody(conn.input, start) == ReadBody(conn.input, k).(lines := written + ReadBody(conn.input, k).lines)
        decreases |conn.input| - k
      {
        ReadBodyResume(conn.input, start, k, written);
        FileTextSnoc(written, line.value);
        text := text + line.value;
        text := text + LineSeparator;
        written := written + [line.value];
        line := conn.ReadLine();
        k := k + 1;
      }
      ReadBodyStop(conn.input, k);
      assert written + [] == written;
      store := store.(files := store.files[name := text]);
    }

    /** processRequest on a fresh connection: the text written, the fields and
        the filesystem afterwards are those Respond gives, and the connection
        ends closed. */
    method ProcessRequest(conn: Connection)
      requires Valid() && conn.Valid() && conn.pos == 0 && conn.output == "" && !conn.closed
      requires |conn.input| >= 1
      modifies this, conn
      ensures Valid() && conn.closed
      ensures var o := Respond(old(CurrentState()), conn.input);
        conn.output == o.response && CurrentState() == o.state
    {
      var valid := IsValidRequest(conn);
      if !valid {
        return;
      }
      if command.value == "GET" {
        ServeFile(conn, pathname.value);
      } else if command.value == "PUT" {
        ghost var before, pos := store, conn.pos;
        UpdateFile(conn, pathname.value);
        UpdateKeepsStoreOk(before, pathname.value, conn.input, pos);
      } else {
        HandleError(conn, NotImplemented);
        return;
      }
      conn.Close();
    }
  }
}
