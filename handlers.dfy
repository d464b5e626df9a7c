/**
 * What serveFile and updateFile compute, as functions of the filesystem they
 * see and the request lines still unread. The imperative versions in module
 * Server are proved to produce exactly these results.
 */
module Handlers {
  import opened Text
  import opened Paths
  import opened ErrorTable

  /** The filesystem relative to the server's working directory: `files` holds
      the regular files and their contents (what File.isFile reports and what a
      FileReader can open), `writable` the names a FileWriter can open. */
  datatype Store = Store(files: map<string, string>, writable: set<string>)

  /** The empty name is neither a file nor openable for writing, as for
      `new File("")`. */
  predicate StoreOk(store: Store) {
    "" !in store.files && "" !in store.writable
  }

  const IndexFile := "index.html"
  /** What BufferedWriter.newLine writes; the platform separator is taken as "\n". */
  const LineSeparator := "\n"
  const OkHead := "HTTP/1.0 200 OK\n\n"
  const NotFoundHead := "HTTP/1.0 404 Not Found\n\n"
  const UpdatedLine := "Request 200: File updated\n"
  const CreatedLine := "Request 201: File created\n"

  /** The name serveFile opens: one leading '/' removed, and "index.html"
      when nothing is left. */
  function ServeTarget(pathname: string): (name: string)
    requires pathname != []
    ensures name != []
    ensures name == (if UpdateTarget(pathname) == "" then IndexFile else UpdateTarget(pathname))
  {
    var rest := if pathname[0] == '/' then pathname[1..] else pathname;
    assert pathname[0] == '/' ==> pathname == "/" + rest;
    if rest == "" then IndexFile else rest
  }

  /** Everything serveFile writes: one of exactly two responses. */
  function ServeResponse(store: Store, pathname: string): (r: string)
    requires pathname != []
    ensures StartsWith(r, OkHead) || r == NotFoundHead
  {
    var name := ServeTarget(pathname);
    if name in store.files then OkHead + store.files[name] else NotFoundHead
  }

  /** serveFile answers with exactly one of two responses, and a client can
      tell which: 200 with the file's text verbatim after the head, or 404
      with nothing after it. */
  lemma ServeResponseCases(store: Store, pathname: string)
    requires pathname != []
    ensures var r := ServeResponse(store, pathname);
      var name := ServeTarget(pathname);
      (StartsWith(r, OkHead) <==> name in store.files) &&
      (name in store.files ==> r[|OkHead|..] == store.files[name]) &&
      (name !in store.files ==> r == NotFoundHead)
  {
    var r := ServeResponse(store, pathname);
    if ServeTarget(pathname) !in store.files {
      assert r[9] != OkHead[9];
    }
  }

  /** The name updateFile opens: one leading '/' removed. */
  function UpdateTarget(pathname: string): (name: string)
    ensures pathname == name || pathname == "/" + name
    ensures StartsWith(pathname, "/") <==> pathname == "/" + name
  {
    if StartsWith(pathname, "/") then pathname[1..] else pathname
  }

  /** The body lines updateFile reads, and the position after them. */
  datatype Body = Body(lines: seq<string>, next: nat)

  /** Reads from position `i` up to the first empty line (which is consumed)
      or the end of the stream. */
  function ReadBody(input: seq<string>, i: nat): (b: Body)
    requires i <= |input|
    ensures i <= b.next <= |input| && |b.lines| <= b.next - i
    decreases |input| - i
  {
    if i == |input| then Body([], i)
    else if input[i] == "" then Body([], i + 1)
    else
      var rest := ReadBody(input, i + 1);
      Body([input[i]] + rest.lines, rest.next)
  }

  /** The body is the run of non-empty lines from `i` on, and reading stops
      just after it: at the end of the stream, or past the blank line that
      ends it. */
  lemma {:induction false} ReadBodyMeaning(input: seq<string>, i: nat)
    requires i <= |input|
    ensures var b := ReadBody(input, i);
      i + |b.lines| <= |input| && b.lines == input[i..i + |b.lines|] &&
      (forall k :: 0 <= k < |b.lines| ==> b.lines[k] != "") &&
      ((b.next == |input| == i + |b.lines|) ||
       (b.next == i + |b.lines| + 1 <= |input| && input[i + |b.lines|] == ""))
    decreases |input| - i
  {
    if i < |input| && input[i] != "" {
      ReadBodyMeaning(input, i + 1);
      var n := |ReadBody(input, i + 1).lines|;
      assert input[i..i + 1 + n] == [input[i]] + input[i + 1..i + 1 + n];
    }
  }

  lemma ReadBodyStep(input: seq<string>, i: nat)
    requires i < |input| && input[i] != ""
    ensures ReadBody(input, i) == Body([input[i]] + ReadBody(input, i + 1).lines, ReadBody(input, i + 1).next)
  {
  }

  /** Reading from `start` is reading `lines` and then continuing from `k`;
      one more non-empty line moves `k` on. */
  lemma ReadBodyResume(input: seq<string>, start: nat, k: nat, lines: seq<string>)
    requires start <= k < |input| && input[k] != ""
    requires ReadBody(input, start) == ReadBody(input, k).(lines := lines + ReadBody(input, k).lines)
    ensures ReadBody(input, start) ==
      ReadBody(input, k + 1).(lines := (lines + [input[k]]) + ReadBody(input, k + 1).lines)
  {
    ReadBodyStep(input, k);
    AppendAssoc(lines, [input[k]], ReadBody(input, k + 1).lines);
  }

  lemma ReadBodyStop(input: seq<string>, i: nat)
    requires i == |input| || (i < |input| && input[i] == "")
    ensures ReadBody(input, i).lines == []
    ensures ReadBody(input, i).next == if i == |input| then i else i + 1
  {
  }

  /** The text the BufferedWriter leaves in the file: each line, in the order
      written, followed by the line separator. */
  function FileText(lines: seq<string>): (t: string)
    ensures t == "" <==> lines == []
    ensures t != "" ==> t[|t| - 1] == '\n'
  {
    if lines == [] then "" else FileText(lines[..|lines| - 1]) + lines[|lines| - 1] + LineSeparator
  }

  /** Writing one more line appends it and a separator. */
  lemma FileTextSnoc(lines: seq<string>, line: string)
    ensures FileText(lines + [line]) == FileText(lines) + line + LineSeparator
  {
    assert (lines + [line])[..|lines|] == lines;
  }

  /** The file text is the lines and an empty last piece, joined by the separator. */
  lemma {:induction false} FileTextIsJoin(lines: seq<string>)
    ensures FileText(lines) == JoinWith(lines + [""], '\n')
    decreases |lines|
  {
    if lines != [] {
      var init, line := lines[..|lines| - 1], lines[|lines| - 1];
      assert lines == init + [line];
      FileTextIsJoin(init);
      JoinWithSnoc(init + [line], "", '\n');
      if init == [] {
        assert init + [line] == [line];
      } else {
        JoinWithSnoc(init, line, '\n');
        JoinWithSnoc(init, "", '\n');
        assert JoinWith(init, '\n') + ['\n'] + line + ['\n'] + "" ==
               JoinWith(init, '\n') + ['\n'] + "" + line + LineSeparator;
      }
    }
  }

  /** The written file can be cut back into the lines that were written: the
      text ends with a separator and holds no other. */
  lemma FileTextLines(lines: seq<string>)
    requires forall k :: 0 <= k < |lines| ==> '\n' !in lines[k]
    ensures SplitOn(FileText(lines), '\n') == lines + [""]
  {
    FileTextIsJoin(lines);
    JoinSplit(lines + [""], '\n');
  }

  /** What updateFile produces: the text it writes to the client, the
      filesystem afterwards, and the position in the request stream. */
  datatype Update = Update(response: string, store: Store, next: nat)

  /** updateFile: the created/updated line is chosen from File.isFile before
      anything is opened; when the FileWriter cannot be opened the 500 error
      follows that line, nothing is read and nothing changes; otherwise the
      file is replaced by the body. */
  function UpdateOutcome(store: Store, pathname: string, input: seq<string>, pos: nat): (u: Update)
    requires pos <= |input|
    ensures StartsWith(u.response, UpdatedLine) || StartsWith(u.response, CreatedLine)
    ensures u.store.writable == store.writable && pos <= u.next <= |input|
  {
    var name := UpdateTarget(pathname);
    var status := if name in store.files then UpdatedLine else CreatedLine;
    if name !in store.writable then Update(status + ErrorResponse(InternalError), store, pos)
    else
      var body := ReadBody(input, pos);
      Update(status, Store(store.files[name := FileText(body.lines)], store.writable), body.next)
  }

  /** "File updated" is reported exactly when a regular file existed before
      the write, "File created" otherwise, whatever happens afterwards. */
  lemma UpdateReportsPriorFile(store: Store, pathname: string, input: seq<string>, pos: nat)
    requires pos <= |input|
    ensures var u := UpdateOutcome(store, pathname, input, pos);
      (StartsWith(u.response, UpdatedLine) <==> UpdateTarget(pathname) in store.files) &&
      (StartsWith(u.response, CreatedLine) <==> UpdateTarget(pathname) !in store.files)
  {
    var name := UpdateTarget(pathname);
    var status := if name in store.files then UpdatedLine else CreatedLine;
    var r := UpdateOutcome(store, pathname, input, pos).response;
    assert r[..|status|] == status;
    assert r[10] == status[10];
  }

  /** The write replaces one file and only that one; a failed open changes
      nothing and puts the 500 error text after the status line. */
  lemma UpdateFrame(store: Store, pathname: string, input: seq<string>, pos: nat)
    requires pos <= |input|
    ensures var u := UpdateOutcome(store, pathname, input, pos);
      var name := UpdateTarget(pathname);
      u.store.writable == store.writable &&
      (forall other :: other != name ==> (other in u.store.files <==> other in store.files)) &&
      (forall other :: other != name && other in store.files ==> u.store.files[other] == store.files[other]) &&
      (name in store.writable <==>
        (name in u.store.files && u.store.files[name] == FileText(ReadBody(input, pos).lines)
         && u.response in {UpdatedLine, CreatedLine})) &&
      (name !in store.writable ==>
        u.store == store && u.next == pos &&
        u.response == (if name in store.files then UpdatedLine else CreatedLine) + ErrorResponse(InternalError))
  {
    var name := UpdateTarget(pathname);
    if name !in store.writable {
      var u := UpdateOutcome(store, pathname, input, pos);
      assert |u.response| > |UpdatedLine| == |CreatedLine|;
    }
  }

  /** Updates keep the empty name out of the filesystem. */
  lemma UpdateKeepsStoreOk(store: Store, pathname: string, input: seq<string>, pos: nat)
    requires pos <= |input| && StoreOk(store)
    ensures StoreOk(UpdateOutcome(store, pathname, input, pos).store)
  {
  }

  /** A PUT of "/" names the empty file: it is reported as created and then
      fails with the 500 error. */
  lemma UpdateRootFails(store: Store, input: seq<string>, pos: nat)
    requires pos <= |input| && StoreOk(store)
    ensures UpdateOutcome(store, "/", input, pos).response == CreatedLine + ErrorResponse(InternalError)
    ensures UpdateOutcome(store, "/", input, pos).store == store
  {
    assert UpdateTarget("/") == "";
  }

  /** A GET after a successful PUT of the same path returns the lines the PUT
      read, each followed by the separator. */
  lemma ServeAfterUpdate(store: Store, pathname: string, input: seq<string>, pos: nat)
    requires pos <= |input| && pathname != [] && pathname != "/"
    requires UpdateTarget(pathname) in store.writable
    ensures var u := UpdateOutcome(store, pathname, input, pos);
      ServeResponse(u.store, pathname) == OkHead + FileText(ReadBody(input, pos).lines)
  {
    assert ServeTarget(pathname) == UpdateTarget(pathname);
  }

  /** A second PUT of a path the first PUT wrote reports "File updated". */
  lemma SecondUpdateReportsUpdated(store: Store, pathname: string, input: seq<string>, pos: nat,
                                   input2: seq<string>, pos2: nat)
    requires pos <= |input| && pos2 <= |input2|
    requires UpdateTarget(pathname) in store.writable
    ensures var u := UpdateOutcome(store, pathname, input, pos);
      StartsWith(UpdateOutcome(u.store, pathname, input2, pos2).response, UpdatedLine)
  {
    var u := UpdateOutcome(store, pathname, input, pos);
    UpdateReportsPriorFile(u.store, pathname, input2, pos2);
  }

  /** For a contained path both handlers open a name inside the working
      directory: "/" itself (which GET serves as index.html and PUT names
      as the empty file), or a relative path with no empty, "." or ".." segment. */
  lemma ContainedTargets(pathname: string)
    requires Contained(pathname)
    ensures pathname == "/" ==> ServeTarget(pathname) == IndexFile && UpdateTarget(pathname) == ""
    ensures pathname != "/" ==>
      (ServeTarget(pathname) == UpdateTarget(pathname) && AllNames(SplitOn(UpdateTarget(pathname), '/')))
  {
    ContainedIff(pathname);
    if pathname != "/" {
      assert pathname == "/" + pathname[1..];
      assert AllNames(SplitOn(pathname[1..], '/'));
    }
  }
}
