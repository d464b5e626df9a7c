# SimpleWebServer in Dafny

This project models the request handling of SimpleWebServer, a small Java
web server used to teach security. One connection goes through three stages:

- `isValidRequest` reads the request line and the header block. It refuses
  the request with one of the fixed error responses of `handleError`. Its
  checks run in this order:
  1. header format;
  2. the size of the request line in UTF-8;
  3. tokenising into the `command`, `pathname` and `httpVersion` fields;
  4. the HTTP version;
  5. path containment;
  6. Content-Length.
- `processRequest` dispatches a valid request: GET goes to `serveFile`, PUT
  goes to `updateFile`, and any other command gets error 501.
- `serveFile` answers 200 with a file's text, or 404. `updateFile` reports
  "created" or "updated" and then replaces the file with the request body.

The model has two layers.

- **Functions** (modules `Text`, `Decimal`, `ErrorTable`, `Paths`, `Headers`,
  `Validation`, `Handlers`, `Exchange`) say what each piece computes:
  - `Validate` is isValidRequest;
  - `ServeResponse` is serveFile;
  - `UpdateOutcome` is updateFile;
  - `Respond` is a whole connection.

  The lemmas about these functions carry the properties.
- **Classes** (module `Server`) follow the Java code imperatively:
  - `Connection` stands for the socket's reader and writer;
  - `SimpleWebServer` has the three request fields and the filesystem as
    mutable fields;
  - the header loop, the character loop of serveFile and the body loop of
    updateFile are `while` loops with invariants;
  - each method is proved to produce exactly what the matching function
    describes.

`Scenarios` proves the behaviour of whole connections from these pieces. For
example, a GET climbing above the root gets 403, and what a PUT stores is
what a later GET returns.

The model makes these choices:

- **Connection.** The request is a sequence of lines without their
  terminators, and reading past the end gives null (`None`). The client
  receives one string, and the connection has a closed flag.
- **Filesystem.** A `Store` has two parts. `files` maps the names of regular
  files to their contents: what `File.isFile` reports and what `FileReader`
  opens. `writable` is the set of names a `FileWriter` can open.
- **Canonical paths.** `getCanonicalPath` is a lexical normaliser. It cuts
  the path at `/`, drops empty and `.` segments, and lets `..` remove the
  previous segment, never going above the root.
- **Fields.** `command`, `pathname` and `httpVersion` are `Option<string>`
  fields, where `None` stands for null. They are never reset between
  requests, as in the Java class.
- **UTF-8 size.** The request line's size is the UTF-8 length of its Unicode
  scalar values: 1, 2, 3 or 4 bytes each.
- **Header regex.** `^.*:\s.*$` is matched by a small automaton. Java's
  `.` excludes the line terminators `\n`, `\r`, U+0085, U+2028 and U+2029.
  Java's `\s` is space, `\t`, `\n`, U+000B, `\f` or `\r`. `HeaderMatchesIff`
  proves the automaton equal to a direct reading of the pattern.

Where the code and its intent differ, the model follows the code:

- The header lines are read and checked before the size bound. A malformed
  header is reported even for an oversize request line.
- `contentLength` starts as the empty string, not null. It only ever receives
  strings, so the "Missing content-length header" error (411) can never be
  produced, and a PUT without Content-Length is accepted.
- The message for an unsupported version is the one in `handleError`:
  "HTTP-Version needs to be either 1.0 or 1.1.".
- A field with no token left for it keeps its value from an earlier
  request: one token replaces only the command, and two tokens replace the
  command and the path but reuse the version. A missing version is refused
  as 400 only while no earlier request has set one.

## Model

| member | source | states |
|---|---|---|
| ErrorTable.ErrorCode | SimpleWebServer/src/SimpleWebServer.java:279-319 | the status code of each error is between 400 and 599, and below 500 exactly for the client errors (everything but NOT_IMPLEMENTED, BAD_HTTP and the default INTERNAL_ERROR) |
| ErrorTable.ErrorMessage | SimpleWebServer/src/SimpleWebServer.java:279-319 | every status has a non-empty message that does not end with a newline, so the response ends in exactly one blank line |
| ErrorTable.ErrorResponse | SimpleWebServer/src/SimpleWebServer.java:320-321 | the text handleError writes begins with "Return status " and ends with a blank line (ErrorResponseLayout gives the whole layout) |
| ErrorTable.ErrorResponseLayout | SimpleWebServer/src/SimpleWebServer.java:320-321 | the text handleError writes is "Return status ", the three-digit code (whose decimal value is the code), ": ", the message and "\n\n", in that layout |
| ErrorTable.ErrorResponseInjective | SimpleWebServer/src/SimpleWebServer.java:276-323 | different statuses give different texts, so a client can tell every error apart |
| Decimal.DecimalRoundTrip | SimpleWebServer/src/SimpleWebServer.java:320 | the `%d` rendering of a number reads back as that number |
| Decimal.DecimalStringInjective | SimpleWebServer/src/SimpleWebServer.java:320 | different numbers render differently |
| Decimal.ThreeDigits | SimpleWebServer/src/SimpleWebServer.java:320 | every code from 100 to 999 renders as three digits |
| Decimal.DecimalString | SimpleWebServer/src/SimpleWebServer.java:320 | `%d` of a natural number gives a non-empty string of decimal digits, with no leading zero except for 0 itself |
| Text.Utf8Length | SimpleWebServer/src/SimpleWebServer.java:141 | the UTF-8 byte count of the request line is between one and four bytes per character |
| Text.Utf8LengthAscii | SimpleWebServer/src/SimpleWebServer.java:141 | the UTF-8 size equals the number of characters exactly when the line is ASCII |
| Text.Tokenize | SimpleWebServer/src/SimpleWebServer.java:150-161 | StringTokenizer's tokens are non-empty and contain no space |
| Text.TokenizeJoin | SimpleWebServer/src/SimpleWebServer.java:150-161 | words joined by single spaces tokenise back into exactly those words |
| Text.SplitJoin | SimpleWebServer/src/SimpleWebServer.java:181 | joining the `/`-separated pieces of a path gives back the path |
| Text.JoinSplit | SimpleWebServer/src/SimpleWebServer.java:181 | splitting pieces joined by `/` gives back the pieces, when none contains `/` |
| Text.JavaSplit | SimpleWebServer/src/SimpleWebServer.java:135 | String.split on a one-character separator gives pieces free of the separator (JavaSplitLastIsLastToken relates its last piece to the tokens) |
| Text.JavaSplitLastIsLastToken | SimpleWebServer/src/SimpleWebServer.java:135-136 | the last element of String.split on a space is the line's last space-separated token |
| Headers.HeaderMatchesIff | SimpleWebServer/src/SimpleWebServer.java:129 | the regex test holds exactly when some colon is followed by one `\s` character and every other character is one that `.` matches |
| Headers.HeaderExamples | SimpleWebServer/src/SimpleWebServer.java:129 | "Host:x" fails the header format (the space after the colon is required), while "Host: " passes (the value may be empty) |
| Headers.HeaderMatches | SimpleWebServer/src/SimpleWebServer.java:129 | a line passing the header test has at least two characters, the colon and the whitespace after it (HeaderMatchesIff gives the exact pattern) |
| Headers.ContentLengthValue | SimpleWebServer/src/SimpleWebServer.java:133-136 | the value captured from a Content-Length line is non-empty, has no space and is the line's last token |
| Headers.NextContentLength | SimpleWebServer/src/SimpleWebServer.java:133-137 | a line starting with `Content-Length:` sets the captured value to its last token, any other line leaves it unchanged, and a non-null value never becomes null |
| Validation.AssignTokens | SimpleWebServer/src/SimpleWebServer.java:150-161 | the first token becomes the command, the second the path and the third the version, as far as there are tokens; a field with no token left for it keeps its earlier value |
| Validation.ScanHeaders | SimpleWebServer/src/SimpleWebServer.java:123-139 | the header loop stops just after reading a malformed line, just after a blank line, or at the end of the stream; a non-null Content-Length stays non-null |
| Validation.ScanHeadersDoneIff | SimpleWebServer/src/SimpleWebServer.java:126-132 | the header loop gets through the header block exactly when every line of the block has the header format |
| Validation.ScanHeadersStopsAtFirstBad | SimpleWebServer/src/SimpleWebServer.java:126-132 | the first malformed line ends the loop, and nothing after it is read |
| Validation.CheckFields | SimpleWebServer/src/SimpleWebServer.java:163-192 | if none of the checks after tokenising fires, the version is HTTP/1.0 or HTTP/1.1 and the path is contained |
| Validation.CheckRequestLine | SimpleWebServer/src/SimpleWebServer.java:141-192 | after the size check and the tokenising, the fields keep their consistency, and an accepted line has a supported version and a contained path |
| Validation.Validate | SimpleWebServer/src/SimpleWebServer.java:118-193 | isValidRequest leaves consistent fields and reads at least the request line; a valid request has a supported version and a contained path |
| Validation.BadHeaderWins | SimpleWebServer/src/SimpleWebServer.java:121-146 | the first malformed header is reported as MALFORMED_HEADER whatever the request line is, the fields are untouched, and reading stops right after that line |
| Validation.MalformedHeaderIff | SimpleWebServer/src/SimpleWebServer.java:126-132 | MALFORMED_HEADER is reported exactly when some line of the header block is malformed |
| Validation.TooLargeIff | SimpleWebServer/src/SimpleWebServer.java:141-145 | with well-formed headers, TOO_LARGE is reported exactly when the request line has more than 1024 UTF-8 bytes (1024 passes), and then the fields are untouched |
| Validation.ExtraTokenRejected | SimpleWebServer/src/SimpleWebServer.java:150-166 | below a well-formed header block and with a request line of at most 1024 UTF-8 bytes, a fourth token gives MALFORMED_REQUEST, after the first three tokens have been stored in the fields |
| Validation.MissingVersion | SimpleWebServer/src/SimpleWebServer.java:150-171 | below a well-formed header block and with a request line of at most 1024 UTF-8 bytes, fewer than three tokens leave the version at its earlier value, and the request is refused as malformed exactly when no earlier request set a version |
| Validation.BadVersionRejected | SimpleWebServer/src/SimpleWebServer.java:173-177 | once the earlier rules pass, a version other than HTTP/1.0 and HTTP/1.1 gives BAD_HTTP |
| Validation.ForbiddenIff | SimpleWebServer/src/SimpleWebServer.java:179-184 | once the earlier rules pass, FORBIDDEN is reported exactly when the path is not a canonical absolute path |
| Validation.ContentLengthNeverEnforced | SimpleWebServer/src/SimpleWebServer.java:122-190 | no request is ever refused with MISSING_CONTENT_LENGTH |
| Validation.AcceptedIff | SimpleWebServer/src/SimpleWebServer.java:118-193 | a request is valid exactly when its header block is well formed, its line has at most 1024 bytes and at most three tokens, and the fields left by tokenising hold a supported version and a canonical absolute path |
| Paths.Resolve | SimpleWebServer/src/SimpleWebServer.java:180-181 | resolving segments that contain no `/` onto proper names leaves only proper names (no empty, `.` or `..` segment) |
| Paths.Render | SimpleWebServer/src/SimpleWebServer.java:181 | a canonical path is absolute: it starts with `/` |
| Paths.ChildOfRoot | SimpleWebServer/src/SimpleWebServer.java:180 | the path `new File("/", child)` builds, before File normalises the child, is absolute: the child itself exactly when it already starts with `/`, otherwise "/" followed by the child |
| Paths.CanonicalPath | SimpleWebServer/src/SimpleWebServer.java:181 | getCanonicalPath gives an absolute path (CanonicalPathIsCanonical and CanonicalIdempotent give the rest) |
| Paths.Contained | SimpleWebServer/src/SimpleWebServer.java:180-181 | a path passing the containment check starts with `/` (ContainedIff and ContainedShape give the exact condition) |
| Paths.ContainedIff | SimpleWebServer/src/SimpleWebServer.java:180-184 | a path passes the containment check exactly when it is "/" or a `/` followed by proper names separated by single slashes |
| Paths.ContainedShape | SimpleWebServer/src/SimpleWebServer.java:180-184 | every accepted path starts with `/`, has no empty, `.` or `..` segment, and has no trailing slash unless it is "/" |
| Paths.CanonicalPathIsCanonical | SimpleWebServer/src/SimpleWebServer.java:181 | getCanonicalPath always gives a canonical absolute path |
| Paths.CanonicalIdempotent | SimpleWebServer/src/SimpleWebServer.java:181 | canonicalising a canonical path changes nothing |
| Paths.ClimbAboveRootRefused | SimpleWebServer/src/SimpleWebServer.java:180-184 | no path starting with "/../" passes the containment check |
| Paths.TraversalRefused | SimpleWebServer/src/SimpleWebServer.java:180-184 | "/../etc/passwd" fails the containment check |
| Handlers.ServeTarget | SimpleWebServer/src/SimpleWebServer.java:199-208 | serveFile opens the path with one leading `/` removed (the name updateFile opens), or "index.html" when nothing is left |
| Handlers.ServeResponse | SimpleWebServer/src/SimpleWebServer.java:194-231 | serveFile writes one of exactly two responses: the 200 head followed by text, or the 404 head (ServeResponseCases says which) |
| Handlers.ServeResponseCases | SimpleWebServer/src/SimpleWebServer.java:194-231 | serveFile answers the 200 head followed by the file's text verbatim exactly when the file exists, and otherwise exactly the 404 head |
| Handlers.UpdateTarget | SimpleWebServer/src/SimpleWebServer.java:243-245 | updateFile opens the path with one leading `/` removed, if there is one |
| Handlers.ReadBody | SimpleWebServer/src/SimpleWebServer.java:256-261 | the body loop reads forward and never past the end of the stream, and reads at least as many lines as it returns (ReadBodyMeaning gives the exact lines) |
| Handlers.FileText | SimpleWebServer/src/SimpleWebServer.java:258-262 | the text the BufferedWriter leaves is empty exactly when no line was written, and otherwise ends with the line separator |
| Handlers.ReadBodyMeaning | SimpleWebServer/src/SimpleWebServer.java:258 | the body is the run of non-empty lines after the headers; reading stops at the end of the stream, or just after the blank line that ends the body |
| Handlers.FileTextSnoc | SimpleWebServer/src/SimpleWebServer.java:258-261 | writing one more line appends it and one line separator |
| Handlers.FileTextLines | SimpleWebServer/src/SimpleWebServer.java:255-262 | the file text, cut at the separator, gives back the lines written, then an empty last piece |
| Handlers.UpdateOutcome | SimpleWebServer/src/SimpleWebServer.java:241-268 | updateFile always answers first with the updated or the created line, never changes which names are writable, and reads forward within the stream (UpdateReportsPriorFile and UpdateFrame give the rest) |
| Handlers.UpdateReportsPriorFile | SimpleWebServer/src/SimpleWebServer.java:248-253 | "File updated" is reported exactly when a regular file existed before the write, and "File created" otherwise, whether or not the write then fails |
| Handlers.UpdateFrame | SimpleWebServer/src/SimpleWebServer.java:241-268 | only the target file changes; the write succeeds exactly when the target can be opened for writing, and then the file holds the body; a failed open answers the created or updated line followed by exactly the 500 error text, changes nothing and reads nothing |
| Handlers.UpdateKeepsStoreOk | SimpleWebServer/src/SimpleWebServer.java:241-268 | updating keeps the empty name out of the filesystem |
| Handlers.UpdateRootFails | SimpleWebServer/src/SimpleWebServer.java:243-266 | a PUT of "/" is reported as created, then followed by the 500 error, and changes nothing |
| Handlers.ServeAfterUpdate | SimpleWebServer/src/SimpleWebServer.java:194-262 | after a successful update, serving the same path returns the 200 head followed by the body lines, each followed by the separator |
| Handlers.SecondUpdateReportsUpdated | SimpleWebServer/src/SimpleWebServer.java:248-262 | a second PUT of a path the first PUT wrote reports "File updated" |
| Handlers.ContainedTargets | SimpleWebServer/src/SimpleWebServer.java:199-245 | for a contained path both handlers open a name inside the working directory: "index.html" or the empty name for "/", otherwise the same proper relative name for both |
| Exchange.Dispatch | SimpleWebServer/src/SimpleWebServer.java:81-98 | GET, and only GET, goes to serveFile; PUT, and only PUT, goes to updateFile; anything else goes to the 501 error; the test is exact and case-sensitive |
| Exchange.Respond | SimpleWebServer/src/SimpleWebServer.java:62-103 | a connection keeps the fields consistent |
| Exchange.RejectedChangesNoFile | SimpleWebServer/src/SimpleWebServer.java:76-98 | a refused request gets exactly its error text and changes no file; a request that is not a PUT changes no file; a PUT leaves the writable names, the set of other files and their contents unchanged, so only its target can appear or change |
| Exchange.HandledNamesContained | SimpleWebServer/src/SimpleWebServer.java:76-91 | for every valid request the handlers open a name inside the working directory |
| Server.Connection.ReadLine | SimpleWebServer/src/SimpleWebServer.java:121-123 | readLine gives the next line and moves on, or null at the end of the stream |
| Server.Connection.Write | SimpleWebServer/src/SimpleWebServer.java:321 | writing appends the text to what the client receives |
| Server.Connection.Close | SimpleWebServer/src/SimpleWebServer.java:322 | closing marks the writer closed |
| Server.SimpleWebServer.constructor | SimpleWebServer/src/SimpleWebServer.java:41-47 | a new server starts with null fields and the given filesystem, which must not hold the empty name (no file can be opened under it) |
| Server.SimpleWebServer.HandleError | SimpleWebServer/src/SimpleWebServer.java:276-323 | handleError writes exactly the error text of its status and closes the writer |
| Server.SimpleWebServer.IsValidRequest | SimpleWebServer/src/SimpleWebServer.java:118-193 | the method returns what Validate says, leaves the fields and the read position as Validate says, writes the error text exactly when it returns false, and then closes the writer |
| Server.SimpleWebServer.AssignRequestTokens | SimpleWebServer/src/SimpleWebServer.java:150-163 | the fields become AssignTokens of the line's tokens, and the result reports whether a fourth token is left |
| Server.SimpleWebServer.ReadHeaders | SimpleWebServer/src/SimpleWebServer.java:121-139 | the header loop reads and reports exactly what ScanHeaders describes; it writes the MALFORMED_HEADER text and closes the writer only on a malformed line |
| Server.SimpleWebServer.ServeFile | SimpleWebServer/src/SimpleWebServer.java:194-231 | the client receives exactly ServeResponse |
| Server.SimpleWebServer.UpdateFile | SimpleWebServer/src/SimpleWebServer.java:241-268 | the text written, the filesystem and the read position are exactly UpdateOutcome's, and the writer is closed exactly when the target cannot be opened |
| Server.SimpleWebServer.WriteBody | SimpleWebServer/src/SimpleWebServer.java:255-262 | the target file ends up holding FileText of the body lines, and reading stops where ReadBody says |
| Server.SimpleWebServer.ProcessRequest | SimpleWebServer/src/SimpleWebServer.java:62-103 | processRequest writes exactly Respond's response, leaves the fields and the filesystem as Respond says, and ends with the writer closed |
| Scenarios.RequestLineTokens | SimpleWebServer/src/SimpleWebServer.java:150-161 | a request line of three words separated by single spaces tokenises into those three words |
| Scenarios.ThreeWordRequest | SimpleWebServer/src/SimpleWebServer.java:118-193 | a request line that is exactly three words separated by single spaces, with no leading or trailing space, of at most 256 characters, below a well-formed header block, sets all three fields; it is refused with BAD_HTTP for an unsupported version, otherwise with FORBIDDEN for a non-canonical path, and is otherwise valid |
| Scenarios.OneWordRequest | SimpleWebServer/src/SimpleWebServer.java:150-184 | below a well-formed header block, a request line that is exactly one word (no spaces at all) of at most 256 characters replaces only the command, and the checks use the path and the version left by earlier requests |
| Scenarios.TraversalForbidden | SimpleWebServer/src/SimpleWebServer.java:179-184 | below a well-formed header block, a request line "GET /../<rest> HTTP/1.1", where `<rest>` is one non-empty token without spaces of at most 200 characters, gets "Return status 403: Forbidden" and changes no file |
| Scenarios.Http2Refused | SimpleWebServer/src/SimpleWebServer.java:173-177 | below a well-formed header block, a request line of at most 256 characters that is exactly a one-token command, a one-token path and "HTTP/2.0", separated by single spaces with no leading or trailing space, gets the 505 text and changes no file |
| Scenarios.UnknownCommandNotImplemented | SimpleWebServer/src/SimpleWebServer.java:92-97 | below a well-formed header block, a request line of three single-space-separated words of at most 256 characters, with a supported version, a canonical path and a command other than GET and PUT, gets the 501 text and changes no file, but its fields stay set |
| Scenarios.ValidGet | SimpleWebServer/src/SimpleWebServer.java:81-85 | below a well-formed header block, a request line "GET <path> <version>" of single-space-separated words, of at most 256 characters, with a supported version and a canonical path, is answered by serveFile and changes no file |
| Scenarios.ValidPut | SimpleWebServer/src/SimpleWebServer.java:86-91 | below a well-formed header block, a request line "PUT <path> <version>" of single-space-separated words, of at most 256 characters, with a supported version and a canonical path, is answered by updateFile, which reads the body from the line after the header block |
| Scenarios.PutWithoutContentLength | SimpleWebServer/src/SimpleWebServer.java:186-190 | a PUT request line as in ValidPut (three single-space-separated words, at most 256 characters, supported version, canonical path, well-formed headers) reaches updateFile whether or not it has a Content-Length header, so its answer starts with the created or the updated line |
| Scenarios.StaleFieldsReused | SimpleWebServer/src/SimpleWebServer.java:41-43 | below a well-formed header block, a request line that is only "PUT" or "GET" is served with the path and the version of an earlier request, when that path is canonical and that version is HTTP/1.0 or HTTP/1.1 |
| Scenarios.PutThenGet | SimpleWebServer/src/SimpleWebServer.java:194-262 | for "PUT <path> HTTP/1.1" then "GET <path> HTTP/1.1", each below a well-formed header block, with `<path>` a canonical one-token path other than "/" of at most 200 characters whose target is writable, the GET returns the 200 head and the PUT's body lines, each followed by the separator |
| Scenarios.SecondPutUpdates | SimpleWebServer/src/SimpleWebServer.java:248-253 | for "PUT <path> HTTP/1.1" then "PUT <path> HTTP/1.0", each below a well-formed header block, with `<path>` a canonical one-token path of at most 200 characters whose target is writable, the second PUT answers "Request 200: File updated" |

## Left out

- The server socket, the accept loop of `run`, `main` and the construction of the socket streams are network plumbing. They are not modelled.
- `getCanonicalPath` is modelled lexically. Symbolic links, platform path rules and the working directory do not take part.
- Paths.ChildOfRoot does not normalise the child as `java.io.File` does (collapsing repeated slashes, dropping a trailing slash). Both remove only empty segments, which CanonicalPath drops as well, so Contained is unaffected; the path ChildOfRoot returns can differ from File's own `getPath()`.
- Input decoding by InputStreamReader, and the character encoding of files read by FileReader, are not modelled. Lines and file contents are sequences of Unicode scalar values, so Java strings with unpaired surrogates are not covered.
- Reader and writer exceptions other than a FileWriter that cannot be opened are not modelled. This covers a read error in the middle of a file and a write or close failure in updateFile.
- Any file that FileReader can open is taken to be a regular file. A regular file that reports `isFile` but cannot be read, or a readable non-regular file, is not modelled.
- `bw.newLine()` writes the platform line separator, which is taken as "\n".
- `String.format` in `handleError` uses the default locale, which is taken to have the digits '0'-'9'; a locale with other digits (such as Thai digits) is not modelled.
- The IOException that `getCanonicalPath` throws for a path containing U+0000 is not modelled: such a path is checked lexically like any other, while in Java the exception escapes `isValidRequest` and `processRequest` before any response is written.
- The `System.out.println` logging has no effect on the client. It is left out.
- A second close of the writer has no effect, as in the model's `Close`.
- Server.SimpleWebServer.IsValidRequest requires a request line. When the stream is empty, Java's `readLine` gives null and `request.getBytes` throws a NullPointerException; that path is not modelled.
- Server.SimpleWebServer.ServeFile requires a non-empty path. Java throws on an empty path at `pathname.charAt(0)`, but a validated path always starts with `/`, so this cannot happen after validation.
- Server.SimpleWebServer.ReadHeaders, Server.SimpleWebServer.AssignRequestTokens and Server.SimpleWebServer.WriteBody are parts of `isValidRequest` and `updateFile` split out as methods of their own. The header loop computes the captured Content-Length value with Headers.NextContentLength instead of splitting the line inline.
- Server.SimpleWebServer.WriteBody updates the file once, when the BufferedWriter is closed. A failure partway through the write is not modelled.
