/**
 * One connection handled by processRequest, as a function: validation, then
 * the dispatch on the command, then the handler. The state that outlives the
 * connection is the server's three fields and the filesystem.
 */
module Exchange {
  import opened ErrorTable
  import opened Text
  import opened Paths
  import opened Validation
  import opened Handlers

  /** Where processRequest sends a valid request. */
  datatype Route = ServeGet | UpdatePut | Unsupported

  /** The dispatch: GET to serveFile, PUT to updateFile, any other command to
      the NotImplemented error. The test is exact and case-sensitive. */
  function Dispatch(command: string): (r: Route)
    ensures r == ServeGet <==> command == "GET"
    ensures r == UpdatePut <==> command == "PUT"
  {
    if command == "GET" then ServeGet
    else if command == "PUT" then UpdatePut
    else Unsupported
  }

  /** What survives a connection: the fields and the filesystem. */
  datatype State = State(fields: Fields, store: Store)

  /** The text written to the client and the state afterwards. */
  datatype Outcome = Outcome(response: string, state: State)

  /** processRequest on a fresh connection whose request stream is `input`. */
  function Respond(s: State, input: seq<string>): (o: Outcome)
    requires |input| >= 1 && FieldsOk(s.fields)
    ensures FieldsOk(o.state.fields)
  {
    var v := Validate(s.fields, input);
    if v.error.Some? then Outcome(ErrorResponse(v.error.value), State(v.fields, s.store))
    else
      var path := v.fields.pathname.value;
      match Dispatch(v.fields.command.value)
      case ServeGet => Outcome(ServeResponse(s.store, path), State(v.fields, s.store))
      case UpdatePut =>
        var u := UpdateOutcome(s.store, path, input, v.next);
        Outcome(u.response, State(v.fields, u.store))
      case Unsupported => Outcome(ErrorResponse(NotImplemented), State(v.fields, s.store))
  }

  /** A rejected request gets exactly one error text and changes no file;
      only an accepted PUT can change the filesystem, and then only the file
      its path names. */
  lemma RejectedChangesNoFile(s: State, input: seq<string>)
    requires |input| >= 1 && FieldsOk(s.fields)
    ensures var v := Validate(s.fields, input);
      var o := Respond(s, input);
      (v.error.Some? ==> o.response == ErrorResponse(v.error.value) && o.state.store == s.store) &&
      (v.error.None? && v.fields.command.value != "PUT" ==> o.state.store == s.store) &&
      (v.error.None? && v.fields.command.value == "PUT" ==>
        o.state.store.writable == s.store.writable &&
        (forall name :: name != UpdateTarget(v.fields.pathname.value) ==>
          (name in o.state.store.files <==> name in s.store.files)) &&
        (forall name :: name != UpdateTarget(v.fields.pathname.value) && name in s.store.files ==>
          o.state.store.files[name] == s.store.files[name]))
  {
    var v := Validate(s.fields, input);
    if v.error.None? && v.fields.command.value == "PUT" {
      UpdateFrame(s.store, v.fields.pathname.value, input, v.next);
    }
  }

  /** Every file either handler touches lies inside the working directory. */
  lemma HandledNamesContained(s: State, input: seq<string>)
    requires |input| >= 1 && FieldsOk(s.fields)
    requires Validate(s.fields, input).error.None?
    ensures var path := Validate(s.fields, input).fields.pathname.value;
      path == "/" || AllNames(SplitOn(UpdateTarget(path), '/'))
  {
    ContainedTargets(Validate(s.fields, input).fields.pathname.value);
  }
}
