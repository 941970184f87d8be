/** `lambda_handler`: reads the operation and the book payload out of the
    gateway event, pops the optional image, routes to a handler (or answers
    `echo` itself) and normalises what the handler returns.

    The event is the Python dict the gateway hands over. `json.loads` is a
    parameter (`None` stands for a JSONDecodeError), and so is every remote
    outcome a handler may see. An exception that nothing catches is reported
    as `Raised`. */
module Dispatcher {
  import opened Values
  import opened UpdateBuilder
  import opened Handlers

  /** What `lambda_handler` returns, or the exception that escapes it. A
      response's body is the string `json.dumps` made, so it is always `Dumps`. */
  datatype Outcome =
    | Response(statusCode: int, body: Payload)
    | EchoReply(message: Value)
    | Raised(exception: Exception)

  /** `json.loads` and the outcomes of the remote calls a handler can make. */
  datatype Services = Services(
    parse: string -> Option<Value>,
    put: Reported,
    get: Lookup,
    update: Reported,
    upload: Reported,
    deleteFetch: Lookup,
    delete: Reported,
    deleteImage: Reported)

  /** A served request: the outcome, the dict handed to the handler (if one
      ran) and the remote calls issued. */
  datatype Served = Served(outcome: Outcome, handed: Option<Dict>, calls: seq<Call>)

  /** The state reached after lines 21-32, just before routing. `echoDict` is
      the event's own `dictionary` when it is a dict: the very object `pop`
      removed the image from. */
  datatype Prepared = Prepared(operation: string, book: Dict, image: Value, isBase64: Value, echoDict: Option<Dict>)

  datatype Stage = Ready(prepared: Prepared) | Finished(outcome: Outcome)

  const UnsupportedPrefix := "Unsupported operation: "
  const InvalidJson := "Invalid JSON format for book data"
  const MissingData := "Missing operation or data in request"
  const Supported: set<string> := {"echo", "create", "read", "update", "delete"}

  /** `json.dumps` of a plain string, as a response body. */
  function Text(s: string): Payload {
    Dumps(Plain(Str(s)))
  }

  function LowerChar(c: char): char {
    if 'A' <= c <= 'Z' then (c as int + 32) as char else c
  }

  function UpperChar(c: char): char {
    if 'a' <= c <= 'z' then (c as int - 32) as char else c
  }

  /** `str.lower()` on ASCII letters. */
  function Lower(s: string): string {
    seq(|s|, i requires 0 <= i < |s| => LowerChar(s[i]))
  }

  /** Matching after lower-casing is matching ignoring case: `s` lower-cases
      to the lower-case word `w` exactly when each letter of `s` is the
      letter of `w` in either case. */
  lemma LowerMatches(s: string, w: string)
    requires forall i :: 0 <= i < |w| ==> 'a' <= w[i] <= 'z'
    ensures Lower(s) == w <==>
              |s| == |w| && forall i :: 0 <= i < |s| ==> s[i] == w[i] || s[i] == UpperChar(w[i])
  {
    if |s| == |w| && forall i :: 0 <= i < |s| ==> s[i] == w[i] || s[i] == UpperChar(w[i]) {
      forall i | 0 <= i < |s| ensures Lower(s)[i] == w[i] {
      }
    }
  }

  /** The payload dict once parsed, before the image is popped. */
  function BookData(event: Dict, parse: string -> Option<Value>): Option<Dict> {
    var raw := GetOr(event, "dictionary", Null);
    var parsed := if raw.Str? then parse(raw.s) else Some(raw);
    if parsed.Some? && parsed.value.Obj? then Some(parsed.value.fields) else None
  }

  /** Lines 21-32: operation, payload, parse, image flag, image pop, message. */
  function Prepare(event: Dict, parse: string -> Option<Value>): (st: Stage)
    ensures st.Ready? ==>
              var p := st.prepared;
              var book := BookData(event, parse);
              book.Some? && RawOperation(event).Some? &&
              p.operation == Lower(RawOperation(event).value) &&
              p.isBase64 == GetOr(event, "isBase64Encoded", Bool(false)) &&
              p.book == Remove(book.value, "Image") &&
              p.image == GetOr(book.value, "Image", Null) &&
              "Image" !in Keys(p.book) &&
              (forall k :: k != "Image" ==> Get(p.book, k) == Get(book.value, k)) &&
              (p.echoDict.Some? ==> p.echoDict.value == p.book)
    ensures st.Finished? && st.outcome.Response? ==> st.outcome.body.Dumps?
  {
    var pathParameters := GetOr(event, "pathParameters", Obj([]));
    if !pathParameters.Obj? then Finished(Raised(AttributeError))
    else
      var operation := GetOr(pathParameters.fields, "operation", Str(""));
      if !operation.Str? then Finished(Raised(AttributeError))
      else
        var raw := GetOr(event, "dictionary", Null);
        var parsed := if raw.Str? then parse(raw.s) else Some(raw);
        match parsed
        case None => Finished(Response(400, Text(InvalidJson)))
        case Some(data) =>
          var isBase64 := GetOr(event, "isBase64Encoded", Bool(false));
          match data
          case Obj(fields) =>
            var (image, book) := Pop(fields, "Image", Null);
            if !GetOr(event, "body", Obj([])).Obj? then Finished(Raised(AttributeError))
            else Ready(Prepared(Lower(operation.s), book, image, isBase64, if raw.Obj? then Some(book) else None))
          case Arr(_) => Finished(Raised(TypeError))
          case _ => Finished(Raised(AttributeError))
  }

  /** Lines 61-64: status defaults to 200, body to the string '{}', and the
      body is JSON-encoded. */
  function Normalise(reply: Reply): (o: Outcome)
    ensures o.Response?
    ensures o.statusCode == if reply.statusCode.Some? then reply.statusCode.value else 200
    ensures o.body.Dumps?
    ensures reply.body.Some? ==> o.body.inner == reply.body.value
    ensures reply.body.None? ==> o.body.inner == Plain(Str("{}"))
  {
    Response(
      match reply.statusCode case Some(s) => s case None => 200,
      Dumps(match reply.body case Some(b) => b case None => Plain(Str("{}"))))
  }

  /** A handler's run as the dispatcher reports it: a KeyError is caught at
      line 65 and becomes a 400. */
  function Finish(run: Run, book: Dict): (r: Served)
    ensures r.handed == Some(book) && r.calls == run.calls
    ensures run.result.Returned? ==> r.outcome == Normalise(run.result.reply)
    ensures run.result == Threw(KeyError) ==> r.outcome == Response(400, Text(MissingData))
    ensures run.result.Threw? && run.result.exception != KeyError ==> r.outcome == Raised(run.result.exception)
  {
    var outcome :=
      match run.result
      case Returned(reply) => Normalise(reply)
      case Threw(KeyError) => Response(400, Text(MissingData))
      case Threw(e) => Raised(e);
    Served(outcome, Some(book), run.calls)
  }

  /** Lines 42-59: the routing. */
  function Route(p: Prepared, env: Services): (r: Served)
    ensures r.handed.Some? ==> r.handed.value == p.book && p.operation in Supported - {"echo"}
    ensures r.handed.None? ==> r.calls == []
    ensures r.outcome.Response? ==> r.outcome.body.Dumps?
    ensures p.operation == "echo" ==>
              r == Served(if p.echoDict.Some? then EchoReply(GetOr(p.echoDict.value, "message", Str("")))
                          else Raised(AttributeError), None, [])
    ensures p.operation == "create" ==> r == Finish(CreateBook(p.book, env.put), p.book)
    ensures p.operation == "read" ==> r == Finish(GetBook(p.book, env.get), p.book)
    ensures p.operation == "update" ==>
              r == Finish(UpdateBook(p.book, p.image, p.isBase64, env.update, env.upload), p.book)
    ensures p.operation == "delete" ==>
              r == Finish(DeleteBook(p.book, env.deleteFetch, env.delete, env.deleteImage), p.book)
    ensures p.operation !in Supported ==>
              r == Served(Response(400, Text(UnsupportedPrefix + p.operation)), None, [])
  {
    if p.operation == "echo" then
      var outcome :=
        match p.echoDict
        case Some(d) => EchoReply(GetOr(d, "message", Str("")))
        case None => Raised(AttributeError);
      Served(outcome, None, [])
    else if p.operation == "create" then Finish(CreateBook(p.book, env.put), p.book)
    else if p.operation == "read" then Finish(GetBook(p.book, env.get), p.book)
    else if p.operation == "update" then
      Finish(UpdateBook(p.book, p.image, p.isBase64, env.update, env.upload), p.book)
    else if p.operation == "delete" then
      Finish(DeleteBook(p.book, env.deleteFetch, env.delete, env.deleteImage), p.book)
    else Served(Response(400, Text(UnsupportedPrefix + p.operation)), None, [])
  }

  /** `lambda_handler(event, context)`. */
  function LambdaHandler(event: Dict, env: Services): (r: Served)
    ensures r.handed.Some? ==>
              var book := BookData(event, env.parse);
              book.Some? && "Image" !in Keys(r.handed.value) &&
              forall k :: k != "Image" ==> Get(r.handed.value, k) == Get(book.value, k)
    ensures r.handed.None? ==> r.calls == []
    ensures r.outcome.Response? ==> r.outcome.body.Dumps?
  {
    match Prepare(event, env.parse)
    case Finished(outcome) => Served(outcome, None, [])
    case Ready(p) => Route(p, env)
  }

  /** The operation as sent, when the event carries one as a string inside a
      `pathParameters` dict (missing reads as ""). */
  function RawOperation(event: Dict): Option<string> {
    var pathParameters := GetOr(event, "pathParameters", Obj([]));
    if !pathParameters.Obj? then None
    else
      var operation := GetOr(pathParameters.fields, "operation", Str(""));
      if operation.Str? then Some(operation.s) else None
  }

  /** An event that gets past lines 21-32: a string operation, a payload that is
      (or parses to) a dict, and a `body` that is a dict when present. */
  predicate Routable(event: Dict, parse: string -> Option<Value>) {
    RawOperation(event).Some? && BookData(event, parse).Some? && GetOr(event, "body", Obj([])).Obj?
  }

  /** Only a routable event reaches the routing, with its operation lower-cased. */
  lemma ReadyIffRoutable(event: Dict, parse: string -> Option<Value>)
    ensures Prepare(event, parse).Ready? <==> Routable(event, parse)
    ensures Prepare(event, parse).Ready? ==> Prepare(event, parse).prepared.operation == Lower(RawOperation(event).value)
  {
  }

  /** Any operation other than the five, the empty one included, is answered
      400 "Unsupported operation: <op>" and no handler runs. */
  lemma UnsupportedOperation(event: Dict, env: Services)
    requires Routable(event, env.parse)
    requires Lower(RawOperation(event).value) !in Supported
    ensures LambdaHandler(event, env) ==
              Served(Response(400, Text(UnsupportedPrefix + Lower(RawOperation(event).value))), None, [])
  {
    ReadyIffRoutable(event, env.parse);
  }

  /** An event without an operation is unsupported, with the message
      "Unsupported operation: ". */
  lemma MissingOperation(event: Dict, env: Services)
    requires Routable(event, env.parse)
    requires RawOperation(event) == Some("")
    ensures LambdaHandler(event, env) == Served(Response(400, Text("Unsupported operation: ")), None, [])
  {
    assert Lower("") == "";
    assert "" !in Supported;
    assert UnsupportedPrefix + Lower("") == "Unsupported operation: ";
    UnsupportedOperation(event, env);
  }

  /** A payload string that does not parse is answered 400 "Invalid JSON format
      for book data" before any handler runs. */
  lemma InvalidJsonPayload(event: Dict, env: Services, text: string)
    requires RawOperation(event).Some?
    requires GetOr(event, "dictionary", Null) == Str(text)
    requires env.parse(text).None?
    ensures LambdaHandler(event, env) == Served(Response(400, Text(InvalidJson)), None, [])
  {
  }

  /** `echo` answers `{'message': dictionary.message}` ('' when absent) with no
      status wrapper and no remote call: the image pop does not disturb it. A
      payload sent as a string makes the echo raise, because the event's
      `dictionary` is then a str without `.get`. */
  lemma Echo(event: Dict, env: Services)
    requires Routable(event, env.parse)
    requires Lower(RawOperation(event).value) == "echo"
    ensures GetOr(event, "dictionary", Null).Obj? ==>
              LambdaHandler(event, env) ==
                Served(EchoReply(GetOr(GetOr(event, "dictionary", Null).fields, "message", Str(""))), None, [])
    ensures GetOr(event, "dictionary", Null).Str? ==>
              LambdaHandler(event, env) == Served(Raised(AttributeError), None, [])
  {
    ReadyIffRoutable(event, env.parse);
    var p := Prepare(event, env.parse).prepared;
    var raw := GetOr(event, "dictionary", Null);
    if raw.Obj? {
      assert Get(p.book, "message") == Get(raw.fields, "message");
    }
  }

  /** The handler's status comes through unchanged; a KeyError inside a
      handler (update of a book without ISBN) becomes 400. */
  lemma UpdateWithoutIsbn(event: Dict, env: Services)
    requires Routable(event, env.parse)
    requires Lower(RawOperation(event).value) == "update"
    requires KeyAttribute !in Keys(BookData(event, env.parse).value)
    ensures LambdaHandler(event, env) ==
              Served(Response(400, Text(MissingData)), Some(Prepare(event, env.parse).prepared.book), [])
  {
    ReadyIffRoutable(event, env.parse);
    var p := Prepare(event, env.parse).prepared;
    assert Get(p.book, KeyAttribute) == Get(BookData(event, env.parse).value, KeyAttribute);
  }

  /** Reading a book that is not there is 200 with body `json.dumps({})`. */
  lemma ReadAbsent(event: Dict, env: Services)
    requires Routable(event, env.parse)
    requires Lower(RawOperation(event).value) == "read"
    requires env.get == NoItem
    ensures LambdaHandler(event, env).outcome == Response(200, Dumps(Plain(Obj([]))))
  {
    ReadyIffRoutable(event, env.parse);
  }

  /** Creating answers 201 with its message, 409 for an existing ISBN, 500 with
      the store's message for another ClientError; any other exception from the
      put escapes `lambda_handler`. The handler's body is already a JSON string,
      which the dispatcher encodes a second time. */
  lemma CreateStatus(event: Dict, env: Services)
    requires Routable(event, env.parse)
    requires Lower(RawOperation(event).value) == "create"
    ensures var o := LambdaHandler(event, env).outcome;
            (o.Response? <==> !env.put.OtherFailure?) &&
            (env.put.OtherFailure? ==> o == Raised(Foreign(env.put.name))) &&
            (o.Response? && o.statusCode == 201 <==> env.put.Succeeded?) &&
            (o.Response? && o.statusCode == 409 <==>
               env.put.ClientFailure? && env.put.error.code == ConditionalCheckFailed) &&
            (o.Response? && o.statusCode == 500 <==>
               env.put.ClientFailure? && env.put.error.code != ConditionalCheckFailed) &&
            (env.put.Succeeded? ==> o == Response(201, Dumps(MessageBody("Book created successfully!")))) &&
            (env.put.ClientFailure? && env.put.error.code == ConditionalCheckFailed ==>
               o == Response(409, Dumps(Text("Book with this ISBN already exists")))) &&
            (env.put.ClientFailure? && env.put.error.code != ConditionalCheckFailed ==>
               o == Normalise(HandleError(env.put.error, "create")))
  {
    ReadyIffRoutable(event, env.parse);
  }

  /** An update sends `update_item` keyed by exactly `{"ISBN": isbn}`, with the
      expression and placeholders of the payload less its image; a truthy image
      is then written under `f"{isbn}.jpg"` as the popped value itself. */
  lemma UpdateCalls(event: Dict, env: Services)
    requires Routable(event, env.parse)
    requires Lower(RawOperation(event).value) == "update"
    requires KeyAttribute in Keys(BookData(event, env.parse).value)
    ensures var original := BookData(event, env.parse).value;
            var book := Remove(original, "Image");
            var isbn := GetOr(original, KeyAttribute, Null);
            var image := GetOr(original, "Image", Null);
            var calls := LambdaHandler(event, env).calls;
            calls == [UpdateItem([(KeyAttribute, isbn)], UpdateExpression(book), AttributeValues(book))] +
                     (if env.update.Succeeded? && Truthy(image)
                      then [ImageCall(isbn, image, GetOr(event, "isBase64Encoded", Bool(false)))]
                      else [])
  {
    ReadyIffRoutable(event, env.parse);
    var original := BookData(event, env.parse).value;
    var p := Prepare(event, env.parse).prepared;
    assert Get(p.book, KeyAttribute) == Get(original, KeyAttribute);
    assert LambdaHandler(event, env) == Finish(UpdateBook(p.book, p.image, p.isBase64, env.update, env.upload), p.book);
  }

  /** The update of `{ISBN: "123", title: "New"}` names only `title` and is
      keyed by `{ISBN: "123"}`. */
  lemma UpdateExample(event: Dict, env: Services)
    requires event == [("pathParameters", Obj([("operation", Str("Update"))])),
                       ("dictionary", Obj([("ISBN", Str("123")), ("title", Str("New"))]))]
    ensures var calls := LambdaHandler(event, env).calls;
            |calls| >= 1 &&
            calls[0] == UpdateItem([("ISBN", Str("123"))], "SET title = :title", [(":title", Str("New"))])
  {
    var book := [("ISBN", Str("123")), ("title", Str("New"))];
    assert Keys(event) == ["pathParameters", "dictionary"];
    assert GetOr(event, "pathParameters", Obj([])) == Obj([("operation", Str("Update"))]);
    assert GetOr(event, "dictionary", Null) == Obj(book);
    assert "body" !in Keys(event);
    assert RawOperation(event) == Some("Update");
    assert Lower("Update") == "update";
    assert BookData(event, env.parse) == Some(book);
    assert Keys(book) == ["ISBN", "title"];
    RemoveAbsent(book, "Image");
    UpdateCalls(event, env);
    TitleUpdate(book);
    assert GetOr(book, KeyAttribute, Null) == Str("123");
  }
}
