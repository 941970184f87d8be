/** The four book handlers of the Lambda and its generic error mapper.

    Every call to the record store (DynamoDB) or the blob store (S3) is replaced
    by the outcome that call reports, passed in as a parameter; each handler
    returns its result together with the calls it issued, in order. A botocore
    `ClientError` raised by a call is caught inside the handler, as in the
    source; any other exception escapes to the dispatcher as `Threw`. */
module Handlers {
  import opened Values
  import opened UpdateBuilder

  /** A botocore `ClientError`: `e.response['Error']['Code']` and `['Message']`. */
  datatype ClientError = ClientError(code: string, message: string)

  /** Python exceptions other than ClientError that the model follows. */
  datatype Exception =
    | KeyError               // a missing dict key; lambda_handler turns it into a 400
    | AttributeError
    | TypeError
    | UnboundLocalError
    | Foreign(name: string)  // raised by a library call outside this model

  /** A body before the dispatcher encodes it: a plain value, or the string
      that `json.dumps` produced from another body. */
  datatype Payload = Plain(v: Value) | Dumps(inner: Payload)

  /** The dict a handler returns, with its optional `statusCode` and `body`. */
  datatype Reply = Reply(statusCode: Option<int>, body: Option<Payload>)

  datatype HandlerResult = Returned(reply: Reply) | Threw(exception: Exception)

  /** An S3 object key: `f"{isbn}.jpg"`, or a stored value used as it is. */
  datatype ObjectKey = ImageOf(isbn: Value) | Verbatim(key: Value)

  /** The remote calls a handler can issue. */
  datatype Call =
    | PutItem(item: Dict, condition: string)
    | GetItem(key: Dict)
    | UpdateItem(key: Dict, updateExpression: string, values: Dict)
    | DeleteItem(key: Dict)
    | PutObject(objectKey: ObjectKey, body: Value)
    | UploadFile(path: Value, objectKey: ObjectKey)
    | DeleteObject(objectKey: ObjectKey)

  /** A handler's result and the remote calls it issued, in order. */
  datatype Run = Run(result: HandlerResult, calls: seq<Call>)

  /** What a call that returns nothing of interest reports: success, a
      `ClientError`, or any other exception (a connection or timeout error, a
      parameter validation error), which no handler catches. */
  datatype Reported = Succeeded | ClientFailure(error: ClientError) | OtherFailure(name: string)

  /** What a record-store `get_item` reports. */
  datatype Lookup = Found(item: Dict) | NoItem | LookupFailed(error: ClientError) | LookupRaised(name: string)

  const ConditionalCheckFailed := "ConditionalCheckFailedException"
  const CreateCondition := "attribute_not_exists(ISBN)"

  /** The status a run returns, if it returned one. */
  function StatusOf(r: Run): Option<int> {
    if r.result.Returned? then r.result.reply.statusCode else None
  }

  /** The text of a body that is `json.dumps` of a plain string. */
  function DumpedText(r: Reply): Option<string> {
    if r.body.Some? && r.body.value.Dumps? && r.body.value.inner.Plain? && r.body.value.inner.v.Str?
    then Some(r.body.value.inner.v.s)
    else None
  }

  /** `json.dumps({'message': text})`, the success bodies. */
  function MessageBody(text: string): Payload {
    Dumps(Plain(Obj([("message", Str(text))])))
  }

  /** `handle_error`: always 500, and the body names the failed operation and
      carries the store's own message. */
  function HandleError(e: ClientError, operation: string): (r: Reply)
    ensures r.statusCode == Some(500)
    ensures DumpedText(r).Some?
    ensures var text := DumpedText(r).value;
            var prefix := "Error during " + operation + " operation: ";
            |text| == |prefix| + |e.message| && text[..|prefix|] == prefix && text[|prefix|..] == e.message
  {
    Reply(Some(500), Some(Dumps(Plain(Str("Error during " + operation + " operation: " + e.message)))))
  }


  /** `create_book`: a put guarded by `attribute_not_exists(ISBN)`. */
  function CreateBook(book: Dict, put: Reported): (r: Run)
    ensures r.calls == [PutItem(book, CreateCondition)]
    ensures r.result.Returned? <==> !put.OtherFailure?
    ensures put.OtherFailure? ==> r.result == Threw(Foreign(put.name))
    ensures StatusOf(r) == Some(201) <==> put.Succeeded?
    ensures StatusOf(r) == Some(409) <==> put.ClientFailure? && put.error.code == ConditionalCheckFailed
    ensures StatusOf(r) == Some(500) <==> put.ClientFailure? && put.error.code != ConditionalCheckFailed
    ensures put.Succeeded? ==> r.result.reply.body == Some(MessageBody("Book created successfully!"))
    ensures put.ClientFailure? && put.error.code == ConditionalCheckFailed ==>
              r.result.reply.body == Some(Dumps(Plain(Str("Book with this ISBN already exists"))))
    ensures put.ClientFailure? && put.error.code != ConditionalCheckFailed ==>
              r.result.reply == HandleError(put.error, "create")
  {
    var calls := [PutItem(book, CreateCondition)];
    match put
    case Succeeded => Run(Returned(Reply(Some(201), Some(MessageBody("Book created successfully!")))), calls)
    case ClientFailure(e) =>
      if e.code == ConditionalCheckFailed
      then Run(Returned(Reply(Some(409), Some(Dumps(Plain(Str("Book with this ISBN already exists")))))), calls)
      else Run(Returned(HandleError(e, "create")), calls)
    case OtherFailure(name) => Run(Threw(Foreign(name)), calls)
  }

  /** `get_book`: a point lookup; absence is 200 with an empty object, never 404. */
  function GetBook(key: Dict, lookup: Lookup): (r: Run)
    ensures r.calls == [GetItem(key)]
    ensures r.result.Returned? <==> !lookup.LookupRaised?
    ensures lookup.LookupRaised? ==> r.result == Threw(Foreign(lookup.name))
    ensures StatusOf(r) == Some(200) <==> lookup.Found? || lookup.NoItem?
    ensures lookup.Found? ==> r.result.reply.body == Some(Plain(Obj(lookup.item)))
    ensures lookup.NoItem? ==> r.result.reply.body == Some(Plain(Obj([])))
    ensures lookup.LookupFailed? ==> r.result.reply == HandleError(lookup.error, "get")
  {
    var calls := [GetItem(key)];
    match lookup
    case Found(item) => Run(Returned(Reply(Some(200), Some(Plain(Obj(item))))), calls)
    case NoItem => Run(Returned(Reply(Some(200), Some(Plain(Obj([]))))), calls)
    case LookupFailed(e) => Run(Returned(HandleError(e, "get")), calls)
    case LookupRaised(name) => Run(Threw(Foreign(name)), calls)
  }

  /** The S3 step of `update_book` for a truthy image: `put_object` of the
      image itself when the request is base64-encoded, else `upload_file` of the
      image taken as a local path, both under the key `f"{isbn}.jpg"`. */
  function ImageCall(isbn: Value, image: Value, isBase64: Value): Call {
    if Truthy(isBase64) then PutObject(ImageOf(isbn), image)
    else UploadFile(image, ImageOf(isbn))
  }

  /** `update_book`: one `update_item` keyed by ISBN, then, only after it
      succeeded and only for a truthy image, the image upload. A book without
      ISBN raises KeyError before any call. A ClientError from either call is
      answered by `handle_error(e, 'update')`. */
  function UpdateBook(book: Dict, image: Value, isBase64: Value, update: Reported, upload: Reported): (r: Run)
    ensures KeyAttribute !in Keys(book) ==> r == Run(Threw(KeyError), [])
    ensures KeyAttribute in Keys(book) ==>
              var isbn := GetOr(book, KeyAttribute, Null);
              r.calls == [UpdateItem([(KeyAttribute, isbn)], UpdateExpression(book), AttributeValues(book))] +
                         (if update.Succeeded? && Truthy(image) then [ImageCall(isbn, image, isBase64)] else [])
    ensures StatusOf(r) == Some(200) <==>
              KeyAttribute in Keys(book) && update.Succeeded? && (!Truthy(image) || upload.Succeeded?)
    ensures StatusOf(r) == Some(200) ==> r.result.reply.body == Some(MessageBody("Book updated successfully!"))
    ensures r.result.Threw? <==>
              KeyAttribute !in Keys(book) || update.OtherFailure? ||
              (update.Succeeded? && Truthy(image) && upload.OtherFailure?)
    ensures KeyAttribute in Keys(book) && update.ClientFailure? ==>
              r.result == Returned(HandleError(update.error, "update"))
    ensures KeyAttribute in Keys(book) && update.OtherFailure? ==> r.result == Threw(Foreign(update.name))
    ensures KeyAttribute in Keys(book) && update.Succeeded? && Truthy(image) && upload.ClientFailure? ==>
              r.result == Returned(HandleError(upload.error, "update"))
    ensures KeyAttribute in Keys(book) && update.Succeeded? && Truthy(image) && upload.OtherFailure? ==>
              r.result == Threw(Foreign(upload.name))
  {
    match Get(book, KeyAttribute)
    case None => Run(Threw(KeyError), [])
    case Some(isbn) =>
      var updateCall := UpdateItem([(KeyAttribute, isbn)], UpdateExpression(book), AttributeValues(book));
      match update
      case ClientFailure(e) => Run(Returned(HandleError(e, "update")), [updateCall])
      case OtherFailure(name) => Run(Threw(Foreign(name)), [updateCall])
      case Succeeded =>
        var success := Returned(Reply(Some(200), Some(MessageBody("Book updated successfully!"))));
        if !Truthy(image) then Run(success, [updateCall])
        else
          var calls := [updateCall, ImageCall(isbn, image, isBase64)];
          match upload
          case Succeeded => Run(success, calls)
          case ClientFailure(e) => Run(Returned(HandleError(e, "update")), calls)
          case OtherFailure(name) => Run(Threw(Foreign(name)), calls)
  }

  /** The calls `delete_book` issues for a key with ISBN whose pre-fetch did
      not raise: `get_item`, `delete_item`, then `delete_object` of the stored
      `Image` value only when the delete succeeded and the item has one. */
  function DeleteCalls(key: Dict, fetch: Lookup, delete: Reported): seq<Call> {
    [GetItem(key), DeleteItem(key)] +
      if delete.Succeeded? && fetch.Found? && "Image" in Keys(fetch.item)
      then [DeleteObject(Verbatim(GetOr(fetch.item, "Image", Null)))]
      else []
  }

  /** `delete_book`, as written:
      - without ISBN, building `ClientError(error_code=..., message=...)` does
        not match botocore's constructor and raises TypeError;
      - a failed pre-fetch is swallowed, leaving `book_response` unbound, which
        raises UnboundLocalError once the delete has succeeded;
      - a pre-fetch without an item raises KeyError at `book_response['Item']`
        once the delete has succeeded;
      - a found item with an `Image` field gets a best-effort `delete_object`
        whose ClientError is swallowed. */
  function DeleteBook(key: Dict, fetch: Lookup, delete: Reported, removeImage: Reported): (r: Run)
    ensures KeyAttribute !in Keys(key) ==> r == Run(Threw(TypeError), [])
    ensures KeyAttribute in Keys(key) && fetch.LookupRaised? ==> r == Run(Threw(Foreign(fetch.name)), [GetItem(key)])
    ensures KeyAttribute in Keys(key) && !fetch.LookupRaised? ==> r.calls == DeleteCalls(key, fetch, delete)
    ensures KeyAttribute in Keys(key) && !fetch.LookupRaised? && delete.ClientFailure? ==>
              r.result == Returned(HandleError(delete.error, "delete"))
    ensures KeyAttribute in Keys(key) && !fetch.LookupRaised? && delete.OtherFailure? ==>
              r.result == Threw(Foreign(delete.name))
    ensures KeyAttribute in Keys(key) && delete.Succeeded? && fetch.LookupFailed? ==>
              r.result == Threw(UnboundLocalError)
    ensures KeyAttribute in Keys(key) && delete.Succeeded? && fetch.NoItem? ==> r.result == Threw(KeyError)
    ensures KeyAttribute in Keys(key) && delete.Succeeded? && fetch.Found? && "Image" in Keys(fetch.item) &&
              removeImage.OtherFailure? ==>
              r.result == Threw(Foreign(removeImage.name))
    ensures StatusOf(r) == Some(200) <==>
              KeyAttribute in Keys(key) && delete.Succeeded? && fetch.Found? &&
              ("Image" !in Keys(fetch.item) || !removeImage.OtherFailure?)
    ensures StatusOf(r) == Some(200) ==> r.result.reply.body == Some(MessageBody("Book deleted successfully!"))
  {
    if KeyAttribute !in Keys(key) then Run(Threw(TypeError), [])
    else if fetch.LookupRaised? then Run(Threw(Foreign(fetch.name)), [GetItem(key)])
    else
      var calls := DeleteCalls(key, fetch, delete);
      match delete
      case ClientFailure(e) => Run(Returned(HandleError(e, "delete")), calls)
      case OtherFailure(name) => Run(Threw(Foreign(name)), calls)
      case Succeeded =>
        var success := Returned(Reply(Some(200), Some(MessageBody("Book deleted successfully!"))));
        match fetch
        case LookupFailed(_) => Run(Threw(UnboundLocalError), calls)
        case NoItem => Run(Threw(KeyError), calls)
        case Found(item) =>
          if "Image" in Keys(item) && removeImage.OtherFailure? then Run(Threw(Foreign(removeImage.name)), calls)
          else Run(success, calls)
  }
}
