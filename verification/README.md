# Bookstore Lambda — a Dafny model

This project models the request handler of a serverless bookstore: one AWS
Lambda function (`Lambda-bookstore-task.py`). The function takes an API
gateway event. It reads a REST-style operation (`echo`, `create`, `read`,
`update`, `delete`) and a JSON "book" payload out of the event. It routes the
request to one of four handlers over a DynamoDB table (`bookstore`) and an S3
bucket (cover images), then normalises the handler's answer into
`{statusCode, body}`.

The model has five modules:

- `Values` (`values.dfy`): decoded JSON values. A Python dict is a sequence
  of (key, value) pairs in insertion order. The module also has the dict
  operations the handler uses: `get`, `pop` and item assignment.
- `UpdateBuilder` (`update_builder.dfy`): the update that `update_book` builds.
  - `BuildUpdate` and `GetAttributeUpdates` are the two Python loops, written
    as Dafny `while` loops. Each is proved equal to a specification function:
    `UpdateExpression`, `AttributeValues` or `AttributeUpdates`.
  - Lemmas state what those functions promise: ISBN is never a target; each
    placeholder is bound to its field's value; the expression is `SET` plus the
    assignments joined by `, `; and quote escaping can be undone.
- `Handlers` (`handlers.dfy`): `create_book`, `get_book`, `update_book`,
  `delete_book` and `handle_error`.
  - Each remote call is replaced by the outcome it reports, passed in as a
    parameter.
  - Each handler returns its result together with the list of calls it issued.
- `Dispatcher` (`dispatcher.dfy`): `lambda_handler`.
  - `Prepare` covers lines 21-32: the operation, parsing, the image flag and
    the `Image` pop.
  - `Route` covers the routing, `Normalise` the default status and body, and
    `Finish` the `KeyError` → 400 rule.
  - An exception that nothing catches is the outcome `Raised`.
- `Store` (`store.dfy`): a `map` model of the table. It runs the handlers
  against that table and proves cross-request facts:
  - the create guard, and read-after-create;
  - what an update writes;
  - no stored item ever carries an `Image` field, so the delete-time image
    clean-up never fires for items written through this function.

`json.dumps` is symbolic. A body is `Plain(v)` or `Dumps(p)`, where `Dumps(p)`
is the string `json.dumps` makes from `p`. This shows the double encoding:
`create`, `update`, `delete` and `handle_error` already return
`json.dumps(...)`, and the dispatcher encodes that string again. `get_book`
returns a dict, which is encoded once. `json.loads` is a function parameter
(`string -> Option<Value>`), where `None` stands for a `JSONDecodeError`.

Behaviour modelled as written, where it is not what the comments suggest:

- Unsupported operations answer 400 with the lower-cased operation. The empty
  operation (missing `pathParameters` or `operation`) takes the same branch.
- `echo` rereads the event's `dictionary` (line 43), not `body.message`.
  - If the payload came as a JSON string, that `dictionary` is a `str`, and
    `.get` raises `AttributeError`.
  - If it came as a dict, it is the same object the image was popped from.
    The echoed message is unaffected.
- A `body` that is present but not a dict makes line 32 raise
  `AttributeError`. So does a payload that is missing or not a dict. A list
  payload makes `pop` raise `TypeError`.
- `update` of a book without ISBN raises `KeyError` at line 175, which
  `lambda_handler` turns into 400 "Missing operation or data in request".
- `delete_book` (lines 215-241), as written:
  - without ISBN, `ClientError(error_code=..., message=...)` does not match
    botocore's constructor and raises `TypeError`;
  - a failed pre-fetch leaves `book_response` unbound, so a successful delete
    then raises `UnboundLocalError`;
  - a pre-fetch with no `Item` raises `KeyError` at line 234, which becomes a
    400 after the item was deleted.
- Reading an absent book answers 200 with body `json.dumps({})`, never 404.

## Model

| member | source | states |
|---|---|---|
| Values.GetOr | Lambda-bookstore-task.py:30 | `d.get(k, default)`: the value stored under `k` when `k` is present, the default otherwise |
| Values.Pop | Lambda-bookstore-task.py:31 | `dict.pop(k, default)`: returns the value at `k` (or the default), removes `k`, leaves every other key's value and the key order as they were |
| Values.Set | Lambda-bookstore-task.py:144 | `d[k] = v`: afterwards `k` holds `v`; other keys keep their values; an existing key keeps its position; a new key is appended |
| UpdateBuilder.BuildUpdate | Lambda-bookstore-task.py:164-174 | the loop produces exactly `UpdateExpression(book)` and `AttributeValues(book)`, and the placeholder dict has distinct keys |
| UpdateBuilder.GetAttributeUpdates | Lambda-bookstore-task.py:140-145 | the loop produces exactly `AttributeUpdates(book)`: the non-ISBN fields, each wrapped as `{'Value': v}` |
| UpdateBuilder.IsbnNeverUpdated | Lambda-bookstore-task.py:143-144 | ISBN gets no SET assignment, no `:ISBN` placeholder and no `get_attribute_updates` entry |
| UpdateBuilder.AttributeValuesExact | Lambda-bookstore-task.py:166-173 | `:k` is bound to the value of field `k` for every non-ISBN `k` (none for ISBN), and every binding is `:k` for some non-ISBN field `k` of the book |
| UpdateBuilder.AttributeUpdatesExact | Lambda-bookstore-task.py:140-145 | the updates list the non-ISBN field names in iteration order; each maps to `{'Value': v}` of that field, and ISBN maps to nothing |
| UpdateBuilder.ExpressionShape | Lambda-bookstore-task.py:164-174 | only ISBN gives "S"; otherwise the expression is "SET" followed by the assignments ` k' = :k` joined by ", " (no trailing separator), ending in the last field's placeholder |
| UpdateBuilder.SegmentsJoined | Lambda-bookstore-task.py:172-174 | the appended segments are the joined assignments followed by one ", ", which the final `[:-2]` removes |
| UpdateBuilder.EscapeRoundTrip | Lambda-bookstore-task.py:169 | replacing `"` by `\"` loses nothing: unescaping gives the field name back |
| UpdateBuilder.EscapeQuotesEscaped | Lambda-bookstore-task.py:169 | every `"` in an escaped name is preceded by a backslash |
| UpdateBuilder.EscapeIdentity | Lambda-bookstore-task.py:169 | a name without `"` is embedded unchanged |
| UpdateBuilder.TitleUpdate | Lambda-bookstore-task.py:164-175 | `{ISBN: "123", title: "New"}` gives "SET title = :title" and binds only `:title` to "New" |
| UpdateBuilder.IsbnOnlyUpdate | Lambda-bookstore-task.py:164-174 | a book holding only ISBN gives the expression "S" and no bindings |
| Handlers.HandleError | Lambda-bookstore-task.py:245-258 | status 500; the body is the JSON string "Error during {operation} operation: " followed by the store's message |
| Handlers.CreateBook | Lambda-bookstore-task.py:97-112 | one guarded `put_item`; 201 with `json.dumps({'message': 'Book created successfully!'})` iff the put succeeds; 409 with `json.dumps('Book with this ISBN already exists')` iff it failed with ConditionalCheckFailedException; 500 via `handle_error(e, 'create')` for any other ClientError; any other exception escapes |
| Handlers.GetBook | Lambda-bookstore-task.py:129-134 | one `get_item`; 200 with the item, 200 with `{}` when there is no item, 500 via `handle_error(e, 'get')` on a ClientError; any other exception escapes |
| Handlers.UpdateBook | Lambda-bookstore-task.py:162-195 | `KeyError` and no call without ISBN; else exactly `update_item` keyed by `{"ISBN": isbn}` with the built expression and bindings, followed by the S3 write under `f"{isbn}.jpg"` only when the update succeeded and the image is truthy; 200 iff both steps succeed; a ClientError from either gives `handle_error(e, 'update')`; any other exception escapes |
| Handlers.DeleteBook | Lambda-bookstore-task.py:215-241 | as written: `TypeError` without ISBN; exactly `get_item`, `delete_item`, and `delete_object` of the stored `Image` only when the delete succeeded and the fetched item has one; a delete ClientError gives `handle_error(e, 'delete')`; after a successful delete a failed pre-fetch raises `UnboundLocalError` and a missing item `KeyError`; 200 iff the delete succeeds, the item was found and the clean-up raised nothing but a ClientError |
| Dispatcher.Prepare | Lambda-bookstore-task.py:21-32 | a request that reaches routing has its operation lower-cased; the handed dict is the parsed payload without `Image`, all other fields unchanged; the popped image and the base64 flag are kept apart |
| Dispatcher.Normalise | Lambda-bookstore-task.py:61-64 | the status is the handler's `statusCode`, or 200 when it is missing; the body is the JSON encoding of the handler's `body`, or of the string '{}' when it is missing |
| Dispatcher.Finish | Lambda-bookstore-task.py:61-69 | a handler's reply is normalised; a `KeyError` it raised becomes 400 "Missing operation or data in request"; any other exception escapes; its calls pass through unchanged |
| Dispatcher.Route | Lambda-bookstore-task.py:42-59 | `echo` answers from the event's own dictionary; `create`, `read`, `update` and `delete` each run exactly their handler on the prepared dict; anything else is 400 "Unsupported operation: {op}"; no handler means no remote call |
| Dispatcher.LambdaHandler | Lambda-bookstore-task.py:18-74 | any dict handed to a handler lacks `Image` and otherwise agrees with the parsed payload; no remote call without a handler; every response body is JSON-encoded |
| Dispatcher.LowerMatches | Lambda-bookstore-task.py:21 | the operation lower-cases to a given lower-case word iff it is that word with each letter in either case |
| Dispatcher.ReadyIffRoutable | Lambda-bookstore-task.py:21-32 | routing is reached iff the operation is a string, the payload is (or parses to) a dict and `body` is a dict or absent |
| Dispatcher.UnsupportedOperation | Lambda-bookstore-task.py:55-59 | any other lower-cased operation gets 400 "Unsupported operation: {op}", with no handler and no call |
| Dispatcher.MissingOperation | Lambda-bookstore-task.py:21 | a missing operation reads as "" and gets 400 "Unsupported operation: " |
| Dispatcher.InvalidJsonPayload | Lambda-bookstore-task.py:27-28 | a payload string that does not parse gets 400 "Invalid JSON format for book data", with no call |
| Dispatcher.Echo | Lambda-bookstore-task.py:42-46 | `echo` returns `{'message': dictionary.message}` ('' if absent) with no status wrapper and no call; it raises `AttributeError` when the payload came as a string |
| Dispatcher.UpdateWithoutIsbn | Lambda-bookstore-task.py:175 | an update whose payload has no ISBN ends in 400 "Missing operation or data in request" with no call |
| Dispatcher.ReadAbsent | Lambda-bookstore-task.py:131 | reading an absent book answers 200 with body `json.dumps({})` |
| Dispatcher.CreateStatus | Lambda-bookstore-task.py:98-112 | through the dispatcher, create answers 201 / 409 / 500 exactly on put success / condition failure / other ClientError, with the handler's JSON body encoded a second time; any other exception escapes |
| Dispatcher.UpdateCalls | Lambda-bookstore-task.py:164-188 | an update issues exactly `update_item` keyed by `{"ISBN": isbn}` with the expression and bindings of the payload less `Image`, followed, only if the update succeeds and the popped image is truthy, by the write of that image under `f"{isbn}.jpg"` |
| Dispatcher.UpdateExample | Lambda-bookstore-task.py:51-52 | operation "Update" with `{ISBN: "123", title: "New"}` sends an update naming only `title`, keyed by `{ISBN: "123"}` |
| Store.CreateOnTable | Lambda-bookstore-task.py:98-112 | over the table, create answers 201 and stores the book iff its ISBN is new; otherwise it answers 409 and the table is unchanged |
| Store.CreateTwice | Lambda-bookstore-task.py:98-110 | a second create of the same book answers 409 and leaves the table as the first left it |
| Store.ReadAfterCreate | Lambda-bookstore-task.py:129-131 | after a successful create, reading by `{"ISBN": v}` returns 200 with the book |
| Store.AssignGet | Lambda-bookstore-task.py:172-173 | writing the SET fields changes only those fields, and each ends with its new value |
| Store.UpdateOnTable | Lambda-bookstore-task.py:164-181 | a successful update gives every non-ISBN field of the book its new value in the stored item; other fields of that item and all other items are unchanged |
| Store.ImagesNeverStored | Lambda-bookstore-task.py:31 | whatever request arrives, no stored item gains an `Image` field |
| Store.DeleteNeverRemovesImage | Lambda-bookstore-task.py:234-236 | on a table without images (which every request keeps that way), no request issues an S3 `delete_object` |

## Left out

- Remote calls: DynamoDB and S3 client construction and the real calls (lines 35-38, 101, 130, 177-188, 221, 228, 236) are replaced by outcome parameters: success (or the item found), a `ClientError`, or any other exception, which only its name represents. `Store` gives one map semantics for the table.
- The service's exact error messages are not modelled. `Store` uses fixed codes and messages for the guard failure, key-schema mismatch and the empty SET clause.
- Expression validity: whether DynamoDB accepts an expression whose field names are reserved words or contain special characters is not modelled. `Store.TableUpdate` reads the SET clause as "write each non-ISBN field"; only the degenerate "S" is refused.
- S3 effects: the effects of `put_object`, `upload_file` and `delete_object` are not modelled. Only the call, its key and its outcome are kept. The key `f"{isbn}.jpg"` is symbolic (`ImageOf(isbn)`), because Python's `str()` of a non-string ISBN is not modelled.
- JSON: `json.loads` and `json.dumps` are not implemented. Parsing is a parameter and encoding is symbolic.
- Non-serialisable values: DynamoDB returns numbers as `Decimal`, and `json.dumps` of a read item with a number would raise `TypeError`. This is not modelled: every `Value` counts as encodable.
- JSON objects with a repeated key are not modelled (Python keeps the last value). Members that rely on a dict's keys being distinct require `DistinctKeys`.
- Numbers are integers only. Floats are not modelled.
- Logging: the `print` calls (lines 22-29, 254) are pure diagnostics.
- Dispatcher.LowerMatches: `str.lower()` is modelled for ASCII letters only. Non-ASCII case mappings are not modelled. Routing is unaffected, but the text of an unsupported operation may differ from the source's.
- Dispatcher.Prepare: `pathParameters` that is not a dict, and an operation that is not a string, are modelled as `AttributeError`. Exceptions raised by the Python runtime outside these paths are not modelled.
- Dead code: `create_book`'s unused `image` and `image_data` parameters, the unreachable return at line 114, and the unused `context` argument are left out.
- In-place `pop`: the mutation at line 31 is modelled on values (`Values.Pop` returns the remaining dict). The aliasing with the event's own `dictionary` appears only where it is observable: the echo path reads the popped dict.
