/** A map model of the `bookstore` table, against which the handlers' outcomes
    get a meaning: the guarded put of `create`, point reads, updates that write
    every non-ISBN field, deletes by key.

    The table maps an ISBN value to the stored item, which carries that ISBN.
    The service's own error texts are not part of this model: the constants
    below only fix a code and some message for the cases the model decides. */
module Store {
  import opened Values
  import opened UpdateBuilder
  import opened Handlers
  import opened Dispatcher

  type Table = map<Value, Dict>

  const ConditionFailed := ClientError(ConditionalCheckFailed, "The conditional request failed")
  const KeySchemaMismatch := ClientError("ValidationException", "The provided key element does not match the schema")
  const EmptySetClause := ClientError("ValidationException", "Invalid UpdateExpression")

  /** The ISBN of a key dict that is exactly `{"ISBN": v}`. */
  function KeyOf(key: Dict): Option<Value> {
    if |key| == 1 && key[0].0 == KeyAttribute then Some(key[0].1) else None
  }

  /** `put_item` with `attribute_not_exists(ISBN)`: refused, table unchanged,
      when the ISBN is taken. */
  function TablePut(t: Table, item: Dict): (Reported, Table) {
    match Get(item, KeyAttribute)
    case None => (ClientFailure(KeySchemaMismatch), t)
    case Some(isbn) =>
      if isbn in t then (ClientFailure(ConditionFailed), t) else (Succeeded, t[isbn := item])
  }

  /** `get_item(Key=key)`. */
  function TableGet(t: Table, key: Dict): Lookup {
    match KeyOf(key)
    case None => LookupFailed(KeySchemaMismatch)
    case Some(isbn) => if isbn in t then Found(t[isbn]) else NoItem
  }

  /** Writes the fields into a record in order, each as `record[k] = v`. */
  function Assign(record: Dict, fields: Dict): Dict
    decreases |fields|
  {
    if fields == [] then record else Assign(Set(record, fields[0].0, fields[0].1), fields[1..])
  }

  /** `update_item` with the SET clause built from `book`: every non-ISBN field
      is written into the stored item, which is created from the key when
      absent. An empty SET clause ("S") is refused. */
  function TableUpdate(t: Table, key: Dict, book: Dict): (Reported, Table) {
    match KeyOf(key)
    case None => (ClientFailure(KeySchemaMismatch), t)
    case Some(isbn) =>
      if UpdatedFields(book) == [] then (ClientFailure(EmptySetClause), t)
      else
        var base := if isbn in t then t[isbn] else key;
        (Succeeded, t[isbn := Assign(base, UpdatedFields(book))])
  }

  /** `delete_item(Key=key)`; deleting an absent item succeeds. */
  function TableDelete(t: Table, key: Dict): (Reported, Table) {
    match KeyOf(key)
    case None => (ClientFailure(KeySchemaMismatch), t)
    case Some(isbn) => (Succeeded, t - {isbn})
  }

  /** The outcomes the table gives for the book a prepared request hands over;
      the S3 outcomes stay parameters. */
  function TableServices(p: Prepared, parse: string -> Option<Value>, t: Table,
                         upload: Reported, deleteImage: Reported): Services {
    var updateKey := [(KeyAttribute, GetOr(p.book, KeyAttribute, Null))];
    Services(parse, TablePut(t, p.book).0, TableGet(t, p.book), TableUpdate(t, updateKey, p.book).0,
             upload, TableGet(t, p.book), TableDelete(t, p.book).0, deleteImage)
  }

  /** The table after the handler for a prepared request has run. */
  function NextTable(p: Prepared, t: Table): Table {
    if p.operation == "create" then TablePut(t, p.book).1
    else if p.operation == "update" && KeyAttribute in Keys(p.book) then
      TableUpdate(t, [(KeyAttribute, GetOr(p.book, KeyAttribute, Null))], p.book).1
    else if p.operation == "delete" && KeyAttribute in Keys(p.book) then TableDelete(t, p.book).1
    else t
  }

  /** One invocation of `lambda_handler` against the table. */
  function Serve(event: Dict, parse: string -> Option<Value>, t: Table,
                 upload: Reported, deleteImage: Reported): (Served, Table)
  {
    match Prepare(event, parse)
    case Finished(outcome) => (Served(outcome, None, []), t)
    case Ready(p) =>
      (LambdaHandler(event, TableServices(p, parse, t, upload, deleteImage)), NextTable(p, t))
  }

  /** No stored item has an `Image` field. */
  ghost predicate NoImages(t: Table) {
    forall isbn :: isbn in t ==> "Image" !in Keys(t[isbn])
  }

  /** Creating answers 201 and stores the book exactly when its ISBN is new;
      otherwise 409 and the table, the existing record included, is unchanged. */
  lemma CreateOnTable(t: Table, book: Dict)
    requires KeyAttribute in Keys(book)
    ensures var isbn := GetOr(book, KeyAttribute, Null);
            var (outcome, t') := TablePut(t, book);
            var status := StatusOf(CreateBook(book, outcome));
            (status == Some(201) <==> isbn !in t) &&
            (status == Some(409) <==> isbn in t) &&
            (isbn in t ==> t' == t) &&
            (isbn !in t ==> t' == t[isbn := book])
  {
  }

  /** Creating the same book twice: the second answer is 409 and leaves the
      table as the first left it. */
  lemma CreateTwice(t: Table, book: Dict)
    requires KeyAttribute in Keys(book)
    ensures var t1 := TablePut(t, book).1;
            var (second, t2) := TablePut(t1, book);
            StatusOf(CreateBook(book, second)) == Some(409) && t2 == t1 &&
            t1[GetOr(book, KeyAttribute, Null)] ==
              if GetOr(book, KeyAttribute, Null) in t then t[GetOr(book, KeyAttribute, Null)] else book
  {
  }

  /** Reading by `{"ISBN": v}` right after a successful create returns the book. */
  lemma ReadAfterCreate(t: Table, book: Dict)
    requires KeyAttribute in Keys(book)
    requires GetOr(book, KeyAttribute, Null) !in t
    ensures var t1 := TablePut(t, book).1;
            var key := [(KeyAttribute, GetOr(book, KeyAttribute, Null))];
            GetBook(key, TableGet(t1, key)).result == Returned(Reply(Some(200), Some(Plain(Obj(book)))))
  {
  }

  /** Assigning fields changes only the fields assigned; with distinct field
      names each ends up with its new value. */
  lemma {:induction false} AssignGet(record: Dict, fields: Dict, k: string)
    ensures k !in Keys(fields) ==> Get(Assign(record, fields), k) == Get(record, k)
    ensures DistinctKeys(fields) && k in Keys(fields) ==> Get(Assign(record, fields), k) == Get(fields, k)
    decreases |fields|
  {
    if fields != [] {
      var next := Set(record, fields[0].0, fields[0].1);
      assert Keys(fields) == [fields[0].0] + Keys(fields[1..]);
      AssignGet(next, fields[1..], k);
      if DistinctKeys(fields) && k == fields[0].0 {
        assert k !in Keys(fields[1..]);
      }
    }
  }

  /** A successful update leaves every non-ISBN field of the book in the stored
      item with the book's value, and every other field of the item as it was. */
  lemma UpdateOnTable(t: Table, book: Dict)
    requires KeyAttribute in Keys(book)
    requires DistinctKeys(book)
    requires UpdatedFields(book) != []
    ensures var isbn := GetOr(book, KeyAttribute, Null);
            var (outcome, t') := TableUpdate(t, [(KeyAttribute, isbn)], book);
            outcome.Succeeded? && isbn in t' &&
            (forall k :: k != KeyAttribute && k in Keys(book) ==> Get(t'[isbn], k) == Get(book, k)) &&
            (forall k :: k !in Keys(book) && isbn in t ==> Get(t'[isbn], k) == Get(t[isbn], k)) &&
            (forall other :: other != isbn && other in t ==> other in t' && t'[other] == t[other])
  {
    var isbn := GetOr(book, KeyAttribute, Null);
    var f := UpdatedFields(book);
    var base := if isbn in t then t[isbn] else [(KeyAttribute, isbn)];
    forall k | k != KeyAttribute && k in Keys(book)
      ensures Get(Assign(base, f), k) == Get(book, k)
    {
      assert Get(f, k) == Get(book, k);
      AssignGet(base, f, k);
    }
    forall k | k !in Keys(book) && isbn in t
      ensures Get(Assign(base, f), k) == Get(t[isbn], k)
    {
      assert Get(f, k) == Get(book, k);
      AssignGet(base, f, k);
    }
  }

  /** Running a handler on a book without `Image` keeps every stored item free
      of an `Image` field. */
  lemma NextTableNoImages(p: Prepared, t: Table)
    requires NoImages(t)
    requires "Image" !in Keys(p.book)
    ensures NoImages(NextTable(p, t))
  {
    if p.operation == "update" && KeyAttribute in Keys(p.book) {
      var isbn := GetOr(p.book, KeyAttribute, Null);
      var key := [(KeyAttribute, isbn)];
      var f := UpdatedFields(p.book);
      if f != [] {
        var base := if isbn in t then t[isbn] else key;
        assert Keys(key) == [KeyAttribute];
        assert "Image" !in Keys(base);
        assert Get(f, "Image") == Get(p.book, "Image");
        AssignGet(base, f, "Image");
        assert "Image" !in Keys(Assign(base, f));
      }
    }
  }

  /** Whatever request arrives, the table never gains an item with an `Image`
      field: the image is popped before any handler runs. */
  lemma ImagesNeverStored(event: Dict, parse: string -> Option<Value>, t: Table,
                          upload: Reported, deleteImage: Reported)
    requires NoImages(t)
    ensures NoImages(Serve(event, parse, t, upload, deleteImage).1)
  {
    match Prepare(event, parse)
    case Finished(_) =>
    case Ready(p) => NextTableNoImages(p, t);
  }

  /** Only `delete`, and only for a fetched item with an `Image` field, issues
      an S3 `delete_object`. */
  lemma OnlyDeleteRemovesObjects(p: Prepared, env: Services)
    ensures forall c :: c in Route(p, env).calls && c.DeleteObject? ==>
              p.operation == "delete" && env.deleteFetch.Found? && "Image" in Keys(env.deleteFetch.item)
  {
    if p.operation == "delete" {
      var run := DeleteBook(p.book, env.deleteFetch, env.delete, env.deleteImage);
      assert Route(p, env).calls == run.calls;
    } else if p.operation == "update" {
      var run := UpdateBook(p.book, p.image, p.isBase64, env.update, env.upload);
      assert Route(p, env).calls == run.calls;
    }
  }

  /** So, on such a table, deleting never reaches the image clean-up: the
      stored item it fetches has no `Image` field. */
  lemma DeleteNeverRemovesImage(event: Dict, parse: string -> Option<Value>, t: Table,
                                upload: Reported, deleteImage: Reported)
    requires NoImages(t)
    ensures forall c :: c in Serve(event, parse, t, upload, deleteImage).0.calls ==> !c.DeleteObject?
  {
    match Prepare(event, parse)
    case Finished(_) =>
    case Ready(p) =>
      var env := TableServices(p, parse, t, upload, deleteImage);
      assert LambdaHandler(event, env) == Route(p, env);
      OnlyDeleteRemovesObjects(p, env);
  }
}
