/** The update that `update_book` sends to the record store: a SET expression
    naming every field of the book except ISBN, and the dictionary that binds
    each placeholder to the field's new value; and the `{name: {'Value': v}}`
    dictionary of `get_attribute_updates`, which filters the fields the same way.

    The functions below say what the Python loops produce; the two methods are
    the loops themselves, proved to produce exactly that. */
module UpdateBuilder {
  import opened Values

  /** The table's key attribute; it is never an update target. */
  const KeyAttribute := "ISBN"

  /** `key.replace('"', '\\"')`: every double quote gets a backslash in front. */
  function Escape(k: string): string {
    if k == [] then []
    else (if k[0] == '"' then "\\\"" else [k[0]]) + Escape(k[1..])
  }

  /** Reads an escaped name back: `\"` becomes `"`, anything else is kept. */
  function Unescape(e: string): string {
    if e == [] then []
    else if |e| >= 2 && e[0] == '\\' && e[1] == '"' then "\"" + Unescape(e[2..])
    else [e[0]] + Unescape(e[1..])
  }

  /** An escaped name never starts with a bare quote. */
  lemma EscapeHead(k: string)
    requires k != []
    ensures Escape(k)[0] == if k[0] == '"' then '\\' else k[0]
  {
  }

  /** The escaping loses nothing: the field name can be read back from the
      expression text. */
  lemma {:induction false} EscapeRoundTrip(k: string)
    ensures Unescape(Escape(k)) == k
  {
    if k != [] {
      var tail := Escape(k[1..]);
      EscapeRoundTrip(k[1..]);
      if k[0] == '"' {
        assert Escape(k) == "\\\"" + tail;
        assert Escape(k)[2..] == tail;
      } else {
        assert Escape(k) == [k[0]] + tail;
        assert Escape(k)[1..] == tail;
        if k[0] == '\\' && tail != [] {
          EscapeHead(k[1..]);
        }
      }
    }
  }

  /** Every double quote in an escaped name is preceded by a backslash. */
  lemma {:induction false} EscapeQuotesEscaped(k: string)
    ensures forall i :: 0 <= i < |Escape(k)| && Escape(k)[i] == '"' ==> i > 0 && Escape(k)[i - 1] == '\\'
  {
    if k != [] {
      EscapeQuotesEscaped(k[1..]);
      var head := if k[0] == '"' then "\\\"" else [k[0]];
      var tail := Escape(k[1..]);
      assert Escape(k) == head + tail;
      forall i | 0 <= i < |Escape(k)| && Escape(k)[i] == '"'
        ensures i > 0 && Escape(k)[i - 1] == '\\'
      {
        if i >= |head| {
          assert tail[i - |head|] == '"';
        }
      }
    }
  }

  /** A name without double quotes is embedded as it is. */
  lemma {:induction false} EscapeIdentity(k: string)
    requires forall i :: 0 <= i < |k| ==> k[i] != '"'
    ensures Escape(k) == k
  {
    if k != [] {
      EscapeIdentity(k[1..]);
      assert k == [k[0]] + k[1..];
    }
  }

  /** `:key`: the placeholder bound to a field's value (unescaped name). */
  function Placeholder(k: string): string {
    ":" + k
  }

  /** ` name = :key`: one assignment of the SET clause. */
  function Assignment(k: string): string {
    " " + Escape(k) + " = " + Placeholder(k)
  }

  /** What one loop iteration appends for field `k`. */
  function Segment(k: string): string {
    Assignment(k) + ", "
  }

  lemma SegmentText(k: string)
    ensures Segment(k) == " " + Escape(k) + " = :" + k + ", "
  {
  }

  /** The fields an update writes: every field except ISBN, in iteration order. */
  function UpdatedFields(book: Dict): Dict {
    Remove(book, KeyAttribute)
  }

  /** The segments of the given fields, concatenated in order. */
  function Segments(fields: Dict): string {
    if fields == [] then "" else Segment(fields[0].0) + Segments(fields[1..])
  }

  /** Python `s[:-2]`. */
  function DropLastTwo(s: string): string {
    if |s| >= 2 then s[..|s| - 2] else ""
  }

  /** The `UpdateExpression` that `update_book` sends. */
  function UpdateExpression(book: Dict): string {
    DropLastTwo("SET" + Segments(UpdatedFields(book)))
  }

  /** Placeholder bindings of the given fields, in the same order. */
  function Placeholders(fields: Dict): Dict {
    seq(|fields|, j requires 0 <= j < |fields| => (Placeholder(fields[j].0), fields[j].1))
  }

  /** The `ExpressionAttributeValues` that `update_book` sends. */
  function AttributeValues(book: Dict): Dict {
    Placeholders(UpdatedFields(book))
  }

  /** `{name: {'Value': value}}` for the given fields, in the same order. */
  function ValueWrapped(fields: Dict): Dict {
    seq(|fields|, j requires 0 <= j < |fields| => (fields[j].0, Obj([("Value", fields[j].1)])))
  }

  /** What `get_attribute_updates` returns. */
  function AttributeUpdates(book: Dict): Dict {
    ValueWrapped(UpdatedFields(book))
  }

  /** Independent reading of the SET clause: the assignments joined by ", ". */
  function JoinedAssignments(fields: Dict): string
    requires fields != []
  {
    if |fields| == 1 then Assignment(fields[0].0)
    else Assignment(fields[0].0) + ", " + JoinedAssignments(fields[1..])
  }

  lemma {:induction false} SegmentsSnoc(fields: Dict, e: (string, Value))
    ensures Segments(fields + [e]) == Segments(fields) + Segment(e.0)
  {
    if fields == [] {
      assert ([] + [e])[1..] == [];
    } else {
      assert (fields + [e])[1..] == fields[1..] + [e];
      SegmentsSnoc(fields[1..], e);
    }
  }

  lemma {:induction false} SegmentsJoined(fields: Dict)
    requires fields != []
    ensures Segments(fields) == JoinedAssignments(fields) + ", "
  {
    if |fields| > 1 {
      SegmentsJoined(fields[1..]);
    } else {
      assert fields[1..] == [];
    }
  }

  /** The placeholder of `k` is bound to exactly what `k` holds in the fields. */
  lemma {:induction false} GetPlaceholder(fields: Dict, k: string)
    ensures Get(Placeholders(fields), Placeholder(k)) == Get(fields, k)
  {
    if fields != [] {
      assert Placeholders(fields)[1..] == Placeholders(fields[1..]);
      if fields[0].0 != k {
        assert Placeholder(fields[0].0)[1..] == fields[0].0;
        assert Placeholder(k)[1..] == k;
        GetPlaceholder(fields[1..], k);
      }
    }
  }

  lemma {:induction false} GetValueWrapped(fields: Dict, k: string)
    ensures Get(ValueWrapped(fields), k) ==
      match Get(fields, k)
      case Some(v) => Some(Obj([("Value", v)]))
      case None => None
  {
    if fields != [] {
      assert ValueWrapped(fields)[1..] == ValueWrapped(fields[1..]);
      GetValueWrapped(fields[1..], k);
    }
  }

  /** ISBN is never an update target: no SET assignment for it, no `:ISBN`
      placeholder and no `get_attribute_updates` entry. */
  lemma IsbnNeverUpdated(book: Dict)
    ensures KeyAttribute !in Keys(UpdatedFields(book))
    ensures Placeholder(KeyAttribute) !in Keys(AttributeValues(book))
    ensures KeyAttribute !in Keys(AttributeUpdates(book))
  {
    var f := UpdatedFields(book);
    GetPlaceholder(f, KeyAttribute);
    GetValueWrapped(f, KeyAttribute);
  }

  /** The placeholder dictionary binds `:k` to the value of every non-ISBN field
      `k` and holds nothing else. */
  lemma AttributeValuesExact(book: Dict)
    ensures forall k ::
              Get(AttributeValues(book), Placeholder(k)) == (if k == KeyAttribute then None else Get(book, k))
    ensures forall p :: p in Keys(AttributeValues(book)) ==>
      exists k :: p == Placeholder(k) && k != KeyAttribute && k in Keys(book)
  {
    var f := UpdatedFields(book);
    forall k ensures Get(AttributeValues(book), Placeholder(k)) ==
      if k == KeyAttribute then None else Get(book, k)
    {
      GetPlaceholder(f, k);
    }
    forall p | p in Keys(AttributeValues(book))
      ensures exists k :: p == Placeholder(k) && k != KeyAttribute && k in Keys(book)
    {
      var j :| 0 <= j < |f| && Keys(AttributeValues(book))[j] == p;
      var k := f[j].0;
      assert f[j] in book;
      assert k in Keys(f);
      assert p == Placeholder(k);
    }
  }

  /** `get_attribute_updates` keeps the non-ISBN fields in order, each wrapped
      as `{'Value': v}`. */
  lemma AttributeUpdatesExact(book: Dict)
    ensures Keys(AttributeUpdates(book)) == Keys(UpdatedFields(book))
    ensures forall k ::
              Get(AttributeUpdates(book), k) ==
                (if k == KeyAttribute then None
                 else match Get(book, k)
                   case Some(v) => Some(Obj([("Value", v)]))
                   case None => None)
  {
    forall k ensures Get(AttributeUpdates(book), k) ==
      if k == KeyAttribute then None
      else match Get(book, k)
        case Some(v) => Some(Obj([("Value", v)]))
        case None => None
    {
      GetValueWrapped(UpdatedFields(book), k);
    }
  }

  /** The expression is "SET" and the assignments joined by ", ": no trailing
      separator, and it ends in the last field's placeholder. With ISBN as the
      only field, the chop leaves "S". */
  lemma ExpressionShape(book: Dict)
    ensures UpdatedFields(book) == [] ==> UpdateExpression(book) == "S"
    ensures UpdatedFields(book) != [] ==>
      UpdateExpression(book) == "SET" + JoinedAssignments(UpdatedFields(book))
    ensures UpdatedFields(book) != [] ==>
      var e := UpdateExpression(book);
      var p := Placeholder(UpdatedFields(book)[|UpdatedFields(book)| - 1].0);
      |p| <= |e| && e[|e| - |p|..] == p
  {
    var f := UpdatedFields(book);
    if f != [] {
      SegmentsJoined(f);
      var s := "SET" + JoinedAssignments(f);
      assert "SET" + Segments(f) == s + ", ";
      assert UpdateExpression(book) == s;
      var n := |f|;
      var last := f[n - 1];
      assert f == f[..n - 1] + [last];
      SegmentsSnoc(f[..n - 1], last);
      var p := Placeholder(last.0);
      assert s + ", " == "SET" + Segments(f[..n - 1]) + Assignment(last.0) + ", ";
      assert s == "SET" + Segments(f[..n - 1]) + Assignment(last.0);
      assert Assignment(last.0) == " " + Escape(last.0) + " = " + p;
    }
  }

  /** `{ISBN: "123", title: "New"}` gives "SET title = :title" and binds only `:title`. */
  lemma TitleUpdate(book: Dict)
    requires book == [("ISBN", Str("123")), ("title", Str("New"))]
    ensures UpdateExpression(book) == "SET title = :title"
    ensures AttributeValues(book) == [(":title", Str("New"))]
  {
    var title := [("title", Str("New"))];
    TitleFields(book);
    assert Segments(title) == Segment("title") + Segments(title[1..]);
    assert title[1..] == [];
    assert Escape("title") == "title";
    assert Segment("title") == " title = :title, ";
    var full := "SET" + " title = :title, ";
    assert full[..|full| - 2] == "SET title = :title";
    assert Placeholder("title") == ":title";
    assert |Placeholders(title)| == 1 && Placeholders(title)[0] == (Placeholder("title"), Str("New"));
  }

  lemma TitleFields(book: Dict)
    requires book == [("ISBN", Str("123")), ("title", Str("New"))]
    ensures UpdatedFields(book) == [("title", Str("New"))]
  {
    var title := [("title", Str("New"))];
    assert book[1..] == title;
    assert Keys(title) == ["title"];
    RemoveAbsent(title, KeyAttribute);
  }

  /** With ISBN as the only field, the expression degenerates to "S". */
  lemma IsbnOnlyUpdate(book: Dict)
    requires book == [("ISBN", Str("123"))]
    ensures UpdateExpression(book) == "S"
    ensures AttributeValues(book) == []
  {
    assert UpdatedFields(book) == [];
  }

  /** A field of a dict is not yet a key of the filtered prefix before it. */
  lemma FreshKey(book: Dict, i: int)
    requires DistinctKeys(book)
    requires 0 <= i < |book|
    ensures book[i].0 !in Keys(UpdatedFields(book[..i]))
    ensures book[i].0 !in Keys(AttributeUpdates(book[..i]))
    ensures Placeholder(book[i].0) !in Keys(AttributeValues(book[..i]))
  {
    var f := UpdatedFields(book[..i]);
    forall j | 0 <= j < |f| ensures f[j].0 != book[i].0 {
      assert f[j] in book[..i];
    }
    assert Keys(AttributeUpdates(book[..i])) == Keys(f);
    GetPlaceholder(f, book[i].0);
  }

  /** What one iteration over field `i` adds to the expression and to both
      dictionaries. */
  lemma IterationStep(book: Dict, i: int)
    requires DistinctKeys(book)
    requires 0 <= i < |book|
    ensures book[i].0 == KeyAttribute ==> UpdatedFields(book[..i + 1]) == UpdatedFields(book[..i])
    ensures book[i].0 != KeyAttribute ==>
      Segments(UpdatedFields(book[..i + 1])) == Segments(UpdatedFields(book[..i])) + Segment(book[i].0)
    ensures book[i].0 != KeyAttribute ==>
      AttributeValues(book[..i + 1]) == AttributeValues(book[..i]) + [(Placeholder(book[i].0), book[i].1)]
    ensures book[i].0 != KeyAttribute ==>
      AttributeUpdates(book[..i + 1]) == AttributeUpdates(book[..i]) + [(book[i].0, Obj([("Value", book[i].1)]))]
  {
    assert book[..i + 1] == book[..i] + [book[i]];
    RemoveSnoc(book[..i], book[i], KeyAttribute);
    if book[i].0 != KeyAttribute {
      SegmentsSnoc(UpdatedFields(book[..i]), book[i]);
    }
  }

  /** One iteration of `update_book`'s loop over a non-ISBN field `i` extends
      the text to that of the next prefix. */
  lemma ExpressionIteration(book: Dict, i: int)
    requires DistinctKeys(book)
    requires 0 <= i < |book|
    requires book[i].0 != KeyAttribute
    ensures "SET" + Segments(UpdatedFields(book[..i])) + " " + Escape(book[i].0) + " = :" + book[i].0 + ", "
            == "SET" + Segments(UpdatedFields(book[..i + 1]))
  {
    IterationStep(book, i);
    SegmentText(book[i].0);
  }

  /** ... and `expression_attributes[":" + key] = value` gives the bindings of
      the next prefix, keys still distinct. */
  lemma BindingIteration(book: Dict, i: int)
    requires DistinctKeys(book)
    requires 0 <= i < |book|
    requires book[i].0 != KeyAttribute
    requires DistinctKeys(AttributeValues(book[..i]))
    ensures Set(AttributeValues(book[..i]), ":" + book[i].0, book[i].1) == AttributeValues(book[..i + 1])
    ensures DistinctKeys(Set(AttributeValues(book[..i]), ":" + book[i].0, book[i].1))
  {
    IterationStep(book, i);
    FreshKey(book, i);
    SetDistinct(AttributeValues(book[..i]), ":" + book[i].0, book[i].1);
  }

  /** The loop of `update_book`: appends one segment and binds one placeholder
      per non-ISBN field, then chops the trailing ", ". */
  method BuildUpdate(book: Dict) returns (updateExpression: string, expressionAttributes: Dict)
    requires DistinctKeys(book)
    ensures updateExpression == UpdateExpression(book)
    ensures expressionAttributes == AttributeValues(book)
    ensures DistinctKeys(expressionAttributes)
  {
    updateExpression := "SET";
    expressionAttributes := [];
    var i := 0;
    while i < |book|
      invariant 0 <= i <= |book|
      invariant updateExpression == "SET" + Segments(UpdatedFields(book[..i]))
      invariant expressionAttributes == AttributeValues(book[..i])
      invariant DistinctKeys(expressionAttributes)
    {
      var key := book[i].0;
      var value := book[i].1;
      if key != KeyAttribute {
        ExpressionIteration(book, i);
        BindingIteration(book, i);
        var escapedKey := Escape(key);
        updateExpression := updateExpression + " " + escapedKey + " = :" + key + ", ";
        expressionAttributes := Set(expressionAttributes, ":" + key, value);
      } else {
        IterationStep(book, i);
      }
      i := i + 1;
    }
    assert book[..|book|] == book;
    updateExpression := DropLastTwo(updateExpression);
  }

  /** The loop of `get_attribute_updates`. */
  method GetAttributeUpdates(book: Dict) returns (updates: Dict)
    requires DistinctKeys(book)
    ensures updates == AttributeUpdates(book)
    ensures DistinctKeys(updates)
  {
    updates := [];
    var i := 0;
    while i < |book|
      invariant 0 <= i <= |book|
      invariant updates == AttributeUpdates(book[..i])
      invariant DistinctKeys(updates)
    {
      var (key, value) := book[i];
      IterationStep(book, i);
      if key != KeyAttribute {
        FreshKey(book, i);
        SetDistinct(updates, key, Obj([("Value", value)]));
        updates := Set(updates, key, Obj([("Value", value)]));
      }
      i := i + 1;
    }
    assert book[..|book|] == book;
  }
}
