/** The book service: list, read, create, partially update and delete rows of
    its `books` table. The table is held in memory as a map from id to row. */
module BookService {
  import opened Http

  /** One row of `books`, without its id. */
  datatype Book = Book(title: SqlValue, author: SqlValue, year: SqlValue)

  /** What a successful response carries. */
  datatype BookPayload =
    | Row(id: int, book: Book)
    | Rows(rows: map<int, Book>)
    | Added(id: int, message: string)
    | Message(message: string)

  /** The columns a request may set. */
  datatype Column = Title | Author | Year

  /** The body keys `add_book` requires and `update_book` looks for, in the order it looks. */
  const Fields: seq<string> := ["title", "author", "year"]

  function Key(c: Column): string {
    match c
    case Title => "title"
    case Author => "author"
    case Year => "year"
  }

  function Get(b: Book, c: Column): SqlValue {
    match c
    case Title => b.title
    case Author => b.author
    case Year => b.year
  }

  function Assign(b: Book, c: Column, v: SqlValue): Book {
    match c
    case Title => b.(title := v)
    case Author => b.(author := v)
    case Year => b.(year := v)
  }

  /** The effect of `UPDATE books SET c1 = ?, c2 = ?, ... WHERE id = ?` on the
      row it matches, with `vals` bound to the placeholders in order: a column
      the SET list does not name keeps its value, and a named column takes a
      value from `vals`. */
  function ApplySet(b: Book, cols: seq<Column>, vals: seq<SqlValue>): (r: Book)
    requires |cols| == |vals|
    ensures forall c :: c !in cols ==> Get(r, c) == Get(b, c)
    decreases |cols|
  {
    if cols == [] then b else ApplySet(Assign(b, cols[0], vals[0]), cols[1..], vals[1..])
  }

  /** An UPDATE over distinct columns gives each named column its value and
      leaves every other column as it was. */
  lemma {:induction false} ApplySetEffect(b: Book, cols: seq<Column>, vals: seq<SqlValue>)
    requires |cols| == |vals| && Distinct(cols)
    decreases |cols|
    ensures forall i :: 0 <= i < |cols| ==> Get(ApplySet(b, cols, vals), cols[i]) == vals[i]
    ensures forall c :: c !in cols ==> Get(ApplySet(b, cols, vals), c) == Get(b, c)
  {
    if cols != [] {
      var b' := Assign(b, cols[0], vals[0]);
      ApplySetEffect(b', cols[1..], vals[1..]);
      forall i | 0 <= i < |cols|
        ensures Get(ApplySet(b, cols, vals), cols[i]) == vals[i]
      {
        if i > 0 {
          assert cols[1..][i - 1] == cols[i];
        } else {
          assert cols[0] !in cols[1..] by {
            forall j | 0 <= j < |cols[1..]| ensures cols[1..][j] != cols[0] {
              assert cols[1..][j] == cols[j + 1];
            }
          }
        }
      }
    }
  }

  /** `add_book` inserts exactly when the body is present and non-empty, names
      all three fields, and the driver can bind each of their values. */
  predicate Insertable(body: Body) {
    !NoData(body) && HasAll(body.value, Fields) && BindableWhere(body.value, Fields)
  }

  /** The row `add_book` inserts for a body. */
  function NewBook(obj: map<string, Json>): Book
    requires HasAll(obj, Fields) && BindableWhere(obj, Fields)
  {
    Book(Bind(obj["title"]).value, Bind(obj["author"]).value, Bind(obj["year"]).value)
  }

  /** The partial update: each of title, author and year that the body names
      takes its value from the body, the others keep theirs; other keys of the
      body play no part. */
  function Merge(b: Book, obj: map<string, Json>): Book
    requires BindableWhere(obj, Fields)
  {
    Book(Pick(obj, "title", b.title), Pick(obj, "author", b.author), Pick(obj, "year", b.year))
  }

  /** The SET list `update_book` builds: one column per updatable key the body
      names, each with the body's value. The code appends them in the order
      title, author, year; the columns are distinct, so the order does not
      change what the UPDATE does, and the predicate leaves it open. */
  predicate IsSetList(obj: map<string, Json>, cols: seq<Column>, vals: seq<Json>) {
    && |cols| == |vals|
    && Distinct(cols)
    && (forall i :: 0 <= i < |cols| ==> Key(cols[i]) in obj && vals[i] == obj[Key(cols[i])])
    && (forall c :: Key(c) in obj ==> c in cols)
  }

  method SetList(obj: map<string, Json>) returns (cols: seq<Column>, vals: seq<Json>)
    ensures IsSetList(obj, cols, vals)
  {
    cols, vals := [], [];
    if "title" in obj {
      cols := cols + [Title];
      vals := vals + [obj["title"]];
    }
    if "author" in obj {
      cols := cols + [Author];
      vals := vals + [obj["author"]];
    }
    if "year" in obj {
      cols := cols + [Year];
      vals := vals + [obj["year"]];
    }
  }

  /** A SET list is empty exactly when the body names none of the fields. */
  lemma SetListEmpty(obj: map<string, Json>, cols: seq<Column>, vals: seq<Json>)
    requires IsSetList(obj, cols, vals)
    ensures cols == [] <==> !HasAny(obj, Fields)
  {
    assert forall k :: k in Fields ==> k == Key(Title) || k == Key(Author) || k == Key(Year);
    if cols != [] {
      assert Key(cols[0]) in Fields;
    }
  }

  /** A SET list's values bind exactly when every field the body names does. */
  lemma SetListBinds(obj: map<string, Json>, cols: seq<Column>, vals: seq<Json>)
    requires IsSetList(obj, cols, vals)
    ensures BindAll(vals).Some? <==> BindableWhere(obj, Fields)
  {
    assert forall k :: k in Fields ==> k == Key(Title) || k == Key(Author) || k == Key(Year);
    if BindAll(vals).None? {
      var i :| 0 <= i < |vals| && Bind(vals[i]).None?;
      assert Key(cols[i]) in Fields;
    }
  }

  /** Running a SET list whose values bound gives the merge of the row with
      the body. */
  lemma SetListMerge(b: Book, obj: map<string, Json>, cols: seq<Column>, vals: seq<Json>)
    requires IsSetList(obj, cols, vals) && BindAll(vals).Some? && BindableWhere(obj, Fields)
    ensures ApplySet(b, cols, BindAll(vals).value) == Merge(b, obj)
  {
    var bound := BindAll(vals).value;
    ApplySetEffect(b, cols, bound);
    forall c | c in cols ensures Get(ApplySet(b, cols, bound), c) == Bind(obj[Key(c)]).value {
      var i :| 0 <= i < |cols| && cols[i] == c;
    }
    var n := ApplySet(b, cols, bound);
    assert Get(n, Title) == Get(Merge(b, obj), Title);
    assert Get(n, Author) == Get(Merge(b, obj), Author);
    assert Get(n, Year) == Get(Merge(b, obj), Year);
  }

  /** What running the UPDATE built from a SET list does: with an empty list
      the statement is invalid; otherwise binding fails exactly when some named
      value cannot be bound, and when it succeeds the row becomes the merge of
      the old row with the body. */
  lemma SetListMeaning(b: Book, obj: map<string, Json>, cols: seq<Column>, vals: seq<Json>)
    requires IsSetList(obj, cols, vals)
    ensures cols == [] <==> !HasAny(obj, Fields)
    ensures BindAll(vals).Some? <==> BindableWhere(obj, Fields)
    ensures BindAll(vals).Some? ==> ApplySet(b, cols, BindAll(vals).value) == Merge(b, obj)
  {
    SetListEmpty(obj, cols, vals);
    SetListBinds(obj, cols, vals);
    if BindAll(vals).Some? {
      SetListMerge(b, obj, cols, vals);
    }
  }

  /** The `books` table. Ids are issued from a counter kept above every id
      ever issued, so an id is never handed out twice; SQLite issues no id at
      or beyond 2^63. */
  class BookTable {
    var rows: map<int, Book>
    var nextId: int

    ghost predicate Valid()
      reads this
    {
      1 <= nextId <= IdLimit && forall id :: id in rows ==> 1 <= id < nextId
    }

    constructor ()
      ensures Valid() && rows == map[] && nextId == 1
    {
      rows := map[];
      nextId := 1;
    }

    /** GET /api/books: every row, and the table is left as it is. */
    method GetBooks() returns (r: Response<BookPayload>)
      ensures r.status == 200 && r.reply == Payload(Rows(rows))
    {
      r := Response(200, Payload(Rows(rows)));
    }

    /** GET /api/books/<id>: the row, or 404 when there is none. An id the
        driver cannot bind as a 64-bit integer makes the SELECT raise. */
    method GetBook(id: int) returns (r: Response<BookPayload>)
      requires Valid()
      ensures !Int64(id) ==> r == Crash(UnsupportedParameter)
      ensures r.status == 404 <==> Int64(id) && id !in rows
      ensures Int64(id) && id !in rows ==> r.reply == Error("Book not found")
      ensures id in rows ==> r == Response(200, Payload(Row(id, rows[id])))
    {
      if !Int64(id) {
        return Crash(UnsupportedParameter);
      }
      if id !in rows {
        return Failure(404, "Book not found");
      }
      r := Response(200, Payload(Row(id, rows[id])));
    }

    /** POST /api/books. Once the largest rowid has been issued the INSERT
        fails. */
    method AddBook(body: Body) returns (r: Response<BookPayload>)
      requires Valid()
      modifies this
      ensures Valid()
      ensures NoData(body) ==> r == Failure(400, "No data provided")
      ensures !NoData(body) && !HasAll(body.value, Fields) ==> r == Failure(400, "Missing required fields")
      ensures !NoData(body) && HasAll(body.value, Fields) && !BindableWhere(body.value, Fields) ==>
                r == Crash(UnsupportedParameter)
      ensures Insertable(body) && old(nextId) == IdLimit ==> r == Crash(IdsExhausted)
      ensures !(Insertable(body) && old(nextId) < IdLimit) ==> rows == old(rows) && nextId == old(nextId)
      ensures Insertable(body) && old(nextId) < IdLimit ==>
                && r == Response(201, Payload(Added(old(nextId), "Book added successfully")))
                && old(nextId) !in old(rows)
                && rows == old(rows)[old(nextId) := NewBook(body.value)]
                && nextId == old(nextId) + 1
    {
      if NoData(body) {
        return Failure(400, "No data provided");
      }
      var obj := body.value;
      if !("title" in obj && "author" in obj && "year" in obj) {
        return Failure(400, "Missing required fields");
      }
      var vals := [obj["title"], obj["author"], obj["year"]];
      var bound := BindAll(vals);
      if bound.None? {
        return Crash(UnsupportedParameter);
      }
      if nextId == IdLimit {
        assert Bind(vals[0]).Some? && Bind(vals[1]).Some? && Bind(vals[2]).Some?;
        assert forall k :: k in Fields ==> k == "title" || k == "author" || k == "year";
        return Crash(IdsExhausted);
      }
      var id := nextId;
      rows := rows[id := Book(bound.value[0], bound.value[1], bound.value[2])];
      nextId := nextId + 1;
      r := Response(201, Payload(Added(id, "Book added successfully")));
    }

    /** PUT /api/books/<id>. The SET list is built from whichever of title,
        author and year the body names; when it names none of them the
        statement is `UPDATE books SET  WHERE id = ?`, which SQLite rejects. */
    method UpdateBook(id: int, body: Body) returns (r: Response<BookPayload>)
      requires Valid()
      modifies this
      ensures Valid() && nextId == old(nextId)
      ensures NoData(body) ==> r == Failure(400, "No data provided")
      ensures !NoData(body) && !Int64(id) ==> r == Crash(UnsupportedParameter)
      ensures !NoData(body) && Int64(id) && id !in old(rows) ==> r == Failure(404, "Book not found")
      ensures !NoData(body) && id in old(rows) && !HasAny(body.value, Fields) ==> r == Crash(InvalidStatement)
      ensures !NoData(body) && id in old(rows) && HasAny(body.value, Fields) && !BindableWhere(body.value, Fields) ==>
                r == Crash(UnsupportedParameter)
      ensures r.status != 200 ==> rows == old(rows)
      ensures r.status == 200 <==> !NoData(body) && id in old(rows) && HasAny(body.value, Fields) && BindableWhere(body.value, Fields)
      ensures r.status == 200 ==>
                && r.reply == Payload(Message("Book updated successfully"))
                && rows == old(rows)[id := Merge(old(rows)[id], body.value)]
    {
      if NoData(body) {
        return Failure(400, "No data provided");
      }
      var obj := body.value;
      if !Int64(id) {
        return Crash(UnsupportedParameter);
      }
      if id !in rows {
        return Failure(404, "Book not found");
      }
      var cols, vals := SetList(obj);
      SetListMeaning(rows[id], obj, cols, vals);
      if cols == [] {
        return Crash(InvalidStatement);
      }
      var bound := BindAll(vals);
      if bound.None? {
        return Crash(UnsupportedParameter);
      }
      rows := rows[id := ApplySet(rows[id], cols, bound.value)];
      r := Response(200, Payload(Message("Book updated successfully")));
    }

    /** DELETE /api/books/<id>: check that the row exists, then remove it. */
    method DeleteBook(id: int) returns (r: Response<BookPayload>)
      requires Valid()
      modifies this
      ensures Valid() && nextId == old(nextId)
      ensures !Int64(id) ==> r == Crash(UnsupportedParameter) && rows == old(rows)
      ensures Int64(id) && id !in old(rows) ==> r == Failure(404, "Book not found") && rows == old(rows)
      ensures id in old(rows) ==>
                r == Response(200, Payload(Message("Book deleted successfully"))) && rows == old(rows) - {id}
    {
      if !Int64(id) {
        return Crash(UnsupportedParameter);
      }
      if id !in rows {
        return Failure(404, "Book not found");
      }
      rows := rows - {id};
      r := Response(200, Payload(Message("Book deleted successfully")));
    }
  }

  /** A book created through POST, while the table still has an id to issue,
      can be read back through GET under the id the POST returned, with the
      submitted title, author and year. */
  method AddedBookIsRetrievable(t: BookTable, body: Body) returns (id: int, got: Response<BookPayload>)
    requires t.Valid() && Insertable(body) && t.nextId < IdLimit
    modifies t
    ensures id !in old(t.rows)
    ensures got == Response(200, Payload(Row(id, NewBook(body.value))))
  {
    var created := t.AddBook(body);
    id := created.reply.value.id;
    got := t.GetBook(id);
  }

  /** A new table answers two valid POSTs with 201 and the ids 1 and 2, and
      then holds exactly those two books. */
  method TwoPostsToNewTable(body1: Body, body2: Body)
    returns (t: BookTable, first: Response<BookPayload>, second: Response<BookPayload>)
    requires Insertable(body1) && Insertable(body2)
    ensures first == Response(201, Payload(Added(1, "Book added successfully")))
    ensures second == Response(201, Payload(Added(2, "Book added successfully")))
    ensures t.rows == map[1 := NewBook(body1.value), 2 := NewBook(body2.value)]
  {
    t := new BookTable();
    first := t.AddBook(body1);
    second := t.AddBook(body2);
  }

  /** Deleting is not idempotent in its answer: deleting the same id a second
      time is a 404. */
  method SecondDeleteIsNotFound(t: BookTable, id: int) returns (first: Response<BookPayload>, second: Response<BookPayload>)
    requires t.Valid() && id in t.rows
    modifies t
    ensures first.status == 200 && second == Failure(404, "Book not found")
    ensures t.rows == old(t.rows) - {id}
  {
    first := t.DeleteBook(id);
    second := t.DeleteBook(id);
  }
}
