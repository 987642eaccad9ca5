/** The review service: reviews of books in its `reviews` table, held in
    memory as a map from review id to row. Creating a review first asks the
    book service whether the book exists. */
module ReviewService {
  import opened Http
  import Decimal

  /** One row of `reviews`, without its id. `date` is set on creation and
      never changed. */
  datatype Review = Review(bookId: SqlValue, rating: SqlValue, comment: SqlValue, reviewer: SqlValue, date: string)

  /** What a successful response carries. */
  datatype ReviewPayload =
    | Rows(rows: map<int, Review>)
    | Added(id: int, message: string)
    | Message(message: string)

  /** The columns an update may set: never book_id, never date. */
  datatype Column = Rating | Comment | Reviewer

  /** The body keys `add_review` requires. */
  const Required: seq<string> := ["book_id", "rating", "comment", "reviewer"]

  /** The body keys `update_review` looks for, in the order it looks. */
  const Updatable: seq<string> := ["rating", "comment", "reviewer"]

  /** Where the existence check is sent. */
  const BookServiceUrl: string := "http://book-service:5001/api/books"

  /** What came back from the existence check's GET: a status code, or an
      exception from the HTTP client (connection refused, timeout, ...). */
  datatype CheckOutcome = Status(code: int) | TransportError

  /** The URL of the existence check for an integer book_id: the books URL, a
      slash, and `str(book_id)`, that is the canonical numeral of its
      magnitude after a minus sign when it is negative. */
  function CheckUrl(bookId: int): (url: string)
    ensures |url| > |BookServiceUrl| + 1 && url[..|BookServiceUrl| + 1] == BookServiceUrl + "/"
    ensures bookId >= 0 ==>
              var tail := url[|BookServiceUrl| + 1..];
              Decimal.Canonical(tail) && Decimal.Value(tail) == bookId
    ensures bookId < 0 ==>
              var tail := url[|BookServiceUrl| + 1..];
              tail[0] == '-' && Decimal.Canonical(tail[1..]) && Decimal.Value(tail[1..]) == -bookId
  {
    var url := BookServiceUrl + "/" + Decimal.IntToString(bookId);
    assert url[|BookServiceUrl| + 1..] == Decimal.IntToString(bookId);
    url
  }

  /** The book exists only when the book service answered 200; any other
      status and any transport failure both count as "no such book". */
  function VerifyBookExists(outcome: CheckOutcome): (exists_: bool)
    ensures exists_ <==> outcome.Status? && outcome.code == 200
    ensures outcome.TransportError? ==> !exists_
  {
    match outcome
    case Status(code) => code == 200
    case TransportError => false
  }

  /** The rows `SELECT * FROM reviews WHERE book_id = ?` returns. */
  function ForBook(rows: map<int, Review>, bookId: int): (m: map<int, Review>)
    ensures forall id :: id in m <==> id in rows && rows[id].bookId == Integer(bookId)
    ensures forall id :: id in m ==> m[id] == rows[id]
  {
    map id | id in rows && rows[id].bookId == Integer(bookId) :: rows[id]
  }

  function Key(c: Column): string {
    match c
    case Rating => "rating"
    case Comment => "comment"
    case Reviewer => "reviewer"
  }

  function Get(v: Review, c: Column): SqlValue {
    match c
    case Rating => v.rating
    case Comment => v.comment
    case Reviewer => v.reviewer
  }

  function Assign(v: Review, c: Column, x: SqlValue): Review {
    match c
    case Rating => v.(rating := x)
    case Comment => v.(comment := x)
    case Reviewer => v.(reviewer := x)
  }

  /** The effect of `UPDATE reviews SET c1 = ?, ... WHERE id = ?` on the row
      it matches: book_id, date and every column the SET list does not name
      keep their value, and a named column takes a value from `vals`. */
  function ApplySet(v: Review, cols: seq<Column>, vals: seq<SqlValue>): (r: Review)
    requires |cols| == |vals|
    ensures r.bookId == v.bookId && r.date == v.date
    ensures forall c :: c !in cols ==> Get(r, c) == Get(v, c)
    decreases |cols|
  {
    if cols == [] then v else ApplySet(Assign(v, cols[0], vals[0]), cols[1..], vals[1..])
  }

  /** An UPDATE over distinct columns gives each named column its value and
      leaves every other column as it was. */
  lemma {:induction false} ApplySetEffect(v: Review, cols: seq<Column>, vals: seq<SqlValue>)
    requires |cols| == |vals| && Distinct(cols)
    decreases |cols|
    ensures forall i :: 0 <= i < |cols| ==> Get(ApplySet(v, cols, vals), cols[i]) == vals[i]
    ensures forall c :: c !in cols ==> Get(ApplySet(v, cols, vals), c) == Get(v, c)
  {
    if cols != [] {
      ApplySetEffect(Assign(v, cols[0], vals[0]), cols[1..], vals[1..]);
      forall i | 0 <= i < |cols|
        ensures Get(ApplySet(v, cols, vals), cols[i]) == vals[i]
      {
        if i > 0 {
          assert cols[1..][i - 1] == cols[i];
        } else {
          assert cols[0] !in cols[1..] by {
            forall j | 0 <= j < |cols[1..]| ensures cols[1..][j] != cols[0] {
              assert cols[1..][j] == cols[j + 1];
            }
          }
        }
      }
    }
  }

  /** `add_review` gets as far as inserting exactly when the body is present
      and non-empty, names all four fields, and each of their values can be
      bound. */
  predicate Insertable(body: Body) {
    !NoData(body) && HasAll(body.value, Required) && BindableWhere(body.value, Required)
  }

  /** The row `add_review` inserts, dated `today`. */
  function NewReview(obj: map<string, Json>, today: string): Review
    requires HasAll(obj, Required) && BindableWhere(obj, Required)
  {
    Review(Bind(obj["book_id"]).value, Bind(obj["rating"]).value, Bind(obj["comment"]).value,
           Bind(obj["reviewer"]).value, today)
  }

  /** The parameters of the INSERT `add_review` runs bind exactly when the
      four submitted values do, and then they are the new row's fields and
      the date. */
  lemma InsertParameters(obj: map<string, Json>, today: string)
    requires HasAll(obj, Required)
    ensures var bound := BindAll([obj["book_id"], obj["rating"], obj["comment"], obj["reviewer"], JString(today)]);
            && (bound.Some? <==> BindableWhere(obj, Required))
            && (bound.Some? ==>
                  var v := NewReview(obj, today);
                  bound.value == [v.bookId, v.rating, v.comment, v.reviewer, Text(today)])
  {
    var vals := [obj["book_id"], obj["rating"], obj["comment"], obj["reviewer"], JString(today)];
    assert forall k :: k in Required ==> k == "book_id" || k == "rating" || k == "comment" || k == "reviewer";
    if BindAll(vals).Some? {
      assert Bind(vals[0]).Some? && Bind(vals[1]).Some? && Bind(vals[2]).Some? && Bind(vals[3]).Some?;
    }
  }

  /** A review submitted with an integer book_id that binds is stored under
      that book_id, and that book_id is a 64-bit integer. */
  lemma IntegerBookId(obj: map<string, Json>, today: string, bookId: int)
    requires HasAll(obj, Required) && BindableWhere(obj, Required) && obj["book_id"] == JInt(bookId)
    ensures Int64(bookId) && NewReview(obj, today).bookId == Integer(bookId)
  {
    assert "book_id" in Required;
  }

  /** The partial update: each of rating, comment and reviewer that the body
      names takes its value from the body; book_id, date and the rest keep
      theirs. */
  function Merge(v: Review, obj: map<string, Json>): Review
    requires BindableWhere(obj, Updatable)
  {
    v.(rating := Pick(obj, "rating", v.rating),
       comment := Pick(obj, "comment", v.comment),
       reviewer := Pick(obj, "reviewer", v.reviewer))
  }

  /** The SET list `update_review` builds: one column per updatable key the
      body names, each with the body's value. The code appends them in the
      order rating, comment, reviewer; the columns are distinct, so the order
      does not change what the UPDATE does, and the predicate leaves it open. */
  predicate IsSetList(obj: map<string, Json>, cols: seq<Column>, vals: seq<Json>) {
    && |cols| == |vals|
    && Distinct(cols)
    && (forall i :: 0 <= i < |cols| ==> Key(cols[i]) in obj && vals[i] == obj[Key(cols[i])])
    && (forall c :: Key(c) in obj ==> c in cols)
  }

  method SetList(obj: map<string, Json>) returns (cols: seq<Column>, vals: seq<Json>)
    ensures IsSetList(obj, cols, vals)
  {
    cols, vals := [], [];
    if "rating" in obj {
      cols := cols + [Rating];
      vals := vals + [obj["rating"]];
    }
    if "comment" in obj {
      cols := cols + [Comment];
      vals := vals + [obj["comment"]];
    }
    if "reviewer" in obj {
      cols := cols + [Reviewer];
      vals := vals + [obj["reviewer"]];
    }
  }

  /** A SET list is empty exactly when the body names none of the updatable
      fields. */
  lemma SetListEmpty(obj: map<string, Json>, cols: seq<Column>, vals: seq<Json>)
    requires IsSetList(obj, cols, vals)
    ensures cols == [] <==> !HasAny(obj, Updatable)
  {
    assert forall k :: k in Updatable ==> k == Key(Rating) || k == Key(Comment) || k == Key(Reviewer);
    if cols != [] {
      assert Key(cols[0]) in Updatable;
    }
  }

  /** A SET list's values bind exactly when every updatable field the body
      names does. */
  lemma SetListBinds(obj: map<string, Json>, cols: seq<Column>, vals: seq<Json>)
    requires IsSetList(obj, cols, vals)
    ensures BindAll(vals).Some? <==> BindableWhere(obj, Updatable)
  {
    assert forall k :: k in Updatable ==> k == Key(Rating) || k == Key(Comment) || k == Key(Reviewer);
    if BindAll(vals).None? {
      var i :| 0 <= i < |vals| && Bind(vals[i]).None?;
      assert Key(cols[i]) in Updatable;
    }
  }

  /** Running a SET list whose values bound gives the merge of the row with
      the body. */
  lemma SetListMerge(v: Review, obj: map<string, Json>, cols: seq<Column>, vals: seq<Json>)
    requires IsSetList(obj, cols, vals) && BindAll(vals).Some? && BindableWhere(obj, Updatable)
    ensures ApplySet(v, cols, BindAll(vals).value) == Merge(v, obj)
  {
    var bound := BindAll(vals).value;
    ApplySetEffect(v, cols, bound);
    forall c | c in cols ensures Get(ApplySet(v, cols, bound), c) == Bind(obj[Key(c)]).value {
      var i :| 0 <= i < |cols| && cols[i] == c;
    }
    var n := ApplySet(v, cols, bound);
    assert Get(n, Rating) == Get(Merge(v, obj), Rating);
    assert Get(n, Comment) == Get(Merge(v, obj), Comment);
    assert Get(n, Reviewer) == Get(Merge(v, obj), Reviewer);
  }

  /** What running the UPDATE built from a SET list does: with an empty list
      the statement is invalid; otherwise binding fails exactly when some named
      value cannot be bound, and when it succeeds the row becomes the merge of
      the old row with the body. */
  lemma SetListMeaning(v: Review, obj: map<string, Json>, cols: seq<Column>, vals: seq<Json>)
    requires IsSetList(obj, cols, vals)
    ensures cols == [] <==> !HasAny(obj, Updatable)
    ensures BindAll(vals).Some? <==> BindableWhere(obj, Updatable)
    ensures BindAll(vals).Some? ==> ApplySet(v, cols, BindAll(vals).value) == Merge(v, obj)
  {
    SetListEmpty(obj, cols, vals);
    SetListBinds(obj, cols, vals);
    if BindAll(vals).Some? {
      SetListMerge(v, obj, cols, vals);
    }
  }

  /** The `reviews` table, with ids issued from a counter kept above every id
      ever issued and below 2^63. */
  class ReviewTable {
    var rows: map<int, Review>
    var nextId: int

    ghost predicate Valid()
      reads this
    {
      1 <= nextId <= IdLimit && forall id :: id in rows ==> 1 <= id < nextId
    }

    constructor ()
      ensures Valid() && rows == map[] && nextId == 1
    {
      rows := map[];
      nextId := 1;
    }

    /** GET /api/reviews/<book_id>: the reviews of that book (none at all for
        an unknown book, which is still a 200), and the table is left as it is.
        A book_id the driver cannot bind as a 64-bit integer makes the SELECT
        raise. */
    method GetReviews(bookId: int) returns (r: Response<ReviewPayload>)
      ensures !Int64(bookId) ==> r == Crash(UnsupportedParameter)
      ensures Int64(bookId) ==> r.status == 200 && r.reply.Payload? && r.reply.value.Rows?
      ensures r.status == 200 ==> forall id :: id in r.reply.value.rows <==> id in rows && rows[id].bookId == Integer(bookId)
      ensures r.status == 200 ==> forall id :: id in r.reply.value.rows ==> r.reply.value.rows[id] == rows[id]
    {
      if !Int64(bookId) {
        return Crash(UnsupportedParameter);
      }
      r := Response(200, Payload(Rows(ForBook(rows, bookId))));
    }

    /** POST /api/reviews. `check` is what the GET to the book service returns
        (it is only sent if the body passes validation) and `today` is the
        current date as `YYYY-MM-DD`. `checked` says whether the check was sent,
        and `checkedUrl` is the URL it was sent to when the body's book_id is
        an integer. */
    method AddReview(body: Body, check: CheckOutcome, today: string)
      returns (r: Response<ReviewPayload>, checked: bool, checkedUrl: Option<string>)
      requires Valid()
      modifies this
      ensures Valid()
      ensures NoData(body) ==> r == Failure(400, "No data provided")
      ensures !NoData(body) && !HasAll(body.value, Required) ==> r == Failure(400, "Missing required fields")
      ensures checked <==> !NoData(body) && HasAll(body.value, Required)
      ensures checkedUrl.Some? <==> checked && body.value["book_id"].JInt?
      ensures checkedUrl.Some? ==> checkedUrl.value == CheckUrl(body.value["book_id"].i)
      ensures checked && !VerifyBookExists(check) ==> r == Failure(404, "Book not found")
      ensures checked && VerifyBookExists(check) && !BindableWhere(body.value, Required) ==>
                r == Crash(UnsupportedParameter)
      ensures Insertable(body) && VerifyBookExists(check) && old(nextId) == IdLimit ==> r == Crash(IdsExhausted)
      ensures !(Insertable(body) && VerifyBookExists(check) && old(nextId) < IdLimit) ==>
                rows == old(rows) && nextId == old(nextId)
      ensures Insertable(body) && VerifyBookExists(check) && old(nextId) < IdLimit ==>
                && r == Response(201, Payload(Added(old(nextId), "Review added successfully")))
                && old(nextId) !in old(rows)
                && rows == old(rows)[old(nextId) := NewReview(body.value, today)]
                && nextId == old(nextId) + 1
    {
      checked, checkedUrl := false, None;
      if NoData(body) {
        return Failure(400, "No data provided"), checked, checkedUrl;
      }
      var obj := body.value;
      if !("book_id" in obj && "rating" in obj && "comment" in obj && "reviewer" in obj) {
        return Failure(400, "Missing required fields"), checked, checkedUrl;
      }
      checked := true;
      if obj["book_id"].JInt? {
        checkedUrl := Some(CheckUrl(obj["book_id"].i));
      }
      if !VerifyBookExists(check) {
        return Failure(404, "Book not found"), checked, checkedUrl;
      }
      r := InsertReview(obj, today);
    }

    /** The INSERT `add_review` runs once the book is confirmed: it binds the
        four submitted values and the date, and takes the next id. */
    method InsertReview(obj: map<string, Json>, today: string) returns (r: Response<ReviewPayload>)
      requires Valid() && HasAll(obj, Required)
      modifies this
      ensures Valid()
      ensures !BindableWhere(obj, Required) ==> r == Crash(UnsupportedParameter)
      ensures BindableWhere(obj, Required) && old(nextId) == IdLimit ==> r == Crash(IdsExhausted)
      ensures !(BindableWhere(obj, Required) && old(nextId) < IdLimit) ==> rows == old(rows) && nextId == old(nextId)
      ensures BindableWhere(obj, Required) && old(nextId) < IdLimit ==>
                && r == Response(201, Payload(Added(old(nextId), "Review added successfully")))
                && old(nextId) !in old(rows)
                && rows == old(rows)[old(nextId) := NewReview(obj, today)]
                && nextId == old(nextId) + 1
    {
      var bound := BindAll([obj["book_id"], obj["rating"], obj["comment"], obj["reviewer"], JString(today)]);
      InsertParameters(obj, today);
      if bound.None? {
        return Crash(UnsupportedParameter);
      }
      if nextId == IdLimit {
        return Crash(IdsExhausted);
      }
      var id := nextId;
      rows := rows[id := Review(bound.value[0], bound.value[1], bound.value[2], bound.value[3], today)];
      nextId := nextId + 1;
      r := Response(201, Payload(Added(id, "Review added successfully")));
    }

    /** PUT /api/reviews/<id>. Nothing re-checks the book; book_id and date are
        not in the SET list. A body naming none of rating, comment and reviewer
        gives `UPDATE reviews SET  WHERE id = ?`, which SQLite rejects. */
    method UpdateReview(id: int, body: Body) returns (r: Response<ReviewPayload>)
      requires Valid()
      modifies this
      ensures Valid() && nextId == old(nextId)
      ensures NoData(body) ==> r == Failure(400, "No data provided")
      ensures !NoData(body) && !Int64(id) ==> r == Crash(UnsupportedParameter)
      ensures !NoData(body) && Int64(id) && id !in old(rows) ==> r == Failure(404, "Review not found")
      ensures !NoData(body) && id in old(rows) && !HasAny(body.value, Updatable) ==> r == Crash(InvalidStatement)
      ensures !NoData(body) && id in old(rows) && HasAny(body.value, Updatable) && !BindableWhere(body.value, Updatable) ==>
                r == Crash(UnsupportedParameter)
      ensures r.status != 200 ==> rows == old(rows)
      ensures r.status == 200 <==>
                !NoData(body) && id in old(rows) && HasAny(body.value, Updatable) && BindableWhere(body.value, Updatable)
      ensures r.status == 200 ==>
                && r.reply == Payload(Message("Review updated successfully"))
                && rows == old(rows)[id := Merge(old(rows)[id], body.value)]
                && rows[id].bookId == old(rows)[id].bookId
                && rows[id].date == old(rows)[id].date
    {
      if NoData(body) {
        return Failure(400, "No data provided");
      }
      var obj := body.value;
      if !Int64(id) {
        return Crash(UnsupportedParameter);
      }
      if id !in rows {
        return Failure(404, "Review not found");
      }
      var cols, vals := SetList(obj);
      SetListMeaning(rows[id], obj, cols, vals);
      if cols == [] {
        return Crash(InvalidStatement);
      }
      var bound := BindAll(vals);
      if bound.None? {
        return Crash(UnsupportedParameter);
      }
      rows := rows[id := ApplySet(rows[id], cols, bound.value)];
      r := Response(200, Payload(Message("Review updated successfully")));
    }

    /** DELETE /api/reviews/<id>: check that the row exists, then remove it. */
    method DeleteReview(id: int) returns (r: Response<ReviewPayload>)
      requires Valid()
      modifies this
      ensures Valid() && nextId == old(nextId)
      ensures !Int64(id) ==> r == Crash(UnsupportedParameter) && rows == old(rows)
      ensures Int64(id) && id !in old(rows) ==> r == Failure(404, "Review not found") && rows == old(rows)
      ensures id in old(rows) ==>
                r == Response(200, Payload(Message("Review deleted successfully"))) && rows == old(rows) - {id}
    {
      if !Int64(id) {
        return Crash(UnsupportedParameter);
      }
      if id !in rows {
        return Failure(404, "Review not found");
      }
      rows := rows - {id};
      r := Response(200, Payload(Message("Review deleted successfully")));
    }
  }

  /** A review created for a book the book service confirms, with an integer
      book_id and while the table still has an id to issue, is checked against
      that book_id and is listed among that book's reviews, holding the
      submitted fields and dated the day it was created. */
  method AddedReviewIsListed(t: ReviewTable, body: Body, today: string, bookId: int)
    returns (id: int, checkedUrl: Option<string>, listed: Response<ReviewPayload>)
    requires t.Valid() && Insertable(body) && body.value["book_id"] == JInt(bookId) && t.nextId < IdLimit
    modifies t
    ensures checkedUrl == Some(CheckUrl(bookId))
    ensures id !in old(t.rows)
    ensures listed.status == 200 && listed.reply.Payload? && listed.reply.value.Rows?
    ensures id in listed.reply.value.rows && listed.reply.value.rows[id] == NewReview(body.value, today)
    ensures listed.reply.value.rows[id].date == today
  {
    IntegerBookId(body.value, today, bookId);
    var created, _, url := t.AddReview(body, Status(200), today);
    checkedUrl := url;
    id := created.reply.value.id;
    listed := t.GetReviews(bookId);
  }

  /** A review for a book the book service does not confirm is never stored,
      whether the book is missing or the book service could not be reached. */
  method UnconfirmedBookStoresNothing(t: ReviewTable, body: Body, check: CheckOutcome, today: string)
    returns (r: Response<ReviewPayload>)
    requires t.Valid() && !NoData(body) && HasAll(body.value, Required) && check != Status(200)
    modifies t
    ensures r == Failure(404, "Book not found") && t.rows == old(t.rows)
  {
    var checked, url;
    r, checked, url := t.AddReview(body, check, today);
  }
}
