# Book catalogue microservices, modelled in Dafny

Three small Flask programs make up the system:

- the **book service** (`book_service/books.py`): CRUD handlers over a SQLite
  table `books` with columns title, author and year;
- the **review service** (`review_service/reviews.py`): CRUD handlers over a
  table `reviews` with columns book_id, rating, comment, reviewer and date.
  Creating a review first asks the book service whether the book exists;
- the **API gateway** (`api_gateway/app.py`): a stateless proxy. It sends
  `/api/books...` to the book service and `/api/reviews...` to the review
  service. It replays the method, every header but `Host`, and the JSON body.
  It relays the answer, and it turns a transport failure into a 500.

The model keeps each program's own form:

- `books.dfy` and `reviews.dfy` hold the table-owning services. Each table is
  a class (`BookTable`, `ReviewTable`) whose `rows` field is a map from id to
  row. Each handler is a method that changes that map the way the handler's
  SQL statements change the table. Its contract gives the response and the
  new table for every branch.
- `gateway.dfy` holds the gateway as pure functions. They cover the route
  table, the URL each route forwards to, the outgoing request, and the
  translation of the backend's outcome.
- `http.dfy` holds what the programs share. That is the JSON a request
  carries, how the sqlite3 driver binds a JSON value (`Bind`), and the
  response datatype (status plus payload, error message, or an unhandled
  exception).
- `decimal.dfy` models how Python's `str` prints an integer into a URL and
  how a route's integer converter reads it back. `wiring.dfy` relates the
  review service's existence check to the gateway's book route.

External effects are parameters:

- The outcome of the review service's GET to the book service is a
  `CheckOutcome`: `Status(code)` or `TransportError`.
- The current date is a `today` string.
- The gateway's HTTP client is a total function `transport: Outgoing -> Backend`.

Two behaviours of the code that are easy to miss are modelled as written:

- A partial update whose body is non-empty but names none of title, author
  and year builds `UPDATE books SET  WHERE id = ?`. SQLite rejects that
  statement, the handler raises, and Flask answers 500 with the table
  unchanged. The same holds for reviews with rating, comment and reviewer.
  The model returns `Crash(InvalidStatement)` in that case.
- The sqlite3 driver binds a Python int only inside the signed 64-bit range.
  Outside it, binding raises OverflowError. This applies to a body value and
  to an id from the path, which the route converter does not bound. The
  handler does not catch it, so the answer is 500 with the table unchanged.
  The model returns `Crash(UnsupportedParameter)`. Likewise, once the largest
  rowid has been issued an INSERT fails, and the model returns
  `Crash(IdsExhausted)`.

## Model

| member | source | states |
|---|---|---|
| `Http.Bind` | book_service/books.py:52-55 | a JSON value can be stored exactly when it is not a list or an object and, if it is an integer, lies in the signed 64-bit range; strings and such integers are stored as themselves, a bool as 1 or 0, null as NULL, and every stored integer is in that range |
| `Http.BindAll` | book_service/books.py:52-55 | binding the parameters of a statement succeeds exactly when every one of them binds, and then yields each one's stored value in order |
| `Decimal.NatToString` | api_gateway/app.py:41 | the id printed into a URL is a canonical numeral: digits only, no leading zero unless the id is 0 |
| `Decimal.IntToString` | review_service/reviews.py:28 | `str` of an int is the canonical numeral denoting its magnitude, with a leading minus sign exactly for a negative int |
| `Decimal.Value` | api_gateway/app.py:39 | the number the route converter reads from a string of digits is below 10 to the number of digits, and it is 0 exactly when every digit is 0 |
| `Decimal.ValueOfNatToString` | api_gateway/app.py:41 | reading back the printed id gives the id: the gateway does not change it |
| `Decimal.NatToStringOfValue` | api_gateway/app.py:39-42 | printing the number a canonical numeral denotes gives that numeral back, character for character |
| `BookService.ApplySet` | book_service/books.py:91-94 | an UPDATE leaves every column its SET list does not name as it was |
| `BookService.ApplySetEffect` | book_service/books.py:91-94 | an UPDATE over distinct columns sets each named column to its value and leaves the other columns as they were |
| `BookService.SetList` | book_service/books.py:76-89 | the SET list holds one distinct column for each of title, author and year that the body names, each paired with the body's value, and no other |
| `BookService.SetListMeaning` | book_service/books.py:76-94 | the SET list is empty exactly when the body names none of title, author and year; binding fails exactly when a named value cannot be bound; otherwise the row becomes the old row with just the named fields replaced |
| `BookService.BookTable.constructor` | book_service/books.py:13-18 | the table starts empty and the first id issued is 1; the id invariant holds: every id lies between 1 and the counter, and the counter is at most 2^63 |
| `BookService.BookTable.GetBooks` | book_service/books.py:21-27 | 200 with every row of the table; the table is not modified |
| `BookService.BookTable.GetBook` | book_service/books.py:30-38 | 500 when the id is outside the 64-bit range; otherwise 404 "Book not found" exactly when the id is absent, and 200 with that row under that id when it is present; the table is not modified |
| `BookService.BookTable.AddBook` | book_service/books.py:41-60 | 400 "No data provided" for an absent or empty body; 400 "Missing required fields" if title, author or year is missing; 500 if a value cannot be bound; 500 when the largest rowid was already issued; on each of these the table is unchanged; otherwise 201 with a fresh id, exactly that row added, and the counter advanced by one |
| `BookService.BookTable.UpdateBook` | book_service/books.py:63-98 | 400 on a missing body comes first; then 500 for an id outside the 64-bit range; then 404 on an absent id; 500 with no change when the body names no updatable field or one cannot be bound; otherwise 200 and the row is replaced by its merge with the body: supplied fields change, other fields, other keys and other rows do not |
| `BookService.BookTable.DeleteBook` | book_service/books.py:101-115 | 500 with no change for an id outside the 64-bit range; 404 "Book not found" with no change for an absent id; otherwise 200 and exactly that row is removed |
| `BookService.AddedBookIsRetrievable` | book_service/books.py:51-60 | after a successful POST (the body is valid and the table still has an id to issue), a GET of the returned id, which was not in the table before, returns the submitted title, author and year |
| `BookService.TwoPostsToNewTable` | book_service/books.py:41-60 | on a new table two valid POSTs both succeed, with ids 1 and 2, and the table then holds exactly those two books |
| `BookService.SecondDeleteIsNotFound` | book_service/books.py:106-115 | deleting an existing id succeeds once; deleting it again is a 404 |
| `ReviewService.CheckUrl` | review_service/reviews.py:26-28 | the existence check is sent to the book service's books URL, a slash, and `str(book_id)`: for a non-negative id a canonical numeral that reads back as the id, for a negative id a minus sign followed by the canonical numeral of its magnitude |
| `ReviewService.VerifyBookExists` | review_service/reviews.py:26-31 | the book counts as existing exactly when the check answered status 200; any other status and any transport exception count as absent |
| `ReviewService.ForBook` | review_service/reviews.py:36-42 | the rows selected for a book are exactly the rows whose book_id is that id, unchanged |
| `ReviewService.ApplySet` | review_service/reviews.py:103-106 | an UPDATE of reviews never changes book_id or date, and leaves every column its SET list does not name as it was |
| `ReviewService.ApplySetEffect` | review_service/reviews.py:103-106 | an UPDATE over distinct columns sets each named column to its value and leaves the other columns as they were |
| `ReviewService.SetList` | review_service/reviews.py:89-101 | the SET list holds one distinct column for each of rating, comment and reviewer that the body names, with the body's value, and no other |
| `ReviewService.SetListMeaning` | review_service/reviews.py:89-106 | the SET list is empty exactly when the body names none of rating, comment and reviewer; binding fails exactly when a named value cannot be bound; otherwise the row becomes the old row with just those fields replaced |
| `ReviewService.InsertParameters` | review_service/reviews.py:59-69 | the INSERT's parameters bind exactly when the four submitted values do, and are then the new row's fields followed by the date |
| `ReviewService.ReviewTable.constructor` | review_service/reviews.py:18-23 | the table starts empty and the first id issued is 1; the id invariant holds: every id lies between 1 and the counter, and the counter is at most 2^63 |
| `ReviewService.ReviewTable.GetReviews` | review_service/reviews.py:35-42 | 500 for a book_id outside the 64-bit range; otherwise 200 with exactly the rows whose book_id is the given id; an unknown book gives an empty result, not a 404; the table is not modified |
| `ReviewService.ReviewTable.AddReview` | review_service/reviews.py:46-74 | 400 for an absent or empty body or a missing book_id, rating, comment or reviewer, and then no existence check is made; otherwise the check is made, and for an integer book_id its URL is the book service's URL for that id; 404 "Book not found" when the check does not confirm the book; 500 if a value cannot be bound; 500 when the largest rowid was already issued; on each of these the table is unchanged; otherwise 201 with a fresh id and one row added holding the submitted fields and today's date, and the counter advanced by one |
| `ReviewService.ReviewTable.InsertReview` | review_service/reviews.py:59-74 | the INSERT after the book is confirmed: 500 with no change if a value cannot be bound or the largest rowid was already issued; otherwise 201 with the next id, exactly the submitted row, dated today, added, and the counter advanced by one |
| `ReviewService.IntegerBookId` | review_service/reviews.py:59-69 | an integer book_id that binds lies in the 64-bit range and is stored as itself |
| `ReviewService.ReviewTable.UpdateReview` | review_service/reviews.py:78-110 | 400 on a missing body first; then 500 for an id outside the 64-bit range; then 404 "Review not found"; 500 with no change when the body names no updatable field or one cannot be bound; otherwise only the supplied rating, comment and reviewer change; book_id, date and other rows never change, and the book is not checked again |
| `ReviewService.ReviewTable.DeleteReview` | review_service/reviews.py:114-126 | 500 with no change for an id outside the 64-bit range; 404 "Review not found" with no change for an absent id; otherwise 200 and exactly that row is removed |
| `ReviewService.AddedReviewIsListed` | review_service/reviews.py:56-74 | a review created for a confirmed book with an integer book_id is checked at that book's URL, gets a fresh id, and is listed among that book's reviews as exactly the submitted fields dated the day it was created |
| `ReviewService.UnconfirmedBookStoresNothing` | review_service/reviews.py:56-57 | when the check does not answer 200, including a transport failure, a valid body gets 404 "Book not found" and nothing is stored |
| `Gateway.Match` | api_gateway/app.py:33-54 | a path is served exactly when it is /api/books or /api/reviews, or one of them followed by a slash and digits; a collection route matches its own path, and an id route carries the number the digits denote |
| `Gateway.TargetUrl` | api_gateway/app.py:33-54 | each route forwards to its own service: books routes to the book service, reviews routes to the review service, at the route's own path |
| `Gateway.MatchPath` | api_gateway/app.py:39-54 | the forwarded path selects the same route again: same collection, same id |
| `Gateway.ForwardedPath` | api_gateway/app.py:33-54 | for any path the gateway serves, the target is the route's service plus a path naming the same route; the path is copied verbatim unless the id has leading zeros |
| `Gateway.FilterHeaders` | api_gateway/app.py:20 | the outgoing header keys are exactly the incoming keys other than the literal "Host"; a repeated key keeps its last value |
| `Gateway.ForwardedJson` | api_gateway/app.py:21 | a JSON request's parsed body is forwarded; a non-JSON request forwards none; a parsed null forwards none; an unparsable JSON body raises |
| `Gateway.Forward` | api_gateway/app.py:17-22 | the outgoing request has the incoming method, the route's URL, the incoming headers minus Host with each key's last value, and the JSON body when there is one |
| `Gateway.Respond` | api_gateway/app.py:27-30 | a backend response is relayed with its status, content and headers unchanged; a transport exception becomes status 500 with body `{"error": message}` |
| `Gateway.Handle` | api_gateway/app.py:11-30 | an unparsable JSON body gives 400 with no backend call; otherwise the transport is called once, with the route's URL and the incoming method, and its outcome is translated |
| `Gateway.StatusIsRelayed` | api_gateway/app.py:27-30 | the client's status is the backend's status, or 500 on a transport failure, or 400 for an unparsable JSON body; it is never remapped |
| `Gateway.UnreachableBookServiceIs500` | api_gateway/app.py:39-42 | a DELETE of /api/books/42 whose body can be read, while the book service is unreachable gives 500 with the error message, not a 404 and not a success |
| `Wiring.ExistenceCheckTargetsGetBook` | review_service/reviews.py:26-28 | the existence check for book id n requests the same URL the gateway forwards GET /api/books/n to |

## Left out

- HTTP framework plumbing is not modelled. This covers Flask's route decorators and their method lists (405 answers, automatic HEAD and OPTIONS), `jsonify`, `Response` construction, content-type negotiation and `app.run`.
- Handlers take the parsed body directly. A body is absent or a JSON object; bodies that are JSON lists, strings or numbers are not modelled.
- JSON numbers are integers; floating-point values are not modelled.
- The route converter is modelled for ASCII digits only.
- Gateway.Match: treats a path id of any length as served. Python's `int()` refuses a string of more than 4300 digits by default, so for a longer id the converter raises, Flask answers 500 and nothing is forwarded. That limit is not modelled, so that the printed id and the parsed id stay exact inverses for every id.
- Http.Bind: JSON strings are modelled as sequences of Unicode scalar values. Python's `json` also accepts an unpaired surrogate escape such as `"\ud800"`, and the sqlite3 driver refuses to bind a string holding one (UnicodeEncodeError, so a 500 with the table unchanged). Such strings cannot be written as a Dafny `string`, so that case is not modelled.
- SQLite connections, `get_db_connection`, `commit` and `close` are not modelled. Each statement is modelled by its effect on the in-memory map.
- `init_db` runs `books.sql` and `reviews.sql`, which are not part of this model. So the tables start empty, and column types, type affinity and constraints are not modelled. A constraint violation would be one more unhandled 500.
- Ids come from a counter kept above every id ever issued, as with SQLite's AUTOINCREMENT, so every id is below 2^63 and an INSERT fails once 2^63 - 1 has been issued. A table without AUTOINCREMENT can reuse the largest id after it is deleted, and after issuing 2^63 - 1 it picks an unused id at random instead of failing. Every property here relies only on the new id being absent from the table.
- BookService.BookTable.GetBooks: returns the rows as a map keyed by id, so the order SQLite lists them in is not modelled.
- ReviewService.ReviewTable.GetReviews: returns the matching rows as a map keyed by id, so their order is not modelled.
- ReviewService.CheckUrl: covers integer book_id values only. The URL that Python's `str` builds for a string, bool, null, list or object book_id is not modelled.
- ReviewService.ReviewTable.AddReview: gives the existence check's URL only for an integer book_id (`checkedUrl` is None otherwise), for the reason above. The check's outcome is a parameter, so the model does not tie it to what the book service would answer.
- The network calls (`requests.get`, `requests.request`) are parameters: the check's outcome and the gateway's `transport` function. Timeouts, redirects and retries are not modelled.
- `datetime.now()` is the `today` parameter.
- The gateway's `print` logging is not modelled.
- Concurrency is not modelled. That includes a book deleted between the existence check and the insert. Each handler runs alone.
- Header keys are compared literally, as the code does. HTTP's case-insensitive header names are not modelled.
