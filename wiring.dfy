/** How the services address each other. */
module Wiring {
  import Gateway
  import ReviewService
  import Http
  import Decimal

  /** The review service's existence check for a non-negative integer book_id
      is a GET of exactly the URL the gateway forwards `GET /api/books/<id>` to,
      that is, the book service's single-book handler for that same id. */
  lemma ExistenceCheckTargetsGetBook(bookId: nat)
    ensures ReviewService.CheckUrl(bookId) == Gateway.TargetUrl(Gateway.BookById(bookId))
    ensures Gateway.Match(Gateway.Path(Gateway.BookById(bookId))) == Http.Some(Gateway.BookById(bookId))
  {
    var digits := Decimal.NatToString(bookId);
    assert Decimal.IntToString(bookId) == digits;
    assert ReviewService.BookServiceUrl + "/" == Gateway.BookServiceUrl + "/api/books/";
    Gateway.MatchPath(Gateway.BookById(bookId));
  }
}
