/** The API gateway: a stateless proxy. A request under /api/books goes to the
    book service and one under /api/reviews to the review service, with the
    same method, the same path, every header but Host, and the JSON body when
    there is one; the backend's answer is relayed as it is, and a transport
    failure becomes a 500. The HTTP client is a parameter. */
module Gateway {
  import opened Http
  import Decimal

  const BookServiceUrl: string := "http://book-service:5001"
  const ReviewServiceUrl: string := "http://review-service:5002"

  const BooksPath: string := "/api/books"
  const ReviewsPath: string := "/api/reviews"

  type Header = (string, string)
  type Bytes = seq<bv8>

  /** The four routes the gateway serves; an id is what the route's integer
      converter read from the path. */
  datatype Route = Books | BookById(bookId: nat) | Reviews | ReviewById(reviewId: nat)

  /** An incoming request: its method (`verb`), its headers in order, whether it
      declares a JSON content type, and its body parsed as JSON (None when it
      does not parse). */
  datatype Incoming = Incoming(verb: string, headers: seq<Header>, isJson: bool, json: Option<Json>)

  /** The request the gateway hands to the HTTP client; `json` None means no body. */
  datatype Outgoing = Outgoing(verb: string, url: string, headers: map<string, string>, json: Option<Json>)

  /** What the HTTP client gives back: a response, or an exception with its message. */
  datatype Backend = Replied(status: int, content: Bytes, headers: seq<Header>) | TransportError(message: string)

  /** What the client receives: a relayed backend response, a JSON body with a
      status, or an error page raised by the framework itself. */
  datatype ClientResponse =
    | Relayed(status: int, content: Bytes, headers: seq<Header>)
    | JsonReply(status: int, body: Json)
    | Aborted(status: int)

  /** The service a route belongs to. */
  function Origin(route: Route): string {
    if route.Books? || route.BookById? then BookServiceUrl else ReviewServiceUrl
  }

  /** The collection path a route lives under. */
  function Prefix(route: Route): string {
    if route.Books? || route.BookById? then BooksPath else ReviewsPath
  }

  /** The path of a route, with its id printed the way `str` prints it. */
  function Path(route: Route): string {
    match route
    case Books => BooksPath
    case Reviews => ReviewsPath
    case BookById(id) => BooksPath + "/" + Decimal.NatToString(id)
    case ReviewById(id) => ReviewsPath + "/" + Decimal.NatToString(id)
  }

  /** `path` is `prefix`, a slash, and one or more digits. */
  predicate IdPath(path: string, prefix: string) {
    |path| > |prefix| + 1 && path[..|prefix| + 1] == prefix + "/" && Decimal.AllDigits(path[|prefix| + 1..])
  }

  /** The gateway's route table: the route a path selects, if any. Only the
      two collection paths and those paths followed by a slash and digits are
      served; the id is the number the digits denote. */
  function Match(path: string): (r: Option<Route>)
    ensures r.Some? <==> path == BooksPath || path == ReviewsPath || IdPath(path, BooksPath) || IdPath(path, ReviewsPath)
    ensures r.Some? ==> Prefix(r.value) <= path
    ensures r.Some? && (r.value.Books? || r.value.Reviews?) ==> path == Prefix(r.value)
    ensures r.Some? && (r.value.BookById? || r.value.ReviewById?) ==>
              IdPath(path, Prefix(r.value))
              && Decimal.Value(path[|Prefix(r.value)| + 1..]) == (if r.value.BookById? then r.value.bookId else r.value.reviewId)
  {
    if path == BooksPath then Some(Books)
    else if path == ReviewsPath then Some(Reviews)
    else if IdPath(path, BooksPath) then Some(BookById(Decimal.Value(path[|BooksPath| + 1..])))
    else if IdPath(path, ReviewsPath) then Some(ReviewById(Decimal.Value(path[|ReviewsPath| + 1..])))
    else None
  }

  function BooksUrl(): string {
    BookServiceUrl + "/api/books"
  }

  function BookByIdUrl(bookId: nat): string {
    BookServiceUrl + "/api/books/" + Decimal.NatToString(bookId)
  }

  function ReviewsUrl(): string {
    ReviewServiceUrl + "/api/reviews"
  }

  function ReviewByIdUrl(reviewId: nat): string {
    ReviewServiceUrl + "/api/reviews/" + Decimal.NatToString(reviewId)
  }

  /** The URL each route handler forwards to: its own service, and its own
      path on that service. */
  function TargetUrl(route: Route): (url: string)
    ensures url == Origin(route) + Path(route)
  {
    match route
    case Books => BooksUrl()
    case BookById(id) => BookByIdUrl(id)
    case Reviews => ReviewsUrl()
    case ReviewById(id) => ReviewByIdUrl(id)
  }

  /** The path a route forwards to selects that same route again: the same
      collection and the same id. */
  lemma MatchPath(route: Route)
    ensures Match(Path(route)) == Some(route)
  {
    match route
    case Books =>
    case Reviews =>
    case BookById(id) =>
      var p := Path(route);
      assert p[|BooksPath| + 1..] == Decimal.NatToString(id);
      Decimal.ValueOfNatToString(id);
    case ReviewById(id) =>
      var p := Path(route);
      assert p[|ReviewsPath| + 1..] == Decimal.NatToString(id);
      assert p[5] != (BooksPath + "/")[5];
      Decimal.ValueOfNatToString(id);
  }

  /** Whatever path selects a route, the gateway forwards to that route's
      service, to a path that selects the same route; the path is copied
      character for character unless the id was written with leading zeros. */
  lemma ForwardedPath(path: string)
    requires Match(path).Some?
    ensures var route := Match(path).value;
            && TargetUrl(route) == Origin(route) + Path(route)
            && Match(Path(route)) == Some(route)
            && (Path(route) == path <==>
                  route.Books? || route.Reviews? || Decimal.Canonical(path[|Prefix(route)| + 1..]))
  {
    var route := Match(path).value;
    MatchPath(route);
    if route.BookById? || route.ReviewById? {
      var prefix := Prefix(route);
      assert IdPath(path, prefix);
      var digits := path[|prefix| + 1..];
      assert path == prefix + "/" + digits;
      var printed := Decimal.NatToString(Decimal.Value(digits));
      assert Path(route) == prefix + "/" + printed;
      if Decimal.Canonical(digits) {
        Decimal.NatToStringOfValue(digits);
      } else {
        assert Path(route)[|prefix| + 1..] == printed;
      }
    }
  }

  /** The key at position `i` does not occur again after position `i`. */
  predicate LastWith(hs: seq<Header>, i: int)
    requires 0 <= i < |hs|
  {
    forall j :: i < j < |hs| ==> hs[j].0 != hs[i].0
  }

  /** `m` holds exactly the keys of `hs` other than the literal "Host". */
  ghost predicate KeysOf(hs: seq<Header>, m: map<string, string>) {
    forall k :: k in m <==> k != "Host" && exists i :: 0 <= i < |hs| && hs[i].0 == k
  }

  /** Each key of `hs` other than "Host" maps in `m` to the value of its last
      occurrence. */
  ghost predicate LastValues(hs: seq<Header>, m: map<string, string>) {
    forall i :: 0 <= i < |hs| && hs[i].0 != "Host" && LastWith(hs, i) ==> hs[i].0 in m && m[hs[i].0] == hs[i].1
  }

  /** Adding one more header keeps the key set exact. */
  lemma KeysStep(hs: seq<Header>, m: map<string, string>)
    requires |hs| > 0 && KeysOf(hs[..|hs| - 1], m)
    ensures var (k, v) := hs[|hs| - 1];
            KeysOf(hs, if k != "Host" then m[k := v] else m)
  {
    var init := hs[..|hs| - 1];
    assert forall i :: 0 <= i < |init| ==> init[i] == hs[i];
    assert hs == init + [hs[|hs| - 1]];
  }

  /** Adding one more header overrides an earlier header with the same key,
      and leaves the value of every other key alone. */
  lemma LastValuesStep(hs: seq<Header>, m: map<string, string>)
    requires |hs| > 0 && LastValues(hs[..|hs| - 1], m)
    ensures var (k, v) := hs[|hs| - 1];
            LastValues(hs, if k != "Host" then m[k := v] else m)
  {
    var init := hs[..|hs| - 1];
    var k := hs[|hs| - 1].0;
    assert forall i :: 0 <= i < |init| ==> init[i] == hs[i];
    assert forall i :: 0 <= i < |init| && LastWith(hs, i) ==> LastWith(init, i) && hs[i].0 != k;
  }

  /** `{key: value for key, value in request.headers if key != "Host"}`: the
      keys are exactly the incoming keys other than the literal "Host", and a
      repeated key keeps its last value. */
  function FilterHeaders(hs: seq<Header>): (m: map<string, string>)
    ensures forall k :: k in m <==> k != "Host" && exists i :: 0 <= i < |hs| && hs[i].0 == k
    ensures forall i :: 0 <= i < |hs| && hs[i].0 != "Host" && LastWith(hs, i) ==> m[hs[i].0] == hs[i].1
    decreases |hs|
  {
    if hs == [] then map[]
    else
      var m := FilterHeaders(hs[..|hs| - 1]);
      KeysStep(hs, m);
      LastValuesStep(hs, m);
      var (k, v) := hs[|hs| - 1];
      if k != "Host" then m[k := v] else m
  }

  /** `request.get_json() if request.is_json else None`: the parsed body of a
      JSON request (a parsed `null` is Python's None, so no body either);
      nothing for any other request. A JSON request whose body does not parse
      makes `get_json` raise, which the gateway does not catch. */
  function ForwardedJson(req: Incoming): (body: Option<Option<Json>>)
    ensures body.None? <==> req.isJson && req.json.None?
    ensures body.Some? ==> (body.value.Some? <==> req.isJson && req.json.Some? && req.json.value != JNull)
    ensures body.Some? && body.value.Some? ==> body.value == req.json
  {
    if !req.isJson then Some(None)
    else match req.json
      case None => None
      case Some(JNull) => Some(None)
      case Some(v) => Some(Some(v))
  }

  /** The request sent to `url`, or None when reading the body raised. */
  function Forward(req: Incoming, url: string): (o: Option<Outgoing>)
    ensures o.None? <==> req.isJson && req.json.None?
    ensures o.Some? ==> o.value.verb == req.verb && o.value.url == url
    ensures o.Some? ==> "Host" !in o.value.headers
    ensures o.Some? ==> forall k :: k in o.value.headers <==> k != "Host" && exists i :: 0 <= i < |req.headers| && req.headers[i].0 == k
    ensures o.Some? ==> o.value.headers == FilterHeaders(req.headers)
    ensures o.Some? ==> (o.value.json.Some? <==> req.isJson && req.json.Some? && req.json.value != JNull)
    ensures o.Some? && o.value.json.Some? ==> o.value.json == req.json
  {
    match ForwardedJson(req)
    case None => None
    case Some(body) => Some(Outgoing(req.verb, url, FilterHeaders(req.headers), body))
  }

  /** The JSON body the gateway answers a transport failure with. */
  function ErrorBody(message: string): Json {
    JObject(map["error" := JString(message)])
  }

  /** A backend response is relayed untouched; a transport exception becomes
      a 500 whose body is `{"error": message}`. */
  function Respond(outcome: Backend): (r: ClientResponse)
    ensures outcome.Replied? ==>
              r.Relayed? && r.status == outcome.status && r.content == outcome.content && r.headers == outcome.headers
    ensures outcome.TransportError? ==>
              r.JsonReply? && r.status == 500 && r.body.JObject? && r.body.fields.Keys == {"error"}
              && r.body.fields["error"] == JString(outcome.message)
  {
    match outcome
    case Replied(status, content, headers) => Relayed(status, content, headers)
    case TransportError(message) => JsonReply(500, ErrorBody(message))
  }

  /** One request through the gateway: build the outgoing request for the
      route, hand it to `transport`, translate what comes back. */
  function Handle(route: Route, req: Incoming, transport: Outgoing -> Backend): (r: ClientResponse)
    ensures req.isJson && req.json.None? ==> r == Aborted(400)
    ensures !(req.isJson && req.json.None?) ==>
              var o := Forward(req, TargetUrl(route)).value;
              && o.url == TargetUrl(route) && o.verb == req.verb
              && r == Respond(transport(o))
  {
    match Forward(req, TargetUrl(route))
    case None => Aborted(400)
    case Some(o) => Respond(transport(o))
  }

  /** The gateway never remaps a status: the client sees the backend's status,
      or 500 when the backend could not be reached, or 400 when the JSON body
      could not be read. */
  lemma StatusIsRelayed(route: Route, req: Incoming, transport: Outgoing -> Backend)
    ensures var r := Handle(route, req, transport);
            if req.isJson && req.json.None? then r.status == 400
            else match transport(Forward(req, TargetUrl(route)).value)
              case Replied(status, _, _) => r.status == status
              case TransportError(_) => r.status == 500
  {
  }

  /** A DELETE of /api/books/42 while the book service is unreachable is a 500
      carrying the error message: not a 404, and not a success. */
  lemma UnreachableBookServiceIs500(req: Incoming, transport: Outgoing -> Backend, message: string)
    requires req.verb == "DELETE" && !(req.isJson && req.json.None?)
    requires forall o: Outgoing :: o.url == BookServiceUrl + "/api/books/42" ==> transport(o) == TransportError(message)
    ensures Match("/api/books/42") == Some(BookById(42))
    ensures Handle(BookById(42), req, transport) == JsonReply(500, ErrorBody(message))
  {
    MatchPath(BookById(42));
    assert Decimal.NatToString(42) == "42";
    var url := TargetUrl(BookById(42));
    assert url == BookServiceUrl + "/api/books/42";
    var o := Forward(req, url);
    assert o.Some? && o.value.url == url;
    assert transport(o.value) == TransportError(message);
  }
}
