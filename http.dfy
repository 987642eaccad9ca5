/** Values shared by the three services: the JSON a request carries, the
    values SQLite stores, and the responses a handler returns. */
module Http {

  datatype Option<+T> = None | Some(value: T)

  /** A JSON value as Flask parses it (numbers are modelled as integers). */
  datatype Json =
    | JNull
    | JBool(b: bool)
    | JInt(i: int)
    | JString(s: string)
    | JArray(items: seq<Json>)
    | JObject(fields: map<string, Json>)

  /** A request body as a handler sees it: no JSON at all, or a JSON object. */
  type Body = Option<map<string, Json>>

  /** `not request.json`: there is no body, or it is the empty object. */
  predicate NoData(body: Body) {
    body.None? || body.value == map[]
  }

  /** Every one of `keys` is present in the object. */
  predicate HasAll(obj: map<string, Json>, keys: seq<string>) {
    forall k :: k in keys ==> k in obj
  }

  /** At least one of `keys` is present in the object. */
  predicate HasAny(obj: map<string, Json>, keys: seq<string>) {
    exists k :: k in keys && k in obj
  }

  /** A value as SQLite stores it. */
  datatype SqlValue = Null | Integer(i: int) | Text(s: string)

  /** 2^63: a SQLite INTEGER, and so a rowid, is a signed 64-bit integer. */
  const IdLimit: int := 0x8000_0000_0000_0000

  /** The range of a SQLite INTEGER. */
  predicate Int64(i: int) {
    -IdLimit <= i < IdLimit
  }

  /** How the sqlite3 driver binds a statement parameter: scalars are stored
      (a Python bool is an int, so it becomes 0 or 1); an int outside the 64-bit
      range raises OverflowError, and a list or a dict is a type the driver
      refuses, which raises too. */
  function Bind(v: Json): (r: Option<SqlValue>)
    ensures r.Some? <==> !v.JArray? && !v.JObject? && (v.JInt? ==> Int64(v.i))
    ensures v.JString? ==> r == Some(Text(v.s))
    ensures v.JInt? && Int64(v.i) ==> r == Some(Integer(v.i))
    ensures v.JBool? ==> r == Some(Integer(if v.b then 1 else 0))
    ensures v.JNull? ==> r == Some(Null)
    ensures r.Some? && r.value.Integer? ==> Int64(r.value.i)
  {
    match v
    case JNull => Some(Null)
    case JBool(b) => Some(Integer(if b then 1 else 0))
    case JInt(i) => if Int64(i) then Some(Integer(i)) else None
    case JString(s) => Some(Text(s))
    case JArray(_) => None
    case JObject(_) => None
  }

  /** Binds every parameter of a statement, in order; fails if any one of them
      cannot be bound. */
  function BindAll(vs: seq<Json>): (r: Option<seq<SqlValue>>)
    ensures r.Some? <==> forall i :: 0 <= i < |vs| ==> Bind(vs[i]).Some?
    ensures r.Some? ==> |r.value| == |vs| && forall i :: 0 <= i < |vs| ==> r.value[i] == Bind(vs[i]).value
    decreases |vs|
  {
    if vs == [] then Some([])
    else
      match (Bind(vs[0]), BindAll(vs[1..]))
      case (Some(x), Some(xs)) => Some([x] + xs)
      case _ => None
  }

  /** Every element of the sequence is different from every other. */
  predicate Distinct<T(==)>(xs: seq<T>) {
    forall i, j :: 0 <= i < j < |xs| ==> xs[i] != xs[j]
  }

  /** Every one of `keys` that is present in the object holds a bindable value. */
  predicate BindableWhere(obj: map<string, Json>, keys: seq<string>) {
    forall k :: k in keys && k in obj ==> Bind(obj[k]).Some?
  }

  /** The value a column takes in a partial update: the bound body value when
      the body names the column, the old value otherwise. */
  function Pick(obj: map<string, Json>, key: string, current: SqlValue): SqlValue
    requires key in obj ==> Bind(obj[key]).Some?
  {
    if key in obj then Bind(obj[key]).value else current
  }

  /** What made a handler raise instead of returning: an UPDATE whose SET list
      is empty (a syntax error), a parameter the driver cannot bind (an int
      outside the 64-bit range, a list or a dict), or an INSERT into a table
      that has already issued the largest rowid (SQLite's "database or disk is
      full"). Flask answers each with its own 500 page. */
  datatype Fault = InvalidStatement | UnsupportedParameter | IdsExhausted

  datatype Reply<+P> = Payload(value: P) | Error(message: string) | Unhandled(fault: Fault)

  /** A handler's response: the status code and what the body carries. */
  datatype Response<+P> = Response(status: int, reply: Reply<P>)

  function Failure<P>(status: int, message: string): Response<P> {
    Response(status, Error(message))
  }

  function Crash<P>(fault: Fault): Response<P> {
    Response(500, Unhandled(fault))
  }
}
