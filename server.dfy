/**
 * The HTTP side of the stations service: the API-key gate, the query
 * parameters of the two nearest-station routes, the distance-ordered page
 * they answer with, and the route that runs the importer.
 */
module Server {
  import opened Wrappers
  import opened JsNumbers
  import opened Normalize
  import opened Importer

  // ---------------------------------------------------------------------------
  // The API-key gate

  /**
   * The middleware's test `!key || key !== API_KEY`: it turns a request away
   * when the x-api-key header is absent or empty, or differs from the
   * configured key (an unset configured key differs from every header).
   */
  predicate Rejected(key: Option<string>, configured: Option<string>)
    ensures !Rejected(key, configured) ==> key.Some? && key == configured && key.value != ""
  {
    key.None? || key.value == "" || Some(key.value) != configured
  }

  /** A request passes the gate exactly when it carries the configured, non-empty key. */
  lemma PassesExactly(key: Option<string>, configured: Option<string>)
    ensures !Rejected(key, configured) <==> configured.Some? && configured.value != "" && key == configured
  {
  }

  /** With no configured key, or an empty one, every request is turned away. */
  lemma UnconfiguredRejectsAll(key: Option<string>, configured: Option<string>)
    requires configured == None || configured == Some("")
    ensures Rejected(key, configured)
  {
  }

  // ---------------------------------------------------------------------------
  // Query parameters

  /** `!v` for a query parameter: absent, or the empty string. */
  predicate Missing(v: Option<string>)
    ensures !Missing(v) ==> v.Some? && |v.value| > 0
  {
    v.None? || v.value == ""
  }

  /** The text parseInt reads from a parameter: String(undefined) for an absent one, which holds no integer. */
  function ParamText(v: Option<string>): (r: string)
    ensures v.Some? ==> r == v.value
    ensures v.None? ==> ParseInt(r) == None
  {
    if v.None? then
      assert "undefined" == [] + "undefined";
      assert !IsDigit('u');
      ParseIntNoDigits([], "undefined");
      "undefined"
    else v.value
  }

  /** `parseInt(v) || d`: NaN and zero are falsy and give the default; any other integer is kept. */
  function IntOr(v: Option<string>, d: int): (r: int)
    ensures var n := ParseInt(ParamText(v));
      n.Some? && n.value != 0 ==> r == n.value
    ensures var n := ParseInt(ParamText(v));
      n.None? || n.value == 0 ==> r == d
    ensures r != 0 || d == 0
  {
    var n := ParseInt(ParamText(v));
    if n.None? || n.value == 0 then d else n.value
  }

  /** An absent parameter reads as NaN and takes the default. */
  lemma IntOrAbsent(d: int)
    ensures IntOr(None, d) == d
  {
  }

  /** A parameter spelling a non-zero number, with or without a minus sign, is that number. */
  lemma IntOrNumber(n: nat, d: int)
    requires n != 0
    ensures IntOr(Some(NatDigits(n)), d) == n
    ensures IntOr(Some("-" + NatDigits(n)), d) == -(n as int)
  {
    ParseIntNatDigits(n);
  }

  /** A parameter reads zero when it spells zero, and zero gives the default. */
  lemma IntOrZero(v: Option<string>, d: int)
    requires ParseInt(ParamText(v)) == Some(0)
    ensures IntOr(v, d) == d
  {
  }

  /** A parameter that starts with no digit, sign or whitespace gives the default. */
  lemma IntOrNoDigits(s: string, d: int)
    requires s == [] || !(IsDigit(s[0]) || IsWhiteSpace(s[0]) || s[0] == '+' || s[0] == '-')
    ensures IntOr(Some(s), d) == d
  {
    assert s == [] + s;
    ParseIntNoDigits([], s);
  }

  /** Digits followed by other text: only the digits count. */
  lemma IntOrDigitsThenText(ds: string, w: string, d: int)
    requires ds != [] && AllDigits(ds) && DigitsValue(ds) != 0
    requires w == [] || !IsDigit(w[0])
    ensures IntOr(Some(ds + w), d) == DigitsValue(ds)
  {
    assert [] + (SignText(NoSign) + (ds + w)) == ds + w;
    ParseIntDecimal([], NoSign, ds, w);
  }

  /** A 0x prefix reads the rest in base 16. */
  lemma IntOrHex(hs: string, d: int)
    requires hs != [] && AllHexDigits(hs) && HexDigitsValue(hs) != 0
    ensures IntOr(Some("0x" + hs), d) == HexDigitsValue(hs)
  {
    assert [] + (SignText(NoSign) + (['0', 'x'] + (hs + []))) == "0x" + hs;
    ParseIntHex([], NoSign, 'x', hs, []);
  }

  /** The default page size. */
  const DefaultLimit := 10
  /** The default page number. */
  const DefaultPage := 1

  /** The largest value of PostgreSQL's bigint, the type of LIMIT and OFFSET. */
  const MaxBigint := 9223372036854775807

  /** A row count PostgreSQL accepts for LIMIT or OFFSET: a non-negative bigint. */
  predicate AcceptedCount(n: int) { 0 <= n <= MaxBigint }

  /** The number of rows skipped before page p of size l. */
  function Offset(p: int, l: int): (off: int)
    ensures p >= 1 && l >= 0 ==> off >= 0
    ensures p <= 0 && l > 0 ==> off < 0
  {
    (p - 1) * l
  }

  /** Page p + 1 starts where page p ends. */
  lemma NextPageOffset(p: int, l: int)
    ensures Offset(p + 1, l) == Offset(p, l) + l
  {
  }

  // ---------------------------------------------------------------------------
  // Nearest-first order and pages

  /** The query point ST_MakePoint(lng, lat): a coordinate parseFloat reads as NaN is None. */
  datatype Coord = Coord(x: Option<Decimal>, y: Option<Decimal>)

  function QueryPoint(lat: string, lng: string): Coord {
    Coord(ParseFloat(lng), ParseFloat(lat))
  }

  /**
   * Coordinates written as numbers reach the query point as themselves, with lng
   * as x and lat as y; only a negative zero comes back as zero.
   */
  lemma QueryPointOrder(lat: Decimal, lng: Decimal)
    requires WfDecimal(lat) && WfDecimal(lng)
    ensures QueryPoint(NumberToString(lat), NumberToString(lng)) == Coord(Some(DropNegativeZero(lng)), Some(DropNegativeZero(lat)))
  {
    ParseFloatNumberToString(lat);
    ParseFloatNumberToString(lng);
  }

  predicate SortedBy(order: seq<Row>, dist: (Point, Coord) -> real, q: Coord) {
    forall i, j :: 0 <= i <= j < |order| ==> dist(order[i].geom, q) <= dist(order[j].geom, q)
  }

  predicate Distinct<T(==)>(s: seq<T>) {
    forall i, j :: 0 <= i < j < |s| ==> s[i] != s[j]
  }

  /**
   * ORDER BY geom <-> point: every row of the table once, nearest first. The
   * distance is left abstract and ties may come in any order.
   */
  ghost predicate NearestFirst(order: seq<Row>, rows: map<string, Row>, dist: (Point, Coord) -> real, q: Coord) {
    && SortedBy(order, dist, q)
    && Distinct(order)
    && (forall r :: r in order <==> r in rows.Values)
  }

  /** LIMIT lim OFFSET off over an ordered result. */
  function Page<T>(s: seq<T>, off: nat, lim: nat): (r: seq<T>)
    ensures |r| == if off >= |s| then 0 else if lim <= |s| - off then lim else |s| - off
    ensures forall i :: 0 <= i < |r| ==> r[i] == s[off + i]
  {
    if off >= |s| then [] else if lim <= |s| - off then s[off..off + lim] else s[off..]
  }

  /** An offset at or past the end gives an empty page. */
  lemma PagePastEnd<T>(s: seq<T>, off: nat, lim: nat)
    requires off >= |s|
    ensures Page(s, off, lim) == []
  {
  }

  /** Two pages that meet are together the page as long as both. */
  lemma {:induction false} PagesAdjacent<T>(s: seq<T>, off: nat, l1: nat, l2: nat)
    ensures Page(s, off, l1) + Page(s, off + l1, l2) == Page(s, off, l1 + l2)
  {
    var a := Page(s, off, l1);
    var b := Page(s, off + l1, l2);
    var c := Page(s, off, l1 + l2);
    assert |a + b| == |c|;
    forall i | 0 <= i < |c|
      ensures (a + b)[i] == c[i]
    {
      if i >= |a| {
        assert |a| == l1;
        assert (a + b)[i] == b[i - l1] == s[off + i];
      }
    }
  }

  /** Pages p and p + 1 of one size follow each other, and share no row of a distinct order. */
  lemma ConsecutivePages<T>(s: seq<T>, p: int, l: nat)
    requires p >= 1 && Distinct(s)
    ensures Page(s, Offset(p, l), l) + Page(s, Offset(p + 1, l), l) == Page(s, Offset(p, l), 2 * l)
    ensures var a, b := Page(s, Offset(p, l), l), Page(s, Offset(p + 1, l), l);
      forall i, j :: 0 <= i < |a| && 0 <= j < |b| ==> a[i] != b[j]
  {
    var off := Offset(p, l);
    NextPageOffset(p, l);
    assert l + l == 2 * l;
    PagesAdjacent(s, off, l, l);
    var a := Page(s, off, l);
    var b := Page(s, off + l, l);
    forall i, j | 0 <= i < |a| && 0 <= j < |b|
      ensures a[i] != b[j]
    {
      assert |a| == l;
      assert a[i] == s[off + i] && b[j] == s[off + l + j];
    }
  }

  /** A page of a nearest-first order is nearest first, holds table rows only, and none twice. */
  lemma PageNearestFirst(order: seq<Row>, rows: map<string, Row>, dist: (Point, Coord) -> real, q: Coord, off: nat, lim: nat)
    requires NearestFirst(order, rows, dist, q)
    ensures SortedBy(Page(order, off, lim), dist, q)
    ensures Distinct(Page(order, off, lim))
    ensures forall r :: r in Page(order, off, lim) ==> r in rows.Values
    ensures |Page(order, off, lim)| <= lim
  {
    var pg := Page(order, off, lim);
    forall r | r in pg
      ensures r in rows.Values
    {
      var i :| 0 <= i < |pg| && pg[i] == r;
      assert r == order[off + i];
    }
  }

  /** The first page holds the nearest rows: none left out is nearer than one returned. */
  lemma FirstPageNearest(order: seq<Row>, rows: map<string, Row>, dist: (Point, Coord) -> real, q: Coord, lim: nat, r: Row, o: Row)
    requires NearestFirst(order, rows, dist, q)
    requires r in Page(order, 0, lim) && o in rows.Values && o !in Page(order, 0, lim)
    ensures dist(r.geom, q) <= dist(o.geom, q)
  {
    var pg := Page(order, 0, lim);
    var i :| 0 <= i < |pg| && pg[i] == r;
    var j :| 0 <= j < |order| && order[j] == o;
    assert forall k :: 0 <= k < |pg| ==> pg[k] == order[k];
    assert j >= |pg|;
    assert order[i] == r;
  }

  /** Inserts a row into a nearest-first sequence, before the first row farther away. */
  function InsertByDistance(r: Row, s: seq<Row>, dist: (Point, Coord) -> real, q: Coord): (t: seq<Row>)
    ensures |t| == |s| + 1
    ensures forall x :: x in t <==> x == r || x in s
  {
    if s == [] || dist(r.geom, q) <= dist(s[0].geom, q) then [r] + s
    else
      assert forall x :: x in s <==> x == s[0] || x in s[1..];
      [s[0]] + InsertByDistance(r, s[1..], dist, q)
  }

  lemma {:induction false} InsertKeepsSorted(r: Row, s: seq<Row>, dist: (Point, Coord) -> real, q: Coord)
    requires SortedBy(s, dist, q)
    ensures SortedBy(InsertByDistance(r, s, dist, q), dist, q)
  {
    if s != [] && dist(r.geom, q) > dist(s[0].geom, q) {
      var t' := InsertByDistance(r, s[1..], dist, q);
      InsertKeepsSorted(r, s[1..], dist, q);
      forall i | 0 <= i < |t'|
        ensures dist(s[0].geom, q) <= dist(t'[i].geom, q)
      {
        assert t'[i] in t';
        if t'[i] != r {
          var j :| 0 <= j < |s[1..]| && s[1..][j] == t'[i];
          assert s[j + 1] == t'[i];
        }
      }
    }
  }

  lemma {:induction false} InsertKeepsDistinct(r: Row, s: seq<Row>, dist: (Point, Coord) -> real, q: Coord)
    requires Distinct(s) && r !in s
    ensures Distinct(InsertByDistance(r, s, dist, q))
  {
    if s != [] && dist(r.geom, q) > dist(s[0].geom, q) {
      var t' := InsertByDistance(r, s[1..], dist, q);
      assert s[0] !in s[1..];
      InsertKeepsDistinct(r, s[1..], dist, q);
      assert s[0] !in t';
    }
  }

  /** A nearest-first arrangement of a set of rows. */
  ghost function SortRows(rs: set<Row>, dist: (Point, Coord) -> real, q: Coord): (t: seq<Row>)
    ensures forall x :: x in t <==> x in rs
    ensures SortedBy(t, dist, q) && Distinct(t)
    decreases rs
  {
    if rs == {} then []
    else
      var r :| r in rs;
      var s := SortRows(rs - {r}, dist, q);
      InsertKeepsSorted(r, s, dist, q);
      InsertKeepsDistinct(r, s, dist, q);
      InsertByDistance(r, s, dist, q)
  }

  /** Every table has a nearest-first order, so the query always has an answer. */
  lemma NearestFirstExists(rows: map<string, Row>, dist: (Point, Coord) -> real, q: Coord)
    ensures NearestFirst(SortRows(rows.Values, dist, q), rows, dist, q)
  {
  }

  // ---------------------------------------------------------------------------
  // Responses

  /** A row of the answer: name, en_name, ST_Y and ST_X of the point, and the distance. */
  datatype ResultRow = ResultRow(name: Json, enName: Json, lat: Decimal, lng: Decimal, distance: real)

  function Column(r: Row, name: string): Json {
    if name in r.columns then r.columns[name] else JNull
  }

  /** A row as the query selects it: a row whose point is (lng, lat) answers with its own lat and lng. */
  function Project(r: Row, dist: (Point, Coord) -> real, q: Coord): (o: ResultRow)
    ensures r.geom == Point(r.lng, r.lat) ==> o.lat == r.lat && o.lng == r.lng
  {
    ResultRow(Column(r, "name"), Column(r, "en_name"), r.geom.y, r.geom.x, dist(r.geom, q))
  }

  function ProjectAll(rs: seq<Row>, dist: (Point, Coord) -> real, q: Coord): (os: seq<ResultRow>)
    ensures |os| == |rs|
    ensures forall i :: 0 <= i < |rs| ==> os[i] == Project(rs[i], dist, q)
  {
    if rs == [] then [] else [Project(rs[0], dist, q)] + ProjectAll(rs[1..], dist, q)
  }

  /** A well-formed table answers each row with the lat and lng it was stored with. */
  lemma AnswerCoordinates(rows: map<string, Row>, r: Row, dist: (Point, Coord) -> real, q: Coord)
    requires WellFormed(rows) && r in rows.Values
    ensures Project(r, dist, q).lat == r.lat && Project(r, dist, q).lng == r.lng
  {
  }

  datatype Response =
    | Docs                      // the documentation pages, served before the gate
    | Unauthorized              // 401
    | CoordinatesRequired       // 400, lat,lng required
    | ServerError               // 500, the database refused the query
    | NotFound                  // 404, no route matched
    | Stations(rows: seq<ResultRow>)
    | Loaded                    // 200, Stations loaded from API

  /** The query string of a request, one value per name. */
  datatype QueryParams = QueryParams(lat: Option<string>, lng: Option<string>, limit: Option<string>, page: Option<string>)

  /** GET /stations/near: the `limit` nearest rows; PostgreSQL refuses a LIMIT that is negative or beyond bigint. */
  function Near(qp: QueryParams, order: seq<Row>, dist: (Point, Coord) -> real): (res: Response)
    ensures Missing(qp.lat) || Missing(qp.lng) <==> res == CoordinatesRequired
  {
    if Missing(qp.lat) || Missing(qp.lng) then CoordinatesRequired
    else
      var l := IntOr(qp.limit, DefaultLimit);
      if !AcceptedCount(l) then ServerError
      else Stations(ProjectAll(Page(order, 0, l), dist, QueryPoint(qp.lat.value, qp.lng.value)))
  }

  /** GET /stations/near/paginate: page p of size l; a LIMIT or OFFSET that is negative or beyond bigint is refused. */
  function Paginate(qp: QueryParams, order: seq<Row>, dist: (Point, Coord) -> real): (res: Response)
    ensures Missing(qp.lat) || Missing(qp.lng) <==> res == CoordinatesRequired
  {
    if Missing(qp.lat) || Missing(qp.lng) then CoordinatesRequired
    else
      var l := IntOr(qp.limit, DefaultLimit);
      var p := IntOr(qp.page, DefaultPage);
      var off := Offset(p, l);
      if !AcceptedCount(l) || !AcceptedCount(off) then ServerError
      else Stations(ProjectAll(Page(order, off, l), dist, QueryPoint(qp.lat.value, qp.lng.value)))
  }

  /** The nearest route answers at most the limit, nearest first, from the table's rows. */
  lemma NearAnswer(qp: QueryParams, rows: map<string, Row>, order: seq<Row>, dist: (Point, Coord) -> real)
    requires !Missing(qp.lat) && !Missing(qp.lng)
    requires NearestFirst(order, rows, dist, QueryPoint(qp.lat.value, qp.lng.value))
    ensures var l := IntOr(qp.limit, DefaultLimit);
      !AcceptedCount(l) <==> Near(qp, order, dist) == ServerError
    ensures var l := IntOr(qp.limit, DefaultLimit);
      AcceptedCount(l) ==>
        Near(qp, order, dist) == Stations(ProjectAll(Page(order, 0, l), dist, QueryPoint(qp.lat.value, qp.lng.value)))
    ensures var res := Near(qp, order, dist);
      res.Stations? ==>
        && |res.rows| <= IntOr(qp.limit, DefaultLimit)
        && (forall i, j :: 0 <= i <= j < |res.rows| ==> res.rows[i].distance <= res.rows[j].distance)
        && (forall i :: 0 <= i < |res.rows| ==> res.rows[i] == Project(order[i], dist, QueryPoint(qp.lat.value, qp.lng.value)))
  {
    var q := QueryPoint(qp.lat.value, qp.lng.value);
    var l := IntOr(qp.limit, DefaultLimit);
    if AcceptedCount(l) {
      PageNearestFirst(order, rows, dist, q, 0, l);
    }
  }

  /** The paginated route answers rows [offset, offset + limit) of the order. */
  lemma PaginateAnswer(qp: QueryParams, order: seq<Row>, dist: (Point, Coord) -> real)
    requires !Missing(qp.lat) && !Missing(qp.lng)
    ensures var l := IntOr(qp.limit, DefaultLimit);
      var off := Offset(IntOr(qp.page, DefaultPage), l);
      var q := QueryPoint(qp.lat.value, qp.lng.value);
      && (!AcceptedCount(l) || !AcceptedCount(off) <==> Paginate(qp, order, dist) == ServerError)
      && (AcceptedCount(l) && AcceptedCount(off) ==> Paginate(qp, order, dist) == Stations(ProjectAll(Page(order, off, l), dist, q)))
  {
  }

  /** A limit beyond bigint is refused: 2^63 is one too many. */
  lemma NearLimitTooLarge(qp: QueryParams, order: seq<Row>, dist: (Point, Coord) -> real)
    requires !Missing(qp.lat) && !Missing(qp.lng) && qp.limit == Some(NatDigits(MaxBigint + 1))
    ensures Near(qp, order, dist) == ServerError
  {
    IntOrNumber(MaxBigint + 1, DefaultLimit);
  }

  /** A page far enough out overflows the offset and is refused, though its limit is fine. */
  lemma PaginateOffsetTooLarge(qp: QueryParams, order: seq<Row>, dist: (Point, Coord) -> real, p: nat)
    requires !Missing(qp.lat) && !Missing(qp.lng) && qp.limit == None && p > MaxBigint / 10 + 1
    requires qp.page == Some(NatDigits(p))
    ensures Paginate(qp, order, dist) == ServerError
  {
    IntOrAbsent(DefaultLimit);
    IntOrNumber(p, DefaultPage);
  }

  /** Without limit and page the paginated route answers the ten nearest rows. */
  lemma PaginateDefaults(qp: QueryParams, order: seq<Row>, dist: (Point, Coord) -> real)
    requires !Missing(qp.lat) && !Missing(qp.lng) && qp.limit == None && qp.page == None
    ensures Paginate(qp, order, dist) == Stations(ProjectAll(Page(order, 0, 10), dist, QueryPoint(qp.lat.value, qp.lng.value)))
  {
    IntOrAbsent(DefaultLimit);
    IntOrAbsent(DefaultPage);
  }

  /** The string "0" is a present coordinate. */
  lemma ZeroIsPresent()
    ensures !Missing(Some("0"))
  {
  }

  // ---------------------------------------------------------------------------
  // Routing

  datatype Route = DocsRoute | FetchRoute | NearRoute | PaginateRoute | OtherRoute

  datatype Request = Request(route: Route, apiKey: Option<string>, query: QueryParams)

  /** The response and the table after it. */
  datatype Served = Served(response: Response, rows: map<string, Row>)

  /**
   * One request against the table. The importer's download and the rows the
   * database rejects are fixed by download and fails; the database's
   * nearest-first order by order.
   */
  function Serve(req: Request, configured: Option<string>, rows: map<string, Row>,
                 download: FetchOutcome, fails: Params -> bool,
                 order: seq<Row>, dist: (Point, Coord) -> real): (s: Served)
    ensures req.route != FetchRoute ==> s.rows == rows
  {
    if req.route == DocsRoute then Served(Docs, rows)
    else if Rejected(req.apiKey, configured) then Served(Unauthorized, rows)
    else
      match req.route
      case FetchRoute => Served(Loaded, Ingest(rows, download, fails))
      case NearRoute => Served(Near(req.query, order, dist), rows)
      case PaginateRoute => Served(Paginate(req.query, order, dist), rows)
      case _ => Served(NotFound, rows)
  }

  /** A request that fails the gate gets 401 and leaves the table alone; the documentation is open to all. */
  lemma GateStopsRequest(req: Request, configured: Option<string>, rows: map<string, Row>,
                         download: FetchOutcome, fails: Params -> bool, order: seq<Row>, dist: (Point, Coord) -> real)
    ensures var s := Serve(req, configured, rows, download, fails, order, dist);
      (s.response == Unauthorized <==> req.route != DocsRoute && Rejected(req.apiKey, configured))
      && (s.response == Unauthorized ==> s.rows == rows)
  {
  }

  /** The fetch route answers 200 whatever the download did, and its table is the importer's. */
  lemma FetchAlwaysLoaded(req: Request, configured: Option<string>, rows: map<string, Row>,
                          download: FetchOutcome, fails: Params -> bool, order: seq<Row>, dist: (Point, Coord) -> real)
    requires req.route == FetchRoute && !Rejected(req.apiKey, configured)
    ensures Serve(req, configured, rows, download, fails, order, dist) == Served(Loaded, Ingest(rows, download, fails))
    ensures download == FetchFailed ==> Serve(req, configured, rows, download, fails, order, dist).rows == rows
  {
  }
}
