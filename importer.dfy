/**
 * The station importer: one pass over the decoded records, skipping those
 * without usable coordinates and inserting the rest into the stations table
 * with INSERT ... ON CONFLICT (station_code) DO NOTHING.
 */
module Importer {
  import opened Wrappers
  import opened JsNumbers
  import opened Normalize

  /** A point as ST_MakePoint(x, y) builds it: x is the longitude, y the latitude. */
  datatype Point = Point(x: Decimal, y: Decimal)

  /** The record fields copied unchanged into columns of the same name. */
  const PassThrough: set<string> := {
    "name", "en_name", "th_short", "en_short", "chname", "controldivision",
    "exact_km", "exact_distance", "km", "class", "active", "giveway", "dual_track"
  }

  /** The bound parameters of one INSERT. */
  datatype Params = Params(code: Json, columns: map<string, Json>, lat: Decimal, lng: Decimal, comment: Json)

  /** A stored row of the stations table. */
  datatype Row = Row(code: string, columns: map<string, Json>, lat: Decimal, lng: Decimal, comment: Json, geom: Point)

  /** What one pass of the loop body does with a record. */
  datatype Step =
    | Abort          // something the loop body evaluates throws, ending the whole loop
    | Skip           // lat or long is unusable
    | Write(p: Params)

  /** The decoded download: a list of records, or a failure to fetch or decode it. */
  datatype FetchOutcome = Fetched(records: seq<Json>) | FetchFailed

  /** s[name] for a record s that is neither null nor undefined: a missing field is undefined. */
  function Field(rec: Json, name: string): (r: Json)
    requires !IsNullish(rec)
    ensures rec.JObject? && name in rec.fields ==> r == rec.fields[name]
    ensures !(rec.JObject? && name in rec.fields) ==> r == JUndefined
  {
    match rec
    case JObject(f) => if name in f then f[name] else JUndefined
    case _ => JUndefined
  }

  /** The driver binds undefined as SQL NULL. */
  function ToParam(v: Json): (r: Json)
    ensures !r.JUndefined?
    ensures v.JUndefined? ==> r == JNull
    ensures v.JUndefined? || r == v
  {
    if v.JUndefined? then JNull else v
  }

  /** The comment column: the sentinel string "NULL" is stored as NULL. */
  function CommentOf(c: Json): (r: Json)
    ensures !r.JUndefined?
    ensures r == JNull <==> (c == JString("NULL") || IsNullish(c))
    ensures !(c == JString("NULL") || IsNullish(c)) ==> r == c
  {
    if c == JString("NULL") then JNull else ToParam(c)
  }

  /**
   * What the loop body does with one record. It aborts when reading a field of
   * null or undefined throws, when normalising lat or long throws, or when the
   * catch of a failed write cannot build its message from the station_code.
   * A code that throws on conversion is an object, which this model never
   * gives a key, so its write always fails and reaches that catch.
   * StepOfCases states the three cases exactly.
   */
  function StepOf(rec: Json): (st: Step)
    ensures IsNullish(rec) ==> st.Abort?
    ensures st.Write? ==>
      && st.p.code == ToParam(Field(rec, "station_code"))
      && !ThrowsOnString(st.p.code)
      && st.p.comment == CommentOf(Field(rec, "comment"))
  {
    if IsNullish(rec) then Abort
    else
      var lat := NormalizeNumber(Field(rec, "lat"));
      var lng := NormalizeNumber(Field(rec, "long"));
      if lat.Throws? || lng.Throws? then Abort
      else if lat.value.None? || lng.value.None? then Skip
      else if ThrowsOnString(Field(rec, "station_code")) then Abort
      else
        Write(Params(
          ToParam(Field(rec, "station_code")),
          Columns(rec),
          lat.value.value, lng.value.value,
          CommentOf(Field(rec, "comment"))))
  }

  /** The pass-through parameters of a record, each bound to the column of its name. */
  function Columns(rec: Json): map<string, Json>
    requires !IsNullish(rec)
  {
    map n | n in PassThrough :: ToParam(Field(rec, n))
  }

  /** When the loop body aborts, skips and writes, and the coordinates a write binds. */
  lemma StepOfCases(rec: Json)
    ensures StepOf(rec).Abort? <==> (IsNullish(rec) ||
      NormalizeNumber(Field(rec, "lat")).Throws? || NormalizeNumber(Field(rec, "long")).Throws? ||
      (NormalizeNumber(Field(rec, "lat")).value.Some? && NormalizeNumber(Field(rec, "long")).value.Some? &&
       ThrowsOnString(Field(rec, "station_code"))))
    ensures StepOf(rec).Skip? <==> (!IsNullish(rec) &&
      NormalizeNumber(Field(rec, "lat")).Returns? && NormalizeNumber(Field(rec, "long")).Returns? &&
      (NormalizeNumber(Field(rec, "lat")).value.None? || NormalizeNumber(Field(rec, "long")).value.None?))
    ensures StepOf(rec).Write? ==>
      && NormalizeNumber(Field(rec, "lat")) == Returns(Some(StepOf(rec).p.lat))
      && NormalizeNumber(Field(rec, "long")) == Returns(Some(StepOf(rec).p.lng))
  {
  }

  /** A written record binds each of the thirteen pass-through fields to the column of its name, and nothing else. */
  lemma WriteColumns(rec: Json)
    requires StepOf(rec).Write?
    ensures StepOf(rec).p.columns == (map n | n in PassThrough :: ToParam(Field(rec, n)))
    ensures StepOf(rec).p.columns.Keys == PassThrough
  {
  }

  /**
   * The text key station_code is stored under: the driver sends a string as it
   * is and a number or a boolean as its String form, so the number 1010 and
   * the string "1010" are the same key. This model stores no row for a null
   * code or an object code and treats such a write as failing.
   */
  function KeyOf(code: Json): (r: Option<string>)
    ensures r.Some? <==> (code.JString? || code.JNumber? || code.JBool?)
    ensures code.JString? ==> r == Some(code.s)
    ensures code.JNumber? || code.JBool? ==> r == Some(ToStr(code).value)
  {
    match code
    case JString(s) => Some(s)
    case JNumber(_) => Some(ToStr(code).value)
    case JBool(_) => Some(ToStr(code).value)
    case _ => None
  }

  /**
   * The row one INSERT stores. The driver writes a number parameter with
   * Number::toString, so a negative zero coordinate reaches the table as zero.
   */
  function RowOf(k: string, p: Params): Row {
    var lat := DropNegativeZero(p.lat);
    var lng := DropNegativeZero(p.lng);
    Row(k, p.columns, lat, lng, p.comment, Point(lng, lat))
  }

  /** Every row is stored under its own code and its point is (lng, lat). */
  predicate WellFormed(rows: map<string, Row>) {
    forall k :: k in rows ==> rows[k].code == k && rows[k].geom == Point(rows[k].lng, rows[k].lat)
  }

  /** The write for p goes through: the database accepts it and the code is a key. */
  predicate Succeeds(p: Params, fails: Params -> bool) {
    !fails(p) && KeyOf(p.code).Some?
  }

  /** One INSERT ... ON CONFLICT DO NOTHING inside its try/catch; fails says which writes the database rejects. */
  function Insert(rows: map<string, Row>, p: Params, fails: Params -> bool): (r: map<string, Row>)
    ensures forall k :: k in rows ==> k in r && r[k] == rows[k]
    ensures forall k :: k in r && k !in rows ==>
      Succeeds(p, fails) && KeyOf(p.code) == Some(k) && r[k] == RowOf(k, p)
    ensures Succeeds(p, fails) ==> KeyOf(p.code).value in r
    ensures WellFormed(rows) ==> WellFormed(r)
  {
    if !Succeeds(p, fails) then rows
    else
      var k := KeyOf(p.code).value;
      if k in rows then rows else rows[k := RowOf(k, p)]
  }

  /** The loop of insertStations over recs, from the table rows. */
  function IngestAll(rows: map<string, Row>, recs: seq<Json>, fails: Params -> bool): (r: map<string, Row>)
    ensures forall k :: k in rows ==> k in r && r[k] == rows[k]
    decreases |recs|
  {
    if recs == [] then rows
    else
      match StepOf(recs[0])
      case Abort => rows
      case Skip => IngestAll(rows, recs[1..], fails)
      case Write(p) => IngestAll(Insert(rows, p, fails), recs[1..], fails)
  }

  /** insertStations: a failed download leaves the table as it was. */
  function Ingest(rows: map<string, Row>, outcome: FetchOutcome, fails: Params -> bool): (r: map<string, Row>)
    ensures outcome.FetchFailed? ==> r == rows
    ensures forall k :: k in rows ==> k in r && r[k] == rows[k]
  {
    match outcome
    case FetchFailed => rows
    case Fetched(recs) => IngestAll(rows, recs, fails)
  }

  // ---------------------------------------------------------------------------
  // What one pass promises

  /** Every row the pass stores is stored under its code with the point (lng, lat). */
  lemma {:induction false} IngestWellFormed(rows: map<string, Row>, recs: seq<Json>, fails: Params -> bool)
    requires WellFormed(rows)
    ensures WellFormed(IngestAll(rows, recs, fails))
    decreases |recs|
  {
    if recs != [] {
      match StepOf(recs[0])
      case Abort =>
      case Skip => IngestWellFormed(rows, recs[1..], fails);
      case Write(p) => IngestWellFormed(Insert(rows, p, fails), recs[1..], fails);
    }
  }

  /** The table after the loop body has handled one record that does not abort. */
  function After(rows: map<string, Row>, rec: Json, fails: Params -> bool): map<string, Row> {
    match StepOf(rec)
    case Write(p) => Insert(rows, p, fails)
    case _ => rows
  }

  lemma IngestStep(rows: map<string, Row>, recs: seq<Json>, fails: Params -> bool)
    requires recs != [] && !StepOf(recs[0]).Abort?
    ensures IngestAll(rows, recs, fails) == IngestAll(After(rows, recs[0], fails), recs[1..], fails)
  {
  }

  /** Index of the first record that aborts the loop, or the number of records. */
  function FirstAbort(recs: seq<Json>): (n: nat)
    ensures n <= |recs|
    ensures forall i :: 0 <= i < n ==> !StepOf(recs[i]).Abort? && !IsNullish(recs[i])
    ensures n < |recs| ==> StepOf(recs[n]).Abort?
    decreases |recs|
  {
    if recs == [] || StepOf(recs[0]).Abort? then 0
    else
      var n := 1 + FirstAbort(recs[1..]);
      assert forall i :: 1 <= i < |recs| ==> recs[i] == recs[1..][i - 1];
      n
  }

  /** The record's write goes through and stores under key k. */
  predicate WritesKey(rec: Json, k: string, fails: Params -> bool) {
    StepOf(rec).Write? && Succeeds(StepOf(rec).p, fails) && KeyOf(StepOf(rec).p.code) == Some(k)
  }

  lemma AfterNewKey(rows: map<string, Row>, rec: Json, fails: Params -> bool, k: string)
    requires k !in rows
    ensures k in After(rows, rec, fails) <==> WritesKey(rec, k, fails)
    ensures WritesKey(rec, k, fails) ==> After(rows, rec, fails)[k] == RowOf(k, StepOf(rec).p)
  {
  }

  /** Some record the loop reaches writes key k. */
  predicate Reached(recs: seq<Json>, k: string, fails: Params -> bool)
    decreases |recs|
  {
    recs != [] && !StepOf(recs[0]).Abort? && (WritesKey(recs[0], k, fails) || Reached(recs[1..], k, fails))
  }

  lemma {:induction false} ReachedAt(recs: seq<Json>, k: string, fails: Params -> bool)
    ensures Reached(recs, k, fails) <==> exists i :: 0 <= i < FirstAbort(recs) && WritesKey(recs[i], k, fails)
    decreases |recs|
  {
    if recs != [] && !StepOf(recs[0]).Abort? {
      var rest := recs[1..];
      ReachedAt(rest, k, fails);
      assert FirstAbort(recs) == 1 + FirstAbort(rest);
      var w := rec => WritesKey(rec, k, fails);
      ExistsShift(recs, FirstAbort(rest), w);
      ExistsSplit(recs, FirstAbort(recs), w);
      assert forall i :: 0 <= i < |recs| ==> w(recs[i]) == WritesKey(recs[i], k, fails);
      assert forall i :: 0 <= i < |rest| ==> w(rest[i]) == WritesKey(rest[i], k, fails);
    }
  }

  /** Some record among the first n after the head satisfies w: so does one at positions 1 to n. */
  lemma ExistsShift(recs: seq<Json>, n: nat, w: Json -> bool)
    requires n < |recs|
    ensures (exists i :: 0 <= i < n && w(recs[1..][i])) <==> (exists i :: 1 <= i < n + 1 && w(recs[i]))
  {
    if exists i :: 0 <= i < n && w(recs[1..][i]) {
      var i :| 0 <= i < n && w(recs[1..][i]);
      assert recs[i + 1] == recs[1..][i];
    }
    if exists i :: 1 <= i < n + 1 && w(recs[i]) {
      var i :| 1 <= i < n + 1 && w(recs[i]);
      assert recs[1..][i - 1] == recs[i];
    }
  }

  /** Some record among the first n satisfies w: the head, or one after it. */
  lemma ExistsSplit(recs: seq<Json>, n: nat, w: Json -> bool)
    requires 0 < n <= |recs|
    ensures (exists i :: 0 <= i < n && w(recs[i])) <==> w(recs[0]) || (exists i :: 1 <= i < n && w(recs[i]))
  {
    if exists i :: 0 <= i < n && w(recs[i]) {
      var i :| 0 <= i < n && w(recs[i]);
      assert i == 0 || (1 <= i < n && w(recs[i]));
    }
    if w(recs[0]) {
      assert 0 <= 0 < n && w(recs[0]);
    }
  }

  lemma {:induction false} NewKeysReached(rows: map<string, Row>, recs: seq<Json>, fails: Params -> bool, k: string)
    requires k !in rows
    ensures k in IngestAll(rows, recs, fails) <==> Reached(recs, k, fails)
    decreases |recs|
  {
    if recs != [] && !StepOf(recs[0]).Abort? {
      var r1 := After(rows, recs[0], fails);
      IngestStep(rows, recs, fails);
      AfterNewKey(rows, recs[0], fails, k);
      if k !in r1 {
        NewKeysReached(r1, recs[1..], fails, k);
      }
    }
  }

  /** A new key appears exactly when some record the loop reaches writes it. */
  lemma NewKeys(rows: map<string, Row>, recs: seq<Json>, fails: Params -> bool, k: string)
    requires k !in rows
    ensures k in IngestAll(rows, recs, fails) <==>
      exists i :: 0 <= i < FirstAbort(recs) && WritesKey(recs[i], k, fails)
  {
    NewKeysReached(rows, recs, fails, k);
    ReachedAt(recs, k, fails);
  }

  lemma NoWriteShift(recs: seq<Json>, i: nat, k: string, fails: Params -> bool)
    requires 0 < i < |recs| && WritesKey(recs[i], k, fails)
    requires forall j :: 0 <= j < i ==> !WritesKey(recs[j], k, fails)
    ensures WritesKey(recs[1..][i - 1], k, fails)
    ensures forall j :: 0 <= j < i - 1 ==> !WritesKey(recs[1..][j], k, fails)
  {
    assert forall j :: 0 <= j < i ==> recs[1..][j] == recs[j + 1];
  }

  /** Within one pass the first record that writes a new key decides its row. */
  lemma {:induction false} FirstWriteWins(rows: map<string, Row>, recs: seq<Json>, fails: Params -> bool, i: nat, k: string)
    requires k !in rows && i < FirstAbort(recs) && WritesKey(recs[i], k, fails)
    requires forall j :: 0 <= j < i ==> !WritesKey(recs[j], k, fails)
    ensures k in IngestAll(rows, recs, fails)
    ensures IngestAll(rows, recs, fails)[k] == RowOf(k, StepOf(recs[i]).p)
    ensures var row := IngestAll(rows, recs, fails)[k];
      && NormalizeNumber(Field(recs[i], "lat")).Returns? && NormalizeNumber(Field(recs[i], "lat")).value.Some?
      && NormalizeNumber(Field(recs[i], "long")).Returns? && NormalizeNumber(Field(recs[i], "long")).value.Some?
      && row.lat == DropNegativeZero(NormalizeNumber(Field(recs[i], "lat")).value.value)
      && row.lng == DropNegativeZero(NormalizeNumber(Field(recs[i], "long")).value.value)
      && row.geom == Point(row.lng, row.lat)
    decreases |recs|
  {
    var rest := recs[1..];
    var r1 := After(rows, recs[0], fails);
    IngestStep(rows, recs, fails);
    AfterNewKey(rows, recs[0], fails, k);
    if i > 0 {
      assert FirstAbort(recs) == 1 + FirstAbort(rest);
      NoWriteShift(recs, i, k, fails);
      FirstWriteWins(r1, rest, fails, i - 1, k);
    }
  }

  lemma SplitAround(pre: seq<Json>, x: Json, post: seq<Json>)
    ensures pre == [] ==> (pre + [x] + post)[0] == x && (pre + [x] + post)[1..] == post
    ensures pre != [] ==> (pre + [x] + post)[0] == pre[0] && (pre + [x] + post)[1..] == pre[1..] + [x] + post
  {
    if pre == [] {
      assert pre + [x] + post == [x] + post;
    } else {
      assert pre + [x] + post == [pre[0]] + (pre[1..] + [x] + post);
    }
  }

  /** A record the loop cannot read ends the pass: nothing after it is looked at. */
  lemma {:induction false} AbortEndsPass(rows: map<string, Row>, pre: seq<Json>, x: Json, post: seq<Json>, fails: Params -> bool)
    requires StepOf(x).Abort?
    ensures IngestAll(rows, pre + [x] + post, fails) == IngestAll(rows, pre, fails)
    decreases |pre|
  {
    var all := pre + [x] + post;
    SplitAround(pre, x, post);
    if pre != [] && !StepOf(pre[0]).Abort? {
      IngestStep(rows, all, fails);
      IngestStep(rows, pre, fails);
      AbortEndsPass(After(rows, pre[0], fails), pre[1..], x, post, fails);
    }
  }

  /** A lat whose string conversion throws ends the pass at that record. */
  lemma ThrowingLatEndsPass(rows: map<string, Row>, rec: Json, rest: seq<Json>, fails: Params -> bool)
    requires rec.JObject? && ThrowsOnString(Field(rec, "lat"))
    ensures StepOf(rec).Abort?
    ensures IngestAll(rows, [rec] + rest, fails) == rows
  {
    assert ([rec] + rest)[0] == rec;
  }

  /** Usable coordinates with a station_code that throws on conversion: the write fails and its catch ends the pass. */
  lemma ThrowingCodeEndsPass(rows: map<string, Row>, rec: Json, rest: seq<Json>, fails: Params -> bool)
    requires rec.JObject? && ThrowsOnString(Field(rec, "station_code"))
    requires NormalizeNumber(Field(rec, "lat")).Returns? && NormalizeNumber(Field(rec, "lat")).value.Some?
    requires NormalizeNumber(Field(rec, "long")).Returns? && NormalizeNumber(Field(rec, "long")).value.Some?
    ensures StepOf(rec).Abort?
    ensures IngestAll(rows, [rec] + rest, fails) == rows
  {
    assert ([rec] + rest)[0] == rec;
  }

  /** A skipped record leaves the table as it is and the loop goes on with the next. */
  lemma SkipContinues(rows: map<string, Row>, x: Json, rest: seq<Json>, fails: Params -> bool)
    requires StepOf(x).Skip?
    ensures IngestAll(rows, [x] + rest, fails) == IngestAll(rows, rest, fails)
  {
    assert ([x] + rest)[0] == x && ([x] + rest)[1..] == rest;
    IngestStep(rows, [x] + rest, fails);
  }

  /** A write the database rejects leaves the table as it is and the loop goes on with the next. */
  lemma FailedWriteContinues(rows: map<string, Row>, x: Json, rest: seq<Json>, fails: Params -> bool)
    requires StepOf(x).Write? && fails(StepOf(x).p)
    ensures IngestAll(rows, [x] + rest, fails) == IngestAll(rows, rest, fails)
  {
    assert ([x] + rest)[0] == x && ([x] + rest)[1..] == rest;
    IngestStep(rows, [x] + rest, fails);
  }

  /** Every write that goes through in the pass stores under a key already in the table. */
  predicate Covered(rows: map<string, Row>, recs: seq<Json>, fails: Params -> bool)
    decreases |recs|
  {
    recs == [] ||
    match StepOf(recs[0])
    case Abort => true
    case Skip => Covered(rows, recs[1..], fails)
    case Write(p) => (Succeeds(p, fails) ==> KeyOf(p.code).value in rows) && Covered(rows, recs[1..], fails)
  }

  lemma {:induction false} CoveredAfterPass(rows: map<string, Row>, recs: seq<Json>, fails: Params -> bool)
    ensures Covered(IngestAll(rows, recs, fails), recs, fails)
    decreases |recs|
  {
    if recs != [] {
      var result := IngestAll(rows, recs, fails);
      match StepOf(recs[0])
      case Abort =>
      case Skip => CoveredAfterPass(rows, recs[1..], fails);
      case Write(p) =>
        var r1 := Insert(rows, p, fails);
        CoveredAfterPass(r1, recs[1..], fails);
    }
  }

  lemma {:induction false} CoveredPassChangesNothing(rows: map<string, Row>, recs: seq<Json>, fails: Params -> bool)
    requires Covered(rows, recs, fails)
    ensures IngestAll(rows, recs, fails) == rows
    decreases |recs|
  {
    if recs != [] {
      match StepOf(recs[0])
      case Abort =>
      case Skip => CoveredPassChangesNothing(rows, recs[1..], fails);
      case Write(p) =>
        assert Insert(rows, p, fails) == rows;
        CoveredPassChangesNothing(rows, recs[1..], fails);
    }
  }

  /** Importing the same records twice leaves the table as importing them once. */
  lemma IngestIdempotent(rows: map<string, Row>, outcome: FetchOutcome, fails: Params -> bool)
    ensures Ingest(Ingest(rows, outcome, fails), outcome, fails) == Ingest(rows, outcome, fails)
  {
    if outcome.Fetched? {
      CoveredAfterPass(rows, outcome.records, fails);
      CoveredPassChangesNothing(IngestAll(rows, outcome.records, fails), outcome.records, fails);
    }
  }

  /** The longitude is read from field long: a record that only has lng is skipped. */
  lemma LongNotLng(f: map<string, Json>)
    requires "long" !in f
    ensures !StepOf(JObject(f)).Write?
    ensures !ThrowsOnString(Field(JObject(f), "lat")) ==> StepOf(JObject(f)) == Skip
  {
    assert Field(JObject(f), "long") == JUndefined;
  }

  /** The comment "NULL" is stored as NULL; any other defined comment verbatim. */
  lemma CommentStored(rec: Json)
    requires StepOf(rec).Write?
    ensures Field(rec, "comment") == JString("NULL") ==> StepOf(rec).p.comment == JNull
    ensures Field(rec, "comment") != JString("NULL") && !Field(rec, "comment").JUndefined? ==>
      StepOf(rec).p.comment == Field(rec, "comment")
  {
  }

  /** The number 1010 and the string "1010" are one station_code: the second write is ignored. */
  lemma NumericCodeIsText(rows: map<string, Row>, p: Params, q: Params, fails: Params -> bool)
    requires p.code == JString("1010") && q.code == JNumber(Finite(false, 101, 1)) && Succeeds(p, fails)
    ensures KeyOf(q.code) == KeyOf(p.code)
    ensures Insert(Insert(rows, p, fails), q, fails) == Insert(rows, p, fails)
  {
    NumberToStringWhole();
  }

  /** A record whose lat is the text "-0" gets a new row whose lat and point ordinate are zero. */
  lemma NegativeZeroStoredAsZero(rows: map<string, Row>, rec: Json, fails: Params -> bool, k: string)
    requires k !in rows && WritesKey(rec, k, fails) && Field(rec, "lat") == JString("-0")
    ensures k in After(rows, rec, fails)
    ensures After(rows, rec, fails)[k].lat == Finite(false, 0, 0)
    ensures After(rows, rec, fails)[k].geom.y == Finite(false, 0, 0)
  {
    ExampleNegativeZeroText();
    AfterNewKey(rows, rec, fails, k);
  }

  // ---------------------------------------------------------------------------
  // The table the importer writes to

  class StationsTable {
    /** The rows by station_code. */
    var rows: map<string, Row>

    predicate Valid()
      reads this
    {
      WellFormed(rows)
    }

    constructor()
      ensures rows == map[] && Valid()
    {
      rows := map[];
    }

    /** One INSERT ... ON CONFLICT (station_code) DO NOTHING, with its catch. */
    method InsertOrIgnore(p: Params, fails: Params -> bool)
      modifies this
      ensures rows == Insert(old(rows), p, fails)
    {
      if fails(p) {
        return;
      }
      match KeyOf(p.code)
      case None =>
      case Some(k) =>
        if k !in rows {
          rows := rows[k := RowOf(k, p)];
        }
    }

    /** insertStations over an already decoded download. */
    method InsertStations(outcome: FetchOutcome, fails: Params -> bool)
      modifies this
      ensures rows == Ingest(old(rows), outcome, fails)
      ensures old(Valid()) ==> Valid()
    {
      if outcome.FetchFailed? {
        return;
      }
      var recs := outcome.records;
      var i := 0;
      while i < |recs|
        invariant 0 <= i <= |recs|
        invariant IngestAll(rows, recs[i..], fails) == IngestAll(old(rows), recs, fails)
      {
        assert recs[i..][0] == recs[i] && recs[i..][1..] == recs[i + 1..];
        var step := StepOf(recs[i]);
        if step.Abort? {
          break;
        }
        if step.Skip? {
          i := i + 1;
          continue;
        }
        InsertOrIgnore(step.p, fails);
        i := i + 1;
      }
      if old(Valid()) {
        IngestWellFormed(old(rows), recs, fails);
      }
    }
  }
}
