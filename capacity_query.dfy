/**
 * `GET /api/capacity/:hall?startTime=...&endTime=...`: the handler builds a
 * `SELECT` over `dining_hall_data` with a time condition chosen by which
 * bounds are present, runs it, and answers 500, 404 or 200 with the rows.
 */
module CapacityQuery {
  import opened Options
  import opened TextOrder
  import opened Store

  /** JavaScript truthiness of a query-string value: absent and `""` are both false. */
  predicate Truthy(v: Option<string>)
  {
    v.Some? && v.value != ""
  }

  /** The time condition appended to the `WHERE` clause. */
  datatype TimeFilter = Between | AtLeast | AtMost | Unbounded

  /** A built query: its time condition and the values bound to its `?` placeholders. */
  datatype Query = Query(filter: TimeFilter, params: seq<string>)

  /** A piece of statement text: literal SQL, or a `?` placeholder. */
  datatype Fragment = Sql(text: string) | Placeholder

  /** The statement every capacity query starts from. */
  const SelectSql: seq<Fragment> := [
    Sql("\n    SELECT hall_name, availability, timestamp\n    FROM dining_hall_data\n    WHERE hall_name = "),
    Placeholder,
    Sql("\n  ")
  ]

  /** The text `query +=` appends for each time condition: one `?` per bound it reads. */
  function FilterSql(f: TimeFilter): (r: seq<Fragment>)
    ensures Placeholders(r) == Arity(f)
  {
    match f
    case Between =>
      var r := [Sql(" AND timestamp BETWEEN "), Placeholder, Sql(" AND "), Placeholder];
      assert Placeholders(r) == 2;
      r
    case AtLeast =>
      var r := [Sql(" AND timestamp >= "), Placeholder];
      assert Placeholders(r) == 1;
      r
    case AtMost =>
      var r := [Sql(" AND timestamp <= "), Placeholder];
      assert Placeholders(r) == 1;
      r
    case Unbounded => []
  }

  /**
   * The full statement handed to the database: the base `SELECT` followed by
   * the time condition, with one `?` for the hall and one for each bound the
   * condition reads.
   */
  function SqlText(q: Query): (r: seq<Fragment>)
    ensures |SelectSql| <= |r| && r[..|SelectSql|] == SelectSql
    ensures Placeholders(r) == 1 + Arity(q.filter)
  {
    assert Placeholders(SelectSql) == 1;
    PlaceholdersAppend(SelectSql, FilterSql(q.filter));
    SelectSql + FilterSql(q.filter)
  }

  /** Number of `?` placeholders in a statement. */
  function Placeholders(frags: seq<Fragment>): nat
  {
    if frags == [] then 0 else (if frags[0].Placeholder? then 1 else 0) + Placeholders(frags[1..])
  }

  lemma {:induction false} PlaceholdersAppend(a: seq<Fragment>, b: seq<Fragment>)
    ensures Placeholders(a + b) == Placeholders(a) + Placeholders(b)
  {
    if a == [] {
      assert a + b == b;
    } else {
      assert (a + b)[1..] == a[1..] + b;
      PlaceholdersAppend(a[1..], b);
    }
  }

  /** Number of time bounds a condition reads from the parameter list. */
  function Arity(f: TimeFilter): nat
  {
    match f
    case Between => 2
    case AtLeast => 1
    case AtMost => 1
    case Unbounded => 0
  }

  /** The hall parameter followed by exactly as many bounds as the condition reads. */
  predicate WellFormed(q: Query)
  {
    |q.params| == 1 + Arity(q.filter)
  }

  /**
   * What SQLite's `WHERE` clause of `q` says about one sample:
   * `hall_name = ?` and then the time condition, with `BETWEEN a AND b`
   * meaning `a <= timestamp AND timestamp <= b`.
   */
  predicate Satisfies(s: Sample, q: Query)
    requires WellFormed(q)
  {
    && s.hallName == q.params[0]
    && match q.filter
       case Between => TextLe(q.params[1], s.timestamp) && TextLe(s.timestamp, q.params[2])
       case AtLeast => TextLe(q.params[1], s.timestamp)
       case AtMost => TextLe(s.timestamp, q.params[1])
       case Unbounded => true
  }

  /** `timestamp BETWEEN a AND b` holds exactly when `timestamp >= a` and `timestamp <= b` both do. */
  lemma BetweenIsBothBounds(s: Sample, hall: string, a: string, b: string)
    ensures Satisfies(s, Query(Between, [hall, a, b])) <==>
      Satisfies(s, Query(AtLeast, [hall, a])) && Satisfies(s, Query(AtMost, [hall, b]))
  {
  }

  /**
   * What the request asks for, stated bound by bound: the sample belongs to
   * `hall` (exact, case-sensitive), is no earlier than a present start and no
   * later than a present end, both ends included.
   */
  predicate InRange(s: Sample, hall: string, startTime: Option<string>, endTime: Option<string>)
  {
    && s.hallName == hall
    && (Truthy(startTime) ==> TextLe(startTime.value, s.timestamp))
    && (Truthy(endTime) ==> TextLe(s.timestamp, endTime.value))
  }

  /** The parameter a bound contributes: its value when truthy, nothing otherwise. */
  function BoundParam(v: Option<string>): seq<string>
  {
    if Truthy(v) then [v.value] else []
  }

  /**
   * The handler's query building: one of four conditions, chosen by which
   * bounds are truthy, and the parameter list `[hall]` extended in step.
   */
  function BuildQuery(hall: string, startTime: Option<string>, endTime: Option<string>): (q: Query)
    ensures WellFormed(q)
    ensures q.params == [hall] + BoundParam(startTime) + BoundParam(endTime)
    ensures Placeholders(SqlText(q)) == |q.params|
    ensures forall s :: Satisfies(s, q) <==> InRange(s, hall, startTime, endTime)
  {
    var q :=
      if Truthy(startTime) && Truthy(endTime) then
        Query(Between, [hall, startTime.value, endTime.value])
      else if Truthy(startTime) then
        Query(AtLeast, [hall, startTime.value])
      else if Truthy(endTime) then
        Query(AtMost, [hall, endTime.value])
      else
        Query(Unbounded, [hall]);
    q
  }

  /** An empty-string bound builds the same query as an absent one. */
  lemma EmptyBoundIsAbsent(hall: string, startTime: Option<string>, endTime: Option<string>)
    ensures BuildQuery(hall, Some(""), endTime) == BuildQuery(hall, None, endTime)
    ensures BuildQuery(hall, startTime, Some("")) == BuildQuery(hall, startTime, None)
  {
  }

  /**
   * SQLite running the statement: the samples of the rows its `WHERE` clause
   * accepts. The statement has no `ORDER BY`; the model returns them in table
   * (id) order.
   */
  function Select(rows: seq<Row>, q: Query): (r: seq<Sample>)
    requires WellFormed(q)
    ensures |r| <= |rows|
    ensures forall s :: s in r ==> Satisfies(s, q)
    ensures forall s :: s in r ==> s in Samples(rows)
    ensures forall i :: 0 <= i < |rows| && Satisfies(rows[i].sample, q) ==> rows[i].sample in r
  {
    if rows == [] then []
    else
      var rest := Select(rows[1..], q);
      assert forall i :: 1 <= i < |rows| ==> rows[i] == rows[1..][i - 1];
      assert Samples(rows) == [rows[0].sample] + Samples(rows[1..]);
      if Satisfies(rows[0].sample, q) then [rows[0].sample] + rest else rest
  }

  /**
   * The reference meaning of a capacity request over a table: the samples
   * in range, in table order.
   */
  function Filter(rows: seq<Row>, hall: string, startTime: Option<string>, endTime: Option<string>): (r: seq<Sample>)
  {
    if rows == [] then []
    else
      (if InRange(rows[0].sample, hall, startTime, endTime) then [rows[0].sample] else [])
      + Filter(rows[1..], hall, startTime, endTime)
  }

  /** Running the built query returns exactly the reference answer. */
  lemma {:induction false} SelectIsFilter(rows: seq<Row>, hall: string, startTime: Option<string>, endTime: Option<string>)
    ensures Select(rows, BuildQuery(hall, startTime, endTime)) == Filter(rows, hall, startTime, endTime)
  {
    if rows != [] {
      SelectIsFilter(rows[1..], hall, startTime, endTime);
    }
  }

  /** A sample is in the answer exactly when some row holds it and it is in range. */
  lemma {:induction false} FilterMembers(rows: seq<Row>, hall: string, startTime: Option<string>, endTime: Option<string>, s: Sample)
    ensures s in Filter(rows, hall, startTime, endTime) <==>
      InRange(s, hall, startTime, endTime) && s in Samples(rows)
  {
    if rows != [] {
      FilterMembers(rows[1..], hall, startTime, endTime, s);
      assert Samples(rows) == [rows[0].sample] + Samples(rows[1..]);
    }
  }

  /** What `db.all` hands to its callback: an error, or the rows. */
  datatype Outcome = StorageError | Rows(samples: seq<Sample>)

  /** `db.all(query, params, ...)`; `fault` stands for a storage read error. */
  function Execute(rows: seq<Row>, q: Query, fault: bool): (r: Outcome)
    requires WellFormed(q)
    ensures r.StorageError? <==> fault
    ensures r.Rows? ==> forall s :: s in r.samples ==> s in Samples(rows) && Satisfies(s, q)
    ensures r.Rows? ==> forall i :: 0 <= i < |rows| && Satisfies(rows[i].sample, q) ==> rows[i].sample in r.samples
  {
    if fault then StorageError else Rows(Select(rows, q))
  }

  /** The body of an HTTP response: JSON rows or a plain-text message. */
  datatype Body = Json(samples: seq<Sample>) | Text(message: string)

  datatype Response = Response(status: int, body: Body)

  const ServerErrorMessage: string := "Internal server error"
  const NotFoundMessage: string := "No data found for the specified dining hall and time range"

  /** The callback of `db.all`: error to 500, no rows to 404, rows to 200. */
  function Classify(outcome: Outcome): (resp: Response)
    ensures resp.status == 500 <==> outcome.StorageError?
    ensures resp.status == 404 <==> outcome == Rows([])
    ensures resp.status == 200 <==> outcome.Rows? && outcome.samples != []
    ensures resp.status == 200 ==> resp.body == Json(outcome.samples)
  {
    match outcome
    case StorageError => Response(500, Text(ServerErrorMessage))
    case Rows(samples) =>
      if |samples| == 0 then Response(404, Text(NotFoundMessage)) else Response(200, Json(samples))
  }

  /**
   * The whole handler over the table's rows at the time of the read. A
   * storage fault answers 500; otherwise the answer is the reference result,
   * 404 when it is empty and 200 with it when not.
   */
  function GetCapacity(rows: seq<Row>, hall: string, startTime: Option<string>, endTime: Option<string>, storageFault: bool): (resp: Response)
    ensures storageFault ==> resp == Response(500, Text(ServerErrorMessage))
    ensures !storageFault && Filter(rows, hall, startTime, endTime) == [] ==>
      resp == Response(404, Text(NotFoundMessage))
    ensures !storageFault && Filter(rows, hall, startTime, endTime) != [] ==>
      resp == Response(200, Json(Filter(rows, hall, startTime, endTime)))
  {
    SelectIsFilter(rows, hall, startTime, endTime);
    Classify(Execute(rows, BuildQuery(hall, startTime, endTime), storageFault))
  }

  /** A request for a hall no row carries is answered 404, never 500, whatever the bounds. */
  lemma UnknownHallNotFound(rows: seq<Row>, hall: string, startTime: Option<string>, endTime: Option<string>)
    requires forall i :: 0 <= i < |rows| ==> rows[i].sample.hallName != hall
    ensures GetCapacity(rows, hall, startTime, endTime, false) == Response(404, Text(NotFoundMessage))
  {
    var r := Filter(rows, hall, startTime, endTime);
    if r != [] {
      FilterMembers(rows, hall, startTime, endTime, r[0]);
      assert false;
    }
  }

  /**
   * Every sample of a 200 answer is a stored sample of the requested hall
   * (exact string equality) within the present bounds.
   */
  lemma OkAnswerMatchesRequest(rows: seq<Row>, hall: string, startTime: Option<string>, endTime: Option<string>)
    ensures var resp := GetCapacity(rows, hall, startTime, endTime, false);
      resp.status == 200 ==>
        resp.body.Json? &&
        forall s :: s in resp.body.samples ==>
          s.hallName == hall && s in Samples(rows) && InRange(s, hall, startTime, endTime)
  {
    forall s | s in Filter(rows, hall, startTime, endTime)
      ensures s in Samples(rows) && InRange(s, hall, startTime, endTime)
    {
      FilterMembers(rows, hall, startTime, endTime, s);
    }
  }

  /**
   * Without truthy bounds nothing limits the answer: on any table, every
   * sample of the hall comes back as many times as it is stored.
   */
  lemma {:induction false} UnboundedIsWholeHistory(rows: seq<Row>, hall: string, startTime: Option<string>, endTime: Option<string>, s: Sample)
    requires !Truthy(startTime) && !Truthy(endTime)
    requires s.hallName == hall
    ensures multiset(Filter(rows, hall, startTime, endTime))[s] == multiset(Samples(rows))[s]
  {
    if rows != [] {
      UnboundedIsWholeHistory(rows[1..], hall, startTime, endTime, s);
      assert Samples(rows) == [rows[0].sample] + Samples(rows[1..]);
    }
  }

  /** Both ends of a range are inclusive: a sample stamped exactly at either bound is in range. */
  lemma BoundsInclusive(s: Sample, startTime: string, endTime: string)
    requires startTime != "" && endTime != "" && TextLe(startTime, endTime)
    requires s.timestamp == startTime || s.timestamp == endTime
    ensures InRange(s, s.hallName, Some(startTime), Some(endTime))
  {
    TextLeReflexive(s.timestamp);
  }

  /** Samples whose timestamps never decrease along the sequence. */
  ghost predicate Chronological(ss: seq<Sample>)
  {
    forall i, j :: 0 <= i < j < |ss| ==> TextLe(ss[i].timestamp, ss[j].timestamp)
  }

  /** On a table stored oldest first, the answer is oldest first too. */
  lemma {:induction false} FilterChronological(rows: seq<Row>, hall: string, startTime: Option<string>, endTime: Option<string>)
    requires Chronological(Samples(rows))
    ensures Chronological(Filter(rows, hall, startTime, endTime))
  {
    if rows != [] {
      var tail := rows[1..];
      assert Samples(rows) == [rows[0].sample] + Samples(tail);
      assert Chronological(Samples(tail)) by {
        forall i, j | 0 <= i < j < |tail|
          ensures TextLe(Samples(tail)[i].timestamp, Samples(tail)[j].timestamp)
        {
          assert Samples(tail)[i] == Samples(rows)[i + 1] && Samples(tail)[j] == Samples(rows)[j + 1];
        }
      }
      FilterChronological(tail, hall, startTime, endTime);
      var rest := Filter(tail, hall, startTime, endTime);
      forall k | 0 <= k < |rest|
        ensures TextLe(rows[0].sample.timestamp, rest[k].timestamp)
      {
        FilterMembers(tail, hall, startTime, endTime, rest[k]);
        var m :| 0 <= m < |tail| && Samples(tail)[m] == rest[k];
        assert Samples(rows)[m + 1] == rest[k];
      }
    }
  }
}
