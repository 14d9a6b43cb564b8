/** The `transformMissingGzDataDaily` handler and the statement it submits. The handler
    picks a day (the `dt` of the event, or one calendar day before the clock) and inserts into
    the Parquet-backed target table the rows of the gzip-backed source table of that day
    that the target does not hold yet, keyed by hour and request id. */
module TransformMissingGz {
  import opened Wrappers
  import opened Decimal
  import opened EcmaTime
  import opened DateString
  import opened PartitionFields
  import opened JsDate

  datatype Config = Config(database: string, sourceTable: string, targetTable: string)

  /** The invocation event; `dt` is `Some` when the key is present. */
  datatype Event = Event(dt: Option<string>)

  const StatementHead := "\n    -- Insert missing Gzip Data on "
  const WithGz := "\n    WITH gz AS (\n      SELECT *\n      FROM "
  const ParquetSubquery := "\n    ), parquet AS (\n      SELECT concat(year, '-', month, '-', day, 'T', hour) dth, request_id\n      FROM "
  const AntiJoin := "\n    )\n    SELECT\n      gz.*\n    FROM gz LEFT JOIN parquet\n    ON concat(gz.year, '-', gz.month, '-', gz.day, 'T', gz.hour) = parquet.dth\n      AND gz.request_id = parquet.request_id\n    WHERE parquet.request_id IS NULL"

  function InsertMissingStatement(cfg: Config, f: DayFields): string {
    var src := cfg.database + "." + cfg.sourceTable;
    var dst := cfg.database + "." + cfg.targetTable;
    var onDay := "year = '" + f.year + "' AND month = '" + f.month + "' AND day = '" + f.day + "'";
    StatementHead + f.year + "-" + f.month + "-" + f.day +
    "\n    INSERT INTO " + dst + WithGz + src +
    "\n      WHERE " + onDay + ParquetSubquery + dst +
    "\n      WHERE " + onDay + AntiJoin
  }

  // ---------------------------------------------------------------------------
  // Choosing the day

  /** One day before the clock: NaN when the clock itself is out of range. */
  function Yesterday(now: int): Option<int> {
    if TimeClip(now).None? then None else TimeClip(now - MsPerDay)
  }

  /** The time value of the `yesterday` Date the handler reads its fields from. */
  function ProcessedDay(event: Event, now: int, host: HostParser): Option<int> {
    match event.dt
    case Some(dt) => Parse(dt + "T00:00:00Z", host)
    case None => Yesterday(now)
  }

  function MinusOne(n: Option<int>): Option<int> {
    if n.None? then None else Some(n.value - 1)
  }

  /** A `dt` that does not give a valid Date throws before any query. Otherwise the day's
      statement is submitted, even when the clock's Date is invalid, since only the `dt`
      branch checks. The default branch moves the Date back by `setDate(getDate() - 1)`,
      which is the clock minus 24 hours. */
  method Handler(event: Event, now: int, cfg: Config, host: HostParser) returns (r: Invocation)
    ensures event.dt.Some? && ProcessedDay(event, now, host).None? ==> r == Throws("invalid dt")
    ensures !(event.dt.Some? && ProcessedDay(event, now, host).None?) ==>
      r == RunsQuery(InsertMissingStatement(cfg, DayFieldsOf(ProcessedDay(event, now, host))))
  {
    var yesterday: DateObject;
    if event.dt.Some? {
      yesterday := new DateObject.FromString(event.dt.value + "T00:00:00Z", host);
      if yesterday.timeValue.None? {
        return Throws("invalid dt");
      }
    } else {
      yesterday := new DateObject.Now(now);
      var date := yesterday.GetDate();
      yesterday.SetDate(MinusOne(date));
      YesterdayBySetDate(now);
    }
    var day := yesterday.timeValue;
    assert day == ProcessedDay(event, now, host);
    r := RunsQuery(InsertMissingStatement(cfg, DayFieldsOf(day)));
  }

  /** `setDate(getDate() - 1)` on `new Date()` gives `Yesterday`. */
  lemma YesterdayBySetDate(now: int)
    ensures SetDateValue(TimeClip(now), MinusOne(DateOf(TimeClip(now)))) == Yesterday(now)
  {
    if TimeClip(now).Some? {
      assert TimeClip(now) == Some(now);
      assert MinusOne(DateOf(Some(now))) == Some(DateFromTime(now) - 1);
      SetDateMinusOne(now);
    }
  }

  /** Without `dt` the day is the calendar day before the clock's day, across the start of
      a month or a year. */
  lemma YesterdayIsPrevDay(now: int, host: HostParser)
    requires -MaxTimeValue <= now - MsPerDay && now <= MaxTimeValue
    ensures ValidDate(HourOf(now).date)
    ensures ProcessedDay(Event(None), now, host).Some?
    ensures DayFieldsOf(ProcessedDay(Event(None), now, host)) == RenderDay(PrevDay(HourOf(now).date))
  {
    HourOfMinusDay(now);
    FieldsOfDay(TimeClip(now - MsPerDay), PrevDay(HourOf(now).date));
  }

  /** With a well-formed `dt` the day is `dt` itself: the three values are the three fields
      written in it. */
  lemma DtRoundTrip(dt: string, now: int, host: HostParser)
    requires NamesRealDay(dt)
    ensures ProcessedDay(Event(Some(dt)), now, host).Some?
    ensures DayFieldsOf(ProcessedDay(Event(Some(dt)), now, host)) == DayFields(dt[0..4], dt[5..7], dt[8..10])
  {
    var s := dt + "T00:00:00Z";
    WithTime(dt);
    ParseWellFormed(s, host);
    var c := CalendarDate(Value(dt[0..4]), Value(dt[5..7]) - 1, Value(dt[8..10]));
    FieldsOfDay(Parse(s, host), c);
    RenderWrittenDay(dt);
  }

  /** A `dt` in the format with a month or a day out of bounds is an invalid Date. */
  lemma DtOutOfBounds(dt: string, now: int, host: HostParser)
    requires IsDateShape(dt)
    requires !(1 <= Value(dt[5..7]) <= 12) || !(1 <= Value(dt[8..10]) <= 31)
    ensures ProcessedDay(Event(Some(dt)), now, host).None?
  {
    WithTime(dt);
  }

  // ---------------------------------------------------------------------------
  // What the statement selects

  /** A row of either table: the four partition columns, the request id (NULL is `None`)
      and the other columns. */
  datatype LogRow = LogRow(year: string, month: string, day: string, hour: string,
                           requestId: Option<string>, rest: seq<string>)

  /** A row of the `parquet` subquery. */
  datatype ParquetKey = ParquetKey(dth: string, requestId: Option<string>)

  /** `concat(year, '-', month, '-', day, 'T', hour)`. */
  function Dth(g: LogRow): string {
    g.year + "-" + g.month + "-" + g.day + "T" + g.hour
  }

  predicate OnDay(g: LogRow, f: DayFields) {
    g.year == f.year && g.month == f.month && g.day == f.day
  }

  /** The join condition. `=` is never true when either side is NULL. */
  predicate Joins(g: LogRow, k: ParquetKey) {
    Dth(g) == k.dth && g.requestId.Some? && k.requestId.Some? && g.requestId == k.requestId
  }

  predicate HasMatch(g: LogRow, keys: seq<ParquetKey>) {
    exists k :: k in keys && Joins(g, k)
  }

  /** `SELECT ... WHERE year = ... AND month = ... AND day = ...`. */
  function RowsOfDay(rows: seq<LogRow>, f: DayFields): (r: seq<LogRow>)
    ensures forall g :: g in r <==> g in rows && OnDay(g, f)
    ensures forall g :: multiset(r)[g] == if OnDay(g, f) then multiset(rows)[g] else 0
  {
    if rows == [] then []
    else
      assert rows == rows[..|rows| - 1] + [rows[|rows| - 1]];
      RowsOfDay(rows[..|rows| - 1], f) + (if OnDay(rows[|rows| - 1], f) then [rows[|rows| - 1]] else [])
  }

  function KeysOf(rows: seq<LogRow>): (r: seq<ParquetKey>)
    ensures forall g :: g in rows ==> ParquetKey(Dth(g), g.requestId) in r
    ensures forall k :: k in r ==> exists g :: g in rows && k == ParquetKey(Dth(g), g.requestId)
  {
    if rows == [] then []
    else KeysOf(rows[..|rows| - 1]) + [ParquetKey(Dth(rows[|rows| - 1]), rows[|rows| - 1].requestId)]
  }

  /** `gz LEFT JOIN parquet ... WHERE parquet.request_id IS NULL`: every `gz` row without a
      matching `parquet` row, as often as it occurs; a row with matches yields only joined
      rows, whose `request_id` is not NULL. */
  function Unmatched(gz: seq<LogRow>, keys: seq<ParquetKey>): (r: seq<LogRow>)
    ensures forall g :: multiset(r)[g] == if HasMatch(g, keys) then 0 else multiset(gz)[g]
  {
    if gz == [] then []
    else
      var g := gz[|gz| - 1];
      assert gz == gz[..|gz| - 1] + [g];
      Unmatched(gz[..|gz| - 1], keys) + (if HasMatch(g, keys) then [] else [g])
  }

  /** The rows the statement of day `f` inserts. */
  function MissingRows(source: seq<LogRow>, target: seq<LogRow>, f: DayFields): (r: seq<LogRow>)
    ensures multiset(r) <= multiset(source)
    ensures forall g :: g in r ==> OnDay(g, f)
  {
    Unmatched(RowsOfDay(source, f), KeysOf(RowsOfDay(target, f)))
  }

  /** A row is inserted exactly when it is a source row of the day and no target row of the
      day has the same `dth` and the same non-NULL request id. */
  lemma MissingRowsExactly(source: seq<LogRow>, target: seq<LogRow>, f: DayFields, g: LogRow)
    ensures g in MissingRows(source, target, f) <==>
      && g in source && OnDay(g, f)
      && !(exists p :: p in target && OnDay(p, f) && Dth(p) == Dth(g) && p.requestId.Some? && p.requestId == g.requestId)
    ensures multiset(MissingRows(source, target, f))[g] ==
      if OnDay(g, f) && !(exists p :: p in target && OnDay(p, f) && Dth(p) == Dth(g) && p.requestId.Some? && p.requestId == g.requestId)
      then multiset(source)[g] else 0
  {
    var gz, keys := RowsOfDay(source, f), KeysOf(RowsOfDay(target, f));
    assert g in MissingRows(source, target, f) <==> multiset(MissingRows(source, target, f))[g] > 0;
    assert g in gz <==> multiset(gz)[g] > 0;
    if HasMatch(g, keys) {
      var k :| k in keys && Joins(g, k);
      var p :| p in RowsOfDay(target, f) && k == ParquetKey(Dth(p), p.requestId);
      assert p in target && OnDay(p, f);
    }
    if p :| p in target && OnDay(p, f) && Dth(p) == Dth(g) && p.requestId.Some? && p.requestId == g.requestId {
      assert ParquetKey(Dth(p), p.requestId) in keys;
      assert Joins(g, ParquetKey(Dth(p), p.requestId));
    }
  }

  lemma ConcatCancel(p: string, a: string, b: string)
    ensures p + a == p + b <==> a == b
  {
    if p + a == p + b {
      assert a == (p + a)[|p|..];
      assert b == (p + b)[|p|..];
    }
  }

  /** Within one day the `dth` of two rows agree exactly when their hours do, so the join
      key is (hour, request id). */
  lemma SameDayDth(g: LogRow, p: LogRow, f: DayFields)
    requires OnDay(g, f) && OnDay(p, f)
    ensures Dth(g) == Dth(p) <==> g.hour == p.hour
  {
    ConcatCancel(g.year + "-" + g.month + "-" + g.day + "T", g.hour, p.hour);
  }

  /** Once the missing rows are inserted, running the statement again for the same day and
      the same source inserts nothing, as long as the day's source rows carry request ids. */
  lemma SecondRunSelectsNothing(source: seq<LogRow>, target: seq<LogRow>, f: DayFields)
    requires forall g :: g in source && OnDay(g, f) ==> g.requestId.Some?
    ensures MissingRows(source, target + MissingRows(source, target, f), f) == []
  {
    var inserted := MissingRows(source, target, f);
    var target' := target + inserted;
    var gz := RowsOfDay(source, f);
    var keys' := KeysOf(RowsOfDay(target', f));
    forall g | g in gz
      ensures HasMatch(g, keys')
    {
      MissingRowsExactly(source, target, f, g);
      if g in inserted {
        assert g in RowsOfDay(target', f);
        assert Joins(g, ParquetKey(Dth(g), g.requestId));
      } else {
        var p :| p in target && OnDay(p, f) && Dth(p) == Dth(g) && p.requestId.Some? && p.requestId == g.requestId;
        assert p in RowsOfDay(target', f);
        assert Joins(g, ParquetKey(Dth(p), p.requestId));
      }
    }
    var again := Unmatched(gz, keys');
    forall g
      ensures multiset(again)[g] == 0
    {
      if g !in gz {
        assert multiset(gz)[g] == 0;
      }
    }
    assert multiset(again) == multiset{};
    assert |again| == |multiset(again)|;
  }

  /** A source row whose request id is NULL never joins, so every run inserts it again,
      whatever the target holds. */
  lemma NullRequestIdReselected(source: seq<LogRow>, target: seq<LogRow>, f: DayFields, g: LogRow)
    requires g in source && OnDay(g, f) && g.requestId.None?
    ensures g in MissingRows(source, target, f)
    ensures g in MissingRows(source, target + MissingRows(source, target, f), f)
  {
    MissingRowsExactly(source, target, f, g);
    MissingRowsExactly(source, target + MissingRows(source, target, f), f, g);
  }

  /** Rows of other days are never inserted, and rows of the target of other days play no
      part. */
  lemma OtherDaysUntouched(source: seq<LogRow>, target: seq<LogRow>, other: seq<LogRow>, f: DayFields)
    requires forall p :: p in other ==> !OnDay(p, f)
    ensures forall g :: g in MissingRows(source, target, f) ==> OnDay(g, f)
    ensures MissingRows(source, target + other, f) == MissingRows(source, target, f)
  {
    forall g | g in MissingRows(source, target, f)
      ensures OnDay(g, f)
    {
      MissingRowsExactly(source, target, f, g);
    }
    RowsOfDayIgnoresOthers(target, other, f);
  }

  lemma {:induction false} RowsOfDayIgnoresOthers(rows: seq<LogRow>, other: seq<LogRow>, f: DayFields)
    requires forall p :: p in other ==> !OnDay(p, f)
    ensures RowsOfDay(rows + other, f) == RowsOfDay(rows, f)
    decreases |other|
  {
    if other != [] {
      var last := other[|other| - 1];
      assert (rows + other)[..|rows + other| - 1] == rows + other[..|other| - 1];
      assert last in other;
      RowsOfDayIgnoresOthers(rows, other[..|other| - 1], f);
    } else {
      assert rows + other == rows;
    }
  }
}
