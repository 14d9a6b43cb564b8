/** The two `createPartitions` handlers: register the `year/month/day/hour` partition of
    the hour after the current one (or of the hour named by `dth`) on a catalog table with
    `ALTER TABLE ... ADD IF NOT EXISTS PARTITION`. The clock is the parameter `now`
    (what `Date.now()` returns); `DATABASE` and `TABLE` come in a `Config`. */
module CreatePartitions {
  import opened Wrappers
  import opened Decimal
  import opened EcmaTime
  import opened DateString
  import opened PartitionFields

  datatype Config = Config(database: string, table: string)

  /** The invocation event of the CommonJS handler; `dth` is `Some` when the key is present. */
  datatype Event = Event(dth: Option<string>)

  /** `60 * 60 * 1000`: the partition is one hour ahead of the clock. */
  const Lookahead: int := 60 * 60 * 1000

  function AddPartitionStatement(cfg: Config, f: HourFields): string {
    "\n    ALTER TABLE " + cfg.database + "." + cfg.table +
    "\n    ADD IF NOT EXISTS \n    PARTITION (\n        year = '" + f.year +
    "',\n        month = '" + f.month +
    "',\n        day = '" + f.day +
    "',\n        hour = '" + f.hour + "' );"
  }

  /** The time value of the `Date` the CommonJS handler builds: `${dth}:00:00Z` parsed when
      `dth` is given, otherwise the clock plus one hour. */
  function NextHourValue(event: Event, now: int, host: HostParser): Option<int> {
    match event.dth
    case Some(dth) => Parse(dth + ":00:00Z", host)
    case None => TimeClip(now + Lookahead)
  }

  /** `createPartitions.js`: an invalid Date throws before any query; otherwise the partition
      of that Date's UTC hour is added. */
  function CommonJsHandler(event: Event, now: int, cfg: Config, host: HostParser): Invocation {
    var nextHour := NextHourValue(event, now, host);
    if nextHour.None? then Throws("invalid dth")
    else RunsQuery(AddPartitionStatement(cfg, HourFieldsOf(nextHour)))
  }

  /** `createPartitions.mjs`: always now + 1 h, and no validity check. */
  function EsModuleHandler(now: int, cfg: Config): Invocation {
    RunsQuery(AddPartitionStatement(cfg, HourFieldsOf(TimeClip(now + Lookahead))))
  }

  /** Without `dth` the partition is the calendar hour after the clock's hour, rolling over
      into the next day, month or year; both handlers agree. */
  lemma NextHourPartition(now: int, cfg: Config, host: HostParser)
    requires -MaxTimeValue <= now + Lookahead <= MaxTimeValue
    ensures ValidHour(HourOf(now))
    ensures CommonJsHandler(Event(None), now, cfg, host)
         == EsModuleHandler(now, cfg)
         == RunsQuery(AddPartitionStatement(cfg, RenderHour(NextHour(HourOf(now)))))
  {
    HourOfPlusHour(now);
    FieldsOfHour(TimeClip(now + Lookahead), NextHour(HourOf(now)));
  }

  /** Without `dth`, the CommonJS handler throws exactly when the next hour lies outside the
      time range, on either side; there the ES module handler submits a statement whose four
      values are all 'NaN', and inside the range its month is never 'NaN'. */
  lemma ClockOutOfRange(now: int, cfg: Config, host: HostParser)
    ensures CommonJsHandler(Event(None), now, cfg, host) == Throws("invalid dth") <==>
      !(-MaxTimeValue <= now + Lookahead <= MaxTimeValue)
    ensures !(-MaxTimeValue <= now + Lookahead <= MaxTimeValue) ==>
      EsModuleHandler(now, cfg).statement
        == AddPartitionStatement(cfg, HourFields(NaNText, NaNText, NaNText, NaNText))
    ensures -MaxTimeValue <= now + Lookahead <= MaxTimeValue ==>
      HourFieldsOf(TimeClip(now + Lookahead)).month != NaNText
  {
    RenderedIsNotNaN(now + Lookahead);
  }

  /** At 23:xx on the last day of a month the next partition is hour "00" of day "01" of the
      next month, and on 31 December it is "01"/"01"/"00" of the next year. */
  lemma MonthEndRollover(h: UtcHour)
    requires ValidHour(h) && h.hour == 23 && h.date.date == DaysInMonth(h.date.year, h.date.month)
    ensures var f := RenderHour(NextHour(h));
      && f.day == "01" && f.hour == "00"
      && (h.date.month < 11 ==> f.year == IntToString(h.date.year) && Value(f.month) == h.date.month + 2)
      && (h.date.month == 11 ==> f.year == IntToString(h.date.year + 1) && f.month == "01")
  {
    var c := h.date;
    var n := if c.month < 11 then CalendarDate(c.year, c.month + 1, 1) else CalendarDate(c.year + 1, 0, 1);
    assert NextHour(h) == UtcHour(n, 0);
    RenderHourReadsBack(UtcHour(n, 0));
    PaddedSmall();
  }

  /** The padded text of 0 and 1. */
  lemma PaddedSmall()
    ensures TwoDigits(0) == "00" && TwoDigits(1) == "01"
  {
    assert NatToString(0) == "0" && NatToString(1) == "1";
  }

  /** A well-formed `dth` names its own hour, with no shift: the four partition values are
      the four fields written in `dth`. */
  lemma DthRoundTrip(dth: string, now: int, cfg: Config, host: HostParser)
    requires NamesRealHour(dth)
    ensures CommonJsHandler(Event(Some(dth)), now, cfg, host)
         == RunsQuery(AddPartitionStatement(cfg, HourFields(dth[0..4], dth[5..7], dth[8..10], dth[11..13])))
  {
    DthFields(dth, now, host);
  }

  lemma DthFields(dth: string, now: int, host: HostParser)
    requires NamesRealHour(dth)
    ensures var tv := NextHourValue(Event(Some(dth)), now, host);
      tv.Some? && HourFieldsOf(tv) == HourFields(dth[0..4], dth[5..7], dth[8..10], dth[11..13])
  {
    var s := dth + ":00:00Z";
    WithMinutes(dth);
    ParseWellFormed(s, host);
    var h := UtcHour(CalendarDate(Value(dth[0..4]), Value(dth[5..7]) - 1, Value(dth[8..10])), Value(dth[11..13]));
    FieldsOfHour(Parse(s, host), h);
    RenderWrittenHour(dth);
  }

  /** A `dth` in the format whose month, day or hour is out of bounds throws 'invalid dth'
      before any query: month 13 and hour 25 are rejected. */
  lemma DthOutOfBounds(dth: string, now: int, cfg: Config, host: HostParser)
    requires IsDateHourShape(dth)
    requires !(1 <= Value(dth[5..7]) <= 12) || !(1 <= Value(dth[8..10]) <= 31) || Value(dth[11..13]) > 24
    ensures CommonJsHandler(Event(Some(dth)), now, cfg, host) == Throws("invalid dth")
  {
    WithMinutes(dth);
  }

  /** Hour 24 of `dth` is the end of that day: the partition is hour 00 of the next day. */
  lemma DthHour24(dth: string, now: int, cfg: Config, host: HostParser)
    requires IsDateHourShape(dth) && Value(dth[11..13]) == 24
    requires 1 <= Value(dth[5..7]) <= 12
    requires 1 <= Value(dth[8..10]) <= DaysInMonth(Value(dth[0..4]), Value(dth[5..7]) - 1)
    ensures var c := CalendarDate(Value(dth[0..4]), Value(dth[5..7]) - 1, Value(dth[8..10]));
      CommonJsHandler(Event(Some(dth)), now, cfg, host)
        == RunsQuery(AddPartitionStatement(cfg, RenderHour(UtcHour(NextDay(c), 0))))
  {
    var s := dth + ":00:00Z";
    WithMinutes(dth);
    ParseHour24(s, host);
    var c := CalendarDate(Value(dth[0..4]), Value(dth[5..7]) - 1, Value(dth[8..10]));
    FieldsOfHour(Parse(s, host), UtcHour(NextDay(c), 0));
  }

  /** The clock at 2021-01-01T00:00:00Z gives the partition 2021 / 01 / 01 / 01. */
  lemma NewYearExample(cfg: Config, host: HostParser)
    ensures CommonJsHandler(Event(None), 1609459200000, cfg, host)
         == RunsQuery(AddPartitionStatement(cfg, HourFields("2021", "01", "01", "01")))
  {
    var c := CalendarDate(2021, 0, 1);
    var t := 1609459200000 + Lookahead;
    assert DayNumber(c) == 18628;
    HourOfSome(Some(t), c, 1, 0);
    FieldsOfHour(TimeClip(t), UtcHour(c, 1));
    NewYearRendered();
  }

  lemma NewYearRendered()
    ensures RenderHour(UtcHour(CalendarDate(2021, 0, 1), 1)) == HourFields("2021", "01", "01", "01")
  {
    assert NatToString(2021) == NatToString(202) + "1";
    assert NatToString(202) == NatToString(20) + "2";
    assert NatToString(20) == "2" + "0";
    PaddedSmall();
  }
}
