/** The `transformPartition` handler: copy the partition of the hour two hours before the
    clock from the gzip-backed source table into the Parquet-backed target table with
    `INSERT INTO ... SELECT * ... WHERE year/month/day/hour`. The CommonJS and the ES module
    versions compute the same statement; the CommonJS one ignores its `event`, `context` and
    `callback` arguments, so one function models both. */
module TransformPartition {
  import opened Wrappers
  import opened EcmaTime
  import opened PartitionFields

  datatype Config = Config(database: string, sourceTable: string, targetTable: string)

  /** `120 * 60 * 1000`: the partition is two hours behind the clock. */
  const Lookback: int := 120 * 60 * 1000

  function InsertPartitionStatement(cfg: Config, f: HourFields): string {
    "\n    INSERT INTO " + cfg.database + "." + cfg.targetTable +
    "\n    SELECT *\n    FROM " + cfg.database + "." + cfg.sourceTable +
    "\n    WHERE year = '" + f.year +
    "'\n        AND month = '" + f.month +
    "'\n        AND day = '" + f.day +
    "'\n        AND hour = '" + f.hour + "';"
  }

  /** The UTC hour fields of `new Date(Date.now() - 120 * 60 * 1000)`. */
  function PartitionHour(now: int): HourFields {
    HourFieldsOf(TimeClip(now - Lookback))
  }

  /** The handler never throws before it submits; it always submits this statement. */
  function Handler(now: int, cfg: Config): Invocation {
    RunsQuery(InsertPartitionStatement(cfg, PartitionHour(now)))
  }

  /** The partition is the calendar hour two hours before the clock's hour, rolling back over
      the day, month and year. */
  lemma TwoHoursBack(now: int, cfg: Config)
    requires -MaxTimeValue <= now - Lookback <= MaxTimeValue
    ensures ValidHour(HourOf(now))
    ensures PartitionHour(now) == RenderHour(PrevHour(PrevHour(HourOf(now))))
    ensures Handler(now, cfg)
         == RunsQuery(InsertPartitionStatement(cfg, RenderHour(PrevHour(PrevHour(HourOf(now))))))
  {
    HourOfMinusHour(now);
    HourOfMinusHour(now - MsPerHour);
    assert now - Lookback == now - MsPerHour - MsPerHour;
    FieldsOfHour(TimeClip(now - Lookback), PrevHour(PrevHour(HourOf(now))));
  }

  /** Two hours before hour 00 or 01 is hour 22 or 23 of the previous calendar day. */
  lemma MidnightRollsBack(h: UtcHour)
    requires ValidHour(h) && h.hour < 2
    ensures PrevHour(PrevHour(h)) == UtcHour(PrevDay(h.date), 22 + h.hour)
  {
  }

  /** Otherwise it is two hours earlier on the same day. */
  lemma SameDayTwoHoursBack(h: UtcHour)
    requires ValidHour(h) && h.hour >= 2
    ensures PrevHour(PrevHour(h)) == UtcHour(h.date, h.hour - 2)
  {
  }

  /** Invocations one hour apart transform consecutive hours: an hourly schedule leaves no
      hour out and takes none twice. */
  lemma ConsecutiveRuns(now: int)
    requires -MaxTimeValue <= now - Lookback && now + MsPerHour - Lookback <= MaxTimeValue
    ensures ValidHour(HourOf(now - Lookback))
    ensures PartitionHour(now) == RenderHour(HourOf(now - Lookback))
    ensures PartitionHour(now + MsPerHour) == RenderHour(NextHour(HourOf(now - Lookback)))
  {
    var u := now - Lookback;
    HourOfPlusHour(u);
    FieldsOfHour(TimeClip(u), HourOf(u));
    FieldsOfHour(TimeClip(u + MsPerHour), NextHour(HourOf(u)));
  }

  /** Different hours give different statements, so no two invocations in different hours
      copy the same partition. */
  lemma DistinctHoursDistinctStatements(now1: int, now2: int, cfg: Config)
    requires -MaxTimeValue <= now1 - Lookback <= MaxTimeValue
    requires -MaxTimeValue <= now2 - Lookback <= MaxTimeValue
    requires HourOf(now1 - Lookback) != HourOf(now2 - Lookback)
    ensures PartitionHour(now1) != PartitionHour(now2)
  {
    if PartitionHour(now1) == PartitionHour(now2) {
      FieldsDetermineHour(TimeClip(now1 - Lookback), TimeClip(now2 - Lookback));
    }
  }

  /** Outside the time range, on either side, the partition values are all 'NaN'; inside it
      the month is never 'NaN'. */
  lemma ClockOutOfRange(now: int, cfg: Config)
    ensures !(-MaxTimeValue <= now - Lookback <= MaxTimeValue) ==>
      Handler(now, cfg)
        == RunsQuery(InsertPartitionStatement(cfg, HourFields(NaNText, NaNText, NaNText, NaNText)))
    ensures -MaxTimeValue <= now - Lookback <= MaxTimeValue ==> PartitionHour(now).month != NaNText
  {
    RenderedIsNotNaN(now - Lookback);
  }
}
