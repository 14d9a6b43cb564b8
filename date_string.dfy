/** `new Date(string)` on the strings the handlers build: the Date Time String Format of
    ECMA-262 13th edition (2022), section 21.4.1.15, in its full-length UTC form
    `YYYY-MM-DDTHH:mm:ssZ`. A string of that form with an out-of-bounds field is NaN. Any
    other string, and a well-formed one naming a day its month does not have (February 30),
    is left to the host's own implementation-specific parser, a parameter here. */
module DateString {
  import opened Wrappers
  import opened Decimal
  import opened EcmaTime

  /** What the host's parser makes of a string outside the format; `None` is NaN. */
  type HostParser = string -> Option<int>

  predicate IsDateTimeShape(s: string) {
    && |s| == 20
    && AllDigits(s[0..4]) && s[4] == '-'
    && AllDigits(s[5..7]) && s[7] == '-'
    && AllDigits(s[8..10]) && s[10] == 'T'
    && AllDigits(s[11..13]) && s[13] == ':'
    && AllDigits(s[14..16]) && s[16] == ':'
    && AllDigits(s[17..19]) && s[19] == 'Z'
  }

  /** The fields as written; `month` is 1-based here, as in the text. */
  datatype Written = Written(year: int, month: int, day: int, hour: int, minute: int, second: int)

  function FieldsOf(s: string): Written
    requires IsDateTimeShape(s)
  {
    Written(Value(s[0..4]), Value(s[5..7]), Value(s[8..10]),
            Value(s[11..13]), Value(s[14..16]), Value(s[17..19]))
  }

  /** The ranges section 21.4.1.15 gives each field; "24:00:00" is the end of a day. */
  predicate InFormatBounds(w: Written) {
    && 1 <= w.month <= 12 && 1 <= w.day <= 31
    && 0 <= w.hour <= 24 && 0 <= w.minute <= 59 && 0 <= w.second <= 59
    && (w.hour == 24 ==> w.minute == 0 && w.second == 0)
  }

  predicate DayExists(w: Written)
    requires 1 <= w.month <= 12
  {
    w.day <= DaysInMonth(w.year, w.month - 1)
  }

  function Clip(tv: Option<int>): Option<int> {
    match tv
    case None => None
    case Some(t) => TimeClip(t)
  }

  /** The time value of `new Date(s)`, `None` for an invalid Date. */
  function Parse(s: string, host: HostParser): (r: Option<int>)
    ensures r.Some? ==> -MaxTimeValue <= r.value <= MaxTimeValue
    ensures IsDateTimeShape(s) && !InFormatBounds(FieldsOf(s)) ==> r.None?
  {
    if !IsDateTimeShape(s) then Clip(host(s))
    else
      var w := FieldsOf(s);
      ValueBound(s[0..4]);
      if !InFormatBounds(w) then None
      else if !DayExists(w) then Clip(host(s))
      else
        // MakeDay(year, month - 1, day); for a month in 0..11 that is the day number
        // of the date (MakeDayInYear).
        var c := CalendarDate(w.year, w.month - 1, w.day);
        FormattedInRange(w);
        Some(MakeDate(DayNumber(c), MakeTime(w.hour, w.minute, w.second, 0)))
  }

  /** Four-digit years stay far inside the time range. */
  lemma FormattedInRange(w: Written)
    requires 0 <= w.year <= 9999 && InFormatBounds(w) && DayExists(w)
    ensures var c := CalendarDate(w.year, w.month - 1, w.day);
      ValidDate(c) &&
      -MaxTimeValue <= MakeDate(DayNumber(c), MakeTime(w.hour, w.minute, w.second, 0)) <= MaxTimeValue
  {
    DayFromYearMonotone(0, w.year);
    DayFromYearMonotone(w.year + 1, 10000);
    DayFromYearStep(w.year);
    MonthStartStep(w.year, w.month - 1);
    MonthStartMonotone(w.year, w.month, 12);
  }

  /** The time value of a string in the format whose date exists: the day number of the
      date, plus the time of day written. */
  lemma ParseValue(s: string, host: HostParser)
    requires IsDateTimeShape(s)
    requires InFormatBounds(FieldsOf(s)) && DayExists(FieldsOf(s))
    ensures var w := FieldsOf(s);
      var c := CalendarDate(w.year, w.month - 1, w.day);
      ValidDate(c) &&
      Parse(s, host) == Some(MsPerDay * DayNumber(c) + MsPerHour * w.hour + MakeTime(0, w.minute, w.second, 0))
  {
  }

  lemma HourOfSome(tv: Option<int>, c: CalendarDate, h: int, rest: int)
    requires ValidDate(c) && 0 <= h < 24 && 0 <= rest < MsPerHour
    requires tv == Some(MsPerDay * DayNumber(c) + MsPerHour * h + rest)
    ensures HourOf(tv.value) == UtcHour(c, h)
  {
    HourOfLayout(tv.value, c, h, rest);
  }

  /** A well-formed string names the UTC hour written in it. */
  lemma ParseWellFormed(s: string, host: HostParser)
    requires IsDateTimeShape(s)
    requires InFormatBounds(FieldsOf(s)) && DayExists(FieldsOf(s)) && FieldsOf(s).hour < 24
    ensures Parse(s, host).Some?
    ensures var w := FieldsOf(s);
      HourOf(Parse(s, host).value) == UtcHour(CalendarDate(w.year, w.month - 1, w.day), w.hour)
  {
    ParseValue(s, host);
    var w := FieldsOf(s);
    HourOfSome(Parse(s, host), CalendarDate(w.year, w.month - 1, w.day), w.hour, MakeTime(0, w.minute, w.second, 0));
  }

  /** Hour 24 is hour 0 of the next day. */
  lemma ParseHour24(s: string, host: HostParser)
    requires IsDateTimeShape(s)
    requires InFormatBounds(FieldsOf(s)) && DayExists(FieldsOf(s)) && FieldsOf(s).hour == 24
    ensures Parse(s, host).Some?
    ensures var w := FieldsOf(s);
      HourOf(Parse(s, host).value) == UtcHour(NextDay(CalendarDate(w.year, w.month - 1, w.day)), 0)
  {
    ParseValue(s, host);
    var w := FieldsOf(s);
    var c := CalendarDate(w.year, w.month - 1, w.day);
    NextDayNumber(c);
    HourOfSome(Parse(s, host), NextDay(c), 0, 0);
  }

  /** `YYYY-MM-DDTHH`, the form of the `dth` argument. */
  predicate IsDateHourShape(dth: string) {
    && |dth| == 13
    && AllDigits(dth[0..4]) && dth[4] == '-'
    && AllDigits(dth[5..7]) && dth[7] == '-'
    && AllDigits(dth[8..10]) && dth[10] == 'T'
    && AllDigits(dth[11..13])
  }

  /** A `dth` whose fields name an hour that exists (hour 24 excluded) and whose year has
      no leading zero. */
  predicate NamesRealHour(dth: string) {
    && IsDateHourShape(dth) && dth[0] != '0'
    && 1 <= Value(dth[5..7]) <= 12
    && 1 <= Value(dth[8..10]) <= DaysInMonth(Value(dth[0..4]), Value(dth[5..7]) - 1)
    && Value(dth[11..13]) <= 23
  }

  /** `YYYY-MM-DD`, the form of the `dt` argument. */
  predicate IsDateShape(dt: string) {
    && |dt| == 10
    && AllDigits(dt[0..4]) && dt[4] == '-'
    && AllDigits(dt[5..7]) && dt[7] == '-'
    && AllDigits(dt[8..10])
  }

  lemma ValueOfZeros()
    ensures Value("00") == 0
  {
    assert "00"[..1] == "0" && "0"[..0] == "";
  }

  /** A `dt` whose fields name a day that exists and whose year has no leading zero. */
  predicate NamesRealDay(dt: string) {
    && IsDateShape(dt) && dt[0] != '0'
    && 1 <= Value(dt[5..7]) <= 12
    && 1 <= Value(dt[8..10]) <= DaysInMonth(Value(dt[0..4]), Value(dt[5..7]) - 1)
  }

  /** `${dth}:00:00Z` is in the format, with the fields written in `dth`. */
  lemma WithMinutes(dth: string)
    requires IsDateHourShape(dth)
    ensures var s := dth + ":00:00Z";
      IsDateTimeShape(s) &&
      FieldsOf(s) == Written(Value(dth[0..4]), Value(dth[5..7]), Value(dth[8..10]), Value(dth[11..13]), 0, 0)
  {
    var s := dth + ":00:00Z";
    assert s[..13] == dth;
    assert s[0..4] == dth[0..4] && s[5..7] == dth[5..7] && s[8..10] == dth[8..10] && s[11..13] == dth[11..13];
    assert s[14..16] == "00" && s[17..19] == "00";
    ValueOfZeros();
  }

  /** `${dt}T00:00:00Z` is in the format, with the date written in `dt` and hour 0. */
  lemma WithTime(dt: string)
    requires IsDateShape(dt)
    ensures var s := dt + "T00:00:00Z";
      IsDateTimeShape(s) &&
      FieldsOf(s) == Written(Value(dt[0..4]), Value(dt[5..7]), Value(dt[8..10]), 0, 0, 0)
  {
    var s := dt + "T00:00:00Z";
    assert s[..10] == dt;
    assert s[0..4] == dt[0..4] && s[5..7] == dt[5..7] && s[8..10] == dt[8..10];
    assert s[11..13] == "00" && s[14..16] == "00" && s[17..19] == "00";
    ValueOfZeros();
  }
}
