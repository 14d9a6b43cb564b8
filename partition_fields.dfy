/** The partition strings the handlers read off a `Date`: `getUTCFullYear()` as is, and
    `getUTCMonth() + 1`, `getUTCDate()` and `getUTCHours()` each through
    `.toString().padStart(2, '0')`. A `Date` whose time value is NaN yields "NaN" for
    every one of them (`NaN.toString()`, and "NaN" is already longer than two). */
module PartitionFields {
  import opened Wrappers
  import opened Decimal
  import opened EcmaTime
  import opened DateString

  /** What a handler does before it awaits `runQuery`: throw before any query is issued,
      or hand this exact statement text to `runQuery`. */
  datatype Invocation = Throws(message: string) | RunsQuery(statement: string)

  datatype HourFields = HourFields(year: string, month: string, day: string, hour: string)

  datatype DayFields = DayFields(year: string, month: string, day: string)

  const NaNText := "NaN"

  /** The strings of a UTC date: the year unpadded, the 1-based month and the date padded
      to two digits. */
  function RenderDay(c: CalendarDate): DayFields
    requires ValidDate(c)
  {
    DayFields(IntToString(c.year), TwoDigits(c.month + 1), TwoDigits(c.date))
  }

  /** The strings of a UTC hour: those of its date, and the hour padded to two digits. */
  function RenderHour(h: UtcHour): HourFields
    requires ValidHour(h)
  {
    var d := RenderDay(h.date);
    HourFields(d.year, d.month, d.day, TwoDigits(h.hour))
  }

  /** Each rendered field reads back as the value it renders: month "01" to "12", day "01"
      to "31", hour "00" to "23", and the year as its decimal text. */
  lemma RenderHourReadsBack(h: UtcHour)
    requires ValidHour(h)
    ensures var f := RenderHour(h);
      && (h.date.year >= 0 ==> AllDigits(f.year) && Value(f.year) == h.date.year)
      && (h.date.year < 0 ==> f.year[0] == '-' && AllDigits(f.year[1..]) && Value(f.year[1..]) == -h.date.year)
      && |f.month| == 2 && |f.day| == 2 && |f.hour| == 2
      && AllDigits(f.month) && AllDigits(f.day) && AllDigits(f.hour)
      && Value(f.month) == h.date.month + 1 && 1 <= Value(f.month) <= 12
      && Value(f.day) == h.date.date && 1 <= Value(f.day) <= 31
      && Value(f.hour) == h.hour && 0 <= Value(f.hour) <= 23
  {
    TwoDigitsValue(h.date.month + 1);
    TwoDigitsValue(h.date.date);
    TwoDigitsValue(h.hour);
    if h.date.year >= 0 {
      ValueOfNatToString(h.date.year);
    } else {
      ValueOfNatToString(-h.date.year);
    }
  }

  /** The four strings computed from `new Date(x)` whose time value is `tv`. */
  function HourFieldsOf(tv: Option<int>): HourFields {
    match tv
    case None => HourFields(NaNText, NaNText, NaNText, NaNText)
    case Some(t) =>
      HourFromTimeWithinDay(t);
      RenderHour(HourOf(t))
  }

  /** The three strings computed from a `Date` whose time value is `tv`. */
  function DayFieldsOf(tv: Option<int>): DayFields {
    match tv
    case None => DayFields(NaNText, NaNText, NaNText)
    case Some(t) => RenderDay(DateOfDay(Day(t)))
  }

  lemma NatToStringInjective(a: nat, b: nat)
    requires NatToString(a) == NatToString(b)
    ensures a == b
  {
    ValueOfNatToString(a);
    ValueOfNatToString(b);
  }

  /** Different years are rendered differently. */
  lemma IntToStringInjective(a: int, b: int)
    requires IntToString(a) == IntToString(b)
    ensures a == b
  {
    if a < 0 {
      assert NatToString(-a) == IntToString(a)[1..] == NatToString(-b);
      NatToStringInjective(-a, -b);
    } else {
      NatToStringInjective(a, b);
    }
  }

  /** The partition strings determine the UTC hour they were taken from. */
  lemma RenderHourInjective(a: UtcHour, b: UtcHour)
    requires ValidHour(a) && ValidHour(b) && RenderHour(a) == RenderHour(b)
    ensures a == b
  {
    IntToStringInjective(a.date.year, b.date.year);
    RenderHourReadsBack(a);
    RenderHourReadsBack(b);
  }

  /** The strings of a valid time value are never the NaN strings. */
  lemma RenderedIsNotNaN(t: int)
    ensures HourFieldsOf(Some(t)).month != NaNText && DayFieldsOf(Some(t)).month != NaNText
  {
    HourFromTimeWithinDay(t);
  }

  /** The strings of a `Date` whose UTC hour is `h` are the strings of `h`. */
  lemma FieldsOfHour(tv: Option<int>, h: UtcHour)
    requires tv.Some? && HourOf(tv.value) == h
    ensures ValidHour(h) && HourFieldsOf(tv) == RenderHour(h)
  {
    HourFromTimeWithinDay(tv.value);
  }

  /** Two valid `Date`s with the same partition strings lie in the same UTC hour. */
  lemma FieldsDetermineHour(tv1: Option<int>, tv2: Option<int>)
    requires tv1.Some? && tv2.Some? && HourFieldsOf(tv1) == HourFieldsOf(tv2)
    ensures HourOf(tv1.value) == HourOf(tv2.value)
  {
    FieldsOfHour(tv1, HourOf(tv1.value));
    FieldsOfHour(tv2, HourOf(tv2.value));
    RenderHourInjective(HourOf(tv1.value), HourOf(tv2.value));
  }

  /** The strings of a `Date` whose UTC date is `c` are the strings of `c`. */
  lemma FieldsOfDay(tv: Option<int>, c: CalendarDate)
    requires tv.Some? && HourOf(tv.value).date == c
    ensures ValidDate(c) && DayFieldsOf(tv) == RenderDay(c)
  {
  }

  /** Rendering the date written in a `dt` whose year has no leading zero gives back the
      very strings written in it. */
  lemma RenderWrittenDay(dt: string)
    requires NamesRealDay(dt)
    ensures var c := CalendarDate(Value(dt[0..4]), Value(dt[5..7]) - 1, Value(dt[8..10]));
      ValidDate(c) && RenderDay(c) == DayFields(dt[0..4], dt[5..7], dt[8..10])
  {
    var y, m, d := dt[0..4], dt[5..7], dt[8..10];
    NatToStringOfValue(y);
    TwoDigitsOfValue(m);
    TwoDigitsOfValue(d);
  }

  /** The same for the hour written in a `dth`. */
  lemma RenderWrittenHour(dth: string)
    requires NamesRealHour(dth)
    ensures var h := UtcHour(CalendarDate(Value(dth[0..4]), Value(dth[5..7]) - 1, Value(dth[8..10])), Value(dth[11..13]));
      ValidHour(h) && RenderHour(h) == HourFields(dth[0..4], dth[5..7], dth[8..10], dth[11..13])
  {
    var y, m, d, hh := dth[0..4], dth[5..7], dth[8..10], dth[11..13];
    NatToStringOfValue(y);
    TwoDigitsOfValue(m);
    TwoDigitsOfValue(d);
    TwoDigitsOfValue(hh);
  }
}
