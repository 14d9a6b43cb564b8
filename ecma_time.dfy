/** The time-value arithmetic that JavaScript's `Date` performs, as ECMA-262 13th edition
    (2022) defines it in sections 21.4.1.1 to 21.4.1.14: day numbers, the proleptic
    Gregorian year, month and date of a day, the hour of a time value, and the inverse
    operations MakeTime, MakeDay, MakeDate and TimeClip. Time values are integers
    (milliseconds since 1970-01-01T00:00:00Z); `Option.None` stands for NaN. */
module EcmaTime {
  import opened Wrappers

  const MsPerDay: int := 86400000
  const MsPerHour: int := 3600000
  const MsPerMinute: int := 60000
  const MsPerSecond: int := 1000

  /** Section 21.4.1.1: a time value lies within 8.64e15 ms of the epoch. */
  const MaxTimeValue: int := 8640000000000000

  // ---------------------------------------------------------------------------
  // Section 21.4.1.2: day number and time within day

  /** `Day(t) = floor(t / msPerDay)`; Dafny's `/` floors for a positive divisor. */
  function Day(t: int): int {
    t / MsPerDay
  }

  function TimeWithinDay(t: int): int {
    t % MsPerDay
  }

  // ---------------------------------------------------------------------------
  // Section 21.4.1.3: year number

  function DaysInYear(y: int): int {
    if y % 4 != 0 then 365
    else if y % 100 != 0 then 366
    else if y % 400 != 0 then 365
    else 366
  }

  /** Day number of the first day of year `y`. */
  function DayFromYear(y: int): int {
    365 * (y - 1970) + (y - 1969) / 4 - (y - 1901) / 100 + (y - 1601) / 400
  }

  function TimeFromYear(y: int): int {
    MsPerDay * DayFromYear(y)
  }

  predicate InLeapYear(y: int) {
    DaysInYear(y) == 366
  }

  lemma FloorStep4(a: int)
    ensures (a + 1) / 4 == a / 4 + (if (a + 1) % 4 == 0 then 1 else 0)
  {
  }

  lemma FloorStep100(a: int)
    ensures (a + 1) / 100 == a / 100 + (if (a + 1) % 100 == 0 then 1 else 0)
  {
  }

  lemma FloorStep400(a: int)
    ensures (a + 1) / 400 == a / 400 + (if (a + 1) % 400 == 0 then 1 else 0)
  {
  }

  lemma LeapCountStep4(y: int)
    ensures (y - 1968) / 4 == (y - 1969) / 4 + (if y % 4 == 0 then 1 else 0)
  {
    FloorStep4(y - 1969);
    assert (y - 1968) % 4 == y % 4;
  }

  lemma LeapCountStep100(y: int)
    ensures (y - 1900) / 100 == (y - 1901) / 100 + (if y % 100 == 0 then 1 else 0)
  {
    FloorStep100(y - 1901);
    assert (y - 1900) % 100 == y % 100;
  }

  lemma LeapCountStep400(y: int)
    ensures (y - 1600) / 400 == (y - 1601) / 400 + (if y % 400 == 0 then 1 else 0)
  {
    FloorStep400(y - 1601);
    assert (y - 1600) % 400 == y % 400;
  }

  lemma DaysInYearCount(y: int)
    ensures DaysInYear(y) == 365 + (if y % 4 == 0 then 1 else 0) - (if y % 100 == 0 then 1 else 0)
                                  + (if y % 400 == 0 then 1 else 0)
  {
    if y % 400 == 0 {
      assert y == 100 * (4 * (y / 400));
      assert y == 4 * (100 * (y / 400));
    } else if y % 100 == 0 {
      assert y == 4 * (25 * (y / 100));
    }
  }

  /** Consecutive years start `DaysInYear` days apart. */
  lemma DayFromYearStep(y: int)
    ensures DayFromYear(y + 1) == DayFromYear(y) + DaysInYear(y)
  {
    LeapCountStep4(y);
    LeapCountStep100(y);
    LeapCountStep400(y);
    DaysInYearCount(y);
  }

  /** Every 400 years from 1970 span exactly 146097 days. */
  lemma DayFromYearCycle(q: int)
    ensures DayFromYear(1970 + 400 * q) == 146097 * q
  {
    assert (1 + 400 * q) / 4 == 100 * q by { assert 1 + 400 * q == 4 * (100 * q) + 1; }
    assert (69 + 400 * q) / 100 == 4 * q by { assert 69 + 400 * q == 100 * (4 * q) + 69; }
    assert (369 + 400 * q) / 400 == q by { assert 369 + 400 * q == 400 * q + 369; }
  }

  lemma {:induction false} DayFromYearMonotone(a: int, b: int)
    requires a <= b
    ensures DayFromYear(a) + 365 * (b - a) <= DayFromYear(b)
    decreases b - a
  {
    if a < b {
      DayFromYearMonotone(a, b - 1);
      DayFromYearStep(b - 1);
    }
  }

  /** Walks forward from a year that starts no later than day `d`. */
  function YearSearch(y: int, d: int): (r: int)
    requires DayFromYear(y) <= d
    ensures y <= r && DayFromYear(r) <= d < DayFromYear(r + 1)
    decreases d - DayFromYear(y)
  {
    DayFromYearStep(y);
    if d < DayFromYear(y + 1) then y else YearSearch(y + 1, d)
  }

  /** The year that contains day `d`. */
  function YearFromDay(d: int): (y: int)
    ensures DayFromYear(y) <= d < DayFromYear(y + 1)
  {
    var q := d / 146097;
    DayFromYearCycle(q);
    YearSearch(1970 + 400 * q, d)
  }

  /** Only one year contains a given day. */
  lemma YearFromDayUnique(y: int, d: int)
    requires DayFromYear(y) <= d < DayFromYear(y + 1)
    ensures YearFromDay(d) == y
  {
    var r := YearFromDay(d);
    if r < y {
      DayFromYearMonotone(r + 1, y);
    } else if r > y {
      DayFromYearMonotone(y + 1, r);
    }
  }

  // ---------------------------------------------------------------------------
  // Section 21.4.1.4 and 21.4.1.5: month number (0 = January) and date number

  /** Days of year `y` before month `m`; `MonthStart(y, 12)` is the length of the year. */
  function MonthStart(y: int, m: int): int
    requires 0 <= m <= 12
  {
    (if m == 0 then 0
     else if m == 1 then 31
     else if m == 2 then 59
     else if m == 3 then 90
     else if m == 4 then 120
     else if m == 5 then 151
     else if m == 6 then 181
     else if m == 7 then 212
     else if m == 8 then 243
     else if m == 9 then 273
     else if m == 10 then 304
     else if m == 11 then 334
     else 365)
    + (if m >= 2 && InLeapYear(y) then 1 else 0)
  }

  function DaysInMonth(y: int, m: int): int
    requires 0 <= m < 12
  {
    if m == 1 then (if InLeapYear(y) then 29 else 28)
    else if m == 3 || m == 5 || m == 8 || m == 10 then 30
    else 31
  }

  lemma MonthStartStep(y: int, m: int)
    requires 0 <= m < 12
    ensures MonthStart(y, m + 1) == MonthStart(y, m) + DaysInMonth(y, m)
    ensures MonthStart(y, 12) == DaysInYear(y)
  {
  }

  lemma {:induction false} MonthStartMonotone(y: int, a: int, b: int)
    requires 0 <= a <= b <= 12
    ensures MonthStart(y, a) + 28 * (b - a) <= MonthStart(y, b)
    decreases b - a
  {
    if a < b {
      MonthStartMonotone(y, a, b - 1);
      MonthStartStep(y, b - 1);
    }
  }

  function MonthSearch(y: int, m: int, dwy: int): (r: int)
    requires 0 <= m < 12 && MonthStart(y, m) <= dwy < MonthStart(y, 12)
    ensures m <= r < 12 && MonthStart(y, r) <= dwy < MonthStart(y, r + 1)
    decreases 12 - m
  {
    if dwy < MonthStart(y, m + 1) then m else MonthSearch(y, m + 1, dwy)
  }

  /** The month holding day `dwy` (0-based) of year `y`: the table of section 21.4.1.4. */
  function MonthFromDayWithinYear(y: int, dwy: int): (m: int)
    requires 0 <= dwy < DaysInYear(y)
    ensures 0 <= m < 12 && MonthStart(y, m) <= dwy < MonthStart(y, m + 1)
  {
    MonthStartStep(y, 0);
    MonthSearch(y, 0, dwy)
  }

  lemma MonthUnique(y: int, m: int, dwy: int)
    requires 0 <= m < 12 && MonthStart(y, m) <= dwy < MonthStart(y, m + 1)
    ensures MonthFromDayWithinYear(y, dwy) == m
  {
    MonthStartMonotone(y, m + 1, 12);
    MonthStartStep(y, m);
    var r := MonthFromDayWithinYear(y, dwy);
    if r < m {
      MonthStartMonotone(y, r + 1, m);
    } else if r > m {
      MonthStartMonotone(y, m + 1, r);
    }
  }

  /** A proleptic Gregorian calendar date; `month` is 0-based as in ECMAScript. */
  datatype CalendarDate = CalendarDate(year: int, month: int, date: int)

  predicate ValidDate(c: CalendarDate) {
    0 <= c.month < 12 && 1 <= c.date <= DaysInMonth(c.year, c.month)
  }

  // ---------------------------------------------------------------------------
  // Sections 21.4.1.11 to 21.4.1.14: MakeTime, MakeDay, MakeDate, TimeClip

  function MakeTime(hour: int, min: int, sec: int, ms: int): int {
    hour * MsPerHour + min * MsPerMinute + sec * MsPerSecond + ms
  }

  /** Day number of `date` in `month` of `year`; a month outside 0..11 carries into the year. */
  function MakeDay(year: int, month: int, date: int): int {
    var ym := year + month / 12;
    var mn := month % 12;
    DayFromYear(ym) + MonthStart(ym, mn) + date - 1
  }

  /** Within one year MakeDay is the start of the year plus the days before the date. */
  lemma MakeDayInYear(year: int, month: int, date: int)
    requires 0 <= month < 12
    ensures MakeDay(year, month, date) == DayFromYear(year) + MonthStart(year, month) + date - 1
  {
    assert month / 12 == 0 && month % 12 == month;
  }

  function MakeDate(day: int, time: int): int {
    day * MsPerDay + time
  }

  /** NaN (`None`) outside the time range, the value itself inside it. */
  function TimeClip(t: int): (r: Option<int>)
    ensures r.Some? <==> -MaxTimeValue <= t <= MaxTimeValue
    ensures r.Some? ==> r.value == t
  {
    if t < -MaxTimeValue || t > MaxTimeValue then None else Some(t)
  }

  // ---------------------------------------------------------------------------
  // The calendar date of a day number, and back

  /** The day number a valid date names. */
  function DayNumber(c: CalendarDate): int
    requires ValidDate(c)
  {
    DayFromYear(c.year) + MonthStart(c.year, c.month) + c.date - 1
  }

  /** YearFromTime, MonthFromTime (the 0-based `month`) and DateFromTime of a day number
      together; MakeDay undoes it. */
  function DateOfDay(d: int): (c: CalendarDate)
    ensures ValidDate(c)
  {
    var y := YearFromDay(d);
    DayFromYearStep(y);
    MonthStartStep(y, 0);
    var dwy := d - DayFromYear(y);
    var m := MonthFromDayWithinYear(y, dwy);
    MonthStartStep(y, m);
    CalendarDate(y, m, dwy - MonthStart(y, m) + 1)
  }

  /** The date of a day number names that day number. */
  lemma DateOfDayNumber(d: int)
    ensures DayNumber(DateOfDay(d)) == d
  {
    var y := YearFromDay(d);
    DayFromYearStep(y);
    MonthStartStep(y, 0);
    var dwy := d - DayFromYear(y);
    var m := MonthFromDayWithinYear(y, dwy);
    MonthStartStep(y, m);
    var c := CalendarDate(y, m, dwy - MonthStart(y, m) + 1);
    assert DateOfDay(d) == c;
    assert DayNumber(c) == d;
  }

  function YearFromTime(t: int): int {
    DateOfDay(Day(t)).year
  }

  function DateFromTime(t: int): int {
    DateOfDay(Day(t)).date
  }

  /** Section 21.4.1.10. */
  function HourFromTime(t: int): int {
    (t / MsPerHour) % 24
  }

  /** The year of day `d` is the last year that starts no later than `d`. */
  lemma YearOfDayIsLargest(d: int, y: int)
    ensures DayFromYear(y) <= d <==> y <= DateOfDay(d).year
  {
    var r := YearFromDay(d);
    assert DateOfDay(d).year == r;
    if y <= r {
      DayFromYearMonotone(y, r);
    } else {
      DayFromYearMonotone(r + 1, y);
    }
  }

  lemma DayFloor(t: int, k: int)
    ensures MsPerDay * k <= t <==> k <= Day(t)
  {
  }

  /** YearFromTime is what section 21.4.1.3 defines: the largest `y` with `TimeFromYear(y) <= t`. */
  lemma YearFromTimeIsLargest(t: int, y: int)
    ensures TimeFromYear(y) <= t <==> y <= YearFromTime(t)
  {
    DayFloor(t, DayFromYear(y));
    YearOfDayIsLargest(Day(t), y);
  }

  // ---------------------------------------------------------------------------
  // Calendar successor and predecessor

  /** The next calendar day, rolling over the month and the year. */
  function NextDay(c: CalendarDate): (n: CalendarDate)
    requires ValidDate(c)
    ensures ValidDate(n)
  {
    if c.date < DaysInMonth(c.year, c.month) then CalendarDate(c.year, c.month, c.date + 1)
    else if c.month < 11 then CalendarDate(c.year, c.month + 1, 1)
    else CalendarDate(c.year + 1, 0, 1)
  }

  /** The previous calendar day, rolling back over the month and the year. */
  function PrevDay(c: CalendarDate): (p: CalendarDate)
    requires ValidDate(c)
    ensures ValidDate(p)
  {
    if c.date > 1 then CalendarDate(c.year, c.month, c.date - 1)
    else if c.month > 0 then CalendarDate(c.year, c.month - 1, DaysInMonth(c.year, c.month - 1))
    else CalendarDate(c.year - 1, 11, 31)
  }

  /** A valid date is the date of the day number it names, and of no other. */
  lemma DateOfDayUnique(c: CalendarDate, d: int)
    requires ValidDate(c) && DayNumber(c) == d
    ensures DateOfDay(d) == c
  {
    var y, m := c.year, c.month;
    MonthStartStep(y, m);
    MonthStartMonotone(y, m + 1, 12);
    DayFromYearStep(y);
    YearFromDayUnique(y, d);
    MonthUnique(y, m, d - DayFromYear(y));
  }

  /** MakeDay followed by DateOfDay gives back any valid date. */
  lemma DateOfMakeDay(c: CalendarDate)
    requires ValidDate(c)
    ensures DateOfDay(MakeDay(c.year, c.month, c.date)) == c
  {
    MakeDayInYear(c.year, c.month, c.date);
    DateOfDayUnique(c, MakeDay(c.year, c.month, c.date));
  }

  lemma NextDayNumber(c: CalendarDate)
    requires ValidDate(c)
    ensures DayNumber(NextDay(c)) == DayNumber(c) + 1
  {
    MonthStartStep(c.year, c.month);
    if c.date == DaysInMonth(c.year, c.month) && c.month == 11 {
      DayFromYearStep(c.year);
    }
  }

  lemma PrevDayNumber(c: CalendarDate)
    requires ValidDate(c)
    ensures DayNumber(PrevDay(c)) == DayNumber(c) - 1
  {
    if c.date == 1 && c.month > 0 {
      MonthStartStep(c.year, c.month - 1);
    } else if c.date == 1 {
      DayFromYearStep(c.year - 1);
      MonthStartStep(c.year - 1, 11);
    }
  }

  lemma DateOfNextDay(d: int)
    ensures DateOfDay(d + 1) == NextDay(DateOfDay(d))
  {
    var c := DateOfDay(d);
    DateOfDayNumber(d);
    NextDayNumber(c);
    DateOfDayUnique(NextDay(c), d + 1);
  }

  lemma DateOfPrevDay(d: int)
    ensures DateOfDay(d - 1) == PrevDay(DateOfDay(d))
  {
    var c := DateOfDay(d);
    DateOfDayNumber(d);
    PrevDayNumber(c);
    DateOfDayUnique(PrevDay(c), d - 1);
  }

  // ---------------------------------------------------------------------------
  // Hours

  /** The UTC calendar date and hour of a time value. */
  datatype UtcHour = UtcHour(date: CalendarDate, hour: int)

  function HourOf(t: int): UtcHour {
    UtcHour(DateOfDay(Day(t)), HourFromTime(t))
  }

  predicate ValidHour(h: UtcHour) {
    ValidDate(h.date) && 0 <= h.hour < 24
  }

  function NextHour(h: UtcHour): (n: UtcHour)
    requires ValidHour(h)
    ensures ValidHour(n)
  {
    if h.hour < 23 then UtcHour(h.date, h.hour + 1) else UtcHour(NextDay(h.date), 0)
  }

  function PrevHour(h: UtcHour): (p: UtcHour)
    requires ValidHour(h)
    ensures ValidHour(p)
  {
    if h.hour > 0 then UtcHour(h.date, h.hour - 1) else UtcHour(PrevDay(h.date), 23)
  }

  lemma HourSplit(t: int, q: int, r: int)
    requires t == MsPerHour * q + r && 0 <= r < MsPerHour
    ensures t / MsPerHour == q && t % MsPerHour == r
  {
  }

  lemma DaySplit(t: int, q: int, r: int)
    requires t == MsPerDay * q + r && 0 <= r < MsPerDay
    ensures t / MsPerDay == q && t % MsPerDay == r
  {
  }

  /** A time value laid out as day, hour of the day and the rest has those as its fields. */
  lemma Compose(t: int, d: int, h: int, r: int)
    requires 0 <= h < 24 && 0 <= r < MsPerHour
    requires t == MsPerDay * d + MsPerHour * h + r
    ensures Day(t) == d && HourFromTime(t) == h && t % MsPerHour == r
    ensures TimeWithinDay(t) == MsPerHour * h + r
  {
    HourSplit(t, 24 * d + h, r);
    DaySplit(t, d, MsPerHour * h + r);
    assert (24 * d + h) % 24 == h;
  }

  /** Every time value is laid out as its day, its hour and the rest. */
  lemma Decompose(t: int)
    ensures 0 <= HourFromTime(t) < 24 && 0 <= t % MsPerHour < MsPerHour
    ensures t == MsPerDay * Day(t) + MsPerHour * HourFromTime(t) + t % MsPerHour
  {
    var q, r := t / MsPerHour, t % MsPerHour;
    var d, h := q / 24, q % 24;
    assert q == 24 * d + h;
    assert t == MsPerDay * d + MsPerHour * h + r;
    Compose(t, d, h, r);
  }

  lemma HourFromTimeWithinDay(t: int)
    ensures HourFromTime(t) == TimeWithinDay(t) / MsPerHour
    ensures 0 <= HourFromTime(t) < 24
  {
    Decompose(t);
    var h, r := HourFromTime(t), t % MsPerHour;
    Compose(t, Day(t), h, r);
    HourSplit(TimeWithinDay(t), h, r);
  }

  lemma PlusHourArith(t: int)
    ensures 0 <= HourFromTime(t) < 24
    ensures HourFromTime(t) < 23 ==> Day(t + MsPerHour) == Day(t) && HourFromTime(t + MsPerHour) == HourFromTime(t) + 1
    ensures HourFromTime(t) == 23 ==> Day(t + MsPerHour) == Day(t) + 1 && HourFromTime(t + MsPerHour) == 0
  {
    Decompose(t);
    var d, h, r := Day(t), HourFromTime(t), t % MsPerHour;
    if h < 23 {
      Compose(t + MsPerHour, d, h + 1, r);
    } else {
      Compose(t + MsPerHour, d + 1, 0, r);
    }
  }

  lemma MinusHourArith(t: int)
    ensures 0 <= HourFromTime(t) < 24
    ensures HourFromTime(t) > 0 ==> Day(t - MsPerHour) == Day(t) && HourFromTime(t - MsPerHour) == HourFromTime(t) - 1
    ensures HourFromTime(t) == 0 ==> Day(t - MsPerHour) == Day(t) - 1 && HourFromTime(t - MsPerHour) == 23
  {
    Decompose(t);
    var d, h, r := Day(t), HourFromTime(t), t % MsPerHour;
    if h > 0 {
      Compose(t - MsPerHour, d, h - 1, r);
    } else {
      Compose(t - MsPerHour, d - 1, 23, r);
    }
  }

  lemma MinusDayArith(t: int)
    ensures 0 <= HourFromTime(t) < 24
    ensures Day(t - MsPerDay) == Day(t) - 1 && HourFromTime(t - MsPerDay) == HourFromTime(t)
  {
    Decompose(t);
    Compose(t - MsPerDay, Day(t) - 1, HourFromTime(t), t % MsPerHour);
  }

  /** One hour later is the next hour of the calendar, across day, month and year ends. */
  lemma HourOfPlusHour(t: int)
    ensures ValidHour(HourOf(t)) && HourOf(t + MsPerHour) == NextHour(HourOf(t))
  {
    PlusHourArith(t);
    var d, h := Day(t), HourFromTime(t);
    HourOfParts(t, d, h);
    if h == 23 {
      PlusHourAtMidnight(t, d);
    } else {
      PlusHourSameDay(t, d, h);
    }
  }

  lemma PlusHourAtMidnight(t: int, d: int)
    requires Day(t + MsPerHour) == d + 1 && HourFromTime(t + MsPerHour) == 0
    ensures HourOf(t + MsPerHour) == NextHour(UtcHour(DateOfDay(d), 23))
  {
    NextHourOfDay(d, 23);
    HourOfParts(t + MsPerHour, d + 1, 0);
  }

  lemma PlusHourSameDay(t: int, d: int, h: int)
    requires 0 <= h < 23 && Day(t + MsPerHour) == d && HourFromTime(t + MsPerHour) == h + 1
    ensures HourOf(t + MsPerHour) == NextHour(UtcHour(DateOfDay(d), h))
  {
    NextHourOfDay(d, h);
    HourOfParts(t + MsPerHour, d, h + 1);
  }

  lemma NextHourOfDay(d: int, h: int)
    requires 0 <= h < 24
    ensures NextHour(UtcHour(DateOfDay(d), h))
         == if h < 23 then UtcHour(DateOfDay(d), h + 1) else UtcHour(DateOfDay(d + 1), 0)
  {
    if h == 23 {
      DateOfNextDay(d);
    }
  }

  /** One hour earlier is the previous hour of the calendar. */
  lemma HourOfMinusHour(t: int)
    ensures ValidHour(HourOf(t)) && HourOf(t - MsPerHour) == PrevHour(HourOf(t))
  {
    MinusHourArith(t);
    var d, h := Day(t), HourFromTime(t);
    HourOfParts(t, d, h);
    if h == 0 {
      MinusHourAtMidnight(t, d);
    } else {
      MinusHourSameDay(t, d, h);
    }
  }

  lemma MinusHourAtMidnight(t: int, d: int)
    requires Day(t - MsPerHour) == d - 1 && HourFromTime(t - MsPerHour) == 23
    ensures HourOf(t - MsPerHour) == PrevHour(UtcHour(DateOfDay(d), 0))
  {
    PrevHourOfDay(d, 0);
    HourOfParts(t - MsPerHour, d - 1, 23);
  }

  lemma MinusHourSameDay(t: int, d: int, h: int)
    requires 0 < h < 24 && Day(t - MsPerHour) == d && HourFromTime(t - MsPerHour) == h - 1
    ensures HourOf(t - MsPerHour) == PrevHour(UtcHour(DateOfDay(d), h))
  {
    PrevHourOfDay(d, h);
    HourOfParts(t - MsPerHour, d, h - 1);
  }

  lemma PrevHourOfDay(d: int, h: int)
    requires 0 <= h < 24
    ensures PrevHour(UtcHour(DateOfDay(d), h))
         == if h > 0 then UtcHour(DateOfDay(d), h - 1) else UtcHour(DateOfDay(d - 1), 23)
  {
    if h == 0 {
      DateOfPrevDay(d);
    }
  }

  lemma HourOfParts(t: int, d: int, h: int)
    requires Day(t) == d && HourFromTime(t) == h
    ensures HourOf(t) == UtcHour(DateOfDay(d), h)
  {
  }

  /** One day earlier is the same hour of the previous calendar day. */
  lemma HourOfMinusDay(t: int)
    ensures ValidHour(HourOf(t))
    ensures HourOf(t - MsPerDay) == UtcHour(PrevDay(HourOf(t).date), HourOf(t).hour)
  {
    MinusDayArith(t);
    HourOfParts(t, Day(t), HourFromTime(t));
    HourOfParts(t - MsPerDay, Day(t) - 1, HourFromTime(t));
    DateOfPrevDay(Day(t));
  }

  /** Whole days later (or earlier) is the same hour of the day that many days on. */
  lemma HourOfPlusDays(t: int, k: int, moved: int)
    requires moved == t + MsPerDay * k
    ensures HourOf(moved) == UtcHour(DateOfDay(Day(t) + k), HourFromTime(t))
  {
    PlusDaysArith(t, k, moved);
    HourOfParts(moved, Day(t) + k, HourFromTime(t));
  }

  lemma PlusDaysArith(t: int, k: int, moved: int)
    requires moved == t + MsPerDay * k
    ensures Day(moved) == Day(t) + k && HourFromTime(moved) == HourFromTime(t)
  {
    Decompose(t);
    Compose(moved, Day(t) + k, HourFromTime(t), t % MsPerHour);
  }

  lemma MakeDateArith(d: int, time: int)
    requires 0 <= time < MsPerDay
    ensures Day(MakeDate(d, time)) == d && HourFromTime(MakeDate(d, time)) == time / MsPerHour
  {
    var h, r := time / MsPerHour, time % MsPerHour;
    assert time == MsPerHour * h + r;
    Compose(MakeDate(d, time), d, h, r);
  }

  lemma TruncateHourArith(t: int)
    ensures MakeDate(Day(t), MakeTime(HourFromTime(t), 0, 0, 0)) == t - t % MsPerHour
  {
    Decompose(t);
  }

  /** A time value laid out as the day number of a valid date, an hour and the rest of
      that hour names that date and hour. */
  lemma HourOfLayout(t: int, c: CalendarDate, h: int, rest: int)
    requires ValidDate(c) && 0 <= h < 24 && 0 <= rest < MsPerHour
    requires t == MsPerDay * DayNumber(c) + MsPerHour * h + rest
    ensures HourOf(t) == UtcHour(c, h)
  {
    Compose(t, DayNumber(c), h, rest);
    DateOfDayUnique(c, DayNumber(c));
    HourOfParts(t, DayNumber(c), h);
  }

  /** The fields of a time value built from valid fields are those fields. */
  lemma HourOfMakeDate(c: CalendarDate, h: int, min: int, sec: int, ms: int)
    requires ValidDate(c) && 0 <= h < 24 && 0 <= min < 60 && 0 <= sec < 60 && 0 <= ms < 1000
    ensures HourOf(MakeDate(MakeDay(c.year, c.month, c.date), MakeTime(h, min, sec, ms))) == UtcHour(c, h)
  {
    var t := MakeDate(MakeDay(c.year, c.month, c.date), MakeTime(h, min, sec, ms));
    MakeDateLayout(c, h, min, sec, ms);
    HourOfLayout(t, c, h, MakeTime(0, min, sec, ms));
  }

  lemma MakeDateLayout(c: CalendarDate, h: int, min: int, sec: int, ms: int)
    requires ValidDate(c) && 0 <= min < 60 && 0 <= sec < 60 && 0 <= ms < 1000
    ensures 0 <= MakeTime(0, min, sec, ms) < MsPerHour
    ensures MakeDate(MakeDay(c.year, c.month, c.date), MakeTime(h, min, sec, ms))
         == MsPerDay * DayNumber(c) + MsPerHour * h + MakeTime(0, min, sec, ms)
  {
    MakeDayInYear(c.year, c.month, c.date);
  }

  /** Building a time value from the fields of `t` gives `t` truncated to its hour. */
  lemma MakeDateOfHourOf(t: int)
    ensures var h := HourOf(t);
      MakeDate(MakeDay(h.date.year, h.date.month, h.date.date), MakeTime(h.hour, 0, 0, 0))
        == t - t % MsPerHour
  {
    var c := DateOfDay(Day(t));
    DateOfDayNumber(Day(t));
    MakeDayInYear(c.year, c.month, c.date);
    TruncateHourArith(t);
  }
}
