/** The `Date` object the daily back-fill handler creates and updates in place: its one
    internal slot, the time value (`None` for NaN), the constructors it calls (`new Date()`
    and `new Date(string)`), `getDate()` and `setDate(date)`. The host runs in UTC, so local
    time is UTC time (LocalTime(t) = t). */
module JsDate {
  import opened Wrappers
  import opened EcmaTime
  import opened DateString

  /** `setDate(date)`, section 21.4.4.20 of ECMA-262: keep the year, the month and the time
      of day of `tv`, put `date` as the day of the month (0 or 32 carry into the neighbouring
      month), and clip. NaN in, NaN out. */
  function SetDateValue(tv: Option<int>, date: Option<int>): Option<int> {
    if tv.None? || date.None? then None
    else
      var t := tv.value;
      var c := DateOfDay(Day(t));
      TimeClip(MakeDate(MakeDay(c.year, c.month, date.value), TimeWithinDay(t)))
  }

  /** `getDate()`: the day of the month of the time value, NaN for NaN. */
  function DateOf(tv: Option<int>): (r: Option<int>)
    ensures r.Some? <==> tv.Some?
  {
    if tv.None? then None else Some(DateFromTime(tv.value))
  }

  /** `getDate()` is the day of the calendar date of the time value, 1 to 31. */
  lemma DateOfIsCalendarDate(tv: Option<int>)
    requires tv.Some?
    ensures 1 <= DateOf(tv).value <= 31 && DateOf(tv).value == HourOf(tv.value).date.date
  {
  }

  class DateObject {
    var timeValue: Option<int>

    /** `new Date()`: the clock, clipped to the time range. */
    constructor Now(now: int)
      ensures timeValue == TimeClip(now)
    {
      timeValue := TimeClip(now);
    }

    /** `new Date(s)`. */
    constructor FromString(s: string, host: HostParser)
      ensures timeValue == Parse(s, host)
    {
      timeValue := Parse(s, host);
    }

    /** `getDate()`: NaN for an invalid date, otherwise the day of the month of the
        object's calendar date. */
    function GetDate(): (r: Option<int>)
      reads this
      ensures r == DateOf(timeValue)
      ensures timeValue.None? ==> r.None?
      ensures timeValue.Some? ==> r.Some? && 1 <= r.value <= 31 && r.value == HourOf(timeValue.value).date.date
    {
      DateOf(timeValue)
    }

    method SetDate(date: Option<int>)
      modifies this
      ensures timeValue == SetDateValue(old(timeValue), date)
    {
      timeValue := SetDateValue(timeValue, date);
    }
  }

  lemma DayAndTime(t: int)
    ensures MakeDate(Day(t), TimeWithinDay(t)) == t
  {
  }

  /** `setDate(date)` moves the time value by whole days: as many as `date` differs from the
      current day of the month, whether or not `date` exists in the month, and then clips. */
  lemma SetDateShift(t: int, date: int)
    ensures SetDateValue(Some(t), Some(date)) == TimeClip(t + MsPerDay * (date - DateFromTime(t)))
  {
    var c := DateOfDay(Day(t));
    DateOfDayNumber(Day(t));
    MakeDayInYear(c.year, c.month, date);
    DayAndTime(t);
  }

  /** Setting the day of the month to one less than it is moves the time value back by
      exactly one day (24 hours), through the start of a month or a year alike. */
  lemma SetDateMinusOne(t: int)
    requires -MaxTimeValue <= t <= MaxTimeValue
    ensures SetDateValue(Some(t), Some(DateFromTime(t) - 1)) == TimeClip(t - MsPerDay)
  {
    SetDateShift(t, DateFromTime(t) - 1);
  }

  /** Setting the day of the month it already has changes nothing. */
  lemma SetDateSame(t: int)
    requires -MaxTimeValue <= t <= MaxTimeValue
    ensures SetDateValue(Some(t), Some(DateFromTime(t))) == Some(t)
  {
    SetDateShift(t, DateFromTime(t));
  }

  /** Setting a day that exists in the month keeps the year, the month and the hour. */
  lemma SetDateInMonth(t: int, date: int)
    requires -MaxTimeValue <= t <= MaxTimeValue
    requires var c := HourOf(t).date; 1 <= date <= DaysInMonth(c.year, c.month)
    requires -MaxTimeValue <= t + MsPerDay * (date - DateFromTime(t)) <= MaxTimeValue
    ensures var h := HourOf(t);
      SetDateValue(Some(t), Some(date)).Some? &&
      HourOf(SetDateValue(Some(t), Some(date)).value) == UtcHour(CalendarDate(h.date.year, h.date.month, date), h.hour)
  {
    var c := DateOfDay(Day(t));
    var md := MakeDay(c.year, c.month, date);
    var v := MakeDate(md, TimeWithinDay(t));
    SetDateShift(t, date);
    assert SetDateValue(Some(t), Some(date)) == TimeClip(v);
    MakeDateArith(md, TimeWithinDay(t));
    HourFromTimeWithinDay(t);
    HourOfParts(v, md, HourFromTime(t));
    DateOfMakeDay(CalendarDate(c.year, c.month, date));
  }
}
