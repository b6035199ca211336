/**
  .NET DateTime and TimeSpan arithmetic at whole-second resolution.

  An instant is a count of seconds since 0001-01-01 00:00:00, which is
  DateTime.MinValue and also the value of `new DateTime()`. That day was a
  Monday, so with Sunday = 0 the weekday of an instant is one more than its
  day number, modulo seven. Instants are unbounded integers: the range checks
  of DateTime (an ArgumentOutOfRangeException outside MinValue..MaxValue) are
  not modelled.
*/
module Clock {

  const SecondsPerMinute: int := 60
  const SecondsPerDay: int := 86400
  const DaysPerWeek: int := 7

  /** DateTime.MinValue, the "no date" sentinel of the notification engine. */
  const MinValue: int := 0

  /** new TimeSpan(23, 59, 59), the last second of a day. */
  const LastSecondOfDay: int := 86399

  /** A TimeSpan used as a time of day, and DateTime.TimeOfDay. */
  type TimeOfDay = t: int | 0 <= t < 86400

  /** (int)DayOfWeek: Sunday = 0, ..., Saturday = 6. */
  type Weekday = w: int | 0 <= w < 7

  // The comparison extension methods of the repository (IsLessThan,
  // IsLessThanOrEquals, IsGreaterThanOrEquals, IsBetween) are not part of
  // this model; they are taken to be the plain comparisons, with IsBetween
  // inclusive at both ends.

  predicate IsLessThan(a: int, b: int) { a < b }

  predicate IsLessThanOrEquals(a: int, b: int) { a <= b }

  predicate IsGreaterThanOrEquals(a: int, b: int) { a >= b }

  predicate IsBetween(x: int, low: int, high: int) { low <= x <= high }

  /** DateTime.AddMinutes with a whole number of minutes. */
  function AddMinutes(t: int, minutes: int): int {
    t + minutes * SecondsPerMinute
  }

  /** DateTime.AddDays with a whole number of days. */
  function AddDays(t: int, days: int): int {
    t + days * SecondsPerDay
  }

  /** DateTime.Date: midnight at the start of the day of `t`. */
  function DateOf(t: int): (r: int)
    ensures r % SecondsPerDay == 0
    ensures r <= t < r + SecondsPerDay
  {
    t - t % SecondsPerDay
  }

  /** DateTime.TimeOfDay: the seconds elapsed since the day began. */
  function TimeOfDayOf(t: int): (r: TimeOfDay)
    ensures DateOf(t) + r == t
  {
    t % SecondsPerDay
  }

  /** (int)DateTime.DayOfWeek. */
  function DayOfWeek(t: int): Weekday {
    (t / SecondsPerDay + 1) % DaysPerWeek
  }

  /** The weekday `k` days after weekday `w`. */
  function WeekdayAfter(w: int, k: int): Weekday {
    (w + k) % DaysPerWeek
  }

  /**
    `new DateTime(t.Year, t.Month, t.Day, time.Hours, time.Minutes,
    time.Seconds)`, which is also `t.Date + time`: the moment on the day of
    `t` whose time of day is `time`.
  */
  function At(t: int, time: TimeOfDay): (r: int)
    ensures DateOf(r) == DateOf(t)
    ensures TimeOfDayOf(r) == time
  {
    DateOfPlusTime(DateOf(t), time);
    DateOf(t) + time
  }

  /** The earlier of two instants, as `new DateTime[] { a, b }.Min()`. */
  function Min(a: int, b: int): (r: int)
    ensures r <= a && r <= b
    ensures r == a || r == b
  {
    if a <= b then a else b
  }

  /** A midnight plus a time of day splits back into that date and that time. */
  lemma DateOfPlusTime(date: int, time: TimeOfDay)
    requires date % SecondsPerDay == 0
    ensures DateOf(date + time) == date
    ensures TimeOfDayOf(date + time) == time
  {
    var q := date / SecondsPerDay;
    assert date == q * SecondsPerDay;
    assert (date + time) / SecondsPerDay == q;
  }

  /** Moving `k` whole days moves the date by `k` days and keeps the time of day. */
  lemma DateAfterDays(t: int, k: int)
    ensures DateOf(AddDays(t, k)) == AddDays(DateOf(t), k)
    ensures TimeOfDayOf(AddDays(t, k)) == TimeOfDayOf(t)
  {
    var d := DateOf(t);
    var s := TimeOfDayOf(t);
    assert AddDays(t, k) == (d + k * SecondsPerDay) + s;
    assert (d + k * SecondsPerDay) % SecondsPerDay == 0;
    DateOfPlusTime(d + k * SecondsPerDay, s);
  }

  /** Moving `k` whole days advances the weekday by `k`, wrapping Saturday to Sunday. */
  lemma DayOfWeekAfterDays(t: int, k: int)
    ensures DayOfWeek(AddDays(t, k)) == WeekdayAfter(DayOfWeek(t), k)
  {
    var q := t / SecondsPerDay;
    var s := t % SecondsPerDay;
    assert AddDays(t, k) == (q + k) * SecondsPerDay + s;
    assert AddDays(t, k) / SecondsPerDay == q + k;
    assert (q + k + 1) % DaysPerWeek == ((q + 1) % DaysPerWeek + k) % DaysPerWeek;
  }

  /** Two instants on the same date fall on the same weekday. */
  lemma DayOfWeekOfDate(t: int)
    ensures DayOfWeek(DateOf(t)) == DayOfWeek(t)
  {
    assert DateOf(t) / SecondsPerDay == t / SecondsPerDay;
  }
}
