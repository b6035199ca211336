/**
  The forward day search of ControlScheduleDays: when today is not a
  scheduled weekday, find the next one within a week and open the window on
  that day at the entry's StartTime.
*/
module ScheduleDays {
  import opened Clock
  import opened Optional
  import opened Notification

  /** The union of the weekday sets of all entries, as the rule accumulates it. */
  function UnionDays(ss: seq<Schedule>): (u: set<int>)
    ensures forall w :: w in u <==> exists i :: 0 <= i < |ss| && w in ss[i].days
    decreases |ss|
  {
    if |ss| == 0 then {}
    else
      var u := UnionDays(ss[..|ss| - 1]) + ss[|ss| - 1].days;
      assert forall i :: 0 <= i < |ss| - 1 ==> ss[..|ss| - 1][i] == ss[i];
      u
  }

  /** The source's step from one weekday to the next: Saturday wraps to Sunday. */
  function NextWeekday(w: Weekday): (r: Weekday)
    ensures r == WeekdayAfter(w, 1)
  {
    if w < 6 then w + 1 else 0
  }

  /**
    The number of days from `today` to the next weekday in `days`: the least
    k in 1..7 whose weekday `WeekdayAfter(today, k)` is scheduled, or None when
    no weekday of the coming week is.
  */
  function NextScheduledDay(days: set<int>, today: Weekday): (k: Option<int>)
    ensures k.Some? ==> 1 <= k.value <= 7 && WeekdayAfter(today, k.value) in days
    ensures k.Some? ==> forall j :: 1 <= j < k.value ==> WeekdayAfter(today, j) !in days
    ensures k.None? <==> forall j :: 1 <= j <= 7 ==> WeekdayAfter(today, j) !in days
  {
    SearchDays(days, today, today, 0)
  }

  /** A scheduled step with no scheduled step before it is the one the search finds. */
  lemma NextScheduledDayIsLeast(days: set<int>, today: Weekday, k: int)
    requires 1 <= k <= 7 && WeekdayAfter(today, k) in days
    requires forall j :: 1 <= j < k ==> WeekdayAfter(today, j) !in days
    ensures NextScheduledDay(days, today) == Some(k)
  {
  }

  /** The search loop after `counter` steps, standing on weekday `day`. */
  function SearchDays(days: set<int>, today: Weekday, day: Weekday, counter: nat): (k: Option<int>)
    requires counter <= 7 && day == WeekdayAfter(today, counter)
    requires forall j :: 1 <= j <= counter ==> WeekdayAfter(today, j) !in days
    ensures k.Some? ==> counter < k.value <= 7 && WeekdayAfter(today, k.value) in days
    ensures k.Some? ==> forall j :: 1 <= j < k.value ==> WeekdayAfter(today, j) !in days
    ensures k.None? <==> forall j :: 1 <= j <= 7 ==> WeekdayAfter(today, j) !in days
    decreases 7 - counter
  {
    if counter == 7 then None
    else
      var next := NextWeekday(day);
      assert next == WeekdayAfter(today, counter + 1);
      if next in days then Some(counter + 1)
      else SearchDays(days, today, next, counter + 1)
  }

  /**
    The window SetStartAndEndTime opens: on the next scheduled day after
    `today`, at the entry's StartTime, lasting SendEndDuration minutes; no
    window when no weekday of the coming week is scheduled.
  */
  function RolloverWindow(days: set<int>, item: Schedule, today: Weekday, lastNow: int, sendEndDuration: int): (r: ValidationInfo)
    ensures r.isValid <==> exists k :: 1 <= k <= 7 && WeekdayAfter(today, k) in days
    ensures !r.isValid ==> r == NoWindow
    ensures r.isValid ==> r.sendEndTime == AddMinutes(r.sendStartTime, sendEndDuration)
    ensures r.isValid ==> TimeOfDayOf(r.sendStartTime) == item.startTime
    ensures r.isValid ==>
      exists k :: 1 <= k <= 7 && WeekdayAfter(today, k) in days
        && (forall j :: 1 <= j < k ==> WeekdayAfter(today, j) !in days)
        && DateOf(r.sendStartTime) == DateOf(AddDays(lastNow, k))
  {
    match NextScheduledDay(days, today)
    case None => NoWindow
    case Some(k) =>
      var startTime := At(AddDays(lastNow, k), item.startTime);
      ValidationInfo(startTime, AddMinutes(startTime, sendEndDuration), true)
  }

  /**
    SetStartAndEndTime, step for step: advance the weekday at most seven
    times, counting the steps, and stop at the first scheduled one.
  */
  method SetStartAndEndTime(days: set<int>, item: Schedule, today: Weekday, lastNow: int, sendEndDuration: int)
    returns (info: ValidationInfo)
    ensures info == RolloverWindow(days, item, today, lastNow, sendEndDuration)
  {
    var daysOfWeek := 7;
    var counter := 0;
    var day := 0;
    var current: Weekday := today;
    var startTime := MinValue;
    var endTime := MinValue;
    var isValid := false;
    while day < daysOfWeek
      invariant 0 <= day <= daysOfWeek && counter == day
      invariant current == WeekdayAfter(today, counter)
      invariant forall j :: 1 <= j <= counter ==> WeekdayAfter(today, j) !in days
      invariant !isValid
      decreases daysOfWeek - day
    {
      if current < 6 {
        current := current + 1;
      } else {
        current := 0;
      }
      counter := counter + 1;
      if current in days {
        NextScheduledDayIsLeast(days, today, counter);
        startTime := At(AddDays(lastNow, counter), item.startTime);
        endTime := AddMinutes(startTime, sendEndDuration);
        isValid := true;
        break;
      }
      day := day + 1;
    }
    info := NoWindow;
    if isValid {
      info := ValidationInfo(startTime, endTime, isValid);
    }
  }
}
