/**
  The nine INotificationValidateRule classes. Each is a pure function of the
  request; an invalid result means "this rule does not apply". The schedule
  rules scan the entries in order and the first matching entry decides, as
  the source's `foreach ... break` does.
*/
module Rules {
  import opened Clock
  import opened Optional
  import opened Scan
  import opened Notification
  import opened ScheduleDays

  // ---------------------------------------------------------------------
  // 1. RequestDateControlRule

  /**
    Even for an expired request the rule reports "not valid" with an empty
    window; stopping the chain is the evaluator's business.
  */
  function RequestDateControlRule(d: Definition, now: int, requestDate: int): (r: ValidationInfo)
    ensures !r.isValid
    ensures r.sendStartTime == MinValue && r.sendEndTime == MinValue
  {
    if !IsRequestDateNullOrEmpty(requestDate) && IsLessThan(AddMinutes(requestDate, d.sendEndDuration), now) then
      ValidationInfo(MinValue, MinValue, false)
    else
      NoWindow
  }

  // ---------------------------------------------------------------------
  // 2. NotificationOptionsRule

  /** Explicit options that are not tied to the schedule are the window outright. */
  function NotificationOptionsRule(o: Option<Options>, now: int): (r: ValidationInfo)
    ensures IsNotificationOptionsNullOrEmpty(o) || o.value.controlWithNotificationSchedule ==> r == NoWindow
    ensures !IsNotificationOptionsNullOrEmpty(o) && !o.value.controlWithNotificationSchedule ==>
      && r.sendStartTime == o.value.sendStartTime
      && r.sendEndTime == o.value.sendEndTime
      && (r.isValid <==> now <= o.value.sendEndTime)
  {
    if !IsNotificationOptionsNullOrEmpty(o) && !o.value.controlWithNotificationSchedule then
      ValidationInfo(o.value.sendStartTime, o.value.sendEndTime, IsLessThanOrEquals(now, o.value.sendEndTime))
    else
      NoWindow
  }

  // ---------------------------------------------------------------------
  // 3. NotificationDefinitonValidTimeRule

  /** A hard window on the definition is the window outright. */
  function DefinitionValidTimeRule(d: Definition, now: int): (r: ValidationInfo)
    ensures IsNotificationDateDefinitionEmpty(d) ==> r == NoWindow
    ensures !IsNotificationDateDefinitionEmpty(d) ==>
      && r.sendStartTime == d.sendStartTime
      && r.sendEndTime == d.sendEndTime
      && (r.isValid <==> now <= d.sendEndTime)
  {
    if !IsNotificationDateDefinitionEmpty(d) then
      ValidationInfo(d.sendStartTime, d.sendEndTime, IsLessThanOrEquals(now, d.sendEndTime))
    else
      NoWindow
  }

  // ---------------------------------------------------------------------
  // 4. ControlScheduleDays

  /**
    When no entry is scheduled on today's weekday, open the window on the
    next scheduled weekday (of the single entry, or of all entries together)
    at the StartTime of the single or LAST entry.
  */
  function ControlScheduleDaysRule(d: Definition, now: int, waitingActive: bool): (r: ValidationInfo)
    ensures r.isValid <==>
      && GetSchedulingWaitingStatus(d, waitingActive)
      && IsExistSchedule(d)
      && (forall i :: 0 <= i < |d.schedules| ==> Today(d, now) !in d.schedules[i].days)
      && (exists k :: 1 <= k <= 7 && WeekdayAfter(Today(d, now), k) in UnionDays(d.schedules))
    ensures !r.isValid ==> r == NoWindow
    ensures r.isValid ==> r.sendEndTime == AddMinutes(r.sendStartTime, d.sendEndDuration)
    ensures r.isValid ==> |d.schedules| > 0 && TimeOfDayOf(r.sendStartTime) == d.schedules[|d.schedules| - 1].startTime
    ensures r.isValid ==>
      exists k :: 1 <= k <= 7 && WeekdayAfter(Today(d, now), k) in UnionDays(d.schedules)
        && (forall j :: 1 <= j < k ==> WeekdayAfter(Today(d, now), j) !in UnionDays(d.schedules))
        && DateOf(r.sendStartTime) == DateOf(AddDays(LastNow(d, now), k))
  {
    var lastNow := LastNow(d, now);
    var today := Today(d, now);
    if !GetSchedulingWaitingStatus(d, waitingActive) || !IsExistSchedule(d) then NoWindow
    else if |d.schedules| == 1 then
      assert UnionDays(d.schedules) == d.schedules[0].days;
      if today in d.schedules[0].days then NoWindow
      else
        assert forall i :: 0 <= i < |d.schedules| ==> d.schedules[i] == d.schedules[0];
        RolloverWindow(d.schedules[0].days, d.schedules[0], today, lastNow, d.sendEndDuration)
    else
      match FindFirst(d.schedules, (s: Schedule) => today in s.days)
      case Some(_) => NoWindow
      case None =>
        RolloverWindow(UnionDays(d.schedules), d.schedules[|d.schedules| - 1], today, lastNow, d.sendEndDuration)
  }

  /** The rolled-over window opens on a weekday that some entry schedules. */
  lemma RolloverLandsOnScheduledDay(d: Definition, now: int, waitingActive: bool)
    requires ControlScheduleDaysRule(d, now, waitingActive).isValid
    ensures DayOfWeek(ControlScheduleDaysRule(d, now, waitingActive).sendStartTime) in UnionDays(d.schedules)
    ensures LastNow(d, now) < ControlScheduleDaysRule(d, now, waitingActive).sendStartTime
  {
    var r := ControlScheduleDaysRule(d, now, waitingActive);
    var lastNow := LastNow(d, now);
    var k :| 1 <= k <= 7 && WeekdayAfter(Today(d, now), k) in UnionDays(d.schedules)
      && DateOf(r.sendStartTime) == DateOf(AddDays(lastNow, k));
    DayOfWeekOfDate(r.sendStartTime);
    DayOfWeekOfDate(AddDays(lastNow, k));
    DayOfWeekAfterDays(lastNow, k);
    DateAfterDays(lastNow, k);
  }

  // ---------------------------------------------------------------------
  // 5. StartTimeLessThanEndTimeAndBetweenStartAndEndTime

  /** A same-day entry on LastNow's weekday whose interval holds LastNow's time. */
  predicate InsideMatch(s: Schedule, lastNow: int) {
    && s.startTime < s.endTime
    && IsBetween(TimeOfDayOf(lastNow), s.startTime, s.endTime)
    && DayOfWeek(lastNow) in s.days
  }

  /**
    Inside a same-day window: send from LastNow until the earlier of
    `now + SendEndDuration` (not LastNow) and the window's end on LastNow's date.
  */
  function InsideWindowRule(d: Definition, now: int): (r: ValidationInfo)
    ensures r.isValid <==> exists i :: 0 <= i < |d.schedules| && InsideMatch(d.schedules[i], LastNow(d, now))
    ensures !r.isValid ==> r == NoWindow
    ensures r.isValid ==> r.sendStartTime == LastNow(d, now)
    ensures r.isValid ==> r.sendEndTime <= AddMinutes(now, d.sendEndDuration)
    ensures r.isValid ==>
      exists i :: 0 <= i < |d.schedules| && InsideMatch(d.schedules[i], LastNow(d, now))
        && (forall j :: 0 <= j < i ==> !InsideMatch(d.schedules[j], LastNow(d, now)))
        && r.sendEndTime <= At(LastNow(d, now), d.schedules[i].endTime)
        && (r.sendEndTime == AddMinutes(now, d.sendEndDuration) || r.sendEndTime == At(LastNow(d, now), d.schedules[i].endTime))
  {
    var lastNow := LastNow(d, now);
    if !IsExistSchedule(d) then NoWindow
    else
      match FindFirst(d.schedules, (s: Schedule) => InsideMatch(s, lastNow))
      case None => NoWindow
      case Some(i) =>
        var tempEndDate := At(lastNow, d.schedules[i].endTime);
        ValidationInfo(lastNow, Min(AddMinutes(now, d.sendEndDuration), tempEndDate), true)
  }

  // ---------------------------------------------------------------------
  // 6. StartTimeLessThanEndTimeAndOutOfStartAndEndTime

  /** |StartTime - now.TimeOfDay| in seconds (the source takes it in fractional minutes). */
  function Residual(s: Schedule, now: int): nat {
    var diff := s.startTime - TimeOfDayOf(now);
    if diff < 0 then -diff else diff
  }

  /** A same-day entry on LastNow's weekday whose StartTime is within SendEndDuration of now's time. */
  predicate ShortlyBeforeMatch(s: Schedule, d: Definition, now: int) {
    && s.startTime < s.endTime
    && Residual(s, now) < d.sendEndDuration * SecondsPerMinute
    && DayOfWeek(LastNow(d, now)) in s.days
  }

  /**
    A request close to a window's opening: start after the residual gap,
    end SendEndDuration after LastNow, so the window is non-empty.
  */
  function ShortlyBeforeWindowRule(d: Definition, now: int): (r: ValidationInfo)
    ensures r.isValid <==> exists i :: 0 <= i < |d.schedules| && ShortlyBeforeMatch(d.schedules[i], d, now)
    ensures !r.isValid ==> r == NoWindow
    ensures r.isValid ==> LastNow(d, now) <= r.sendStartTime < r.sendEndTime
    ensures r.isValid ==> r.sendEndTime == AddMinutes(LastNow(d, now), d.sendEndDuration)
    ensures r.isValid ==>
      exists i :: 0 <= i < |d.schedules| && ShortlyBeforeMatch(d.schedules[i], d, now)
        && (forall j :: 0 <= j < i ==> !ShortlyBeforeMatch(d.schedules[j], d, now))
        && r.sendEndTime - r.sendStartTime == d.sendEndDuration * SecondsPerMinute - Residual(d.schedules[i], now)
  {
    var lastNow := LastNow(d, now);
    if !IsExistSchedule(d) then NoWindow
    else
      match FindFirst(d.schedules, (s: Schedule) => ShortlyBeforeMatch(s, d, now))
      case None => NoWindow
      case Some(i) =>
        var residual := Residual(d.schedules[i], now);
        ValidationInfo(lastNow + residual, AddMinutes(lastNow, d.sendEndDuration), true)
  }

  // ---------------------------------------------------------------------
  // 7. StartTimeEqualEndTime

  /** An all-day entry on LastNow's weekday. */
  predicate AllDayMatch(s: Schedule, lastNow: int) {
    s.startTime == s.endTime && DayOfWeek(lastNow) in s.days
  }

  /** On an all-day weekday the window is LastNow plus SendEndDuration. */
  function AllDayRule(d: Definition, now: int): (r: ValidationInfo)
    ensures r.isValid <==> exists i :: 0 <= i < |d.schedules| && AllDayMatch(d.schedules[i], LastNow(d, now))
    ensures !r.isValid ==> r == NoWindow
    ensures r.isValid ==> r.sendStartTime == LastNow(d, now)
    ensures r.isValid ==> r.sendEndTime == AddMinutes(r.sendStartTime, d.sendEndDuration)
  {
    var lastNow := LastNow(d, now);
    if !IsExistSchedule(d) then NoWindow
    else
      match FindFirst(d.schedules, (s: Schedule) => AllDayMatch(s, lastNow))
      case None => NoWindow
      case Some(_) => ValidationInfo(lastNow, AddMinutes(lastNow, d.sendEndDuration), true)
  }

  // ---------------------------------------------------------------------
  // 8. StartTimeGreaterThanEndTime

  /**
    A wrapping entry whose weekday set holds LastNow's weekday (not the
    previous day's) and whose wrapped interval holds LastNow's time.
  */
  predicate OvernightMatch(s: Schedule, lastNow: int) {
    && s.startTime > s.endTime
    && (IsGreaterThanOrEquals(TimeOfDayOf(lastNow), s.startTime) || IsLessThanOrEquals(TimeOfDayOf(lastNow), s.endTime))
    && DayOfWeek(lastNow) in s.days
  }

  /**
    Inside a wrapping window: send from LastNow until the earlier of
    `LastNow + SendEndDuration` and the window's end on the following day.
  */
  function OvernightRule(d: Definition, now: int): (r: ValidationInfo)
    ensures r.isValid <==> exists i :: 0 <= i < |d.schedules| && OvernightMatch(d.schedules[i], LastNow(d, now))
    ensures !r.isValid ==> r == NoWindow
    ensures r.isValid ==> r.sendStartTime == LastNow(d, now)
    ensures r.isValid ==> r.sendEndTime <= AddMinutes(LastNow(d, now), d.sendEndDuration)
    ensures r.isValid ==>
      exists i :: 0 <= i < |d.schedules| && OvernightMatch(d.schedules[i], LastNow(d, now))
        && (forall j :: 0 <= j < i ==> !OvernightMatch(d.schedules[j], LastNow(d, now)))
        && r.sendEndTime <= AddDays(At(LastNow(d, now), d.schedules[i].endTime), 1)
        && (r.sendEndTime == AddMinutes(LastNow(d, now), d.sendEndDuration)
            || r.sendEndTime == AddDays(At(LastNow(d, now), d.schedules[i].endTime), 1))
  {
    var lastNow := LastNow(d, now);
    if !IsExistSchedule(d) then NoWindow
    else
      match FindFirst(d.schedules, (s: Schedule) => OvernightMatch(s, lastNow))
      case None => NoWindow
      case Some(i) =>
        var tempEndDate := AddDays(At(lastNow, d.schedules[i].endTime), 1);
        ValidationInfo(lastNow, Min(AddMinutes(lastNow, d.sendEndDuration), tempEndDate), true)
  }

  // ---------------------------------------------------------------------
  // 9. HandleRequestOutOfScheduleTime

  /** LastNow's time is not in [StartTime, EndTime]; true for every time when the entry wraps. */
  predicate OutsideMatch(s: Schedule, time: TimeOfDay) {
    !IsBetween(time, s.startTime, s.endTime)
  }

  /**
    A request outside an entry's interval waits for the entry's next opening:
    StartTime on now's date when LastNow's time is before it, otherwise
    StartTime on the following day. Weekdays are not consulted.
  */
  function OutOfScheduleTimeRule(d: Definition, now: int, waitingActive: bool): (r: ValidationInfo)
    ensures r.isValid <==>
      && IsExistSchedule(d)
      && GetSchedulingWaitingStatus(d, waitingActive)
      && exists i :: 0 <= i < |d.schedules| && OutsideMatch(d.schedules[i], TimeOfDayOf(LastNow(d, now)))
    ensures !r.isValid ==> r == NoWindow
    ensures r.isValid ==> r.sendEndTime == AddMinutes(r.sendStartTime, d.sendEndDuration)
    ensures r.isValid ==>
      exists i :: 0 <= i < |d.schedules| && OutsideMatch(d.schedules[i], TimeOfDayOf(LastNow(d, now)))
        && (forall j :: 0 <= j < i ==> !OutsideMatch(d.schedules[j], TimeOfDayOf(LastNow(d, now))))
        && TimeOfDayOf(r.sendStartTime) == d.schedules[i].startTime
        && (TimeOfDayOf(LastNow(d, now)) < d.schedules[i].startTime ==> DateOf(r.sendStartTime) == DateOf(now))
        && (TimeOfDayOf(LastNow(d, now)) >= d.schedules[i].startTime ==> DateOf(r.sendStartTime) == AddDays(DateOf(now), 1))
  {
    var lastNowTime := TimeOfDayOf(LastNow(d, now));
    if !IsExistSchedule(d) || !GetSchedulingWaitingStatus(d, waitingActive) then NoWindow
    else
      match FindFirst(d.schedules, (s: Schedule) => OutsideMatch(s, lastNowTime))
      case None => NoWindow
      case Some(i) =>
        var s := d.schedules[i];
        if lastNowTime < s.startTime then
          var startTime := At(now, s.startTime);
          ValidationInfo(startTime, AddMinutes(startTime, d.sendEndDuration), true)
        else
          // Past the window: the time is after EndTime and, at whole seconds,
          // never after 23:59:59, so the source's DateTime.Today branch is dead.
          assert lastNowTime > s.endTime && IsBetween(lastNowTime, s.endTime, LastSecondOfDay);
          DateAfterDays(now, 1);
          var startTime := At(AddDays(now, 1), s.startTime);
          ValidationInfo(startTime, AddMinutes(startTime, d.sendEndDuration), true)
  }

  // ---------------------------------------------------------------------
  // IsOutOfScheduleRequest against the rules

  /** A request the schedule covers is taken by the inside, all-day or overnight rule. */
  lemma InScheduleRequestIsAccepted(d: Definition, requestDate: int, now: int)
    requires !IsOutOfScheduleRequest(d, requestDate, now)
    ensures InsideWindowRule(d, now).isValid || AllDayRule(d, now).isValid || OvernightRule(d, now).isValid
  {
    var lastNow := LastNow(d, now);
    var i :| 0 <= i < |d.schedules| && InScheduleAt(d.schedules[i], lastNow);
    var s := d.schedules[i];
    if s.startTime == s.endTime {
      assert AllDayMatch(s, lastNow);
    } else if s.startTime < s.endTime {
      assert InsideMatch(s, lastNow);
    } else {
      assert OvernightMatch(s, lastNow);
    }
  }

  /**
    A request outside the schedule is not inside any same-day or all-day
    window; the overnight rule can still take it, but only exactly at a
    wrapping window's StartTime or EndTime, where the two tests disagree.
  */
  lemma OutOfScheduleRequestIsNotInside(d: Definition, requestDate: int, now: int)
    requires IsOutOfScheduleRequest(d, requestDate, now)
    ensures !InsideWindowRule(d, now).isValid && !AllDayRule(d, now).isValid
    ensures OvernightRule(d, now).isValid ==>
      exists i :: 0 <= i < |d.schedules| && OvernightMatch(d.schedules[i], LastNow(d, now))
        && (TimeOfDayOf(LastNow(d, now)) == d.schedules[i].startTime || TimeOfDayOf(LastNow(d, now)) == d.schedules[i].endTime)
  {
    var lastNow := LastNow(d, now);
    if InsideWindowRule(d, now).isValid {
      var i :| 0 <= i < |d.schedules| && InsideMatch(d.schedules[i], lastNow);
      assert InScheduleAt(d.schedules[i], lastNow);
    }
    if OvernightRule(d, now).isValid {
      var i :| 0 <= i < |d.schedules| && OvernightMatch(d.schedules[i], lastNow);
      assert !InScheduleAt(d.schedules[i], lastNow);
    }
  }

  // ---------------------------------------------------------------------
  // The shared guards, rule by rule

  /** The hard window applies when either of its bounds is set and now has not passed its end. */
  lemma HardWindowNeedsOneBound(d: Definition, now: int)
    ensures DefinitionValidTimeRule(d, now).isValid <==>
      (d.sendStartTime != MinValue || d.sendEndTime != MinValue) && now <= d.sendEndTime
  {
  }

  /** Without schedule entries none of the schedule rules applies. */
  lemma ScheduleRulesNeedEntries(d: Definition, now: int, waitingActive: bool)
    requires |d.schedules| == 0
    ensures !ControlScheduleDaysRule(d, now, waitingActive).isValid
    ensures !InsideWindowRule(d, now).isValid && !ShortlyBeforeWindowRule(d, now).isValid
    ensures !AllDayRule(d, now).isValid && !OvernightRule(d, now).isValid
    ensures !OutOfScheduleTimeRule(d, now, waitingActive).isValid
  {
  }

  /**
    The two waiting rules, the day rollover and the out-of-schedule wait,
    apply only when the host switch is on and the definition continues on
    another day.
  */
  lemma WaitingStatusGatesRollover(d: Definition, now: int, waitingActive: bool)
    requires !waitingActive || !d.isContinueSendingOtherDay
    ensures ControlScheduleDaysRule(d, now, waitingActive) == NoWindow
    ensures OutOfScheduleTimeRule(d, now, waitingActive) == NoWindow
  {
  }
}
