/**
  Worked scenarios of the validator on concrete dates in January 2021
  (2021-01-03 is a Sunday).
*/
module Scenarios {
  import opened Clock
  import opened Optional
  import opened Notification
  import opened ScheduleDays
  import opened Rules
  import opened Validator

  const Hour: int := 3600
  const Sunday: int := 63745228800      // 2021-01-03 00:00:00
  const Monday: int := 63745315200      // 2021-01-04 00:00:00
  const Tuesday: int := 63745401600     // 2021-01-05 00:00:00
  const Friday: int := 63745660800      // 2021-01-08 00:00:00
  const Saturday: int := 63745747200    // 2021-01-09 00:00:00

  function ScheduleOnly(sendEndDuration: int, continueOtherDay: bool, s: Schedule): Definition {
    Definition(0, sendEndDuration, MinValue, MinValue, continueOtherDay, [s])
  }

  /**
    A Monday 08:00-17:00 entry, a request at Monday 09:00 and a 60-minute
    duration: the window is 09:00-10:00.
  */
  lemma SameDayWindow()
    ensures
      var d := ScheduleOnly(60, false, Schedule(8 * Hour, 17 * Hour, {1}));
      var now := Monday + 9 * Hour;
      CheckNotificationValidOptions(Request(d, None, now, now, false))
        == Decision(true, Options(now, now + Hour, false))
  {
    var d := ScheduleOnly(60, false, Schedule(8 * Hour, 17 * Hour, {1}));
    var now := Monday + 9 * Hour;
    var q := Request(d, None, now, now, false);
    assert DayOfWeek(now) == 1;
    assert TimeOfDayOf(now) == 9 * Hour;
    assert InsideMatch(d.schedules[0], now);
    assert At(now, 17 * Hour) == Monday + 17 * Hour;
    FirstValidRuleDecides(q, 4);
  }

  /** With a single entry the rollover rule is the forward search over that entry's days. */
  lemma SingleEntryRollover(d: Definition, now: int)
    requires |d.schedules| == 1 && d.isContinueSendingOtherDay
    requires Today(d, now) !in d.schedules[0].days
    ensures ControlScheduleDaysRule(d, now, true)
      == RolloverWindow(d.schedules[0].days, d.schedules[0], Today(d, now), LastNow(d, now), d.sendEndDuration)
  {
  }

  /** An all-day Tuesday entry: on Sunday at 10:00 the rollover rule opens on Tuesday at 09:00. */
  lemma RolloverRuleOnSunday()
    ensures
      var d := ScheduleOnly(60, true, Schedule(9 * Hour, 9 * Hour, {2}));
      ControlScheduleDaysRule(d, Sunday + 10 * Hour, true)
        == ValidationInfo(Tuesday + 9 * Hour, Tuesday + 10 * Hour, true)
  {
    var d := ScheduleOnly(60, true, Schedule(9 * Hour, 9 * Hour, {2}));
    var now := Sunday + 10 * Hour;
    assert LastNow(d, now) == now;
    assert Today(d, now) == 0;
    SingleEntryRollover(d, now);
    assert WeekdayAfter(0, 1) == 1 && WeekdayAfter(0, 2) == 2;
    assert NextScheduledDay({2}, 0) == Some(2);
    DateOfPlusTime(Sunday, 10 * Hour);
    DateAfterDays(now, 2);
    assert At(AddDays(now, 2), 9 * Hour) == Tuesday + 9 * Hour;
  }

  /** The request on Sunday at 10:00 with that entry, the waiting switch on and no options. */
  function SundayRequest(): Request {
    var now := Sunday + 10 * Hour;
    Request(ScheduleOnly(60, true, Schedule(9 * Hour, 9 * Hour, {2})), None, now, now, true)
  }

  /**
    The same entry and a request on Sunday: the rule chain rolls the window
    forward to Tuesday at the entry's StartTime.
  */
  lemma RolloverToTuesday()
    ensures CheckNotificationValidOptions(SundayRequest())
      == Decision(true, Options(Tuesday + 9 * Hour, Tuesday + 10 * Hour, false))
  {
    var q := SundayRequest();
    assert !Stops(q);
    RolloverRuleOnSunday();
    RolloverComesFirstWithoutWindows(q);
  }

  /**
    A Friday 22:00-06:00 entry does not cover Saturday 01:00: the wrapping
    rule checks the weekday of the moment itself, not of the day the window
    opened. With the day rollover switched off nothing else applies.
  */
  lemma OvernightChecksTheCurrentWeekday()
    ensures
      var d := ScheduleOnly(120, false, Schedule(22 * Hour, 6 * Hour, {5}));
      var now := Saturday + 1 * Hour;
      && !OvernightRule(d, now).isValid
      && CheckNotificationValidOptions(Request(d, None, now, now, false)) == Decision(false, NoOptions)
  {
    var d := ScheduleOnly(120, false, Schedule(22 * Hour, 6 * Hour, {5}));
    var now := Saturday + 1 * Hour;
    var q := Request(d, None, now, now, false);
    assert DayOfWeek(now) == 6;
    assert !ShortlyBeforeMatch(d.schedules[0], d, now);
    forall i | 0 <= i < |RuleChain|
      ensures !Decide(RuleChain[i], q).isValid
    {
    }
  }

  /** The same entry on Friday at 23:00: valid until 01:00, before the 06:00 end. */
  lemma OvernightOnTheOpeningDay()
    ensures
      var d := ScheduleOnly(120, false, Schedule(22 * Hour, 6 * Hour, {5}));
      var now := Friday + 23 * Hour;
      OvernightRule(d, now) == ValidationInfo(now, now + 2 * Hour, true)
  {
    var d := ScheduleOnly(120, false, Schedule(22 * Hour, 6 * Hour, {5}));
    var now := Friday + 23 * Hour;
    assert DayOfWeek(now) == 5;
    assert TimeOfDayOf(now) == 23 * Hour;
    assert OvernightMatch(d.schedules[0], now);
    assert AddDays(At(now, 6 * Hour), 1) == Saturday + 6 * Hour;
  }

  /** A hard Monday 10:00-11:00 window under schedule-controlled options ending at `optionsEnd`. */
  function Reconciled(optionsEnd: int): Request {
    var d := Definition(0, 60, Monday + 10 * Hour, Monday + 11 * Hour, false, []);
    Request(d, Some(Options(Monday + 8 * Hour, optionsEnd, true)), Monday + 9 * Hour, Monday + 9 * Hour, false)
  }

  /** Options ending at 10:30 shorten a 10:00-11:00 chain window to 10:00-10:30. */
  lemma ReconciliationShortens()
    ensures CheckNotificationValidOptions(Reconciled(Monday + 10 * Hour + 1800))
      == Decision(true, Options(Monday + 10 * Hour, Monday + 10 * Hour + 1800, false))
  {
    FirstValidRuleDecides(Reconciled(Monday + 10 * Hour + 1800), 2);
  }

  /** Options ending at 09:30, before the chain window opens at 10:00, reject it. */
  lemma ReconciliationRejects()
    ensures CheckNotificationValidOptions(Reconciled(Monday + 9 * Hour + 1800)) == Decision(false, NoOptions)
  {
    FirstValidRuleDecides(Reconciled(Monday + 9 * Hour + 1800), 2);
  }

  /** Options ending at 12:00 lengthen a 10:00-11:00 chain window to 10:00-12:00. */
  lemma ReconciliationLengthens()
    ensures CheckNotificationValidOptions(Reconciled(Monday + 12 * Hour))
      == Decision(true, Options(Monday + 10 * Hour, Monday + 12 * Hour, false))
  {
    FirstValidRuleDecides(Reconciled(Monday + 12 * Hour), 2);
  }
}
