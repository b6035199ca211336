/**
  The entities of the notification send-window engine and the small helper
  predicates of NotificationDateValidator that the rules share.
*/
module Notification {
  import opened Clock
  import opened Optional
  import opened Scan

  /**
    NotificationSchedule: a time-of-day interval repeated on a set of weekdays
    (Sunday = 0). StartTime < EndTime is a same-day window, StartTime ==
    EndTime an all-day entry, StartTime > EndTime a window that wraps past
    midnight.
  */
  datatype Schedule = Schedule(startTime: TimeOfDay, endTime: TimeOfDay, days: set<int>)

  /** NotificationDefinition, reduced to the fields the validator reads. */
  datatype Definition = Definition(
    sendStartDuration: int,          // minutes added to "now" before the schedule is consulted
    sendEndDuration: int,            // minutes a send window stays open
    sendStartTime: int,              // hard window; both MinValue when there is none
    sendEndTime: int,
    isContinueSendingOtherDay: bool,
    schedules: seq<Schedule>)

  /** NotificationOptions: an explicit window, or a clamp on the scheduled one. */
  datatype Options = Options(sendStartTime: int, sendEndTime: int, controlWithNotificationSchedule: bool)

  /** NotificationDateValidationInfo. SetValidDateInfos is its constructor. */
  datatype ValidationInfo = ValidationInfo(sendStartTime: int, sendEndTime: int, isValid: bool)

  /** A freshly constructed NotificationDateValidationInfo: no window, not valid. */
  const NoWindow: ValidationInfo := ValidationInfo(MinValue, MinValue, false)

  /** `now.AddMinutes(SendStartDuration)`: the moment the schedule rules reason about. */
  function LastNow(d: Definition, now: int): int {
    AddMinutes(now, d.sendStartDuration)
  }

  /** The weekday of LastNow. */
  function Today(d: Definition, now: int): Weekday {
    DayOfWeek(LastNow(d, now))
  }

  /** A DateTime is a value type, so only the MinValue sentinel counts as "no request date". */
  predicate IsRequestDateNullOrEmpty(requestDate: int) {
    requestDate == MinValue
  }

  /** The request is older than its send duration allows. No sentinel is exempted. */
  predicate IsRequestDateLessThanNow(d: Definition, requestDate: int, now: int) {
    IsLessThan(AddMinutes(requestDate, d.sendEndDuration), now)
  }

  predicate IsNotificationOptionsNullOrEmpty(o: Option<Options>) {
    o.None? || (o.value.sendStartTime == MinValue && o.value.sendEndTime == MinValue)
  }

  predicate IsNotificationDateDefinitionEmpty(d: Definition) {
    d.sendStartTime == MinValue && d.sendEndTime == MinValue
  }

  predicate IsExistSchedule(d: Definition) {
    |d.schedules| > 0
  }

  /**
    GetSchedulingWaitingStatus. The configuration switch
    IsWaitingForSchedulingActive is read from the host's configuration in the
    source; here it is the input `waitingActive`.
  */
  predicate GetSchedulingWaitingStatus(d: Definition, waitingActive: bool) {
    waitingActive && d.isContinueSendingOtherDay
  }

  /**
    Whether `time` lies in the entry's interval as IsOutOfScheduleRequest judges
    it: any time for an all-day entry, inclusive bounds for a same-day window,
    and strictly outside [EndTime, StartTime] for a wrapping window.
  */
  predicate IsValidScheduleTime(s: Schedule, time: TimeOfDay) {
    || s.startTime == s.endTime
    || (s.startTime < s.endTime && IsBetween(time, s.startTime, s.endTime))
    || (s.startTime > s.endTime && !IsBetween(time, s.endTime, s.startTime))
  }

  /** The entry covers the moment `lastNow`: its weekday and its time of day. */
  predicate InScheduleAt(s: Schedule, lastNow: int) {
    IsValidScheduleTime(s, TimeOfDayOf(lastNow)) && DayOfWeek(lastNow) in s.days
  }

  /**
    IsOutOfScheduleRequest: true unless some schedule entry covers LastNow.
    The request date is accepted and ignored, as in the source.
  */
  function IsOutOfScheduleRequest(d: Definition, requestDate: int, now: int): (r: bool)
    ensures r <==> forall i :: 0 <= i < |d.schedules| ==> !InScheduleAt(d.schedules[i], LastNow(d, now))
    ensures !IsExistSchedule(d) ==> r
  {
    var lastNow := LastNow(d, now);
    !IsExistSchedule(d) || FindFirst(d.schedules, (s: Schedule) => InScheduleAt(s, lastNow)).None?
  }
}
