# Notification send-window validation, modelled in Dafny

This project models the send-window engine of a notification dispatcher.
Given a notification definition, optional explicit options, the current
moment and the moment the notification was requested, the engine decides
whether the notification may be sent now and over which `[start, end]`
window.

`NotificationDateValidator.CheckNotificationValidOptions` runs nine
stateless rules (`INotificationValidateRule`) in a fixed order. It stops at
the first valid result, or right after the first rule when the request is
older than its send duration allows. It keeps the result of the last rule it
evaluated. Then it reconciles that result with options that are tied to the
schedule. The nine rules are:

1. request expiry
2. explicit options
3. the definition's hard window
4. day rollover (`ControlScheduleDays`)
5. inside a same-day window
6. shortly before a same-day window
7. all-day entry
8. overnight (wrapping) window
9. out-of-schedule catch-all

The project also models two pure helpers of the React text-box component:

- the thousands-separator formatter `handleFormatNumber`;
- the key filter of `handleInputNumberKeyDown`.

Files and modules:

- `clock.dfy` (`Clock`): .NET `DateTime`/`TimeSpan` arithmetic at
  whole-second resolution. An instant is a count of seconds since
  0001-01-01, so `DateTime.MinValue == new DateTime() == 0`. That day was a
  Monday, so with Sunday = 0 the weekday is `(t / 86400 + 1) % 7`.
- `optional.dfy` (`Optional`), `scan.dfy` (`Scan`): an option type for null
  options, and the first-match search that stands for `foreach ... break`.
- `notification.dfy` (`Notification`): schedules, definitions, options and
  validation results. It also holds the validator's helper predicates:
  `IsRequestDateNullOrEmpty`, `IsRequestDateLessThanNow`,
  `IsNotificationOptionsNullOrEmpty`, `IsNotificationDateDefinitionEmpty`,
  `IsExistSchedule`, `GetSchedulingWaitingStatus` and
  `IsOutOfScheduleRequest`. `SetValidDateInfos` is the constructor
  `ValidationInfo`.
- `schedule_days.dfy` (`ScheduleDays`): the forward day search of
  `ControlScheduleDays.SetStartAndEndTime`. It is written twice: as a
  function, and as a method that follows the source loop step for step. A
  proof shows the two agree.
- `rules.dfy` (`Rules`): the nine rules, one function each.
- `validator.dfy` (`Validator`): the rule chain, the reconciliation, and the
  properties of the whole evaluation.
- `scenarios.dfy` (`Scenarios`): worked examples on concrete dates.
- `number_format.dfy` (`NumberFormat`), `key_filter.dfy` (`KeyFilter`): the
  two text-box helpers.

Behaviour the model keeps as the code has it, where a reader might expect
otherwise:

- **Expiry stop ignores the sentinel.** The evaluator's stop test
  `IsRequestDateLessThanNow` does not exempt the `MinValue` "no request date"
  sentinel. So without a request date, every realistic `now` stops the chain
  after rule 1 and the result is invalid (`MissingRequestDateIsRejected`).
  This holds even when explicit options are in force, because the stop test
  runs before rule 2 is reached. Rule 1 itself never returns valid.
- **Inside-window clamp uses `now`.** The inside-window rule clamps its end
  with `now + SendEndDuration`, not `LastNow + SendEndDuration`.
- **Overnight rule checks the current weekday.** The overnight rule checks the
  weekday of the moment itself, not of the evening the window opened. A
  Friday 22:00–06:00 entry therefore does not cover Saturday 01:00
  (`Scenarios.OvernightChecksTheCurrentWeekday`).
- **Day rollover uses the last entry.** With several entries, the day
  rollover uses the union of their weekdays but the StartTime of the *last*
  entry.
- **Out-of-schedule rule.** It ignores weekdays and needs the waiting switch.
  It uses `now`'s date while comparing `LastNow`'s time. A wrapping entry
  counts as "outside" at every time.
- **Shortly-before rule is symmetric.** It measures
  `|StartTime - now.TimeOfDay|`, so it also fires shortly after a window
  opened.
- **Reconciliation replaces the end.** It *replaces* the window's end with the
  options' end, so a later options end widens the window
  (`Scenarios.ReconciliationShortens`, `Scenarios.ReconciliationRejects`,
  `Scenarios.ReconciliationLengthens`). When the options' end is
  `MinValue`, the chain's end is kept.

## Model

| member | source | states |
|---|---|---|
| `Clock.At` | NotificationDateTimeValidations.cs:70 | the constructed moment lies on the given instant's date at exactly the given time of day |
| `Clock.DateOf` | NotificationDateTimeValidations.cs:233 | `.Date` is midnight of the instant's day: a whole number of days, at most the instant and less than a day before it |
| `Clock.TimeOfDayOf` | NotificationDateTimeValidations.cs:65 | `.TimeOfDay` is the offset into the day: the date plus it gives the instant back |
| `Clock.Min` | NotificationDateTimeValidations.cs:71 | the result is the earlier of the two instants |
| `Clock.DayOfWeekAfterDays` | NotificationDateTimeValidations.cs:222-231 | moving k whole days advances the weekday by k, wrapping Saturday to Sunday |
| `Scan.FindFirst` | NotificationDateTimeValidations.cs:68-79 | returns the index of the first entry passing the test (none before it does), or None exactly when no entry passes |
| `Notification.IsOutOfScheduleRequest` | NotificationDateTimeValidations.cs:435-475 | true exactly when no schedule entry covers LastNow's weekday and time: all-day, inclusive same-day bounds, or strictly outside [EndTime, StartTime] when wrapping; always true with no entries |
| `ScheduleDays.UnionDays` | NotificationDateTimeValidations.cs:193-199 | a weekday is in the union exactly when some entry schedules it |
| `ScheduleDays.NextWeekday` | NotificationDateTimeValidations.cs:223-228 | the wrapped step is the weekday one day later |
| `ScheduleDays.NextScheduledDay` | NotificationDateTimeValidations.cs:219-239 | the least k in 1..7 whose weekday after today is scheduled; None exactly when none of the coming seven days is |
| `ScheduleDays.SearchDays` | NotificationDateTimeValidations.cs:222-239 | after `counter` unsuccessful steps, the search finds the least later scheduled step, or None when no step up to seven succeeds |
| `ScheduleDays.RolloverWindow` | NotificationDateTimeValidations.cs:215-249 | valid exactly when some weekday of the coming week is scheduled; then it opens on the first such day at the entry's StartTime and lasts SendEndDuration minutes; otherwise no window |
| `ScheduleDays.SetStartAndEndTime` | NotificationDateTimeValidations.cs:215-249 | the step-by-step loop (weekday step, counter, break) computes exactly the rollover window |
| `Rules.RequestDateControlRule` | NotificationDateTimeValidations.cs:12-26 | never valid, and always the empty MinValue window, whether or not the request has expired |
| `Rules.NotificationOptionsRule` | NotificationDateTimeValidations.cs:29-41 | non-empty options not tied to the schedule give exactly their window, valid iff now is at or before their end; otherwise no window |
| `Rules.DefinitionValidTimeRule` | NotificationDateTimeValidations.cs:44-56 | a non-empty hard window gives exactly that window, valid iff now is at or before its end; otherwise no window |
| `Rules.ControlScheduleDaysRule` | NotificationDateTimeValidations.cs:168-213 | valid iff the waiting switch and IsContinueSendingOtherDay are on, schedules exist, no entry schedules today, and some weekday of the coming week is scheduled; then the start is the first scheduled later day at the last entry's StartTime and the end is SendEndDuration later |
| `Rules.RolloverLandsOnScheduledDay` | NotificationDateTimeValidations.cs:229-234 | a rolled-over window opens after LastNow, on a weekday some entry schedules |
| `Rules.InsideWindowRule` | NotificationDateTimeValidations.cs:60-83 | valid iff some same-day entry for LastNow's weekday holds LastNow's time; then start = LastNow and the end is the earlier of now + SendEndDuration and the first such entry's EndTime on LastNow's date |
| `Rules.ShortlyBeforeWindowRule` | NotificationDateTimeValidations.cs:88-112 | valid iff some same-day entry for LastNow's weekday starts within SendEndDuration of now's time; then the window lies after LastNow, ends SendEndDuration after LastNow, and is shorter than SendEndDuration by the first such entry's residual gap, so start < end |
| `Rules.AllDayRule` | NotificationDateTimeValidations.cs:116-134 | valid iff an all-day entry schedules LastNow's weekday; then the window is LastNow plus SendEndDuration |
| `Rules.OvernightRule` | NotificationDateTimeValidations.cs:137-162 | valid iff a wrapping entry for LastNow's weekday holds LastNow's time (inclusive); then start = LastNow and the end is the earlier of LastNow + SendEndDuration and the first such entry's EndTime on the following day |
| `Rules.OutOfScheduleTimeRule` | NotificationDateTimeValidations.cs:255-310 | valid iff schedules exist, the waiting status is on and some entry's interval misses LastNow's time; then the window opens at the first such entry's StartTime on now's date (if LastNow's time is earlier) or on the next day, and lasts SendEndDuration |
| `Rules.HardWindowNeedsOneBound` | NotificationDateTimeValidations.cs:430-433 | through IsNotificationDateDefinitionEmpty, the hard-window rule applies iff at least one of the definition's bounds is not MinValue and now is at or before its end |
| `Rules.ScheduleRulesNeedEntries` | NotificationDateTimeValidations.cs:382-385 | through IsExistSchedule, a definition without entries makes every schedule rule (4 to 9) invalid |
| `Rules.WaitingStatusGatesRollover` | NotificationDateTimeValidations.cs:371-380 | through GetSchedulingWaitingStatus, with the waiting switch off or IsContinueSendingOtherDay false, the day rollover and the out-of-schedule rule give no window |
| `Rules.InScheduleRequestIsAccepted` | NotificationDateTimeValidations.cs:435-475 | a request IsOutOfScheduleRequest calls in-schedule is accepted by the inside, all-day or overnight rule |
| `Rules.OutOfScheduleRequestIsNotInside` | NotificationDateTimeValidations.cs:435-475 | an out-of-schedule request is rejected by the inside and all-day rules; the overnight rule can take it only exactly at a wrapping entry's StartTime or EndTime |
| `Validator.RunChain` | NotificationDateTimeValidations.cs:337-342 | the loop returns the first valid rule's result (none before it valid), the first rule's result when the request is too old, and the last rule's result when none is valid |
| `Validator.Chain` | NotificationDateTimeValidations.cs:317-342 | with the fixed rule order: an invalid outcome is always the empty MinValue window; a valid one is the first valid rule's result; an expired request yields no window |
| `Validator.CheckNotificationValidOptions` | NotificationDateTimeValidations.cs:330-369 | valid iff the chain is valid and schedule-controlled options do not end at or before a non-MinValue chain start; the start is the chain's; schedule-controlled options replace the end; an invalid result has the MinValue window |
| `Validator.FirstValidRuleDecides` | NotificationDateTimeValidations.cs:337-342 | when the request is not too old, the first valid rule in the fixed order decides the chain |
| `Validator.RolloverComesFirstWithoutWindows` | NotificationDateTimeValidations.cs:317-328 | with no options and no hard window, a request that is not too old and that the day rollover accepts gets exactly the rollover's window |
| `Validator.ExpiredRequestIsRejected` | NotificationDateTimeValidations.cs:420-423 | a request that IsRequestDateLessThanNow calls too old (its date plus SendEndDuration is before now) is invalid with the MinValue window, whatever the schedule |
| `Validator.MissingRequestDateIsRejected` | NotificationDateTimeValidations.cs:415-423 | with the MinValue request date, any now later than SendEndDuration minutes after MinValue rejects the notification |
| `Validator.ExplicitOptionsTakePrecedence` | NotificationDateTimeValidations.cs:34-38 | non-empty options not tied to the schedule, with now at or before their end and the request not too old, are exactly the result |
| `Validator.HardWindowTakesPrecedence` | NotificationDateTimeValidations.cs:43-57 | with no options in force, a non-empty hard window with now at or before its end is exactly the result, unless the request is too old |
| `Validator.EmptyOptionsAreNoOptions` | NotificationDateTimeValidations.cs:425-428 | options whose both bounds are MinValue decide exactly as no options at all, whatever their schedule flag |
| `Validator.NothingToSendIsRejected` | NotificationDateTimeValidations.cs:330-369 | with no schedule, no hard window and no options the result is invalid with the MinValue window |
| `Validator.ValidDecisionComesFromARule` | NotificationDateTimeValidations.cs:344-364 | every valid decision keeps the start of some valid rule's window |
| `Scenarios.SameDayWindow` | NotificationDateTimeValidations.cs:64-77 | Monday 08:00-17:00 entry, request Monday 09:00, 60 minutes: the window is 09:00-10:00 |
| `Scenarios.RolloverRuleOnSunday` | NotificationDateTimeValidations.cs:215-249 | all-day Tuesday entry, Sunday 10:00, 60 minutes: the rollover rule gives Tuesday 09:00-10:00 |
| `Scenarios.RolloverToTuesday` | NotificationDateTimeValidations.cs:183-247 | all-day Tuesday entry, request on Sunday: the window opens Tuesday at the entry's StartTime |
| `Scenarios.OvernightChecksTheCurrentWeekday` | NotificationDateTimeValidations.cs:146-153 | a Friday 22:00-06:00 entry does not make Saturday 01:00 valid |
| `Scenarios.OvernightOnTheOpeningDay` | NotificationDateTimeValidations.cs:146-153 | the same entry at Friday 23:00 gives 23:00-01:00 |
| `Scenarios.ReconciliationShortens` | NotificationDateTimeValidations.cs:350-362 | a chain window of 10:00-11:00 with schedule-controlled options ending 10:30 becomes 10:00-10:30 |
| `Scenarios.ReconciliationRejects` | NotificationDateTimeValidations.cs:350-362 | the same window with options ending 09:30, before its start, is rejected with the MinValue window |
| `Scenarios.ReconciliationLengthens` | NotificationDateTimeValidations.cs:350-362 | the same window with options ending 12:00 becomes 10:00-12:00, later than the chain's end |
| `NumberFormat.Split` | reactTextBoxComponent.ts:430 | `split` yields at least one piece and no piece holds the separator |
| `NumberFormat.JoinSplit` | reactTextBoxComponent.ts:430 | joining the pieces with the separator gives the text back |
| `NumberFormat.SplitJoin` | reactTextBoxComponent.ts:430 | splitting a join of separator-free pieces gives the pieces back |
| `NumberFormat.FormatNumberLoop` | reactTextBoxComponent.ts:428-442 | the slice-based while loop computes the formatter's result, so the properties below of `FormatNumber` hold for it |
| `NumberFormat.GroupDigitsStructure` | reactTextBoxComponent.ts:434-440 | the comma-separated groups concatenate to the digits; the leading group has 1-3 characters, every later group exactly 3 |
| `NumberFormat.GroupDigitsRemoveCommas` | reactTextBoxComponent.ts:434-440 | removing the commas gives back the comma-free digits |
| `NumberFormat.ShortNumberUnchanged` | reactTextBoxComponent.ts:430-441 | an integer part of at most three characters after its sign, signed or not, is kept as it is; without a dot the whole value comes back unchanged, and a comma-free value gains no comma |
| `NumberFormat.SecondMinusIsGrouped` | reactTextBoxComponent.ts:431-441 | only the first `-` is taken as the sign: `--1234` becomes `--1,234` because the second `-` counts as a digit |
| `NumberFormat.FormatNumberKeepsSign` | reactTextBoxComponent.ts:431-441 | a leading `-` is kept and re-emitted in front of the formatted unsigned value; an unsigned value never gains one |
| `NumberFormat.FormatNumberFraction` | reactTextBoxComponent.ts:430-441 | the result has a dot iff the second dot-separated piece is non-empty, and then its dot pieces are the formatted integer and that piece; later pieces are dropped |
| `NumberFormat.FormatNumberRemoveCommas` | reactTextBoxComponent.ts:428-442 | removing the commas from a comma-free input's result gives the input up to its second dot, without an empty fraction |
| `KeyFilter.KeyDown` | reactTextBoxComponent.ts:477-490 | the default is prevented exactly for non-admitted keys without Ctrl; a key is forwarded exactly when it is admitted and there is a handler |
| `KeyFilter.AdmittedKeysNeverBlocked` | reactTextBoxComponent.ts:477-479 | digits, arrows, Backspace, Tab and the listed numpad codes are never blocked |
| `KeyFilter.OtherKeysBlockedWithoutCtrl` | reactTextBoxComponent.ts:479-482 | any other code below 48 or above 57 is blocked exactly when Ctrl is not held |

## Left out

- The extension methods `IsBetween`, `IsLessThan`, `IsLessThanOrEquals` and `IsGreaterThanOrEquals` are not part of this model. They are taken as `low <= x <= high`, `<`, `<=` and `>=`.
- Time is modelled at whole seconds. Sub-second ticks are left out, and so is the double-valued `TotalMinutes`/`AddMinutes` of the shortly-before rule, which the model computes exactly in seconds.
- At whole seconds, the `DateTime.Today` branch of the out-of-schedule rule (NotificationDateTimeValidations.cs:296-302) is unreachable. A time after EndTime is never after 23:59:59, so the branch before it always fires. The system clock read it contains is therefore not modelled. With sub-second ticks, a time in the last second of a day would match neither branch.
- `DateTime` range checks are not modelled. Instants are unbounded integers, so no `ArgumentOutOfRangeException` arises from `AddMinutes` or `AddDays` near `MinValue` or `MaxValue`.
- The configuration read `IsWaitingForSchedulingActive` in `GetSchedulingWaitingStatus` is the boolean input `waitingActive`.
- log4net logging is left out.
- `ControlProcessTimeDayOut` (NotificationDateTimeValidations.cs:397-413) is left out: its only call is commented out.
- Null definitions, null schedule lists and null day lists are left out: they would throw in the source. Day lists are sets because only membership is read.
- NumberFormat: text is a sequence of Unicode scalar values, while JavaScript's `length`, `slice` and `charAt` count UTF-16 code units. For text with characters outside the Basic Multilingual Plane the groups of three would fall at other positions; UTF-16 is not modelled.
- `handleFormatNumber`'s coercion `value += ''` of non-string values is left out. The input is its text.
- The rest of the text-box component (rendering, DOM access, form state, the event object handed to `onKeyDown`) is left out, as are the drawer component and the application helper.
- Thread and polling loops, operator network calls, database and queue access, configuration and encryption in the controller, services, push data factory and bulk resender are not part of this model. They are I/O around the engine.
