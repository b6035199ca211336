/**
  NotificationDateValidator.CheckNotificationValidOptions: run the nine rules
  in their fixed order, keep the result of the last rule evaluated, and
  reconcile it with schedule-controlled options.
*/
module Validator {
  import opened Clock
  import opened Optional
  import opened Notification
  import opened ScheduleDays
  import opened Rules

  /** Everything one validation reads. `waitingActive` is the host's IsWaitingForSchedulingActive switch. */
  datatype Request = Request(
    definition: Definition,
    options: Option<Options>,
    now: int,
    requestDate: int,
    waitingActive: bool)

  /** The rule classes, one constructor each. */
  datatype Rule =
    | RequestDateControl
    | OptionsWindow
    | DefinitionWindow
    | ScheduleDaysRollover
    | InsideWindow
    | ShortlyBefore
    | AllDay
    | Overnight
    | OutOfScheduleTime

  /** The rule list built by the static constructor, in its order. */
  const RuleChain: seq<Rule> := [
    RequestDateControl, OptionsWindow, DefinitionWindow, ScheduleDaysRollover,
    InsideWindow, ShortlyBefore, AllDay, Overnight, OutOfScheduleTime]

  /** The positions of the rules in the chain. */
  lemma RuleChainOrder()
    ensures |RuleChain| == 9
    ensures RuleChain[0] == RequestDateControl && RuleChain[1] == OptionsWindow && RuleChain[2] == DefinitionWindow
    ensures RuleChain[3] == ScheduleDaysRollover && RuleChain[4] == InsideWindow && RuleChain[5] == ShortlyBefore
    ensures RuleChain[6] == AllDay && RuleChain[7] == Overnight && RuleChain[8] == OutOfScheduleTime
  {
  }

  /** DecideNotificationTimeValidation of one rule. */
  function Decide(rule: Rule, q: Request): ValidationInfo {
    match rule
    case RequestDateControl => RequestDateControlRule(q.definition, q.now, q.requestDate)
    case OptionsWindow => NotificationOptionsRule(q.options, q.now)
    case DefinitionWindow => DefinitionValidTimeRule(q.definition, q.now)
    case ScheduleDaysRollover => ControlScheduleDaysRule(q.definition, q.now, q.waitingActive)
    case InsideWindow => InsideWindowRule(q.definition, q.now)
    case ShortlyBefore => ShortlyBeforeWindowRule(q.definition, q.now)
    case AllDay => AllDayRule(q.definition, q.now)
    case Overnight => OvernightRule(q.definition, q.now)
    case OutOfScheduleTime => OutOfScheduleTimeRule(q.definition, q.now, q.waitingActive)
  }

  /** The evaluator's stop test after every rule: the request is too old. */
  predicate Stops(q: Request) {
    IsRequestDateLessThanNow(q.definition, q.requestDate, q.now)
  }

  /**
    The evaluation loop over `rules`, with `current` the result of the rule
    evaluated last: stop at the first valid result or, since the stop test
    does not depend on the rule, right after the first rule when the request
    is too old.
  */
  function RunChain(rules: seq<Rule>, q: Request, current: ValidationInfo): (r: ValidationInfo)
    ensures |rules| == 0 ==> r == current
    ensures |rules| > 0 && Stops(q) ==> r == Decide(rules[0], q)
    ensures r.isValid && |rules| > 0 ==>
      exists i :: 0 <= i < |rules| && r == Decide(rules[i], q)
        && forall j :: 0 <= j < i ==> !Decide(rules[j], q).isValid
    ensures |rules| > 0 && !Stops(q) && !r.isValid ==> r == Decide(rules[|rules| - 1], q)
    ensures |rules| > 0 && !Stops(q) && (exists i :: 0 <= i < |rules| && Decide(rules[i], q).isValid) ==> r.isValid
    decreases |rules|
  {
    if |rules| == 0 then current
    else
      var info := Decide(rules[0], q);
      if info.isValid || Stops(q) then info
      else
        var r := RunChain(rules[1..], q, info);
        assert forall i :: 0 < i < |rules| ==> rules[1..][i - 1] == rules[i];
        r
  }

  /**
    The chain of the validator: the first valid rule's window; no window at
    all when no rule applies or the request is too old.
  */
  function Chain(q: Request): (r: ValidationInfo)
    ensures Stops(q) ==> r == NoWindow
    ensures !r.isValid ==> r == NoWindow
    ensures r.isValid ==>
      exists i :: 0 <= i < |RuleChain| && r == Decide(RuleChain[i], q)
        && forall j :: 0 <= j < i ==> !Decide(RuleChain[j], q).isValid
    ensures !Stops(q) && (exists i :: 0 <= i < |RuleChain| && Decide(RuleChain[i], q).isValid) ==> r.isValid
  {
    var r := RunChain(RuleChain, q, NoWindow);
    assert RuleChain[0] == RequestDateControl && RuleChain[|RuleChain| - 1] == OutOfScheduleTime;
    assert Stops(q) ==> r == Decide(RequestDateControl, q);
    assert !Stops(q) && !r.isValid ==> r == Decide(OutOfScheduleTime, q);
    r
  }

  /** The options narrow a schedule-derived window rather than replace it. */
  predicate ScheduleControlled(o: Option<Options>) {
    !IsNotificationOptionsNullOrEmpty(o) && o.value.controlWithNotificationSchedule
  }

  /** The method's return value together with its `out validOptions`. */
  datatype Decision = Decision(isValid: bool, validOptions: Options)

  /** The out window when the validation fails early. */
  const NoOptions: Options := Options(MinValue, MinValue, false)

  /**
    CheckNotificationValidOptions. Schedule-controlled options reject a
    window that would open at or after their end, and otherwise REPLACE the
    window's end with theirs (a later end widens the window); a MinValue
    options end falls back to the chain's end.
  */
  function CheckNotificationValidOptions(q: Request): (r: Decision)
    ensures !r.isValid ==> r.validOptions.sendStartTime == MinValue && r.validOptions.sendEndTime == MinValue
    ensures r.isValid <==>
      && Chain(q).isValid
      && !(ScheduleControlled(q.options) && q.options.value.sendEndTime <= Chain(q).sendStartTime && Chain(q).sendStartTime != MinValue)
    ensures r.isValid ==> r.validOptions.sendStartTime == Chain(q).sendStartTime
    ensures r.isValid && ScheduleControlled(q.options) ==>
      r.validOptions.sendStartTime < q.options.value.sendEndTime || r.validOptions.sendStartTime == MinValue
    ensures r.isValid && ScheduleControlled(q.options) && q.options.value.sendEndTime != MinValue ==>
      r.validOptions.sendEndTime == q.options.value.sendEndTime
    ensures r.isValid && !(ScheduleControlled(q.options) && q.options.value.sendEndTime != MinValue) ==>
      r.validOptions.sendEndTime == Chain(q).sendEndTime
    ensures !r.validOptions.controlWithNotificationSchedule
  {
    var info := Chain(q);
    var o := q.options;
    if !IsNotificationOptionsNullOrEmpty(o) && o.value.controlWithNotificationSchedule
       && !IsLessThan(info.sendStartTime, o.value.sendEndTime) && info.sendStartTime != MinValue then
      Decision(false, NoOptions)
    else
      var clampedEnd :=
        if !IsNotificationOptionsNullOrEmpty(o) && o.value.controlWithNotificationSchedule && info.isValid
        then o.value.sendEndTime
        else MinValue;
      var endTime := if clampedEnd == MinValue then info.sendEndTime else clampedEnd;
      Decision(info.isValid, Options(info.sendStartTime, endTime, false))
  }

  // ---------------------------------------------------------------------
  // Properties of the evaluator

  /** Without schedule-controlled options the decision is the chain's window, unchanged. */
  lemma UncontrolledDecisionIsTheChain(q: Request)
    requires !ScheduleControlled(q.options)
    ensures CheckNotificationValidOptions(q)
      == Decision(Chain(q).isValid, Options(Chain(q).sendStartTime, Chain(q).sendEndTime, false))
  {
  }

  /** The first valid rule decides the chain, unless the request is too old. */
  lemma FirstValidRuleDecides(q: Request, i: int)
    requires !Stops(q)
    requires 0 <= i < |RuleChain| && Decide(RuleChain[i], q).isValid
    requires forall j :: 0 <= j < i ==> !Decide(RuleChain[j], q).isValid
    ensures Chain(q) == Decide(RuleChain[i], q)
  {
    var r := Chain(q);
    assert r.isValid;
    var k :| 0 <= k < |RuleChain| && r == Decide(RuleChain[k], q)
      && forall j :: 0 <= j < k ==> !Decide(RuleChain[j], q).isValid;
    assert k == i;
  }

  /**
    With neither options nor a hard window, a request that is not too old and
    whose day has no schedule entry is decided by the day rollover.
  */
  lemma RolloverComesFirstWithoutWindows(q: Request)
    requires !Stops(q)
    requires IsNotificationOptionsNullOrEmpty(q.options) && IsNotificationDateDefinitionEmpty(q.definition)
    requires ControlScheduleDaysRule(q.definition, q.now, q.waitingActive).isValid
    ensures var w := ControlScheduleDaysRule(q.definition, q.now, q.waitingActive);
      CheckNotificationValidOptions(q) == Decision(true, Options(w.sendStartTime, w.sendEndTime, false))
  {
    RuleChainOrder();
    assert !Decide(RequestDateControl, q).isValid;
    assert !Decide(OptionsWindow, q).isValid;
    assert !Decide(DefinitionWindow, q).isValid;
    var w := ControlScheduleDaysRule(q.definition, q.now, q.waitingActive);
    assert Decide(ScheduleDaysRollover, q) == w;
    forall j | 0 <= j < 3
      ensures !Decide(RuleChain[j], q).isValid
    {
      if j == 0 {
      } else if j == 1 {
      } else {
        assert j == 2;
      }
    }
    FirstValidRuleDecides(q, 3);
    assert !ScheduleControlled(q.options);
    UncontrolledDecisionIsTheChain(q);
  }

  /** An expired request is never valid, whatever the schedule says. */
  lemma ExpiredRequestIsRejected(q: Request)
    requires Stops(q)
    ensures CheckNotificationValidOptions(q) == Decision(false, NoOptions)
  {
  }

  /**
    The stop test does not exempt the MinValue sentinel: without a request
    date, any moment later than SendEndDuration minutes after 0001-01-01
    rejects the notification.
  */
  lemma MissingRequestDateIsRejected(q: Request)
    requires IsRequestDateNullOrEmpty(q.requestDate)
    requires AddMinutes(MinValue, q.definition.sendEndDuration) < q.now
    ensures !CheckNotificationValidOptions(q).isValid
  {
    ExpiredRequestIsRejected(q);
  }

  /**
    Explicit options not tied to the schedule are the result exactly, as long
    as now has not passed their end and the request is not too old.
  */
  lemma ExplicitOptionsTakePrecedence(q: Request)
    requires !Stops(q)
    requires !IsNotificationOptionsNullOrEmpty(q.options) && !q.options.value.controlWithNotificationSchedule
    requires q.now <= q.options.value.sendEndTime
    ensures CheckNotificationValidOptions(q) ==
      Decision(true, Options(q.options.value.sendStartTime, q.options.value.sendEndTime, false))
  {
    FirstValidRuleDecides(q, 1);
  }

  /** With no schedule, no hard window and no options nothing is ever valid. */
  lemma NothingToSendIsRejected(q: Request)
    requires |q.definition.schedules| == 0
    requires IsNotificationDateDefinitionEmpty(q.definition)
    requires IsNotificationOptionsNullOrEmpty(q.options)
    ensures CheckNotificationValidOptions(q) == Decision(false, NoOptions)
  {
    forall i | 0 <= i < |RuleChain|
      ensures !Decide(RuleChain[i], q).isValid
    {
      NoRuleAppliesWithoutWindows(RuleChain[i], q);
    }
  }

  /** No rule applies to a definition with no schedule, no hard window and no options. */
  lemma NoRuleAppliesWithoutWindows(rule: Rule, q: Request)
    requires |q.definition.schedules| == 0
    requires IsNotificationDateDefinitionEmpty(q.definition)
    requires IsNotificationOptionsNullOrEmpty(q.options)
    ensures !Decide(rule, q).isValid
  {
  }

  /** Every valid decision comes from a rule that applies, and keeps that rule's start. */
  lemma ValidDecisionComesFromARule(q: Request)
    requires CheckNotificationValidOptions(q).isValid
    ensures exists i ::
      && 0 <= i < |RuleChain| && Decide(RuleChain[i], q).isValid
      && CheckNotificationValidOptions(q).validOptions.sendStartTime == Decide(RuleChain[i], q).sendStartTime
  {
    var r := Chain(q);
    var i :| 0 <= i < |RuleChain| && r == Decide(RuleChain[i], q)
      && forall j :: 0 <= j < i ==> !Decide(RuleChain[j], q).isValid;
  }

  /**
    With no options in force and a hard window on the definition that now has
    not passed, the decision is that window exactly, unless the request is too old.
  */
  lemma HardWindowTakesPrecedence(q: Request)
    requires !Stops(q)
    requires IsNotificationOptionsNullOrEmpty(q.options)
    requires !IsNotificationDateDefinitionEmpty(q.definition)
    requires q.now <= q.definition.sendEndTime
    ensures CheckNotificationValidOptions(q) ==
      Decision(true, Options(q.definition.sendStartTime, q.definition.sendEndTime, false))
  {
    RuleChainOrder();
    forall j | 0 <= j < 2
      ensures !Decide(RuleChain[j], q).isValid
    {
      if j == 0 {
      } else {
        assert j == 1;
      }
    }
    FirstValidRuleDecides(q, 2);
    UncontrolledDecisionIsTheChain(q);
  }

  /** Options whose both bounds are MinValue count as no options at all, whatever their flag. */
  lemma EmptyOptionsAreNoOptions(q: Request)
    requires IsNotificationOptionsNullOrEmpty(q.options)
    ensures CheckNotificationValidOptions(q) == CheckNotificationValidOptions(q.(options := None))
  {
    var q' := q.(options := None);
    forall rule: Rule
      ensures Decide(rule, q) == Decide(rule, q')
    {
    }
    RunChainAgrees(RuleChain, q, q', NoWindow);
    UncontrolledDecisionIsTheChain(q);
    UncontrolledDecisionIsTheChain(q');
  }

  /** Two requests on which every rule and the stop test agree run the same chain. */
  lemma {:induction false} RunChainAgrees(rules: seq<Rule>, q: Request, q': Request, current: ValidationInfo)
    requires Stops(q) == Stops(q')
    requires forall rule: Rule :: Decide(rule, q) == Decide(rule, q')
    ensures RunChain(rules, q, current) == RunChain(rules, q', current)
    decreases |rules|
  {
    if |rules| > 0 {
      var info := Decide(rules[0], q);
      RunChainAgrees(rules[1..], q, q', info);
    }
  }
}
