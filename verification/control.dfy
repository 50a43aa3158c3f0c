/**
 * The polling-rule toggle (lib/lambdas/controlLambda.ts): the workflow calls
 * it with `enable` or `disable` to switch the recurring position-fetch rule.
 * The rule's state is an abstract flag; whether the events service accepts
 * the call (it rejects, for one, a rule name that is missing) is a parameter.
 */
module Control {
  import opened Wrappers

  /** The invocation payload; only `action` is read, the whole event is echoed back. */
  datatype Event = Event(action: Option<string>, detail: map<string, string>)

  /** What the handler does with an event. */
  datatype Action = Enable | Disable | Ignore

  /** The strict comparisons `action === 'enable'` and `action === 'disable'`. */
  function ActionOf(event: Event): (a: Action)
    ensures a == Enable <==> event.action == Some("enable")
    ensures a == Disable <==> event.action == Some("disable")
  {
    if event.action == Some("enable") then Enable
    else if event.action == Some("disable") then Disable
    else Ignore
  }

  /** JavaScript truthiness of an optional string: neither undefined nor empty. */
  predicate Truthy(v: Option<string>) {
    v.Some? && v.value != ""
  }

  /**
   * The result of one invocation: the rule state afterwards, what the handler
   * returned (None for undefined), and whether it logged the missing-parameter warning.
   */
  datatype Invocation = Invocation(enabled: bool, returned: Option<Event>, warnedMissing: bool)

  /**
   * Whether the service call for an `enable` or `disable` throws: it does when
   * the service is down (`toggleFails`) and, whatever the service state, when
   * the rule name is missing or empty, since the call's `Name` is required.
   */
  predicate ToggleThrows(ruleName: Option<string>, toggleFails: bool) {
    toggleFails || !Truthy(ruleName)
  }

  /**
   * handler: a missing rule name or action is only logged; `enable` and
   * `disable` call the service, anything else is ignored; the event is
   * returned unless the service call throws.
   */
  function Handle(enabled: bool, ruleName: Option<string>, event: Event, toggleFails: bool): (r: Invocation)
    ensures r.warnedMissing <==> !Truthy(ruleName) || !Truthy(event.action)
    ensures r.returned.Some? ==> r.returned.value == event
    ensures r.returned.None? <==> ToggleThrows(ruleName, toggleFails) && ActionOf(event) != Ignore
    ensures r.returned.None? ==> r.enabled == enabled
  {
    var warned := !Truthy(ruleName) || !Truthy(event.action);
    var throws := ToggleThrows(ruleName, toggleFails);
    match ActionOf(event)
    case Ignore => Invocation(enabled, Some(event), warned)
    case Enable => if throws then Invocation(enabled, None, warned) else Invocation(true, Some(event), warned)
    case Disable => if throws then Invocation(enabled, None, warned) else Invocation(false, Some(event), warned)
  }

  /**
   * With a rule name and a working service, `enable` leaves the rule enabled
   * whatever its prior state; without a rule name the call throws.
   */
  lemma EnableTurnsOn(enabled: bool, ruleName: Option<string>, event: Event)
    requires event.action == Some("enable")
    ensures Handle(enabled, ruleName, event, false) ==
      if Truthy(ruleName) then Invocation(true, Some(event), false) else Invocation(enabled, None, true)
  {
  }

  /**
   * With a rule name and a working service, `disable` leaves the rule disabled
   * whatever its prior state; without a rule name the call throws.
   */
  lemma DisableTurnsOff(enabled: bool, ruleName: Option<string>, event: Event)
    requires event.action == Some("disable")
    ensures Handle(enabled, ruleName, event, false) ==
      if Truthy(ruleName) then Invocation(false, Some(event), false) else Invocation(enabled, None, true)
  {
  }

  /** Any other action, a missing one included, changes nothing and never fails. */
  lemma OtherActionIgnored(enabled: bool, ruleName: Option<string>, event: Event, toggleFails: bool)
    requires event.action != Some("enable") && event.action != Some("disable")
    ensures var r := Handle(enabled, ruleName, event, toggleFails);
      r.enabled == enabled && r.returned == Some(event)
  {
  }

  /**
   * A missing or empty rule name is only logged, and execution carries on:
   * an ignored action still returns the event, while `enable` and `disable`
   * reach the service call, which throws, so nothing is returned and the
   * rule keeps its state.
   */
  lemma MissingParametersOnlyLogged(enabled: bool, ruleName: Option<string>, event: Event, toggleFails: bool)
    requires !Truthy(ruleName)
    ensures var r := Handle(enabled, ruleName, event, toggleFails);
      r.warnedMissing && r.enabled == enabled &&
      (r.returned == Some(event) <==> ActionOf(event) == Ignore) &&
      (r.returned == None <==> ActionOf(event) != Ignore)
  {
  }

  /** A missing action is only logged as well: with a rule name, the invocation returns the event. */
  lemma MissingActionOnlyLogged(enabled: bool, ruleName: Option<string>, event: Event, toggleFails: bool)
    requires Truthy(ruleName) && !Truthy(event.action)
    ensures Handle(enabled, ruleName, event, toggleFails) == Invocation(enabled, Some(event), true)
  {
  }

  /** Repeating an action that succeeded leaves the state it produced, whether or not the repeat succeeds. */
  lemma ToggleIdempotent(enabled: bool, ruleName: Option<string>, event: Event, secondFails: bool)
    requires Handle(enabled, ruleName, event, false).returned.Some?
    ensures var once := Handle(enabled, ruleName, event, false);
      Handle(once.enabled, ruleName, event, secondFails).enabled == once.enabled
  {
  }

  /** The rule state after a run of invocations while the service is up. */
  function ApplyAll(enabled: bool, ruleName: Option<string>, events: seq<Event>): bool
    decreases |events|
  {
    if |events| == 0 then enabled
    else Handle(ApplyAll(enabled, ruleName, events[..|events| - 1]), ruleName, events[|events| - 1], false).enabled
  }

  /** The state the last enable or disable in `events` asks for, if there is one. */
  function LastToggle(events: seq<Event>): (r: Option<bool>)
    ensures r.None? <==> forall i :: 0 <= i < |events| ==> ActionOf(events[i]) == Ignore
    decreases |events|
  {
    if |events| == 0 then None
    else match ActionOf(events[|events| - 1])
      case Enable => Some(true)
      case Disable => Some(false)
      case Ignore =>
        var r := LastToggle(events[..|events| - 1]);
        assert forall i :: 0 <= i < |events| - 1 ==> events[..|events| - 1][i] == events[i];
        r
  }

  /**
   * The state is decided by the last toggle alone: there is no count of
   * overlapping enables. Without a rule name every toggle throws and the
   * state never moves.
   */
  lemma {:induction false} LastToggleWins(enabled: bool, ruleName: Option<string>, events: seq<Event>)
    ensures ApplyAll(enabled, ruleName, events) == if !Truthy(ruleName) then enabled else match LastToggle(events)
      case None => enabled
      case Some(b) => b
  {
    if |events| > 0 {
      LastToggleWins(enabled, ruleName, events[..|events| - 1]);
    }
  }

  /**
   * Two overlapping windows: both enable, then the first window closes and
   * disables. Polling stops although the second window is still open.
   */
  lemma OverlappingWindowsDisable(ruleName: Option<string>)
    ensures ApplyAll(false, ruleName, [Event(Some("enable"), map[]), Event(Some("enable"), map[]), Event(Some("disable"), map[])]) == false
  {
    var events := [Event(Some("enable"), map[]), Event(Some("enable"), map[]), Event(Some("disable"), map[])];
    LastToggleWins(false, ruleName, events);
  }
}
