/**
 The failover manager: a priority list of endpoints, a failure threshold on the
 current one and a cooldown per endpoint. Instants are nanoseconds and may be
 handed in in any order, because the clock is read before the lock is taken.
 */
module Failover {
  import opened Bytes
  import opened Clock

  const FAILOVER_MIN_INTERVAL: nat := 60 * SECOND
  const FAILURE_THRESHOLD: nat := 3

  datatype EndpointState = EndpointState(consecutiveFailures: nat, lastFailure: Option<int>)

  predicate InCooldown(e: EndpointState, now: int) {
    e.lastFailure.Some? && Elapsed(now, e.lastFailure.value) < FAILOVER_MIN_INTERVAL
  }

  datatype Manager = Manager(current: nat, states: seq<EndpointState>) {
    ghost predicate Valid() {
      && current < |states|
      && forall i :: 0 <= i < |states| && i != current ==> states[i].consecutiveFailures == 0
    }

    function Failures(): nat
      requires current < |states|
    {
      states[current].consecutiveFailures
    }
  }

  /** A manager starts on the first endpoint, with none of them cooling. */
  function NewManager(endpoints: nat): (m: Manager)
    ensures endpoints > 0 ==> m.Valid()
    ensures m.current == 0 && |m.states| == endpoints
    ensures forall i, now :: 0 <= i < endpoints ==> !InCooldown(m.states[i], now) && m.states[i].consecutiveFailures == 0
  {
    Manager(0, seq(endpoints, _ => EndpointState(0, None)))
  }

  // --------------------------------------------------------------- operations

  predicate CoolingAt(states: seq<EndpointState>, from: nat, now: int, step: nat)
    requires |states| > 0
  {
    InCooldown(states[(from + step) % |states|], now)
  }

  /** The search loop of `try_switch_locked`, from a given step on. */
  function Search(states: seq<EndpointState>, from: nat, now: int, step: nat): (r: Option<nat>)
    requires |states| > 0
    ensures r.Some? ==> r.value < |states| && !InCooldown(states[r.value], now)
    decreases |states| + 1 - step
  {
    if step > |states| then None
    else if CoolingAt(states, from, now, step) then Search(states, from, now, step + 1)
    else Some((from + step) % |states|)
  }

  function TrySwitch(m: Manager, now: int): (r: (Manager, bool))
    requires m.Valid()
    ensures r.0.Valid() && |r.0.states| == |m.states|
  {
    match Search(m.states, m.current, now, 1)
    case None => (m, false)
    case Some(candidate) =>
      var left := m.states[m.current].(consecutiveFailures := 0);
      (Manager(candidate, m.states[m.current := left]), true)
  }

  /** The failing endpoint is stamped and its 32-bit count goes up by one. */
  function Charge(m: Manager, now: int): (m': Manager)
    requires m.Valid()
    ensures m'.Valid()
  {
    var e := EndpointState((m.Failures() + 1) % U32_LIMIT, Some(now));
    m.(states := m.states[m.current := e])
  }

  function ReportFailure(m: Manager, now: int): (m': Manager)
    requires m.Valid()
    ensures m'.Valid() && |m'.states| == |m.states|
  {
    var charged := Charge(m, now);
    if charged.Failures() >= FAILURE_THRESHOLD then TrySwitch(charged, now).0 else charged
  }

  function ReportSuccess(m: Manager): (m': Manager)
    requires m.Valid()
    ensures m'.Valid()
    ensures forall now :: !InCooldown(m'.states[m'.current], now)
  {
    m.(states := m.states[m.current := EndpointState(0, None)])
  }

  /** A failure less than 60 seconds before `now`, or after it. */
  predicate FailedLately(e: EndpointState, now: int) {
    match e.lastFailure
    case None => false
    case Some(t) => now - t < 60_000_000_000
  }

  lemma CoolingExactly(e: EndpointState, now: int)
    ensures InCooldown(e, now) <==> FailedLately(e, now)
  {
  }

  /** `step` leads to the first endpoint after the current one that is not cooling. */
  ghost predicate FirstHealthy(states: seq<EndpointState>, from: nat, now: int, step: nat)
    requires |states| > 0
  {
    && 1 <= step <= |states|
    && !CoolingAt(states, from, now, step)
    && forall s :: 1 <= s < step ==> CoolingAt(states, from, now, s)
  }

  lemma {:induction false} SearchFrom(states: seq<EndpointState>, from: nat, now: int, step: nat)
    requires |states| > 0 && 1 <= step
    requires forall s :: 1 <= s < step ==> CoolingAt(states, from, now, s)
    ensures match Search(states, from, now, step)
            case Some(c) => exists s :: FirstHealthy(states, from, now, s) && c == (from + s) % |states|
            case None => forall s :: 1 <= s <= |states| ==> CoolingAt(states, from, now, s)
    decreases |states| + 1 - step
  {
    hide CoolingAt;
    if step <= |states| {
      if CoolingAt(states, from, now, step) {
        SearchFrom(states, from, now, step + 1);
      } else {
        assert FirstHealthy(states, from, now, step);
      }
    }
  }

  lemma StepTo(n: nat, from: nat, target: nat) returns (step: nat)
    requires from < n && target < n
    ensures 1 <= step <= n && (from + step) % n == target
  {
    step := if target > from then target - from else target + n - from;
  }

  lemma AllStepsCooling(states: seq<EndpointState>, from: nat, now: int, i: nat)
    requires from < |states| && i < |states|
    requires forall s :: 1 <= s <= |states| ==> CoolingAt(states, from, now, s)
    ensures InCooldown(states[i], now)
  {
    hide InCooldown;
    var step := StepTo(|states|, from, i);
    assert CoolingAt(states, from, now, step);
  }

  /** The endpoint `step` places after the current one, in a circle, has failed lately. */
  predicate FailedAfter(m: Manager, now: int, step: nat)
    requires m.Valid()
  {
    FailedLately(m.states[(m.current + step) % |m.states|], now)
  }

  /** The first endpoint after the current one that has not failed lately is `step` on. */
  ghost predicate NextInLine(m: Manager, now: int, step: nat)
    requires m.Valid()
  {
    && 1 <= step <= |m.states|
    && !FailedAfter(m, now, step)
    && forall s :: 1 <= s < step ==> FailedAfter(m, now, s)
  }

  /** A switch goes to the first endpoint in cyclic order after the current one that has
      not failed within 60 seconds; the one it leaves starts again from zero failures but
      keeps its stamp, and no other changes. It fails exactly when every endpoint, the
      current one included, has failed lately, and then changes nothing. */
  lemma SwitchPicksFirstHealthy(m: Manager, now: int)
    requires m.Valid()
    ensures var (m', switched) := TrySwitch(m, now);
            && (switched ==> exists s :: NextInLine(m, now, s) && m'.current == (m.current + s) % |m.states|)
            && (switched ==> m'.states == m.states[m.current := EndpointState(0, m.states[m.current].lastFailure)])
            && (!switched ==> m' == m)
            && (!switched <==> forall i :: 0 <= i < |m.states| ==> FailedLately(m.states[i], now))
  {
    hide FirstHealthy, CoolingAt, NextInLine, InCooldown, FailedLately;
    SearchFrom(m.states, m.current, now, 1);
    if TrySwitch(m, now).1 {
      var s :| FirstHealthy(m.states, m.current, now, s) && TrySwitch(m, now).0.current == (m.current + s) % |m.states|;
      InLine(m, now, s);
      CoolingExactly(m.states[TrySwitch(m, now).0.current], now);
    } else {
      forall i | 0 <= i < |m.states|
        ensures FailedLately(m.states[i], now)
      {
        AllStepsCooling(m.states, m.current, now, i);
        CoolingExactly(m.states[i], now);
      }
    }
  }

  lemma InLine(m: Manager, now: int, step: nat)
    requires m.Valid() && FirstHealthy(m.states, m.current, now, step)
    ensures NextInLine(m, now, step)
  {
    hide FailedAfter, CoolingAt;
    forall s: nat ensures FailedAfter(m, now, s) <==> CoolingAt(m.states, m.current, now, s) {
      CoolingAfter(m, now, s);
    }
  }

  lemma CoolingAfter(m: Manager, now: int, step: nat)
    requires m.Valid()
    ensures FailedAfter(m, now, step) <==> CoolingAt(m.states, m.current, now, step)
  {
    CoolingExactly(m.states[(m.current + step) % |m.states|], now);
    hide InCooldown, FailedLately;
  }

  /** A failure stamps the current endpoint and counts against it. From the third on the
      manager moves to the next endpoint in line, if any other has not failed lately, and
      the one it leaves starts again from zero; no other endpoint changes. */
  lemma FailureExactly(m: Manager, now: int)
    requires m.Valid()
    ensures var m' := ReportFailure(m, now);
            var failures := (m.Failures() + 1) % 0x1_0000_0000;
            var moves := failures >= 3 && exists i :: 0 <= i < |m.states| && i != m.current && !FailedLately(m.states[i], now);
            && m'.states == m.states[m.current := EndpointState(if moves then 0 else failures, Some(now))]
            && (moves ==> exists s :: NextInLine(Charge(m, now), now, s) && m'.current == (m.current + s) % |m.states|)
            && (!moves ==> m'.current == m.current)
  {
    var charged := Charge(m, now);
    SwitchPicksFirstHealthy(charged, now);
    hide Search, NextInLine;
    assert FailedLately(charged.states[m.current], now);
    assert forall i :: 0 <= i < |m.states| && i != m.current ==> charged.states[i] == m.states[i];
  }

  // ----------------------------------------------------------------- whole runs

  /** `Manual` is a direct call of `try_switch`. */
  datatype Event = Failure(now: int) | Success | Manual(now: int)

  function Step(m: Manager, e: Event): (m': Manager)
    requires m.Valid()
    ensures m'.Valid() && |m'.states| == |m.states|
  {
    match e
    case Failure(now) => ReportFailure(m, now)
    case Success => ReportSuccess(m)
    case Manual(now) => TrySwitch(m, now).0
  }

  function Run(m: Manager, events: seq<Event>): (m': Manager)
    requires m.Valid()
    ensures m'.Valid() && |m'.states| == |m.states|
  {
    if events == [] then m
    else Step(Run(m, events[..|events| - 1]), events[|events| - 1])
  }

  /** A reported failure made the manager move on. */
  predicate AutomaticSwitch(m: Manager, e: Event)
    requires m.Valid()
  {
    e.Failure? && Step(m, e).current != m.current
  }

  function AutomaticSwitches(m: Manager, events: seq<Event>): nat
    requires m.Valid()
  {
    if events == [] then 0
    else
      var front, last := events[..|events| - 1], events[|events| - 1];
      AutomaticSwitches(m, front) + if AutomaticSwitch(Run(m, front), last) then 1 else 0
  }

  function FailuresReported(events: seq<Event>): nat {
    if events == [] then 0
    else FailuresReported(events[..|events| - 1]) + if events[|events| - 1].Failure? then 1 else 0
  }

  /** What one event does to the amortised account. */
  lemma StepPays(m: Manager, e: Event)
    requires m.Valid()
    ensures (if AutomaticSwitch(m, e) then FAILURE_THRESHOLD else 0) + Step(m, e).Failures()
         <= m.Failures() + if e.Failure? then 1 else 0
  {
  }

  /** Every automatic switch is paid for by three reported failures of its own. */
  lemma {:induction false} SwitchesArePaidFor(endpoints: nat, events: seq<Event>)
    requires endpoints > 0
    ensures var m := NewManager(endpoints);
            3 * AutomaticSwitches(m, events) + Run(m, events).Failures() <= FailuresReported(events)
    decreases |events|
  {
    if events != [] {
      var front, last := events[..|events| - 1], events[|events| - 1];
      SwitchesArePaidFor(endpoints, front);
      StepPays(Run(NewManager(endpoints), front), last);
    }
  }

  // ------------------------------------------------------------------- re-entry

  /** An endpoint that is not current keeps its stamp. */
  lemma BystanderKeepsStamp(m: Manager, e: Event, x: nat)
    requires m.Valid() && x < |m.states| && x != m.current
    ensures Step(m, e).states[x] == m.states[x]
  {
  }

  /** An automatic switch leaves the endpoint stamped with the time of the switch. */
  lemma LeavingStamps(m: Manager, e: Event)
    requires m.Valid() && AutomaticSwitch(m, e)
    ensures Step(m, e).states[m.current].lastFailure == Some(e.now)
  {
  }

  /** Whatever becomes current by an event was not cooling at its stamp. */
  lemma EnteringIsHealthy(m: Manager, e: Event)
    requires m.Valid() && Step(m, e).current != m.current
    ensures !e.Success? && Step(m, e).current < |m.states|
    ensures !InCooldown(m.states[Step(m, e).current], e.now)
  {
  }

  /** The manager after the first `k` events. */
  function At(m: Manager, events: seq<Event>, k: nat): (m': Manager)
    requires m.Valid() && k <= |events|
    ensures m'.Valid() && |m'.states| == |m.states|
  {
    Run(m, events[..k])
  }

  lemma RunStep(m: Manager, events: seq<Event>, k: nat)
    requires m.Valid() && k < |events|
    ensures At(m, events, k + 1) == Step(At(m, events, k), events[k])
  {
    hide Step;
    assert events[..k + 1][..k] == events[..k];
  }

  lemma {:induction false} StampSurvives(m: Manager, events: seq<Event>, i: nat, j: nat, x: nat, t: int)
    requires m.Valid() && i <= j <= |events| && x < |m.states|
    requires forall k :: i <= k < j ==> At(m, events, k).current != x
    requires At(m, events, i).states[x].lastFailure == Some(t)
    ensures At(m, events, j).states[x].lastFailure == Some(t)
    decreases j - i
  {
    hide Step, At;
    if i < j {
      StampSurvives(m, events, i, j - 1, x, t);
      RunStep(m, events, j - 1);
      BystanderKeepsStamp(At(m, events, j - 1), events[j - 1], x);
    }
  }

  /** An endpoint left by an automatic switch becomes current again only through a
      switch stamped at least the minimum interval later. */
  lemma ReentryIsSpaced(m: Manager, events: seq<Event>, i: nat, j: nat)
    requires m.Valid() && i < j < |events|
    requires AutomaticSwitch(At(m, events, i), events[i])
    requires forall k :: i < k <= j ==> At(m, events, k).current != At(m, events, i).current
    requires At(m, events, j + 1).current == At(m, events, i).current
    ensures !events[j].Success? && events[j].now >= events[i].now + 60_000_000_000
  {
    hide Step, At;
    var x := At(m, events, i).current;
    RunStep(m, events, i);
    RunStep(m, events, j);
    LeavingStamps(At(m, events, i), events[i]);
    StampSurvives(m, events, i + 1, j, x, events[i].now);
    EnteringIsHealthy(At(m, events, j), events[j]);
  }

  /** Two endpoints, the second one healthy. */
  function Pair(current: nat, failures: nat, last: Option<int>): (m: Manager)
    ensures current == 0 || (current == 1 && failures == 0) ==> m.Valid()
    ensures m.current == current
  {
    Manager(current, [EndpointState(failures, last), EndpointState(0, None)])
  }

  lemma PairFails(failures: nat, last: Option<int>, t: int)
    requires failures < 3
    ensures Step(Pair(0, failures, last), Failure(t))
         == if failures < 2 then Pair(0, failures + 1, Some(t)) else Pair(1, 0, Some(t))
  {
    var charged := Charge(Pair(0, failures, last), t);
    assert charged == Pair(0, failures + 1, Some(t));
    assert !CoolingAt(charged.states, 0, t, 1);
  }

  lemma PairReturns(t: int)
    ensures Step(Pair(1, 0, Some(t)), Manual(t + 60_000_000_000)) == Pair(0, 0, Some(t))
  {
    var m, now := Pair(1, 0, Some(t)), t + 60_000_000_000;
    assert !CoolingAt(m.states, 1, now, 1);
    assert Search(m.states, 1, now, 1) == Some(0);
  }

  lemma PairIsNew()
    ensures NewManager(2) == Pair(0, 0, None)
  {
  }

  /** Three failures and, 60 seconds later, a call of `try_switch`. */
  function Comeback(t: int): (events: seq<Event>)
    ensures |events| == 4
  {
    [Failure(t), Failure(t), Failure(t), Manual(t + 60_000_000_000)]
  }

  lemma RunSnoc(m: Manager, events: seq<Event>, e: Event)
    requires m.Valid()
    ensures Run(m, events + [e]) == Step(Run(m, events), e)
  {
    hide Step;
    assert (events + [e])[..|events|] == events;
  }

  lemma RunThree(m: Manager, a: Event, b: Event, c: Event)
    requires m.Valid()
    ensures Run(m, [a, b, c]) == Step(Step(Step(m, a), b), c)
  {
    hide Step;
    RunSnoc(m, [], a);
    RunSnoc(m, [a], b);
    RunSnoc(m, [a, b], c);
    assert [] + [a] == [a] && [a] + [b] == [a, b] && [a, b] + [c] == [a, b, c];
  }

  lemma PairLeaves(t: int)
    ensures Run(Pair(0, 0, None), [Failure(t), Failure(t), Failure(t)]) == Pair(1, 0, Some(t))
  {
    hide Step, Run, Pair;
    RunThree(Pair(0, 0, None), Failure(t), Failure(t), Failure(t));
    PairFails(0, None, t);
    PairFails(1, Some(t), t);
    PairFails(2, Some(t), t);
  }

  /** The interval is exact: of two endpoints, the first is left at its third failure and
      is current again by a call of `try_switch` 60 seconds later. */
  lemma ReentryAfterSixtySeconds(t: int)
    ensures Run(NewManager(2), Comeback(t)[..3]).current == 1
    ensures Run(NewManager(2), Comeback(t)).current == 0
  {
    var failures := [Failure(t), Failure(t), Failure(t)];
    assert Comeback(t)[..3] == failures && Comeback(t) == failures + [Manual(t + 60_000_000_000)];
    hide Step, Run, Comeback, NewManager, Pair;
    PairIsNew();
    PairLeaves(t);
    RunSnoc(Pair(0, 0, None), failures, Manual(t + 60_000_000_000));
    PairReturns(t);
  }
}
