/** The stateful failover manager; each method is proved to follow `Failover`. */
module FailoverObject {
  import opened Bytes
  import opened Failover

  class FailoverManager {
    var currentIdx: nat
    var states: seq<EndpointState>

    ghost predicate Valid()
      reads this
    {
      View().Valid()
    }

    ghost function View(): Manager
      reads this
    {
      Manager(currentIdx, states)
    }

    constructor (endpoints: nat)
      requires endpoints > 0
      ensures Valid() && View() == NewManager(endpoints)
    {
      currentIdx := 0;
      states := seq(endpoints, _ => EndpointState(0, None));
    }

    method ReportFailure(now: int)
      requires Valid()
      modifies this
      ensures Valid() && View() == Failover.ReportFailure(old(View()), now)
    {
      var idx := currentIdx;
      states := states[idx := states[idx].(consecutiveFailures := (states[idx].consecutiveFailures + 1) % U32_LIMIT)];
      states := states[idx := states[idx].(lastFailure := Some(now))];
      assert View() == Charge(old(View()), now);
      if states[idx].consecutiveFailures >= FAILURE_THRESHOLD {
        var _ := TrySwitchLocked(now);
      }
    }

    method ReportSuccess()
      requires Valid()
      modifies this
      ensures Valid() && View() == Failover.ReportSuccess(old(View()))
    {
      states := states[currentIdx := states[currentIdx].(consecutiveFailures := 0)];
      states := states[currentIdx := states[currentIdx].(lastFailure := None)];
    }

    method TrySwitchLocked(now: int) returns (switched: bool)
      requires Valid()
      modifies this
      ensures Valid() && (View(), switched) == Failover.TrySwitch(old(View()), now)
    {
      var len := |states|;
      var oldIdx := currentIdx;
      for step := 1 to len + 1
        invariant View() == old(View())
        invariant Search(states, oldIdx, now, 1) == Search(states, oldIdx, now, step)
      {
        var candidate := (oldIdx + step) % len;
        if !InCooldown(states[candidate], now) {
          states := states[oldIdx := states[oldIdx].(consecutiveFailures := 0)];
          currentIdx := candidate;
          return true;
        }
      }
      return false;
    }
  }
}
