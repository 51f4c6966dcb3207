/**
 The sliding replay window. `ReplayWindow` is the bounded structure of the
 implementation; `Fresh` is the specification over the whole history of
 accepted counters, and `Check` is proved to compute it.
 */
module Replay {
  import opened Bytes
  import opened Sets

  /** A counter is acceptable when it was never accepted before and no accepted
      counter is more than `w` ahead of it. */
  predicate Fresh(accepted: set<nat>, w: nat, counter: nat) {
    counter !in accepted && forall a :: a in accepted ==> a <= counter + w
  }

  function SaturatingSub(a: nat, b: nat): nat {
    if a < b then 0 else a - b
  }

  class ReplayWindow {
    const windowSize: nat
    var windowBase: nat
    var seen: set<nat>
    var maxCounter: Option<nat>
    /** Every counter accepted so far. */
    ghost var accepted: set<nat>

    ghost predicate Valid()
      reads this
    {
      match maxCounter
      case None => accepted == {} && seen == {} && windowBase == 0
      case Some(max) =>
        && max in accepted
        && (forall a :: a in accepted ==> a <= max)
        && windowBase == SaturatingSub(max, windowSize)
        && seen == set a | a in accepted && a >= windowBase
    }

    constructor (windowSize: nat)
      ensures Valid() && accepted == {} && this.windowSize == windowSize
    {
      this.windowSize := windowSize;
      windowBase := 0;
      seen := {};
      maxCounter := None;
      accepted := {};
    }

    method Check(counter: nat) returns (ok: bool)
      requires Valid()
      modifies this
      ensures Valid()
      ensures ok == Fresh(old(accepted), windowSize, counter)
      ensures accepted == if ok then old(accepted) + {counter} else old(accepted)
    {
      match maxCounter {
        case None =>
          maxCounter := Some(counter);
          windowBase := SaturatingSub(counter, windowSize);
          seen := seen + {counter};
          ok := true;
        case Some(max) =>
          if counter > max {
            var newBase := SaturatingSub(counter, windowSize);
            if newBase > windowBase {
              seen := set c | c in seen && c >= newBase;
              windowBase := newBase;
            }
            maxCounter := Some(counter);
            seen := seen + {counter};
            ok := true;
          } else if counter >= windowBase {
            if counter in seen {
              ok := false;
            } else {
              seen := seen + {counter};
              ok := true;
            }
          } else {
            assert max > counter + windowSize;
            ok := false;
          }
      }
      if ok {
        accepted := accepted + {counter};
      }
    }

    /** Memory bound: the window never stores more than `windowSize + 1` counters. */
    lemma SeenIsBounded()
      requires Valid()
      ensures |seen| <= windowSize + 1
    {
      if maxCounter.Some? {
        RangeSize(seen, windowBase, maxCounter.value + 1);
      }
    }
  }

  /** The counters accepted out of a whole arrival sequence. */
  function AcceptedOf(w: nat, arrivals: seq<nat>): set<nat> {
    if arrivals == [] then {}
    else
      var before := AcceptedOf(w, arrivals[..|arrivals| - 1]);
      var c := arrivals[|arrivals| - 1];
      if Fresh(before, w, c) then before + {c} else before
  }

  /** Every arrival is accepted at the moment it arrives. */
  ghost predicate AllAccepted(w: nat, arrivals: seq<nat>) {
    forall i :: 0 <= i < |arrivals| ==> Fresh(AcceptedOf(w, arrivals[..i]), w, arrivals[i])
  }

  /** No counter arrives twice, and none is overtaken by more than `w`. */
  ghost predicate MildlyReordered(w: nat, arrivals: seq<nat>) {
    forall i, j :: 0 <= i < j < |arrivals| ==> arrivals[i] != arrivals[j] && arrivals[i] <= arrivals[j] + w
  }

  /** Whatever arrives, what is accepted arrived; what is refused leaves no trace. */
  lemma {:induction false} AcceptedArrived(w: nat, arrivals: seq<nat>)
    ensures forall c :: c in AcceptedOf(w, arrivals) ==> c in arrivals
  {
    if arrivals != [] {
      AcceptedArrived(w, arrivals[..|arrivals| - 1]);
    }
  }

  lemma {:induction false} AcceptedGrows(w: nat, arrivals: seq<nat>, i: nat)
    requires i <= |arrivals|
    ensures AcceptedOf(w, arrivals[..i]) <= AcceptedOf(w, arrivals)
    decreases |arrivals|
  {
    if i == |arrivals| {
      assert arrivals[..i] == arrivals;
    } else {
      var front := arrivals[..|arrivals| - 1];
      AcceptedGrows(w, front, i);
      assert front[..i] == arrivals[..i];
    }
  }

  /** An arrival order is accepted in full exactly when it is free of duplicates
      and no frame is overtaken by more than the window. */
  lemma {:induction false} AcceptedInFull(w: nat, arrivals: seq<nat>)
    ensures AllAccepted(w, arrivals) <==> MildlyReordered(w, arrivals)
  {
    if AllAccepted(w, arrivals) {
      forall i, j | 0 <= i < j < |arrivals|
        ensures arrivals[i] != arrivals[j] && arrivals[i] <= arrivals[j] + w
      {
        var upto := arrivals[..i + 1];
        assert upto[..i] == arrivals[..i];
        assert arrivals[i] in AcceptedOf(w, upto);
        assert arrivals[..j][..i + 1] == upto;
        AcceptedGrows(w, arrivals[..j], i + 1);
      }
    }
    if MildlyReordered(w, arrivals) {
      forall i | 0 <= i < |arrivals|
        ensures Fresh(AcceptedOf(w, arrivals[..i]), w, arrivals[i])
      {
        AcceptedArrived(w, arrivals[..i]);
        forall a | a in AcceptedOf(w, arrivals[..i])
          ensures a != arrivals[i] && a <= arrivals[i] + w
        {
          var k :| 0 <= k < i && arrivals[..i][k] == a;
          assert arrivals[k] == a;
        }
      }
    }
  }
}
