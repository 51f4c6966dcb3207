/**
 What one call of the shared token bucket gets, however it is interleaved with others:
 when it may be refused, what it takes, and that it never skips a refill it owes.
 */
module BucketCalls {
  import opened Bytes
  import opened Clock
  import Serial = TokenBuckets
  import opened BucketThreads

  /** This turn brings a call of its thread to an end. */
  predicate Finishes(s: State, t: Turn) {
    PointOf(s, t.id) != Idle && PointOf(Step(s, t), t.id) == Idle
  }

  /** A call ends in one of two ways: the tokens for its amount are not there and nothing is
      taken, or they are and exactly its amount is. A lost exchange ends nothing. */
  lemma CallOutcome(capacity: nat, rate: nat, origin: int, turns: seq<Turn>, t: Turn)
    requires Finishes(Run(Start(capacity, rate, origin), turns), t)
    ensures var s := Run(Start(capacity, rate, origin), turns);
            var s' := Step(s, t);
            var amount := PointOf(s, t.id).amount;
            && s'.bucket == s.bucket.(tokens := s'.bucket.tokens) && s'.holder == s.holder
            && s'.refilled == s.refilled
            && (if s.bucket.tokens < amount then s'.bucket.tokens == s.bucket.tokens && s'.granted == s.granted
                else s'.bucket.tokens == s.bucket.tokens - amount && s'.granted == s.granted + amount)
  {
    hide Run, Serial.Accrued;
    RunKeepsInv(capacity, rate, origin, turns);
    assert PointOk(Run(Start(capacity, rate, origin), turns), t.id);
  }

  /** A call keeps the amount it was made with, and no turn moves another thread. */
  lemma AmountIsKept(s: State, t: Turn, id: nat)
    ensures id != t.id ==> PointOf(Step(s, t), id) == PointOf(s, id)
    ensures id == t.id && PointOf(s, id) == Idle ==> PointOf(Step(s, t), id) == WantLock(t.amount)
    ensures id == t.id && PointOf(s, id) != Idle && PointOf(Step(s, t), id) != Idle ==>
              PointOf(Step(s, t), id).amount == PointOf(s, id).amount
  {
    hide Serial.Accrued;
  }

  /** A thread waits for the lock as long as another has it, and no call tries for tokens
      before it has held the lock and looked whether a refill is due. */
  lemma LockComesFirst(s: State, t: Turn)
    ensures PointOf(s, t.id).WantLock? ==>
              var s' := Step(s, t);
              if s.holder.Some? then s' == s
              else PointOf(s', t.id).Locked? && s'.holder == Some(t.id) && s'.bucket == s.bucket
    ensures PointOf(Step(s, t), t.id).ConsumeLoad? && !PointOf(s, t.id).ConsumeSwap? && Step(s, t) != s ==>
              PointOf(s, t.id).Unlocking? || (PointOf(s, t.id).Locked? && t.now - s.bucket.lastRefill < 1_000_000_000)
  {
    hide Serial.Accrued;
  }

  /** The thread has read the clock, found a refill due and not credited it yet. */
  predicate OwesRefill(s: State, id: nat) {
    PointOf(s, id).RefillLoad? || PointOf(s, id).RefillSwap?
  }

  /** This turn credits the refill that its thread owes: what `Refill` would make of the
      tokens that are there now. */
  predicate Credits(s: State, t: Turn, add: nat, now: int) {
    var s' := Step(s, t);
    && OwesRefill(s, t.id) && PointOf(s, t.id).add == add && PointOf(s, t.id).now == now
    && PointOf(s', t.id).Unlocking? && PointOf(s', t.id).now == now
    && s'.bucket == s.bucket.(tokens := Min((s.bucket.tokens + add) % U64_LIMIT, s.bucket.capacity))
  }

  /** Whoever holds the lock reads the clock, and owes a refill exactly if the last one is
      a second old: the rate for every whole second since. Otherwise it lets the lock go. */
  lemma RefillFallsDue(s: State, t: Turn)
    requires PointOf(s, t.id).Locked?
    ensures var s' := Step(s, t);
            var elapsed := t.now - s.bucket.lastRefill;
            && s'.bucket == s.bucket
            && (OwesRefill(s', t.id) <==> elapsed >= 1_000_000_000)
            && (elapsed >= 1_000_000_000 ==>
                && s'.holder == s.holder
                && PointOf(s', t.id).add == s.bucket.rate * (elapsed / 1_000_000_000) % U64_LIMIT
                && PointOf(s', t.id).now == t.now)
            && (elapsed < 1_000_000_000 ==> s'.holder == None && PointOf(s', t.id).ConsumeLoad?)
  {
  }

  lemma OwingStep(s: State, t: Turn, id: nat)
    requires OwesRefill(s, id)
    ensures var p, p' := PointOf(s, id), PointOf(Step(s, t), id);
            || (t.id == id && Credits(s, t, p.add, p.now))
            || (OwesRefill(Step(s, t), id) && p'.amount == p.amount && p'.add == p.add && p'.now == p.now)
  {
    hide Serial.Accrued;
  }

  /** A thread that owes a refill still owes it after any turns, or one of them was its own
      and credited it: no call gets past its refill without making it. */
  lemma {:induction false} RefillIsCredited(s: State, turns: seq<Turn>, id: nat)
    requires OwesRefill(s, id)
    ensures var p, p' := PointOf(s, id), PointOf(Run(s, turns), id);
            || (OwesRefill(Run(s, turns), id) && p'.amount == p.amount && p'.add == p.add && p'.now == p.now)
            || exists i :: 0 <= i < |turns| && turns[i].id == id && Credits(Run(s, turns[..i]), turns[i], p.add, p.now)
    decreases |turns|
  {
    hide Step, Credits;
    if turns != [] {
      var front, last := turns[..|turns| - 1], turns[|turns| - 1];
      RefillIsCredited(s, front, id);
      var p := PointOf(s, id);
      if i :| 0 <= i < |front| && front[i].id == id && Credits(Run(s, front[..i]), front[i], p.add, p.now) {
        assert front[..i] == turns[..i] && front[i] == turns[i];
      } else {
        OwingStep(Run(s, front), last, id);
        assert turns[..|front|] == front;
      }
    }
  }

  /** The stamp is stored, and the lock let go, only after the credit. */
  lemma StampFollowsCredit(s: State, t: Turn)
    requires PointOf(s, t.id).Unlocking?
    ensures var s' := Step(s, t);
            && s'.bucket == s.bucket.(lastRefill := PointOf(s, t.id).now) && s'.holder == None
            && PointOf(s', t.id).ConsumeLoad?
  {
  }

  /** Nothing but a credit and a granted call moves the tokens, and nothing but the turn
      after a credit moves the stamp. */
  lemma NothingElseMoves(s: State, t: Turn)
    ensures var s' := Step(s, t);
            && (s'.bucket.tokens != s.bucket.tokens ==>
                Finishes(s, t) || exists add, now :: Credits(s, t, add, now))
            && (s'.bucket.lastRefill != s.bucket.lastRefill ==> PointOf(s, t.id).Unlocking?)
            && (s'.granted != s.granted ==> Finishes(s, t))
  {
    hide Serial.Accrued;
    var p := PointOf(s, t.id);
    if p.RefillSwap? && !t.spurious && s.bucket.tokens == p.current {
      assert Credits(s, t, p.add, p.now);
    }
  }
}
