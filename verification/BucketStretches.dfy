/**
 The shared token bucket over an arbitrary stretch of an interleaved run. Threads
 that are half way through a call when the stretch begins can make it grant more
 than serial calls ever do; this is how much, and no more.
 */
module BucketStretches {
  import opened Bytes
  import opened Clock
  import Serial = TokenBuckets
  import opened BucketThreads

  /** A thread is about to credit a refill that it stamped before `from`. */
  predicate OldRefillPending(s: State, from: int) {
    s.holder.Some? &&
    var p := PointOf(s, s.holder.value);
    (p.RefillLoad? || p.RefillSwap?) && p.now < from
  }

  /** What refills may still bring for the time before `from`: one bucketful for the
      next refill, and one more for a refill that is under way. */
  function Arrears(s: State, from: int): nat {
    if CreditedUntil(s) >= from then 0
    else if OldRefillPending(s, from) then 2 * s.bucket.capacity
    else s.bucket.capacity
  }

  /** The time after `from` for which refills have been credited. */
  function Ahead(s: State, from: int): nat {
    if CreditedUntil(s) > from then CreditedUntil(s) - from else 0
  }

  /** A credited refill is paid for out of the arrears or by time after `from`. */
  lemma RefillPays(s: State, t: Turn, origin: int, from: int)
    requires Inv(s, origin)
    requires var p := PointOf(s, t.id); p.RefillSwap? && !t.spurious && s.bucket.tokens == p.current
    ensures var s' := Step(s, t);
            SECOND * (s'.refilled + Arrears(s', from)) + s.bucket.rate * Ahead(s, from)
            <= SECOND * (s.refilled + Arrears(s, from)) + s.bucket.rate * Ahead(s', from)
  {
    assert PointOk(s, t.id);
    var p, s' := PointOf(s, t.id), Step(s, t);
    Serial.MulSplit(s.bucket.rate, Ahead(s, from), p.now - s.bucket.lastRefill);
    Serial.MulMono(s.bucket.rate, Ahead(s, from), Ahead(s', from));
  }

  /** And no other step adds to the arrears or moves the account. */
  lemma OtherStepsPay(s: State, t: Turn, origin: int, from: int)
    requires Inv(s, origin) && from <= t.now
    requires var p := PointOf(s, t.id); !(p.RefillSwap? && !t.spurious && s.bucket.tokens == p.current)
    ensures var s' := Step(s, t);
            s'.refilled == s.refilled && Arrears(s', from) <= Arrears(s, from) && Ahead(s', from) == Ahead(s, from)
  {
    hide Serial.Accrued;
    assert PointOk(s, t.id);
    if s.holder.Some? && s.holder.value != t.id {
      assert PointOk(s, s.holder.value);
    }
  }

  lemma StepPays(s: State, t: Turn, origin: int, from: int)
    requires Inv(s, origin) && from <= t.now
    ensures var s' := Step(s, t);
            SECOND * (s'.refilled + Arrears(s', from)) + s.bucket.rate * Ahead(s, from)
            <= SECOND * (s.refilled + Arrears(s, from)) + s.bucket.rate * Ahead(s', from)
  {
    hide Step, Arrears, Ahead, Inv;
    var p := PointOf(s, t.id);
    if p.RefillSwap? && !t.spurious && s.bucket.tokens == p.current {
      RefillPays(s, t, origin, from);
    } else {
      OtherStepsPay(s, t, origin, from);
    }
  }

  lemma {:induction false} StretchPays(s: State, turns: seq<Turn>, origin: int, from: int)
    requires Inv(s, origin) && ReadsClockFrom(from, turns)
    ensures var s' := Run(s, turns);
            && Inv(s', origin) && s'.bucket.capacity == s.bucket.capacity && s'.bucket.rate == s.bucket.rate
            && SECOND * (s'.refilled + Arrears(s', from)) + s.bucket.rate * Ahead(s, from)
               <= SECOND * (s.refilled + Arrears(s, from)) + s.bucket.rate * Ahead(s', from)
    decreases |turns|
  {
    hide Step, Inv, Arrears, Ahead;
    if turns != [] {
      var front, last := turns[..|turns| - 1], turns[|turns| - 1];
      StretchPays(s, front, origin, from);
      StepPays(Run(s, front), last, origin, from);
      StepKeepsInv(Run(s, front), last, origin);
      StepTotals(Run(s, front), last, origin);
    }
  }

  /** All clock readings in a run are at or after this instant. */
  ghost predicate ReadsClockFrom(from: int, turns: seq<Turn>) {
    forall i :: 0 <= i < |turns| ==> from <= turns[i].now
  }

  /** Under every interleaving, what is granted in a stretch of a run whose clock readings
      lie between `from` and `until` is at most the capacity, the arrears at its start,
      and the rate for its length; at most three bucketfuls over the rate. */
  lemma StretchBound(capacity: nat, rate: nat, origin: int, before: seq<Turn>, window: seq<Turn>, from: int, until: int)
    requires origin <= until && from <= until
    requires ReadsClockBy(until, before + window) && ReadsClockFrom(from, window)
    ensures var s := Run(Start(capacity, rate, origin), before);
            var granted := Run(s, window).granted - s.granted;
            && SECOND * granted <= SECOND * (capacity + Arrears(s, from)) + rate * (until - from)
            && SECOND * granted <= SECOND * (3 * capacity) + rate * (until - from)
  {
    hide Run, Inv, CreditedUntil, ReadsClockBy, ReadsClockFrom;
    var start := Start(capacity, rate, origin);
    var s := Run(start, before);
    RunKeepsInv(capacity, rate, origin, before);
    StretchPays(s, window, origin, from);
    var s' := Run(s, window);
    RunConcat(start, before, window);
    CreditedBy(capacity, rate, origin, before + window, until);
    Serial.MulMono(rate, Ahead(s', from), until - from);
    Serial.MulMono(rate, 0, Ahead(s, from));
    InvTotals(s, origin);
    InvTotals(s', origin);
  }

  lemma InvTotals(s: State, origin: int)
    requires Inv(s, origin)
    ensures s.bucket.tokens <= s.bucket.capacity && s.bucket.capacity + s.refilled == s.bucket.tokens + s.granted
  {
  }

  // ------------------------------------------------------ the bound is reached

  /** Only `id` and the shared fields differ. */
  ghost predicate OthersStay(s: State, s': State, id: nat) {
    forall other :: other != id ==> PointOf(s', other) == PointOf(s, other)
  }

  lemma Consume(s: State, id: nat, now: int) returns (turns: seq<Turn>)
    requires PointOf(s, id).ConsumeLoad? && PointOf(s, id).amount <= s.bucket.tokens
    ensures var s', amount := Run(s, turns), PointOf(s, id).amount;
            && s'.bucket == s.bucket.(tokens := s.bucket.tokens - amount) && s'.holder == s.holder
            && s'.granted == s.granted + amount && PointOf(s', id) == Idle && OthersStay(s, s', id)
    ensures ReadsClockAt(now, turns)
  {
    hide Run, Serial.Accrued;
    var go := Turn(id, 0, now, false);
    turns := [go, go];
    RunSnoc(s, [], go);
    RunSnoc(s, [go], go);
    assert [] + [go] == [go] && [go] + [go] == turns;
    assert Run(s, []) == s by { EmptyRun(s); }
  }

  lemma EmptyRun(s: State)
    ensures Run(s, []) == s
  {
  }

  /** A thread with a refill under way fills the empty bucket and leaves the lock. */
  lemma FinishRefill(s: State, id: nat, now: int) returns (turns: seq<Turn>)
    requires PointOf(s, id).RefillLoad? && s.bucket.tokens == 0
    requires s.bucket.capacity <= PointOf(s, id).add < U64_LIMIT
    ensures var s', p := Run(s, turns), PointOf(s, id);
            && s'.bucket == s.bucket.(tokens := s.bucket.capacity, lastRefill := p.now) && s'.holder == None
            && s'.granted == s.granted && PointOf(s', id) == ConsumeLoad(p.amount) && OthersStay(s, s', id)
    ensures ReadsClockAt(now, turns)
  {
    hide Run, Serial.Accrued;
    turns := ThreeTurns(s, Turn(id, 0, now, false));
  }

  /** Thread 1 has passed its refill with the bucket full, and thread 2 is about to
      credit a refill it stamped a second later. */
  ghost predicate Poised(s: State, capacity: nat, rate: nat, origin: int) {
    && s.bucket == Serial.Bucket(capacity, rate, capacity, origin) && s.holder == Some(2) && s.granted == 0
    && PointOf(s, 1) == ConsumeLoad(capacity)
    && PointOf(s, 2) == RefillLoad(capacity, rate, origin + SECOND)
    && PointOf(s, 3) == Idle
  }

  /** A thread takes the lock, finds a refill due and is about to credit it. */
  lemma BeginRefill(s: State, id: nat, amount: nat, now: int) returns (turns: seq<Turn>)
    requires s.holder == None && PointOf(s, id) == Idle && Elapsed(now, s.bucket.lastRefill) >= SECOND
    ensures var s', add := Run(s, turns), Serial.Accrued(s.bucket.rate, Elapsed(now, s.bucket.lastRefill));
            && s'.bucket == s.bucket && s'.holder == Some(id) && s'.granted == s.granted
            && PointOf(s', id) == RefillLoad(amount, add, now) && OthersStay(s, s', id)
    ensures ReadsClockAt(now, turns)
  {
    hide Run, Serial.Accrued;
    turns := ThreeTurns(s, Turn(id, amount, now, false));
  }

  lemma GetPoised(capacity: nat, rate: nat, origin: int) returns (turns: seq<Turn>)
    requires rate < U64_LIMIT
    ensures Poised(Run(Start(capacity, rate, origin), turns), capacity, rate, origin)
    ensures ReadsClockBy(origin + SECOND, turns)
  {
    var s := Start(capacity, rate, origin);
    assert Serial.Accrued(rate, SECOND) == rate;
    hide Run, Serial.Accrued, Step;
    var first := SoloRefill(s, 1, capacity, origin);
    var s1 := Run(s, first);
    var second := BeginRefill(s1, 2, capacity, origin + SECOND);
    RunConcat(s, first, second);
    turns := first + second;
  }

  /** For every bucket whose capacity is no more than its rate, as both relays make them,
      three bucketfuls can be granted at one and the same instant. */
  lemma StretchBoundIsReached(capacity: nat, rate: nat, origin: int)
    returns (before: seq<Turn>, window: seq<Turn>, now: int)
    requires capacity <= rate < U64_LIMIT
    ensures ReadsClockBy(now, before) && ReadsClockAt(now, window)
    ensures var s := Run(Start(capacity, rate, origin), before);
            Run(s, window).granted - s.granted == 3 * capacity
  {
    now := origin + 2 * SECOND;
    before := GetPoised(capacity, rate, origin);
    var s := Run(Start(capacity, rate, origin), before);
    hide Run, Serial.Accrued, Step;
    var one := Consume(s, 1, now);
    var s1 := Run(s, one);
    var two := FinishRefill(s1, 2, now);
    var s2 := Run(s1, two);
    var three := Consume(s2, 2, now);
    var s3 := Run(s2, three);
    var four := SoloCallIsSerial(s3, 3, capacity, now);
    DueSecond(s3.bucket, now);
    RunConcat(s, one, two);
    RunConcat(s, one + two, three);
    RunConcat(s, one + two + three, four);
    window := one + two + three + four;
  }

  /** An empty bucket is full again a second after its last refill. */
  lemma DueSecond(b: Serial.Bucket, now: int)
    requires b.tokens == 0 && b.capacity <= b.rate < U64_LIMIT && now == b.lastRefill + SECOND
    ensures Serial.TryConsume(b, b.capacity, now).1
  {
    assert Serial.Accrued(b.rate, SECOND) == b.rate;
  }
}
