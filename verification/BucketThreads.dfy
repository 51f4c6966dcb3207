/**
 The token bucket shared by any number of threads. A thread is at one of the
 program points of `try_consume`; every load, compare-exchange, lock and unlock
 is a step of its own, and a weak compare-exchange may fail for no reason.
 */
module BucketThreads {
  import opened Bytes
  import opened Clock
  import opened TokenBuckets

  /** Where a thread is. From `Locked` to `Unlocking` it holds the refill lock. */
  datatype Point =
    | Idle
    | WantLock(amount: nat)
    | Locked(amount: nat)
    | RefillLoad(amount: nat, add: nat, now: int)
    | RefillSwap(amount: nat, add: nat, now: int, current: nat)
    | Unlocking(amount: nat, now: int)
    | ConsumeLoad(amount: nat)
    | ConsumeSwap(amount: nat, current: nat)
  {
    predicate HoldsLock() {
      Locked? || RefillLoad? || RefillSwap? || Unlocking?
    }
  }

  /** The shared bucket, the lock, the threads, and two running totals. */
  datatype State = State(bucket: Bucket, holder: Option<nat>, threads: map<nat, Point>, granted: nat, refilled: int)

  function PointOf(s: State, id: nat): Point {
    if id in s.threads then s.threads[id] else Idle
  }

  function Move(s: State, id: nat, p: Point): State {
    s.(threads := s.threads[id := p])
  }

  /** One step of thread `id`; the input is used where the step needs one. */
  datatype Turn = Turn(id: nat, amount: nat, now: int, spurious: bool)

  function Step(s: State, t: Turn): State {
    match PointOf(s, t.id)
    case Idle => Move(s, t.id, WantLock(t.amount))
    case WantLock(amount) =>
      if s.holder.Some? then s else Move(s, t.id, Locked(amount)).(holder := Some(t.id))
    case Locked(amount) =>
      var elapsed := Elapsed(t.now, s.bucket.lastRefill);
      if elapsed >= SECOND then Move(s, t.id, RefillLoad(amount, Accrued(s.bucket.rate, elapsed), t.now))
      else Move(s, t.id, ConsumeLoad(amount)).(holder := None)
    case RefillLoad(amount, add, now) => Move(s, t.id, RefillSwap(amount, add, now, s.bucket.tokens))
    case RefillSwap(amount, add, now, current) =>
      if t.spurious || s.bucket.tokens != current then Move(s, t.id, RefillLoad(amount, add, now))
      else
        var tokens := Min((current + add) % U64_LIMIT, s.bucket.capacity);
        Move(s, t.id, Unlocking(amount, now)).(bucket := s.bucket.(tokens := tokens),
                                               refilled := s.refilled + tokens - current)
    case Unlocking(amount, now) =>
      Move(s, t.id, ConsumeLoad(amount)).(bucket := s.bucket.(lastRefill := now), holder := None)
    case ConsumeLoad(amount) =>
      if s.bucket.tokens < amount then Move(s, t.id, Idle)
      else Move(s, t.id, ConsumeSwap(amount, s.bucket.tokens))
    case ConsumeSwap(amount, current) =>
      if t.spurious || s.bucket.tokens != current then Move(s, t.id, ConsumeLoad(amount))
      else
        var left := if current >= amount then current - amount else (current - amount) % U64_LIMIT;
        Move(s, t.id, Idle).(bucket := s.bucket.(tokens := left), granted := s.granted + amount)
  }

  function Start(capacity: nat, rate: nat, now: int): State {
    State(Bucket(capacity, rate, capacity, now), None, map[], 0, 0)
  }

  function Run(s: State, turns: seq<Turn>): State {
    if turns == [] then s
    else Step(Run(s, turns[..|turns| - 1]), turns[|turns| - 1])
  }

  // ------------------------------------------------------------------ invariant

  /** What is known about a thread from where it is. */
  ghost predicate PointOk(s: State, id: nat) {
    var p := PointOf(s, id);
    && (p.HoldsLock() <==> s.holder == Some(id))
    && (p.ConsumeSwap? ==> p.amount <= p.current <= s.bucket.capacity)
    && (p.RefillLoad? || p.RefillSwap? ==>
        p.now >= s.bucket.lastRefill && SECOND * p.add <= s.bucket.rate * (p.now - s.bucket.lastRefill))
    && (p.Unlocking? ==> p.now >= s.bucket.lastRefill)
  }

  /** The instant up to which refills have been credited: a thread that has swapped
      its tokens in but not yet stored the time of its refill is ahead of the bucket. */
  function CreditedUntil(s: State): int {
    if s.holder.Some? && PointOf(s, s.holder.value).Unlocking?
    then PointOf(s, s.holder.value).now else s.bucket.lastRefill
  }

  ghost predicate Inv(s: State, origin: int) {
    && s.bucket.tokens <= s.bucket.capacity
    && s.bucket.capacity + s.refilled == s.bucket.tokens + s.granted
    && s.bucket.lastRefill >= origin
    && SECOND * s.refilled <= s.bucket.rate * (CreditedUntil(s) - origin)
    && forall id :: PointOk(s, id)
  }

  lemma StepTotals(s: State, t: Turn, origin: int)
    requires Inv(s, origin)
    ensures var s' := Step(s, t);
            && s'.bucket.capacity == s.bucket.capacity && s'.bucket.rate == s.bucket.rate
            && s'.bucket.tokens <= s'.bucket.capacity
            && s'.bucket.capacity + s'.refilled == s'.bucket.tokens + s'.granted
            && s.bucket.lastRefill <= s'.bucket.lastRefill
  {
    assert PointOk(s, t.id);
    hide Accrued;
  }

  /** Crediting a refill moves the account forward by no more than the rate allows. */
  lemma StepCredit(s: State, t: Turn, origin: int)
    requires Inv(s, origin)
    ensures SECOND * Step(s, t).refilled <= Step(s, t).bucket.rate * (CreditedUntil(Step(s, t)) - origin)
  {
    hide Accrued;
    assert PointOk(s, t.id);
    var p, s' := PointOf(s, t.id), Step(s, t);
    if p.RefillSwap? && !t.spurious && s.bucket.tokens == p.current {
      assert s'.refilled <= s.refilled + p.add;
      MulSplit(s.bucket.rate, s.bucket.lastRefill - origin, p.now - s.bucket.lastRefill);
    } else if s.holder.Some? && s.holder.value != t.id {
      assert PointOk(s, s.holder.value);
    }
  }

  lemma StepPoints(s: State, t: Turn, origin: int, id: nat)
    requires Inv(s, origin)
    ensures PointOk(Step(s, t), id)
  {
    assert PointOk(s, t.id) && PointOk(s, id);
    if PointOf(s, t.id).Locked? {
      AccruedBound(s.bucket.rate, Elapsed(t.now, s.bucket.lastRefill));
    }
    hide Accrued;
  }

  lemma StepKeepsInv(s: State, t: Turn, origin: int)
    requires Inv(s, origin)
    ensures Inv(Step(s, t), origin)
  {
    hide Step, PointOk;
    StepTotals(s, t, origin);
    StepCredit(s, t, origin);
    forall id ensures PointOk(Step(s, t), id) { StepPoints(s, t, origin, id); }
  }

  lemma {:induction false} RunKeepsInv(capacity: nat, rate: nat, origin: int, turns: seq<Turn>)
    ensures var s := Run(Start(capacity, rate, origin), turns);
            Inv(s, origin) && s.bucket.capacity == capacity && s.bucket.rate == rate
    decreases |turns|
  {
    hide Step, PointOk;
    if turns == [] {
      forall id ensures PointOk(Start(capacity, rate, origin), id) { FreshPoint(capacity, rate, origin, id); }
    } else {
      var front := turns[..|turns| - 1];
      RunKeepsInv(capacity, rate, origin, front);
      StepKeepsInv(Run(Start(capacity, rate, origin), front), turns[|turns| - 1], origin);
      StepTotals(Run(Start(capacity, rate, origin), front), turns[|turns| - 1], origin);
    }
  }

  lemma FreshPoint(capacity: nat, rate: nat, origin: int, id: nat)
    ensures PointOk(Start(capacity, rate, origin), id)
  {
  }

  // ------------------------------------------------------------------- theorems

  lemma StepGrants(s: State, t: Turn, origin: int)
    requires Inv(s, origin)
    ensures s.granted <= Step(s, t).granted <= s.granted + s.bucket.capacity
  {
    hide Accrued;
    assert PointOk(s, t.id);
  }

  /** Under every interleaving of any number of threads: tokens never underflow or
      exceed the capacity, nothing is created or lost, at most one thread holds the
      lock, and no single grant exceeds the capacity. */
  lemma TokensAreConserved(capacity: nat, rate: nat, origin: int, turns: seq<Turn>, t: Turn)
    ensures var s := Run(Start(capacity, rate, origin), turns);
            && s.bucket.tokens <= capacity
            && capacity + s.refilled == s.bucket.tokens + s.granted
            && (forall i, j :: PointOf(s, i).HoldsLock() && PointOf(s, j).HoldsLock() ==> i == j)
            && s.granted <= Step(s, t).granted <= s.granted + capacity
  {
    hide Step, Run;
    RunKeepsInv(capacity, rate, origin, turns);
    var s := Run(Start(capacity, rate, origin), turns);
    StepGrants(s, t, origin);
    forall i, j | PointOf(s, i).HoldsLock() && PointOf(s, j).HoldsLock()
      ensures i == j
    {
      assert PointOk(s, i) && PointOk(s, j);
    }
  }

  // -------------------------------------------------------------- one thread alone

  lemma RunSnoc(s: State, turns: seq<Turn>, t: Turn)
    ensures Run(s, turns + [t]) == Step(Run(s, turns), t)
  {
    hide Step;
    assert (turns + [t])[..|turns|] == turns;
  }

  /** `s'` differs from `s` in the bucket, the total granted and where `id` is. */
  ghost predicate Reaches(s: State, s': State, id: nat, p: Point, b: Bucket, granted: nat) {
    && s'.holder == None && s'.bucket == b && s'.granted == granted && PointOf(s', id) == p
    && forall other :: other != id ==> PointOf(s', other) == PointOf(s, other)
  }

  /** Every clock reading in a run is of this instant. */
  ghost predicate ReadsClockAt(now: int, turns: seq<Turn>) {
    forall i :: 0 <= i < |turns| ==> turns[i].now == now
  }

  lemma SoloRefill(s: State, id: nat, amount: nat, now: int) returns (turns: seq<Turn>)
    requires s.holder == None && PointOf(s, id) == Idle
    ensures Reaches(s, Run(s, turns), id, ConsumeLoad(amount), Refill(s.bucket, now), s.granted)
    ensures ReadsClockAt(now, turns)
  {
    hide Run, Accrued;
    var go := Turn(id, amount, now, false);
    var s2 := Step(Step(s, go), go);
    var s3 := Step(s2, go);
    assert PointOf(s2, id) == Locked(amount) && s2.holder == Some(id) && s2.bucket == s.bucket;
    turns := ThreeTurns(s, go);
    if Elapsed(now, s.bucket.lastRefill) >= SECOND {
      var s5 := Step(Step(s3, go), go);
      assert PointOf(s5, id) == Unlocking(amount, now);
      var more := ThreeTurns(s3, go);
      RunConcat(s, turns, more);
      turns := turns + more;
    }
  }

  /** Three turns in a row of the same thread. */
  lemma ThreeTurns(s: State, go: Turn) returns (turns: seq<Turn>)
    ensures Run(s, turns) == Step(Step(Step(s, go), go), go) && ReadsClockAt(go.now, turns)
  {
    hide Step;
    RunSnoc(s, [], go);
    RunSnoc(s, [go], go);
    RunSnoc(s, [go, go], go);
    assert [] + [go] == [go] && [go] + [go] == [go, go];
    turns := [go, go] + [go];
  }

  lemma {:induction false} RunConcat(s: State, first: seq<Turn>, second: seq<Turn>)
    ensures Run(s, first + second) == Run(Run(s, first), second)
    decreases |second|
  {
    hide Step;
    if second == [] {
      assert first + second == first;
    } else {
      RunConcat(s, first, second[..|second| - 1]);
      assert (first + second)[..|first + second| - 1] == first + second[..|second| - 1];
    }
  }

  /** A call that no other thread disturbs does what the serial bucket does. */
  lemma SoloCallIsSerial(s: State, id: nat, amount: nat, now: int) returns (turns: seq<Turn>)
    requires s.holder == None && PointOf(s, id) == Idle
    ensures var (b, ok) := TryConsume(s.bucket, amount, now);
            Reaches(s, Run(s, turns), id, Idle, b, s.granted + if ok then amount else 0)
    ensures ReadsClockAt(now, turns)
  {
    hide Run, Refill;
    var go := Turn(id, amount, now, false);
    turns := SoloRefill(s, id, amount, now);
    var s1 := Run(s, turns);
    RunSnoc(s, turns, go);
    turns := turns + [go];
    if s1.bucket.tokens >= amount {
      RunSnoc(s, turns, go);
      turns := turns + [go];
    }
  }

  /** All clock readings in a run are at or before `horizon`. */
  ghost predicate ReadsClockBy(horizon: int, turns: seq<Turn>) {
    forall i :: 0 <= i < |turns| ==> turns[i].now <= horizon
  }

  ghost predicate StampsBy(s: State, horizon: int) {
    && s.bucket.lastRefill <= horizon
    && forall id :: StampBy(s, id, horizon)
  }

  ghost predicate StampBy(s: State, id: nat, horizon: int) {
    var p := PointOf(s, id);
    p.RefillLoad? || p.RefillSwap? || p.Unlocking? ==> p.now <= horizon
  }

  lemma StepStamps(s: State, t: Turn, horizon: int)
    requires StampsBy(s, horizon) && t.now <= horizon
    ensures StampsBy(Step(s, t), horizon)
  {
    hide Accrued;
    assert StampBy(s, t.id, horizon);
    forall id ensures StampBy(Step(s, t), id, horizon) { assert StampBy(s, id, horizon); }
  }

  lemma {:induction false} RunStamps(s: State, turns: seq<Turn>, horizon: int)
    requires StampsBy(s, horizon) && ReadsClockBy(horizon, turns)
    ensures StampsBy(Run(s, turns), horizon)
    decreases |turns|
  {
    hide Step, StampsBy;
    if turns != [] {
      RunStamps(s, turns[..|turns| - 1], horizon);
      StepStamps(Run(s, turns[..|turns| - 1]), turns[|turns| - 1], horizon);
    }
  }

  lemma CreditedBy(capacity: nat, rate: nat, origin: int, turns: seq<Turn>, horizon: int)
    requires origin <= horizon && ReadsClockBy(horizon, turns)
    ensures CreditedUntil(Run(Start(capacity, rate, origin), turns)) <= horizon
  {
    hide Step, Run;
    RunStamps(Start(capacity, rate, origin), turns, horizon);
    var s := Run(Start(capacity, rate, origin), turns);
    if s.holder.Some? { assert StampBy(s, s.holder.value, horizon); }
  }

  /** However the threads interleave, time is never credited twice: all that was
      granted is at most the capacity plus the rate for the time that has passed. */
  lemma TimeIsCreditedOnce(capacity: nat, rate: nat, origin: int, turns: seq<Turn>, horizon: int)
    requires origin <= horizon && ReadsClockBy(horizon, turns)
    ensures SECOND * Run(Start(capacity, rate, origin), turns).granted
         <= SECOND * capacity + rate * (horizon - origin)
  {
    hide Step, Run;
    RunKeepsInv(capacity, rate, origin, turns);
    CreditedBy(capacity, rate, origin, turns, horizon);
    var s := Run(Start(capacity, rate, origin), turns);
    MulMono(rate, CreditedUntil(s) - origin, horizon - origin);
  }
}
