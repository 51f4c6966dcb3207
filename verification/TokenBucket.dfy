/**
 The token bucket with its calls one after another: what may be granted in any
 stretch of time, and when a wait ends. Instants are nanoseconds; amounts wrap
 where the implementation's 64-bit arithmetic does.
 */
module TokenBuckets {
  import opened Bytes
  import opened Clock

  datatype Bucket = Bucket(capacity: nat, rate: nat, tokens: nat, lastRefill: int)

  /** What a refill adds after this much time, in whole seconds. */
  function Accrued(rate: nat, elapsed: nat): nat {
    rate * (elapsed / SECOND) % U64_LIMIT
  }

  function Refill(b: Bucket, now: int): Bucket {
    var elapsed := Elapsed(now, b.lastRefill);
    if elapsed < SECOND then b
    else b.(tokens := Min((b.tokens + Accrued(b.rate, elapsed)) % U64_LIMIT, b.capacity), lastRefill := now)
  }

  function TryConsume(b: Bucket, amount: nat, now: int): (Bucket, bool) {
    var r := Refill(b, now);
    if r.tokens < amount then (r, false) else (r.(tokens := r.tokens - amount), true)
  }

  /** The smaller of what a refill makes of the tokens, in 64 bits, and the capacity. */
  function Topped(b: Bucket, secs: nat): nat {
    var tokens := (b.tokens + b.rate * secs) % 0x1_0000_0000_0000_0000;
    if tokens < b.capacity then tokens else b.capacity
  }

  /** A refill does nothing within a second of the last one; otherwise it credits the
      rate for every whole second since, up to the capacity, and stamps the bucket. */
  lemma RefillExactly(b: Bucket, now: int)
    ensures now - b.lastRefill < 1_000_000_000 ==> Refill(b, now) == b
    ensures now - b.lastRefill >= 1_000_000_000 ==>
              Refill(b, now) == b.(tokens := Topped(b, (now - b.lastRefill) / 1_000_000_000), lastRefill := now)
  {
    if now - b.lastRefill >= SECOND {
      ModAdd(b.tokens, b.rate * ((now - b.lastRefill) / SECOND));
    }
  }

  lemma ModAdd(x: nat, y: nat)
    ensures (x + y % U64_LIMIT) % U64_LIMIT == (x + y) % U64_LIMIT
  {
    var k := y / U64_LIMIT;
    assert x + y == (x + y % U64_LIMIT) + k * U64_LIMIT;
  }

  /** A call takes what it asks for if the refilled bucket holds it, and nothing else. */
  lemma TryConsumeExactly(b: Bucket, amount: nat, now: int)
    ensures var due := now - b.lastRefill >= 1_000_000_000;
            var there := if due then Topped(b, (now - b.lastRefill) / 1_000_000_000) else b.tokens;
            var (b', ok) := TryConsume(b, amount, now);
            && (ok <==> there >= amount)
            && b'.tokens == there - (if ok then amount else 0)
            && b'.lastRefill == (if due then now else b.lastRefill)
            && b'.capacity == b.capacity && b'.rate == b.rate
  {
    RefillExactly(b, now);
    hide Refill, Topped;
  }

  // ------------------------------------------------------------------ rate bound

  datatype Call = Call(amount: nat, now: int)

  function Run(b: Bucket, calls: seq<Call>): Bucket {
    if calls == [] then b
    else
      var last := calls[|calls| - 1];
      TryConsume(Run(b, calls[..|calls| - 1]), last.amount, last.now).0
  }

  /** The amounts granted in a run. */
  function Granted(b: Bucket, calls: seq<Call>): nat {
    if calls == [] then 0
    else
      var front, last := calls[..|calls| - 1], calls[|calls| - 1];
      Granted(b, front) + if TryConsume(Run(b, front), last.amount, last.now).1 then last.amount else 0
  }

  ghost predicate Monotone(since: int, calls: seq<Call>) {
    && (forall i :: 0 <= i < |calls| ==> since <= calls[i].now)
    && forall i, j :: 0 <= i <= j < |calls| ==> calls[i].now <= calls[j].now
  }

  /** A refill never credits more than the rate for the time it accounts for. */
  lemma AccruedBound(rate: nat, elapsed: nat)
    ensures SECOND * Accrued(rate, elapsed) <= rate * elapsed
  {
    var secs := elapsed / SECOND;
    assert secs * SECOND <= elapsed;
    assert Accrued(rate, elapsed) <= rate * secs;
    MulMono(rate, secs * SECOND, elapsed);
    assert rate * (secs * SECOND) == SECOND * (rate * secs);
  }

  lemma MulMono(a: nat, x: int, y: int)
    requires x <= y
    ensures a * x <= a * y
  {
  }

  lemma MulSplit(a: nat, x: int, y: int)
    ensures a * (x + y) == a * x + a * y
  {
  }

  /** One call, on the account of tokens held plus amounts granted. */
  lemma CallPays(b: Bucket, c: Call)
    requires b.lastRefill <= c.now && b.tokens <= b.capacity
    ensures var (b', ok) := TryConsume(b, c.amount, c.now);
            && b'.capacity == b.capacity && b'.rate == b.rate && b'.tokens <= b.capacity
            && b.lastRefill <= b'.lastRefill <= c.now < b'.lastRefill + SECOND
            && SECOND * (b'.tokens + if ok then c.amount else 0)
               <= SECOND * b.tokens + b.rate * (b'.lastRefill - b.lastRefill)
  {
    var elapsed := Elapsed(c.now, b.lastRefill);
    AccruedBound(b.rate, elapsed);
    assert Refill(b, c.now).tokens <= b.tokens + if elapsed < SECOND then 0 else Accrued(b.rate, elapsed);
  }

  lemma {:induction false} RunPays(b: Bucket, calls: seq<Call>)
    requires b.tokens <= b.capacity && Monotone(b.lastRefill, calls)
    ensures var b' := Run(b, calls);
            && b'.capacity == b.capacity && b'.rate == b.rate && b'.tokens <= b.capacity
            && b.lastRefill <= b'.lastRefill
            && (calls != [] ==> b'.lastRefill <= calls[|calls| - 1].now < b'.lastRefill + SECOND)
            && (calls == [] ==> b' == b)
            && SECOND * (b'.tokens + Granted(b, calls)) <= SECOND * b.tokens + b.rate * (b'.lastRefill - b.lastRefill)
    decreases |calls|
  {
    hide TryConsume;
    if calls != [] {
      var front, last := calls[..|calls| - 1], calls[|calls| - 1];
      RunPays(b, front);
      var mid := Run(b, front);
      CallPays(mid, last);
      MulSplit(b.rate, mid.lastRefill - b.lastRefill, Run(b, calls).lastRefill - mid.lastRefill);
    }
  }

  /** In this run no refill fills the bucket, and none wraps. */
  ghost predicate NeverFull(b: Bucket, calls: seq<Call>) {
    calls != [] ==>
      var front, last := calls[..|calls| - 1], calls[|calls| - 1];
      && NeverFull(b, front)
      && NoWrap(Run(b, front), last.now)
      && Refill(Run(b, front), last.now).tokens < b.capacity
  }

  /** A refill credits at least half of the time it accounts for. */
  lemma HalfIsCredited(b: Bucket, c: Call)
    requires b.lastRefill <= c.now && NoWrap(b, c.now) && Refill(b, c.now).tokens < b.capacity
    ensures var (b', ok) := TryConsume(b, c.amount, c.now);
            2 * SECOND * (b'.tokens + if ok then c.amount else 0)
            >= 2 * SECOND * b.tokens + b.rate * (b'.lastRefill - b.lastRefill)
  {
    var elapsed := c.now - b.lastRefill;
    var secs := elapsed / SECOND;
    MulNonNegative(b.rate, secs);
    if elapsed >= SECOND {
      assert 2 * (secs * SECOND) >= elapsed;
      MulMono(b.rate, elapsed, 2 * (secs * SECOND));
      assert b.rate * (2 * (secs * SECOND)) == 2 * SECOND * (b.rate * secs);
      assert Refill(b, c.now).tokens == b.tokens + b.rate * secs;
    }
  }

  lemma MulNonNegative(a: nat, x: nat)
    ensures a * x >= 0
  {
  }

  /** The other side of the bound: as long as the bucket is not full, a run is credited the
      rate for at least half of the time its refills account for. (What is lost is the
      fraction of a second at each refill.) */
  lemma {:induction false} HalfTheRateIsCredited(b: Bucket, calls: seq<Call>)
    requires b.tokens <= b.capacity && Monotone(b.lastRefill, calls) && NeverFull(b, calls)
    ensures var b' := Run(b, calls);
            2 * SECOND * (b'.tokens + Granted(b, calls)) >= 2 * SECOND * b.tokens + b.rate * (b'.lastRefill - b.lastRefill)
    decreases |calls|
  {
    hide TryConsume, Refill, NoWrap;
    if calls != [] {
      var front, last := calls[..|calls| - 1], calls[|calls| - 1];
      HalfTheRateIsCredited(b, front);
      RunPays(b, front);
      var mid := Run(b, front);
      HalfIsCredited(mid, last);
      MulSplit(b.rate, mid.lastRefill - b.lastRefill, Run(b, calls).lastRefill - mid.lastRefill);
    }
  }

  lemma {:induction false} GrantedSplits(b: Bucket, first: seq<Call>, second: seq<Call>)
    ensures Run(b, first + second) == Run(Run(b, first), second)
    ensures Granted(b, first + second) == Granted(b, first) + Granted(Run(b, first), second)
    decreases |second|
  {
    hide TryConsume;
    if second == [] {
      assert first + second == first;
    } else {
      var front := second[..|second| - 1];
      GrantedSplits(b, first, front);
      assert (first + second)[..|first + second| - 1] == first + front;
    }
  }

  lemma MonotoneSplits(since: int, before: seq<Call>, window: seq<Call>)
    requires Monotone(since, before + window)
    ensures Monotone(since, before)
    ensures Monotone(if before == [] then since else before[|before| - 1].now, window)
  {
    var all := before + window;
    assert forall i :: 0 <= i < |before| ==> before[i] == all[i];
    assert forall i :: 0 <= i < |window| ==> window[i] == all[|before| + i];
  }

  lemma MonotoneFrom(since: int, earlier: int, calls: seq<Call>)
    requires Monotone(since, calls) && earlier <= since
    ensures Monotone(earlier, calls)
  {
  }

  /** In any stretch of a serial run the amount granted is at most the capacity plus
      the rate for the length of the stretch and one second more. */
  lemma RateBound(b: Bucket, before: seq<Call>, window: seq<Call>)
    requires b.tokens <= b.capacity && Monotone(b.lastRefill, before + window) && window != []
    ensures var length := window[|window| - 1].now - window[0].now;
            SECOND * (Granted(b, before + window) - Granted(b, before)) <= SECOND * b.capacity + b.rate * (length + SECOND)
  {
    hide TryConsume, Run, Granted, Monotone;
    MonotoneSplits(b.lastRefill, before, window);
    RunPays(b, before);
    GrantedSplits(b, before, window);
    MonotoneFrom(if before == [] then b.lastRefill else before[|before| - 1].now, Run(b, before).lastRefill, window);
    WindowBound(Run(b, before), window);
  }

  lemma RefillFirst(b: Bucket, c: Call)
    requires b.lastRefill <= c.now && b.tokens <= b.capacity
    ensures var r := Refill(b, c.now);
            && TryConsume(r, c.amount, c.now) == TryConsume(b, c.amount, c.now)
            && r.capacity == b.capacity && r.rate == b.rate && r.tokens <= b.capacity
            && r.lastRefill <= c.now < r.lastRefill + SECOND
  {
    CallPays(b, Call(0, c.now));
  }

  /** A stretch seen from its first call: that call leaves at most the capacity and a
      refill less than a second old. */
  lemma WindowBound(b: Bucket, window: seq<Call>)
    requires b.tokens <= b.capacity && Monotone(b.lastRefill, window) && window != []
    ensures var length := window[|window| - 1].now - window[0].now;
            SECOND * Granted(b, window) <= SECOND * b.capacity + b.rate * (length + SECOND)
  {
    hide TryConsume, Refill, Run, Granted;
    var refilled := Refill(b, window[0].now);
    RefillFirst(b, window[0]);
    SameGrants(b, refilled, window);
    RunPays(refilled, window);
    MulMono(b.rate, Run(refilled, window).lastRefill - refilled.lastRefill,
            window[|window| - 1].now - window[0].now + SECOND);
  }

  /** Refilling ahead of the first call makes no difference. */
  lemma {:induction false} SameGrants(b: Bucket, b': Bucket, calls: seq<Call>)
    requires calls != []
    requires TryConsume(b, calls[0].amount, calls[0].now) == TryConsume(b', calls[0].amount, calls[0].now)
    ensures Run(b, calls) == Run(b', calls) && Granted(b, calls) == Granted(b', calls)
    decreases |calls|
  {
    hide TryConsume;
    if |calls| > 1 {
      SameGrants(b, b', calls[..|calls| - 1]);
    } else {
      assert calls[..0] == [];
    }
  }

  // ------------------------------------------------------------------- waiting

  /** The 64-bit arithmetic of a refill at this instant does not wrap. */
  ghost predicate NoWrap(b: Bucket, now: int) {
    b.tokens + b.rate * (Elapsed(now, b.lastRefill) / SECOND) < U64_LIMIT
  }

  /** A refill is due: the last one is at least a second old. */
  predicate Due(b: Bucket, now: int) {
    Elapsed(now, b.lastRefill) >= SECOND
  }

  /** With capacity equal to rate, a refill that is due fills the bucket. */
  lemma DueRefillFills(b: Bucket, now: int)
    requires b.capacity == b.rate && NoWrap(b, now) && Due(b, now)
    ensures Refill(b, now).tokens == b.capacity
  {
    var secs := Elapsed(now, b.lastRefill) / SECOND;
    assert secs >= 1;
    MulMono(b.rate, 1, secs);
  }

  /** One poll of a wait for no more than the capacity. */
  lemma PollOnce(b: Bucket, amount: nat, now: int)
    requires amount <= b.capacity == b.rate && NoWrap(b, now)
    ensures TryConsume(b, amount, now).1 <==> b.tokens >= amount || Due(b, now)
    ensures !TryConsume(b, amount, now).1 ==> TryConsume(b, amount, now).0 == b
  {
    if Due(b, now) {
      DueRefillFills(b, now);
    }
  }

  /** What a poll that succeeds leaves: a full bucket less the amount if a refill was due,
      and otherwise the tokens that were there less the amount. */
  lemma PollTakes(b: Bucket, amount: nat, now: int)
    requires amount <= b.capacity == b.rate && NoWrap(b, now) && TryConsume(b, amount, now).1
    ensures TryConsume(b, amount, now).0
         == b.(tokens := (if Due(b, now) then b.capacity else b.tokens) - amount,
               lastRefill := if Due(b, now) then now else b.lastRefill)
  {
    if Due(b, now) {
      DueRefillFills(b, now);
    }
  }

  /** More than the capacity is never granted, in any state and at any time. */
  lemma TooMuchIsNeverGranted(b: Bucket, amount: nat, now: int)
    requires b.tokens <= b.capacity
    ensures TryConsume(b, amount, now).1 ==> amount <= b.capacity
    ensures TryConsume(b, amount, now).0.tokens <= TryConsume(b, amount, now).0.capacity == b.capacity
  {
  }
}
