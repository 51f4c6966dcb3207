/** The stateful token bucket, its calls one after another. */
module BucketObject {
  import opened Bytes
  import opened Clock
  import opened TokenBuckets
  import opened BucketWaits

  class TokenBucket {
    var capacity: nat
    var tokens: nat
    var refillRate: nat
    var lastRefill: int

    ghost function View(): Bucket
      reads this
    {
      Bucket(capacity, refillRate, tokens, lastRefill)
    }

    constructor (capacity: nat, refillRate: nat, now: int)
      ensures View() == Bucket(capacity, refillRate, capacity, now)
    {
      this.capacity, tokens, this.refillRate, lastRefill := capacity, capacity, refillRate, now;
    }

    method Refill(now: int)
      modifies this`tokens, this`lastRefill
      ensures View() == TokenBuckets.Refill(old(View()), now)
    {
      var elapsed := Elapsed(now, lastRefill);
      if elapsed >= SECOND {
        var tokensToAdd := refillRate * (elapsed / SECOND) % U64_LIMIT;
        var current := tokens;
        tokens := Min((current + tokensToAdd) % U64_LIMIT, capacity);
        lastRefill := now;
      }
    }

    method TryConsume(amount: nat, now: int) returns (ok: bool)
      modifies this`tokens, this`lastRefill
      ensures (View(), ok) == TokenBuckets.TryConsume(old(View()), amount, now)
      ensures var due := now - old(lastRefill) >= 1_000_000_000;
              var there := if due then Topped(old(View()), (now - old(lastRefill)) / 1_000_000_000) else old(tokens);
              && (ok <==> there >= amount)
              && tokens == there - (if ok then amount else 0)
              && lastRefill == if due then now else old(lastRefill)
    {
      TryConsumeExactly(View(), amount, now);
      Refill(now);
      var current := tokens;
      if current < amount {
        return false;
      }
      tokens := current - amount;
      return true;
    }

    /** The wait is satisfiable and no poll overflows the 64-bit arithmetic. */
    ghost predicate Reasonable(amount: nat, polls: seq<int>)
      reads this
    {
      amount <= capacity == refillRate && forall i :: 0 <= i < |polls| ==> NoWrap(View(), polls[i])
    }

    /** `wait_for_tokens`, polled at the given instants by a lone caller. A wait for no
        more than the capacity ends at once if the tokens are there, and otherwise at the
        first poll a second or more after the last refill; a wait for more than the
        capacity goes through every poll in vain. */
    method WaitForTokens(amount: nat, polls: seq<int>) returns (granted: bool, used: nat)
      requires tokens <= capacity
      modifies this`tokens, this`lastRefill
      ensures used <= |polls| && (granted ==> used >= 1)
      ensures !granted ==> used == |polls|
      ensures amount > capacity ==> !granted
      ensures old(Reasonable(amount, polls)) && granted ==>
                && (old(tokens) >= amount ==> used == 1)
                && (old(tokens) < amount ==> Due(old(View()), polls[used - 1]))
      ensures View() == Run(old(View()), Polls(amount, polls[..used]))
      ensures Granted(old(View()), Polls(amount, polls[..used])) == if granted then amount else 0
      ensures old(Reasonable(amount, polls)) ==>
                var due := granted && polls[used - 1] - old(lastRefill) >= 1_000_000_000;
                && tokens == (if due then capacity else old(tokens)) - (if granted then amount else 0)
                && lastRefill == if due then polls[used - 1] else old(lastRefill)
      ensures old(Reasonable(amount, polls)) ==>
                forall i :: 0 <= i < (if granted then used - 1 else used) ==>
                  old(tokens) < amount && !Due(old(View()), polls[i])
    {
      hide NoWrap, TokenBuckets.TryConsume, Run, Granted, Polls;
      ghost var reasonable := Reasonable(amount, polls);
      ghost var start := View();
      used := 0;
      NoPolls(start, amount, polls);
      while used < |polls|
        invariant used <= |polls|
        invariant tokens <= capacity
        invariant View() == Run(start, Polls(amount, polls[..used]))
        invariant Granted(start, Polls(amount, polls[..used])) == 0
        invariant reasonable ==> View() == start && Reasonable(amount, polls)
        invariant reasonable && used > 0 ==> start.tokens < amount
        invariant reasonable ==> forall i :: 0 <= i < used ==> !Due(start, polls[i])
      {
        var now := polls[used];
        if reasonable {
          PollOnce(start, amount, now);
          if TokenBuckets.TryConsume(start, amount, now).1 { PollTakes(start, amount, now); }
        }
        PollOnceMore(start, amount, polls[..used], now);
        assert polls[..used + 1] == polls[..used] + [now];
        TooMuchIsNeverGranted(View(), amount, now);
        granted := TryConsume(amount, now);
        used := used + 1;
        if granted {
          return;
        }
      }
      granted := false;
    }
  }

  lemma NoPolls(b: Bucket, amount: nat, polls: seq<int>)
    ensures Run(b, Polls(amount, polls[..0])) == b && Granted(b, Polls(amount, polls[..0])) == 0
  {
  }
}
