/** Waiting for tokens: a wait is a row of polls for one amount. */
module BucketWaits {
  import opened Clock
  import opened TokenBuckets

  /** The calls a wait makes at these instants. */
  function Polls(amount: nat, instants: seq<int>): (calls: seq<Call>)
    ensures |calls| == |instants|
  {
    if instants == [] then []
    else Polls(amount, instants[..|instants| - 1]) + [Call(amount, instants[|instants| - 1])]
  }

  /** One more poll, and what it grants. */
  lemma PollOnceMore(b: Bucket, amount: nat, instants: seq<int>, now: int)
    ensures var b' := Run(b, Polls(amount, instants));
            var calls := Polls(amount, instants + [now]);
            && Run(b, calls) == TryConsume(b', amount, now).0
            && Granted(b, calls)
               == Granted(b, Polls(amount, instants)) + if TryConsume(b', amount, now).1 then amount else 0
  {
    hide TryConsume;
    var calls := Polls(amount, instants);
    assert (instants + [now])[..|instants|] == instants;
    assert (calls + [Call(amount, now)])[..|calls|] == calls;
  }

  /** A wait that has ended: the amount and the instants at which it polled. */
  datatype Wait = Wait(amount: nat, polled: seq<int>)

  function CallsOf(waits: seq<Wait>): seq<Call> {
    if waits == [] then []
    else
      var last := waits[|waits| - 1];
      CallsOf(waits[..|waits| - 1]) + Polls(last.amount, last.polled)
  }

  /** What a row of waits has taken, wait by wait. */
  function Obtained(b: Bucket, waits: seq<Wait>): nat {
    if waits == [] then 0
    else
      var front, last := waits[..|waits| - 1], waits[|waits| - 1];
      Obtained(b, front) + Granted(Run(b, CallsOf(front)), Polls(last.amount, last.polled))
  }

  lemma {:induction false} ObtainedIsGranted(b: Bucket, waits: seq<Wait>)
    ensures Obtained(b, waits) == Granted(b, CallsOf(waits))
    decreases |waits|
  {
    hide Run, Granted;
    if waits == [] {
      NothingGranted(b);
    } else {
      var front, last := waits[..|waits| - 1], waits[|waits| - 1];
      ObtainedIsGranted(b, front);
      GrantedSplits(b, CallsOf(front), Polls(last.amount, last.polled));
    }
  }

  lemma NothingGranted(b: Bucket)
    ensures Granted(b, []) == 0
  {
  }

  lemma {:induction false} CallsConcat(before: seq<Wait>, window: seq<Wait>)
    ensures CallsOf(before + window) == CallsOf(before) + CallsOf(window)
    decreases |window|
  {
    hide Polls;
    if window == [] {
      assert before + window == before;
    } else {
      CallsConcat(before, window[..|window| - 1]);
      assert (before + window)[..|before + window| - 1] == before + window[..|window| - 1];
    }
  }

  /** In any stretch of serial waits the amount taken is at most the capacity plus the rate
      for the time from its first poll to its last and one second more. */
  lemma WaitsObeyRate(b: Bucket, before: seq<Wait>, window: seq<Wait>)
    requires b.tokens <= b.capacity && Monotone(b.lastRefill, CallsOf(before + window)) && CallsOf(window) != []
    ensures var calls := CallsOf(window);
            var length := calls[|calls| - 1].now - calls[0].now;
            SECOND * (Obtained(b, before + window) - Obtained(b, before)) <= SECOND * b.capacity + b.rate * (length + SECOND)
  {
    hide Obtained, CallsOf, Granted, Monotone;
    CallsConcat(before, window);
    ObtainedIsGranted(b, before);
    ObtainedIsGranted(b, before + window);
    RateBound(b, CallsOf(before), CallsOf(window));
  }
}
