/**
 The bound of `Promo.QuotaUnderInterleaving` cannot be improved: it is reached, or the
 count wraps around where 32 bits do not hold it.
 */
module PromoLimits {
  import opened Bytes
  import opened Sets
  import opened Promo

  lemma Extend(s: State, turns: seq<Turn>, t: Turn, code: string, n: nat) returns (turns': seq<Turn>)
    requires Limited(s, turns, code, n) && !t.AddCode?
    requires |CallsFor(Step(Run(s, turns), t), code)| <= n
    ensures Limited(s, turns', code, n) && Run(s, turns') == Step(Run(s, turns), t)
  {
    hide Step, CallsFor;
    turns' := turns + [t];
    assert turns'[..|turns|] == turns;
  }

  /** No lock is held, calls `lo` up to `hi` are approved, and the code has `k` uses. */
  ghost predicate Pending(x: State, code: string, promo: PromoCode, k: int, lo: nat, hi: nat) {
    && x.codesHeldBy == None
    && code in x.codes && x.codes[code] == promo.(usedCount := k)
    && (forall id :: id in x.calls <==> lo <= id < hi)
    && forall id :: id in x.calls ==> x.calls[id] == Approved(code, "")
  }

  lemma FewCalls(x: State, code: string, lo: nat, hi: nat)
    requires lo <= hi && forall id :: id in x.calls ==> lo <= id < hi
    ensures |CallsFor(x, code)| <= hi - lo
  {
    RangeSize(CallsFor(x, code), lo, hi);
  }

  /** An instant at which the code has not expired. */
  function InTime(promo: PromoCode): int {
    if promo.expiresAt.Some? then promo.expiresAt.value else 0
  }

  /** One more call comes in and passes the check. */
  lemma ApproveOne(s: State, turns: seq<Turn>, code: string, promo: PromoCode, k: int, hi: nat, n: nat)
    returns (turns': seq<Turn>)
    requires Limited(s, turns, code, n) && hi < n && k < promo.maxUses
    requires Pending(Run(s, turns), code, promo, k, 0, hi)
    ensures Limited(s, turns', code, n) && Pending(Run(s, turns'), code, promo, k, 0, hi + 1)
  {
    hide Limited, Run, CallsFor;
    var x := Run(s, turns);
    var x1 := Step(x, Begin(hi, code, ""));
    FewCalls(x1, code, 0, hi + 1);
    turns' := Extend(s, turns, Begin(hi, code, ""), code, n);
    var x2 := Step(x1, Advance(hi, InTime(promo)));
    FewCalls(x2, code, 0, hi + 1);
    turns' := Extend(s, turns', Advance(hi, InTime(promo)), code, n);
  }

  /** The first pending call counts its use and writes its list. */
  lemma CommitOne(s: State, turns: seq<Turn>, code: string, promo: PromoCode, k: int, lo: nat, hi: nat, n: nat)
    returns (turns': seq<Turn>)
    requires Limited(s, turns, code, n) && lo < hi <= n && k < I32_MAX
    requires Pending(Run(s, turns), code, promo, k, lo, hi)
    ensures Limited(s, turns', code, n) && Pending(Run(s, turns'), code, promo, k + 1, lo + 1, hi)
  {
    hide Limited, Run, CallsFor;
    var x := Run(s, turns);
    var x1 := Step(x, Advance(lo, 0));
    FewCalls(x1, code, lo, hi);
    turns' := Extend(s, turns, Advance(lo, 0), code, n);
    var x2 := Step(x1, Advance(lo, 0));
    FewCalls(x2, code, lo, hi);
    turns' := Extend(s, turns', Advance(lo, 0), code, n);
  }

  lemma {:induction false} ApproveMany(s: State, turns: seq<Turn>, code: string, promo: PromoCode, k: int, hi: nat, n: nat)
    returns (turns': seq<Turn>)
    requires Limited(s, turns, code, n) && hi <= n && k < promo.maxUses
    requires Pending(Run(s, turns), code, promo, k, 0, hi)
    ensures Limited(s, turns', code, n) && Pending(Run(s, turns'), code, promo, k, 0, n)
    decreases n - hi
  {
    turns' := turns;
    if hi < n {
      turns' := ApproveOne(s, turns', code, promo, k, hi, n);
      turns' := ApproveMany(s, turns', code, promo, k, hi + 1, n);
    }
  }

  lemma {:induction false} CommitMany(s: State, turns: seq<Turn>, code: string, promo: PromoCode, k: int, lo: nat,
                                      upto: nat, hi: nat, n: nat)
    returns (turns': seq<Turn>)
    requires Limited(s, turns, code, n) && lo <= upto <= hi <= n && k + (upto - lo) <= I32_MAX
    requires Pending(Run(s, turns), code, promo, k, lo, hi)
    ensures Limited(s, turns', code, n) && Pending(Run(s, turns'), code, promo, k + (upto - lo), upto, hi)
    decreases upto - lo
  {
    turns' := turns;
    if lo < upto {
      turns' := CommitOne(s, turns', code, promo, k, lo, hi, n);
      turns' := CommitMany(s, turns', code, promo, k + 1, lo + 1, upto, hi, n);
    }
  }

  /** With nothing in flight the bounds of the range do not matter. */
  lemma NothingPending(x: State, code: string, promo: PromoCode, k: int, at: nat)
    requires Pending(x, code, promo, k, at, at)
    ensures Pending(x, code, promo, k, 0, 0)
  {
  }

  /** Serial calls use the code up to any count within the quota. */
  lemma {:induction false} UseSerially(s: State, turns: seq<Turn>, code: string, promo: PromoCode, k: int, target: int, n: nat)
    returns (turns': seq<Turn>)
    requires Limited(s, turns, code, n) && n >= 1 && k <= target < promo.maxUses <= I32_MAX
    requires Pending(Run(s, turns), code, promo, k, 0, 0)
    ensures Limited(s, turns', code, n) && Pending(Run(s, turns'), code, promo, target, 0, 0)
    decreases target - k
  {
    hide Limited, Run, Pending;
    turns' := turns;
    if k < target {
      turns' := ApproveOne(s, turns', code, promo, k, 0, n);
      turns' := CommitOne(s, turns', code, promo, k, 0, 1, n);
      NothingPending(Run(s, turns'), code, promo, k + 1, 1);
      turns' := UseSerially(s, turns', code, promo, k + 1, target, n);
    }
  }

  /** For every quota and every number of concurrent calls some run with no more than
      that many calls in flight counts `maxUses - 1 + n` uses: past the quota by `n - 1`. */
  lemma BoundIsReached(s: State, code: string, n: nat) returns (turns: seq<Turn>)
    requires Initial(s) && code in s.codes && s.codes[code].maxUses >= 1
    requires n >= 1 && s.codes[code].maxUses - 1 + n <= I32_MAX
    ensures Limited(s, turns, code, n)
    ensures code in Run(s, turns).codes
    ensures Run(s, turns).codes[code].usedCount == s.codes[code].maxUses - 1 + n
  {
    var promo := s.codes[code];
    turns := [];
    assert CallsFor(s, code) == {};
    turns := UseSerially(s, turns, code, promo, 0, promo.maxUses - 1, n);
    turns := ApproveMany(s, turns, code, promo, promo.maxUses - 1, 0, n);
    turns := CommitMany(s, turns, code, promo, promo.maxUses - 1, 0, n, n, n);
  }

  /** One more use than a 32-bit count can hold. */
  lemma CountOneTooMany(s: State, turns: seq<Turn>, code: string, promo: PromoCode, lo: nat, hi: nat, n: nat)
    returns (turns': seq<Turn>)
    requires Limited(s, turns, code, n) && lo < hi <= n
    requires Pending(Run(s, turns), code, promo, 0x7FFF_FFFF, lo, hi)
    ensures Limited(s, turns', code, n) && code in Run(s, turns').codes
    ensures Run(s, turns').codes[code].usedCount == -0x8000_0000
  {
    hide Limited, Run, CallsFor;
    FewCalls(Step(Run(s, turns), Advance(lo, 0)), code, lo, hi);
    turns' := Extend(s, turns, Advance(lo, 0), code, n);
  }

  /** Where the bound does not fit in 32 bits there is no bound: some run with no more than
      `n` calls in flight uses the code until its count wraps around and is negative. */
  lemma CountWraps(s: State, code: string, n: nat) returns (turns: seq<Turn>)
    requires Initial(s) && code in s.codes && 1 <= s.codes[code].maxUses <= 0x7FFF_FFFF
    requires s.codes[code].maxUses - 1 + n > 0x7FFF_FFFF
    ensures Limited(s, turns, code, n)
    ensures code in Run(s, turns).codes
    ensures Run(s, turns).codes[code].usedCount == -0x8000_0000
  {
    var promo := s.codes[code];
    var room := 0x7FFF_FFFF - (promo.maxUses - 1);
    turns := [];
    assert CallsFor(s, code) == {};
    turns := UseSerially(s, turns, code, promo, 0, promo.maxUses - 1, n);
    turns := ApproveMany(s, turns, code, promo, promo.maxUses - 1, 0, n);
    turns := CommitMany(s, turns, code, promo, promo.maxUses - 1, 0, room, n, n);
    turns := CountOneTooMany(s, turns, code, promo, room, n, n);
  }
}
