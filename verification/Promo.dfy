/**
 Promo codes: `use_code` checks the quota under one lock, lets the lock go, and
 commits under another. Any number of calls may be anywhere in between.
 */
module Promo {
  import opened Bytes
  import opened Sets

  const I32_MAX: int := 0x7FFF_FFFF
  const I32_MIN: int := -0x8000_0000

  datatype Error = InvalidCode | Expired | AlreadyUsed

  datatype PromoCode = PromoCode(maxUses: int, usedCount: int, expiresAt: Option<int>)

  datatype Checked = Valid(promo: PromoCode) | Rejected(error: Error)

  predicate HasExpired(promo: PromoCode, now: int) {
    promo.expiresAt.Some? && now > promo.expiresAt.value
  }

  /** `validate_code`, under the lock on the codes. */
  function Validate(codes: map<string, PromoCode>, code: string, now: int): Checked {
    if code !in codes then Rejected(InvalidCode)
    else
      var promo := codes[code];
      if HasExpired(promo, now) then Rejected(Expired)
      else if promo.usedCount >= promo.maxUses then Rejected(AlreadyUsed)
      else Valid(promo)
  }

  /** A 32-bit count goes up by one. */
  function CountUp(n: int): int {
    if n == I32_MAX then I32_MIN else n + 1
  }

  /** Where a `use_code` call is. From `Counted` it holds the lock on the codes until
      it has written the user's list. */
  datatype Point =
    | Entering(code: string, user: string)
    | Approved(code: string, user: string)
    | Counted(code: string, user: string)

  datatype State = State(
    codes: map<string, PromoCode>,
    used: map<string, seq<string>>,
    calls: map<nat, Point>,
    codesHeldBy: Option<nat>)

  datatype Turn =
    | Begin(id: nat, code: string, user: string)
    | Advance(id: nat, now: int)
    | AddCode(name: string, promo: PromoCode)

  function UsedBy(s: State, user: string): seq<string> {
    if user in s.used then s.used[user] else []
  }

  function Step(s: State, t: Turn): State {
    match t
    case Begin(id, code, user) =>
      if id in s.calls then s else s.(calls := s.calls[id := Entering(code, user)])
    case AddCode(name, promo) =>
      if s.codesHeldBy.Some? then s else s.(codes := s.codes[name := promo])
    case Advance(id, now) =>
      if id !in s.calls then s
      else
        match s.calls[id]
        case Entering(code, user) =>
          if s.codesHeldBy.Some? then s
          else if Validate(s.codes, code, now).Rejected? then s.(calls := s.calls - {id})
          else s.(calls := s.calls[id := Approved(code, user)])
        case Approved(code, user) =>
          if s.codesHeldBy.Some? then s
          else
            var codes := if code in s.codes
                         then s.codes[code := s.codes[code].(usedCount := CountUp(s.codes[code].usedCount))]
                         else s.codes;
            s.(codes := codes, calls := s.calls[id := Counted(code, user)], codesHeldBy := Some(id))
        case Counted(code, user) =>
          s.(used := s.used[user := UsedBy(s, user) + [code]], calls := s.calls - {id}, codesHeldBy := None)
  }

  function Run(s: State, turns: seq<Turn>): State {
    if turns == [] then s
    else Step(Run(s, turns[..|turns| - 1]), turns[|turns| - 1])
  }

  /** Every call that comes in is in flight. It waits while another call commits; it leaves
      by being refused, when its code is unknown, expired or used up at that moment, or by
      writing its user's list; and it takes the lock exactly to count its use. */
  lemma CallsAreHandled(s: State, t: Turn)
    ensures var s' := Step(s, t);
            && (t.Begin? && t.id !in s.calls ==> s' == s.(calls := s.calls[t.id := Entering(t.code, t.user)]))
            && (t.Advance? && t.id in s.calls ==>
                var p := s.calls[t.id];
                && (p.Counted? ==>
                    && t.id !in s'.calls && s'.codesHeldBy == None && s'.codes == s.codes
                    && UsedBy(s', p.user) == UsedBy(s, p.user) + [p.code])
                && (!p.Counted? && s.codesHeldBy.Some? ==> s' == s)
                && (p.Entering? && s.codesHeldBy.None? ==>
                    && s'.codes == s.codes && s'.used == s.used && s'.codesHeldBy == None
                    && (t.id !in s'.calls <==> Validate(s.codes, p.code, t.now).Rejected?)
                    && (t.id in s'.calls ==> s'.calls[t.id] == Approved(p.code, p.user)))
                && (p.Approved? && s.codesHeldBy.None? ==>
                    && s'.calls[t.id] == Counted(p.code, p.user) && s'.codesHeldBy == Some(t.id) && s'.used == s.used
                    && s'.codes.Keys == s.codes.Keys))
  {
    hide Validate;
  }

  /** Before any call: the preloaded codes, unused. */
  ghost predicate Initial(s: State) {
    && s.used == map[] && s.calls == map[] && s.codesHeldBy == None
    && forall c :: c in s.codes ==> s.codes[c].usedCount == 0
  }

  // ------------------------------------------------------------------- counting

  function Occurrences(list: seq<string>, code: string): nat {
    multiset(list)[code]
  }

  /** How often a code occurs across all users' lists. */
  ghost function Redeemed(used: map<string, seq<string>>, code: string): nat
    decreases |used|
  {
    if used == map[] then 0
    else
      var user :| user in used;
      Occurrences(used[user], code) + Redeemed(used - {user}, code)
  }

  /** The sum does not depend on the order in which users are taken. */
  lemma {:induction false} RedeemedSplit(used: map<string, seq<string>>, user: string, code: string)
    requires user in used
    ensures Redeemed(used, code) == Occurrences(used[user], code) + Redeemed(used - {user}, code)
    decreases |used|
  {
    var first :| first in used
      && Redeemed(used, code) == Occurrences(used[first], code) + Redeemed(used - {first}, code);
    if first != user {
      assert (used - {first}).Keys == used.Keys - {first};
      RedeemedSplit(used - {first}, user, code);
      RedeemedSplit(used - {user}, first, code);
      assert used - {first} - {user} == used - {user} - {first};
    }
  }

  lemma RedeemedGrows(used: map<string, seq<string>>, user: string, added: string, code: string)
    ensures var list := if user in used then used[user] else [];
            Redeemed(used[user := list + [added]], code) == Redeemed(used, code) + if added == code then 1 else 0
  {
    var list := if user in used then used[user] else [];
    var used' := used[user := list + [added]];
    RedeemedSplit(used', user, code);
    assert used' - {user} == used - {user};
    if user in used {
      RedeemedSplit(used, user, code);
    } else {
      assert used - {user} == used;
    }
  }

  /** The calls in flight for a code. */
  function CallsFor(s: State, code: string): set<nat> {
    set id | id in s.calls && s.calls[id].code == code
  }

  /** Of those, the ones past the check and before the count. */
  function ApprovedFor(s: State, code: string): set<nat> {
    set id | id in s.calls && s.calls[id].Approved? && s.calls[id].code == code
  }

  predicate MidCommit(s: State, code: string) {
    s.codesHeldBy.Some? && s.codesHeldBy.value in s.calls && s.calls[s.codesHeldBy.value].code == code
  }

  /** What holds at every moment of a run with at most `n` calls in flight for `code`. */
  ghost predicate Inv(s: State, code: string, maxUses: int, n: nat) {
    && QuotaOk(s, code, maxUses, n)
    && s.codes[code].usedCount == Redeemed(s.used, code) + (if MidCommit(s, code) then 1 else 0)
    && LockOk(s)
  }

  /** Exactly the call that is writing its user's list holds the lock on the codes. */
  ghost predicate LockOk(s: State) {
    && (forall id :: id in s.calls ==> (s.calls[id].Counted? <==> s.codesHeldBy == Some(id)))
    && (s.codesHeldBy.Some? ==> s.codesHeldBy.value in s.calls)
  }

  lemma StepKeepsLock(s: State, t: Turn)
    requires LockOk(s)
    ensures LockOk(Step(s, t))
  {
    hide Validate;
  }

  /** The account of the quota: uses counted plus uses approved. */
  ghost predicate QuotaOk(s: State, code: string, maxUses: int, n: nat) {
    && code in s.codes && s.codes[code].maxUses == maxUses
    && s.codes[code].usedCount + |ApprovedFor(s, code)| <= maxUses - 1 + n
  }

  /** A call passes the check, or is turned away. */
  lemma CheckKeepsQuota(s: State, t: Turn, code: string, maxUses: int, n: nat)
    requires QuotaOk(s, code, maxUses, n) && |CallsFor(Step(s, t), code)| <= n
    requires t.Advance? && t.id in s.calls && s.calls[t.id].Entering?
    ensures QuotaOk(Step(s, t), code, maxUses, n)
  {
    var s' := Step(s, t);
    if t.id in s'.calls && s'.calls[t.id].Approved? && s'.calls[t.id].code == code {
      SubsetSize(ApprovedFor(s', code), CallsFor(s', code));
    } else {
      hide Validate;
      assert ApprovedFor(s', code) == ApprovedFor(s, code);
    }
  }

  /** A call takes the lock and counts its use. */
  lemma CountKeepsQuota(s: State, t: Turn, code: string, maxUses: int, n: nat)
    requires QuotaOk(s, code, maxUses, n) && maxUses - 1 + n <= I32_MAX
    requires t.Advance? && t.id in s.calls && s.calls[t.id].Approved?
    ensures QuotaOk(Step(s, t), code, maxUses, n)
  {
    var s' := Step(s, t);
    if s.codesHeldBy.None? {
      assert ApprovedFor(s', code) == ApprovedFor(s, code) - {t.id};
    }
  }

  lemma StepKeepsQuota(s: State, t: Turn, code: string, maxUses: int, n: nat)
    requires QuotaOk(s, code, maxUses, n) && |CallsFor(Step(s, t), code)| <= n
    requires !(t.AddCode? && t.name == code)
    requires maxUses - 1 + n <= I32_MAX
    ensures QuotaOk(Step(s, t), code, maxUses, n)
  {
    if t.Advance? && t.id in s.calls && s.calls[t.id].Entering? {
      CheckKeepsQuota(s, t, code, maxUses, n);
    } else if t.Advance? && t.id in s.calls && s.calls[t.id].Approved? {
      CountKeepsQuota(s, t, code, maxUses, n);
    } else {
      hide Validate;
      assert ApprovedFor(Step(s, t), code) == ApprovedFor(s, code);
    }
  }

  lemma StepKeepsTally(s: State, t: Turn, code: string, maxUses: int, n: nat)
    requires Inv(s, code, maxUses, n) && maxUses - 1 + n <= I32_MAX
    requires !(t.AddCode? && t.name == code)
    ensures var s' := Step(s, t);
            code in s'.codes
            && s'.codes[code].usedCount == Redeemed(s'.used, code) + if MidCommit(s', code) then 1 else 0
  {
    hide Validate;
    if t.Advance? && t.id in s.calls {
      match s.calls[t.id]
      case Entering(_, _) =>
      case Approved(c, _) =>
        if c == code { SubsetSize({t.id}, ApprovedFor(s, code)); }
      case Counted(c, user) => RedeemedGrows(s.used, user, c, code);
    }
  }

  /** At no point of the run are more than `n` calls in flight for `code`, and nobody
      replaces it. */
  ghost predicate Limited(s: State, turns: seq<Turn>, code: string, n: nat)
    decreases |turns|
  {
    && |CallsFor(Run(s, turns), code)| <= n
    && (turns != [] ==>
      && Limited(s, turns[..|turns| - 1], code, n)
      && !(turns[|turns| - 1].AddCode? && turns[|turns| - 1].name == code))
  }

  lemma {:induction false} RunKeepsInv(s: State, turns: seq<Turn>, code: string, n: nat)
    requires Initial(s) && code in s.codes && s.codes[code].maxUses >= 1
    requires Limited(s, turns, code, n) && s.codes[code].maxUses - 1 + n <= I32_MAX
    ensures Inv(Run(s, turns), code, s.codes[code].maxUses, n)
    decreases |turns|
  {
    hide Step, LockOk, QuotaOk, CallsFor;
    if turns == [] {
      StartsOk(s, code, n);
    } else {
      var mid, last := Run(s, turns[..|turns| - 1]), turns[|turns| - 1];
      RunKeepsInv(s, turns[..|turns| - 1], code, n);
      StepKeepsQuota(mid, last, code, s.codes[code].maxUses, n);
      StepKeepsTally(mid, last, code, s.codes[code].maxUses, n);
      StepKeepsLock(mid, last);
    }
  }

  lemma StartsOk(s: State, code: string, n: nat)
    requires Initial(s) && code in s.codes && s.codes[code].maxUses >= 1
    ensures Inv(s, code, s.codes[code].maxUses, n)
  {
    assert ApprovedFor(s, code) == {};
  }

  /** With at most `n` calls in flight the use count never exceeds `maxUses - 1 + n`, so
      it never exceeds the quota when calls are serial, and outside a commit it is the
      number of times the code occurs across all users' lists. */
  lemma QuotaUnderInterleaving(s: State, turns: seq<Turn>, code: string, n: nat)
    requires Initial(s) && code in s.codes && s.codes[code].maxUses >= 1
    requires Limited(s, turns, code, n) && s.codes[code].maxUses - 1 + n <= I32_MAX
    ensures var s' := Run(s, turns);
            && code in s'.codes && s'.codes[code].usedCount <= s.codes[code].maxUses - 1 + n
            && (!MidCommit(s', code) ==> s'.codes[code].usedCount == Redeemed(s'.used, code))
  {
    hide Run, Limited, LockOk;
    RunKeepsInv(s, turns, code, n);
  }
}
