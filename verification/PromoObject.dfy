/** The promo manager called by one caller at a time. */
module PromoObject {
  import opened Bytes
  import opened Promo

  class PromoManager {
    var codes: map<string, PromoCode>
    var usedTokens: map<string, seq<string>>

    ghost function View(): State
      reads this
    {
      State(codes, usedTokens, map[], None)
    }

    constructor (preloaded: map<string, PromoCode>)
      requires forall c :: c in preloaded ==> preloaded[c].usedCount == 0
      ensures Initial(View()) && codes == preloaded
    {
      codes, usedTokens := preloaded, map[];
    }

    /** The code is there from now on as it was given, and nothing else changes. */
    method AddCode(name: string, promo: PromoCode)
      modifies this
      ensures View() == Step(old(View()), Promo.AddCode(name, promo))
      ensures name in codes && codes[name] == promo && usedTokens == old(usedTokens)
      ensures forall c :: c != name ==> (c in codes <==> c in old(codes)) && (c in codes ==> codes[c] == old(codes)[c])
    {
      codes := codes[name := promo];
    }

    /** Unknown comes before expired, and expired before used up. */
    method ValidateCode(code: string, now: int) returns (r: Checked)
      ensures r == Validate(codes, code, now)
      ensures r == Rejected(InvalidCode) <==> code !in codes
      ensures r == Rejected(Expired) <==>
                code in codes && codes[code].expiresAt.Some? && now > codes[code].expiresAt.value
      ensures r == Rejected(AlreadyUsed) <==>
                && code in codes && (codes[code].expiresAt.Some? ==> now <= codes[code].expiresAt.value)
                && codes[code].usedCount >= codes[code].maxUses
      ensures r.Valid? ==> code in codes && r.promo == codes[code]
    {
      if code !in codes {
        return Rejected(InvalidCode);
      }
      var promo := codes[code];
      if promo.expiresAt.Some? && now > promo.expiresAt.value {
        return Rejected(Expired);
      }
      if promo.usedCount >= promo.maxUses {
        return Rejected(AlreadyUsed);
      }
      return Valid(promo);
    }

    /** A `use_code` that nobody interrupts is the four steps of one call in a row. */
    method UseCode(code: string, user: string, now: int) returns (r: Checked)
      modifies this
      ensures r == Validate(old(codes), code, now)
      ensures View() == Run(old(View()), [Begin(0, code, user), Advance(0, now), Advance(0, now), Advance(0, now)])
      ensures r.Rejected? ==> codes == old(codes) && usedTokens == old(usedTokens)
      ensures r.Valid? ==>
                var count := old(codes)[code].usedCount;
                && codes == old(codes)[code := old(codes)[code].(usedCount :=
                     if count == 0x7FFF_FFFF then -0x8000_0000 else count + 1)]
                && usedTokens == old(usedTokens)[user :=
                     (if user in old(usedTokens) then old(usedTokens)[user] else []) + [code]]
    {
      Uninterrupted(View(), code, user, now);
      r := ValidateCode(code, now);
      if r.Valid? {
        codes := codes[code := codes[code].(usedCount := CountUp(codes[code].usedCount))];
        var list := if user in usedTokens then usedTokens[user] else [];
        usedTokens := usedTokens[user := list + [code]];
      }
    }
  }

  lemma RunSnoc(s: State, turns: seq<Turn>, t: Turn)
    ensures Run(s, turns + [t]) == Step(Run(s, turns), t)
  {
    hide Step;
    assert (turns + [t])[..|turns|] == turns;
  }

  lemma RunFour(s: State, a: Turn, b: Turn, c: Turn, d: Turn)
    ensures Run(s, [a, b, c, d]) == Step(Step(Step(Step(s, a), b), c), d)
  {
    hide Step;
    RunSnoc(s, [], a);
    RunSnoc(s, [a], b);
    RunSnoc(s, [a, b], c);
    RunSnoc(s, [a, b, c], d);
    assert [] + [a] == [a] && [a] + [b] == [a, b] && [a, b] + [c] == [a, b, c] && [a, b, c] + [d] == [a, b, c, d];
  }

  /** The call comes in and is turned away. */
  lemma TurnedAway(s: State, code: string, user: string, now: int)
    requires s.calls == map[] && s.codesHeldBy == None && Validate(s.codes, code, now).Rejected?
    ensures var go := Advance(0, now);
            Step(Step(Step(Step(s, Begin(0, code, user)), go), go), go) == s
  {
    hide Validate;
    var s1 := Step(s, Begin(0, code, user));
    assert s1.calls - {0} == map[];
    assert Step(s1, Advance(0, now)) == s;
  }

  /** The call comes in, passes, counts and writes the list. */
  lemma LetThrough(s: State, code: string, user: string, now: int)
    requires s.calls == map[] && s.codesHeldBy == None && Validate(s.codes, code, now).Valid?
    ensures code in s.codes && Validate(s.codes, code, now) == Valid(s.codes[code])
    ensures var go := Advance(0, now);
            Step(Step(Step(Step(s, Begin(0, code, user)), go), go), go)
            == s.(codes := s.codes[code := s.codes[code].(usedCount := CountUp(s.codes[code].usedCount))],
                  used := s.used[user := UsedBy(s, user) + [code]])
  {
    assert Validate(s.codes, code, now) == Valid(s.codes[code]) && code in s.codes;
    hide Validate, CountUp;
    var go := Advance(0, now);
    var s2 := Step(Step(s, Begin(0, code, user)), go);
    assert s2 == s.(calls := map[0 := Approved(code, user)]);
    var s3 := Step(s2, go);
    assert s3.calls == map[0 := Counted(code, user)];
    assert s3.calls - {0} == map[];
  }

  /** What one call does when no other is in flight. */
  lemma Uninterrupted(s: State, code: string, user: string, now: int)
    requires s.calls == map[] && s.codesHeldBy == None
    ensures var s' := Run(s, [Begin(0, code, user), Advance(0, now), Advance(0, now), Advance(0, now)]);
            s' == match Validate(s.codes, code, now)
                  case Rejected(_) => s
                  case Valid(promo) =>
                    s.(codes := s.codes[code := promo.(usedCount := CountUp(promo.usedCount))],
                       used := s.used[user := UsedBy(s, user) + [code]])
  {
    hide Run, Step, Validate, CountUp;
    var go := Advance(0, now);
    RunFour(s, Begin(0, code, user), go, go, go);
    if Validate(s.codes, code, now).Valid? {
      LetThrough(s, code, user, now);
    } else {
      TurnedAway(s, code, user, now);
    }
  }
}
