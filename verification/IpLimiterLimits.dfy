/**
 The limits of the limiter. For every address there is a run, with the evictions
 `check` really performs, in which the address is evicted and let in 21 times within
 one window, and one in which a clean-up more or less decides whether it is let in.
 With them the limit on connections, and the harmlessness of clean-ups, are shown to
 hold exactly up to 10 000 visitors.
 */
module IpLimiterLimits {
  import opened Bytes
  import opened Sets
  import opened IpLimiter
  import opened IpLimiterRuns

  // ------------------------------------------------------------------ addresses

  /** The address `d` places after `ip` in its own block of 2^32 addresses. */
  function Neighbour(ip: Address, d: nat): Address {
    ip[..|ip| - 4] + BigEndian32(Low(ip, d))
  }

  /** Where the last four bytes of that address stand. */
  function Low(ip: Address, d: nat): nat {
    (FromBigEndian32(ip[|ip| - 4..]) + d) % U32_LIMIT
  }

  lemma NeighbourLow(ip: Address, d: nat)
    ensures FromBigEndian32(Neighbour(ip, d)[|ip| - 4..]) == Low(ip, d)
  {
    BigEndian32RoundTrip(Low(ip, d));
    assert Neighbour(ip, d)[|ip| - 4..] == BigEndian32(Low(ip, d));
    hide BigEndian32, FromBigEndian32;
  }

  lemma NeighboursDiffer(ip: Address, d: nat, e: nat)
    requires d < e < U32_LIMIT
    ensures Neighbour(ip, d) != Neighbour(ip, e) && Neighbour(ip, e) != ip
  {
    hide FromBigEndian32, Neighbour;
    NeighbourLow(ip, d);
    NeighbourLow(ip, e);
  }

  /** An address that is checked before `ip`, and a crowd of others checked after it. */
  function First(ip: Address): Address {
    Neighbour(ip, 1)
  }

  function Other(ip: Address, i: nat): Address {
    Neighbour(ip, i + 2)
  }

  function Others(ip: Address, k: nat): set<Address> {
    set i: nat | i < k :: Other(ip, i)
  }

  lemma {:induction false} OthersCount(ip: Address, k: nat)
    requires k <= MAX_ENTRIES
    ensures |Others(ip, k)| == k && ip !in Others(ip, k) && First(ip) !in Others(ip, k) && First(ip) != ip
    decreases k
  {
    hide Neighbour;
    if k > 0 {
      OthersCount(ip, k - 1);
      OtherIsNew(ip, k - 1);
    } else {
      NeighboursDiffer(ip, 0, 1);
    }
  }

  lemma OtherIsNew(ip: Address, k: nat)
    requires k < MAX_ENTRIES
    ensures Other(ip, k) !in Others(ip, k) && Other(ip, k) != ip && Other(ip, k) != First(ip)
    ensures Others(ip, k + 1) == Others(ip, k) + {Other(ip, k)}
  {
    hide Neighbour;
    NeighboursDiffer(ip, 1, k + 2);
    forall i: nat | i < k ensures Other(ip, i) != Other(ip, k) {
      NeighboursDiffer(ip, i + 2, k + 2);
    }
  }

  // -------------------------------------------------------------------- the run

  function Repeat(t: int, n: nat): seq<int> {
    seq(n, _ => t)
  }

  /** One check of the first address, then `n` of `ip`. */
  function Opening(ip: Address, n: nat): seq<Event> {
    if n == 0 then [Check(First(ip), 0, {})]
    else Opening(ip, n - 1) + [Check(ip, 1, {})]
  }

  /** Then `k` others, one check each. */
  function Crowd(ip: Address, k: nat): seq<Event>
  {
    if k == 0 then Opening(ip, MAX_CONNS)
    else Crowd(ip, k - 1) + [Check(Other(ip, k - 1), 2, {})]
  }

  /** The first address, then `n` stamps of `ip`, then `k` others. */
  ghost predicate IsCrowd(table: Table, ip: Address, n: nat, k: nat)
  {
    && table.Keys == {First(ip)} + (if n > 0 then {ip} else {}) + Others(ip, k)
    && table[First(ip)] == [0]
    && (n > 0 ==> table[ip] == Repeat(1, n))
    && forall a :: a in Others(ip, k) ==> table[a] == [2]
  }

  lemma RepeatSize(t: int, n: nat)
    ensures |Repeat(t, n)| == n
  {
  }

  lemma RepeatSnoc(t: int, n: nat)
    ensures Repeat(t, n) + [t] == Repeat(t, n + 1)
  {
  }

  lemma {:induction false} AllRecent(t: int, n: nat, now: int)
    requires IsRecent(t, now)
    ensures Recent(Repeat(t, n), now) == Repeat(t, n)
    decreases n
  {
    if n > 0 {
      AllRecent(t, n - 1, now);
      assert Repeat(t, n)[..n - 1] == Repeat(t, n - 1);
    }
  }

  lemma CrowdWithIp(table: Table, ip: Address, n: nat)
    requires IsCrowd(table, ip, n, 0)
    ensures StampsOf(table, ip) == Repeat(1, n)
    ensures IsCrowd(table[ip := Repeat(1, n + 1)], ip, n + 1, 0)
  {
    OthersCount(ip, 0);
    assert First(ip) != ip && Repeat(1, 0) == [];
    hide Others, Repeat, First;
  }

  lemma AdmitIp(table: Table, ip: Address, n: nat)
    requires IsCrowd(table, ip, n, 0) && n < MAX_CONNS
    ensures Admit(table, ip, 1).1 && IsCrowd(Admit(table, ip, 1).0, ip, n + 1, 0)
  {
    hide Recent, Repeat, IsCrowd;
    CrowdWithIp(table, ip, n);
    AllRecent(1, n, 1);
    RepeatSize(1, n);
    RepeatSnoc(1, n);
  }

  lemma AdmitOther(table: Table, ip: Address, k: nat)
    requires k < MAX_ENTRIES && IsCrowd(table, ip, MAX_CONNS, k)
    ensures IsCrowd(Admit(table, Other(ip, k), 2).0, ip, MAX_CONNS, k + 1)
  {
    OtherIsNew(ip, k);
    assert Recent([], 2) == [];
    hide Recent, Other, Others;
  }

  /** A run as `check` would make it, all its stamps at or before `clock`. */
  ghost predicate Real(events: seq<Event>, clock: int) {
    && Genuine(events) && Monotone(events)
    && forall i :: 0 <= i < |events| ==> events[i].now <= clock
  }

  lemma RealSnoc(events: seq<Event>, clock: int, e: Event)
    requires Real(events, clock) && clock <= e.now && (e.Check? ==> Evicts(Run(events), e.evicted))
    ensures Real(events + [e], e.now)
  {
    GenuineSnoc(events, e);
    hide Genuine, Evicts, Run;
  }

  lemma AcceptsSnoc(events: seq<Event>, e: Event, ip: Address)
    ensures Accepts(events + [e], ip)
         == Accepts(events, ip)
            + if e.Check? && e.ip == ip && Answer(events, e.evicted, ip, e.now) then [e.now] else []
  {
    hide Answer;
    assert (events + [e])[..|events|] == events;
  }

  /** A check that evicts nothing. */
  lemma PlainCheck(events: seq<Event>, clock: int, who: Address, now: int)
    requires Real(events, clock) && clock <= now && |Run(events)| <= MAX_ENTRIES
    ensures var e := Check(who, now, {});
            && Real(events + [e], now)
            && Run(events + [e]) == Admit(Run(events), who, now).0
            && Answer(events, {}, who, now) == Admit(Run(events), who, now).1
  {
    var e := Check(who, now, {});
    SmallTableKeeps(Run(events), {});
    RealSnoc(events, clock, e);
    RunSnoc(events, e);
    assert Run(events) - {} == Run(events);
    hide Run, Real, Admit;
  }

  lemma CrowdSize(table: Table, ip: Address, n: nat, k: nat)
    requires k <= MAX_ENTRIES && IsCrowd(table, ip, n, k)
    ensures |table| == k + if n > 0 then 2 else 1
  {
    hide Others, First;
    OthersCount(ip, k);
    SizeWithTwo(First(ip), ip, Others(ip, k));
    assert |table| == |table.Keys|;
  }

  lemma {:induction false} OpeningRuns(ip: Address, n: nat)
    requires n <= MAX_CONNS
    ensures Real(Opening(ip, n), if n > 0 then 1 else 0)
    ensures IsCrowd(Run(Opening(ip, n)), ip, n, 0)
    ensures Accepts(Opening(ip, n), ip) == Repeat(1, n)
    decreases n
  {
    hide IsCrowd, Real, Answer, Admit, Repeat, Accepts, Run;
    if n == 0 {
      OpeningStarts(ip);
    } else {
      OpeningRuns(ip, n - 1);
      var before := Opening(ip, n - 1);
      CrowdSize(Run(before), ip, n - 1, 0);
      PlainCheck(before, if n > 1 then 1 else 0, ip, 1);
      AdmitIp(Run(before), ip, n - 1);
      AcceptsSnoc(before, Check(ip, 1, {}), ip);
      RepeatSnoc(1, n - 1);
    }
  }

  lemma NothingYet(ip: Address)
    ensures Real([], 0) && Run([]) == map[] && Accepts([], ip) == []
  {
  }

  lemma AdmitFirst(ip: Address)
    ensures IsCrowd(Admit(map[], First(ip), 0).0, ip, 0, 0)
  {
    assert Recent([], 0) == [];
    hide Recent;
  }

  lemma OpeningStarts(ip: Address)
    ensures Real(Opening(ip, 0), 0)
    ensures IsCrowd(Run(Opening(ip, 0)), ip, 0, 0)
    ensures Accepts(Opening(ip, 0), ip) == Repeat(1, 0)
  {
    hide IsCrowd, Real, Answer, Admit, Accepts, Run;
    var e := Check(First(ip), 0, {});
    assert [] + [e] == Opening(ip, 0);
    NothingYet(ip);
    AdmitFirst(ip);
    PlainCheck([], 0, First(ip), 0);
    AcceptsSnoc([], e, ip);
    assert First(ip) != ip;
  }

  lemma {:induction false} CrowdRuns(ip: Address, k: nat)
    requires k < MAX_ENTRIES
    ensures Real(Crowd(ip, k), 2)
    ensures IsCrowd(Run(Crowd(ip, k)), ip, MAX_CONNS, k)
    ensures Accepts(Crowd(ip, k), ip) == Repeat(1, MAX_CONNS)
    decreases k
  {
    hide IsCrowd, Answer, Admit, Repeat, Accepts, Run, Genuine, Monotone, Opening;
    if k == 0 {
      OpeningRuns(ip, MAX_CONNS);
    } else {
      CrowdRuns(ip, k - 1);
      var before := Crowd(ip, k - 1);
      CrowdSize(Run(before), ip, MAX_CONNS, k - 1);
      PlainCheck(before, 2, Other(ip, k - 1), 2);
      AdmitOther(Run(before), ip, k - 1);
      AcceptsSnoc(before, Check(Other(ip, k - 1), 2, {}), ip);
      OtherIsNew(ip, k - 1);
    }
  }

  // ------------------------------------------------------------------- visitors

  /** The two addresses checked before the crowd comes. */
  function Early(ip: Address): set<Address> {
    {First(ip), ip}
  }

  lemma CrowdVisitorsStart(ip: Address)
    ensures Visitors(Crowd(ip, 0)) == Early(ip) + Others(ip, 0)
  {
    OpeningVisitors(ip, MAX_CONNS);
    hide Visitors, First;
    assert Others(ip, 0) == {};
  }

  lemma {:induction false} CrowdVisitors(ip: Address, k: nat)
    requires k <= MAX_ENTRIES
    ensures Visitors(Crowd(ip, k)) == Early(ip) + Others(ip, k)
    decreases k
  {
    hide Visitors, Others, Other, Early, Opening;
    if k == 0 {
      CrowdVisitorsStart(ip);
    } else {
      CrowdVisitors(ip, k - 1);
      VisitorsSnoc(Crowd(ip, k - 1), Check(Other(ip, k - 1), 2, {}));
      OtherIsNew(ip, k - 1);
      UnionOneMore(Early(ip), Others(ip, k - 1), Other(ip, k - 1));
    }
  }

  lemma {:induction false} OpeningVisitors(ip: Address, n: nat)
    ensures Visitors(Opening(ip, n)) == {First(ip)} + if n > 0 then {ip} else {}
    decreases n
  {
    if n > 0 {
      OpeningVisitors(ip, n - 1);
      VisitorsSnoc(Opening(ip, n - 1), Check(ip, 1, {}));
    }
  }

  // ------------------------------------------------------------------- eviction

  /** One entry over the limit. */
  function FullHouse(ip: Address): seq<Event> {
    Crowd(ip, MAX_ENTRIES - 1)
  }

  /** A choice of the oldest fifth: the two old entries and some of the crowd. */
  function OldestFew(ip: Address): set<Address> {
    Early(ip) + Others(ip, MAX_ENTRIES / 5 - 2)
  }

  lemma OthersGrow(ip: Address, j: nat, k: nat)
    requires j <= k
    ensures Others(ip, j) <= Others(ip, k)
  {
  }

  /** The first stamp of each entry of the full house. */
  lemma CrowdStamp(table: Table, ip: Address, a: Address)
    requires IsCrowd(table, ip, MAX_CONNS, MAX_ENTRIES - 1) && a in table
    ensures |table[a]| > 0 && table[a][0] == if a == First(ip) then 0 else if a == ip then 1 else 2
  {
    hide Others;
  }

  lemma CrowdCandidates(table: Table, ip: Address)
    requires IsCrowd(table, ip, MAX_CONNS, MAX_ENTRIES - 1)
    ensures Candidates(table) == table.Keys && |table| == |Candidates(table)| == MAX_ENTRIES + 1
    ensures forall a :: a in Candidates(table) ==>
              table[a][0] == if a == First(ip) then 0 else if a == ip then 1 else 2
  {
    CrowdSize(table, ip, MAX_CONNS, MAX_ENTRIES - 1);
    hide IsCrowd;
    forall a | a in table
      ensures |table[a]| > 0 && table[a][0] == if a == First(ip) then 0 else if a == ip then 1 else 2
    {
      CrowdStamp(table, ip, a);
    }
  }

  lemma OldestFewSize(ip: Address)
    ensures |OldestFew(ip)| == MAX_ENTRIES / 5
  {
    hide Others, First;
    OthersCount(ip, MAX_ENTRIES / 5 - 2);
    SizeWithTwo(First(ip), ip, Others(ip, MAX_ENTRIES / 5 - 2));
  }

  lemma OldestFewThere(table: Table, ip: Address)
    requires IsCrowd(table, ip, MAX_CONNS, MAX_ENTRIES - 1)
    ensures OldestFew(ip) <= table.Keys && First(ip) in OldestFew(ip) && ip in OldestFew(ip)
  {
    OthersGrow(ip, MAX_ENTRIES / 5 - 2, MAX_ENTRIES - 1);
    hide Others;
  }

  lemma OldestFewGo(table: Table, ip: Address)
    requires IsCrowd(table, ip, MAX_CONNS, MAX_ENTRIES - 1)
    ensures Evicts(table, OldestFew(ip))
  {
    hide IsCrowd, Candidates, OldestFew, First;
    OldestFewThere(table, ip);
    CrowdCandidates(table, ip);
    OldestFewSize(ip);
  }

  /** Whichever fifth is chosen, `ip` is in it: only one entry is older. */
  lemma IpIsEvicted(table: Table, ip: Address, evicted: set<Address>)
    requires IsCrowd(table, ip, MAX_CONNS, MAX_ENTRIES - 1) && Evicts(table, evicted)
    ensures ip in evicted
  {
    CrowdCandidates(table, ip);
    assert ip in table.Keys && First(ip) != ip;
    hide IsCrowd, Candidates, First;
    if ip !in evicted {
      assert evicted <= {First(ip)};
      SubsetSize(evicted, {First(ip)});
    }
  }

  // ------------------------------------------------------------------- theorems

  lemma FullHouseVisitors(ip: Address, e: Event)
    requires e.Check? ==> e.ip == ip
    ensures |Visitors(FullHouse(ip) + [e])| == MAX_ENTRIES + 1
  {
    hide Visitors, Others, Crowd, First;
    CrowdVisitors(ip, MAX_ENTRIES - 1);
    OthersCount(ip, MAX_ENTRIES - 1);
    VisitorsSnoc(FullHouse(ip), e);
    SizeWithTwo(First(ip), ip, Others(ip, MAX_ENTRIES - 1));
    assert Visitors(FullHouse(ip) + [e]) == Early(ip) + Others(ip, MAX_ENTRIES - 1);
  }

  /** Eviction forgets: for every address there is a run, with a monotone clock and only
      such evictions as `check` performs, that lets it in 21 times within one window. So
      `NoWindowOverflows` cannot do without its hypothesis that the address stays. */
  lemma EvictionForgets(ip: Address) returns (events: seq<Event>)
    ensures Genuine(events) && Monotone(events) && |Visitors(events)| == MAX_ENTRIES + 1
    ensures |Accepts(events, ip)| == MAX_CONNS + 1
    ensures Accepts(events, ip)[MAX_CONNS] - Accepts(events, ip)[0] < WINDOW
  {
    hide Crowd, Run, Evicts, Recent, Accepts, Genuine, Monotone, Visitors;
    var crowd := FullHouse(ip);
    var last := Check(ip, WINDOW, OldestFew(ip));
    CrowdRuns(ip, MAX_ENTRIES - 1);
    OldestFewGo(Run(crowd), ip);
    RealSnoc(crowd, 2, last);
    AnswersFollowLog(crowd, last.evicted, ip, WINDOW);
    AcceptsSnoc(crowd, last, ip);
    FullHouseVisitors(ip, last);
    events := crowd + [last];
  }

  /** The clean-up removes the first address alone, and the table fits again. */
  lemma CleanUpMakesRoom(table: Table, ip: Address)
    requires IsCrowd(table, ip, MAX_CONNS, MAX_ENTRIES - 1)
    ensures var after := Cleanup(table, WINDOW);
            |after| == MAX_ENTRIES && ip in after && after[ip] == Repeat(1, MAX_CONNS)
  {
    AllRecent(1, MAX_CONNS, WINDOW);
    AllRecent(2, 1, WINDOW);
    assert Repeat(2, 1) == [2] && Recent([0], WINDOW) == [];
    OthersCount(ip, MAX_ENTRIES - 1);
    CrowdSize(table, ip, MAX_CONNS, MAX_ENTRIES - 1);
    hide Recent, Others;
    assert Cleanup(table, WINDOW).Keys == table.Keys - {First(ip)};
    assert |Cleanup(table, WINDOW)| == |table.Keys - {First(ip)}|;
  }

  lemma DropSnoc(events: seq<Event>, e: Event)
    ensures DropCleanUps(events + [e]) == DropCleanUps(events) + if e.CleanUp? then [] else [e]
  {
    assert (events + [e])[..|events|] == events;
  }

  lemma {:induction false} CrowdHasNoCleanUps(ip: Address, k: nat)
    ensures DropCleanUps(Crowd(ip, k)) == Crowd(ip, k)
    decreases k
  {
    hide DropCleanUps;
    if k == 0 {
      OpeningHasNoCleanUps(ip, MAX_CONNS);
    } else {
      CrowdHasNoCleanUps(ip, k - 1);
      DropSnoc(Crowd(ip, k - 1), Check(Other(ip, k - 1), 2, {}));
    }
  }

  lemma {:induction false} OpeningHasNoCleanUps(ip: Address, n: nat)
    ensures DropCleanUps(Opening(ip, n)) == Opening(ip, n)
    decreases n
  {
    if n == 0 {
      assert DropCleanUps([]) == [];
      DropSnoc([], Check(First(ip), 0, {}));
      assert [] + Opening(ip, 0) == Opening(ip, 0);
    } else {
      hide DropCleanUps;
      OpeningHasNoCleanUps(ip, n - 1);
      DropSnoc(Opening(ip, n - 1), Check(ip, 1, {}));
    }
  }

  /** With the clean-up nothing is evicted and `ip` is refused. */
  lemma RefusedAfterCleanUp(ip: Address)
    ensures |Run(FullHouse(ip) + [CleanUp(WINDOW)])| <= MAX_ENTRIES
    ensures !Answer(FullHouse(ip) + [CleanUp(WINDOW)], {}, ip, WINDOW)
  {
    hide Crowd, Run, Recent, Cleanup, IsCrowd, Repeat, Real;
    var crowd := FullHouse(ip);
    CrowdRuns(ip, MAX_ENTRIES - 1);
    RunSnoc(crowd, CleanUp(WINDOW));
    CleanUpMakesRoom(Run(crowd), ip);
    var table := Cleanup(Run(crowd), WINDOW);
    assert table - {} == table;
    AllRecent(1, MAX_CONNS, WINDOW);
    RepeatSize(1, MAX_CONNS);
  }

  /** Without it every eviction that `check` may perform lets `ip` in. */
  lemma LetInWithoutCleanUp(ip: Address, evicted: set<Address>)
    requires Evicts(Run(FullHouse(ip)), evicted)
    ensures Answer(FullHouse(ip), evicted, ip, WINDOW)
  {
    hide Crowd, Run, Evicts, Answer, IsCrowd, Genuine, Monotone;
    CrowdRuns(ip, MAX_ENTRIES - 1);
    IpIsEvicted(Run(FullHouse(ip)), ip, evicted);
    AnswersFollowLog(FullHouse(ip), evicted, ip, WINDOW);
  }

  /** Clean-ups can be seen as soon as the entry limit is passed: for every address there
      is a run with 10 001 visitors that refuses it after a clean-up and lets it in without
      the clean-up, whichever entries `check` then evicts. */
  lemma CleanUpDecides(ip: Address) returns (events: seq<Event>, now: int)
    ensures Genuine(events) && Monotone(events) && |Visitors(events)| == MAX_ENTRIES + 1
    ensures events != [] && events[|events| - 1] == CleanUp(now)
    ensures Genuine(DropCleanUps(events)) && Monotone(DropCleanUps(events))
    ensures exists evicted :: Evicts(Run(events), evicted)
    ensures exists evicted :: Evicts(Run(DropCleanUps(events)), evicted)
    ensures forall evicted :: Evicts(Run(events), evicted) ==> !Answer(events, evicted, ip, now)
    ensures forall evicted :: Evicts(Run(DropCleanUps(events)), evicted) ==>
              Answer(DropCleanUps(events), evicted, ip, now)
  {
    hide Run, Evicts, Answer, Genuine, Monotone, IsCrowd, Crowd, DropCleanUps, Visitors, Others;
    var crowd := FullHouse(ip);
    now := WINDOW;
    events := crowd + [CleanUp(now)];
    CrowdRuns(ip, MAX_ENTRIES - 1);
    RealSnoc(crowd, 2, CleanUp(now));
    CrowdHasNoCleanUps(ip, MAX_ENTRIES - 1);
    DropSnoc(crowd, CleanUp(now));
    assert DropCleanUps(events) == crowd;
    FullHouseVisitors(ip, CleanUp(now));
    OldestFewGo(Run(crowd), ip);
    RefusedAfterCleanUp(ip);
    SmallTableKeeps(Run(events), {});
    forall evicted | Evicts(Run(events), evicted) ensures !Answer(events, evicted, ip, now) {
      SmallTableKeeps(Run(events), evicted);
    }
    forall evicted | Evicts(Run(crowd), evicted) ensures Answer(crowd, evicted, ip, now) {
      LetInWithoutCleanUp(ip, evicted);
    }
  }

  // ------------------------------------------------------------ exact conditions

  /** No window of any address holds more than 20 connections. */
  ghost predicate KeepsLimit(events: seq<Event>) {
    forall ip, i, j ::
      0 <= i <= j < |Accepts(events, ip)| && Accepts(events, ip)[j] - Accepts(events, ip)[i] < WINDOW ==>
      j - i + 1 <= MAX_CONNS
  }

  ghost predicate LimitHoldsFor(n: nat) {
    forall events :: Genuine(events) && Monotone(events) && |Visitors(events)| <= n ==> KeepsLimit(events)
  }

  lemma FewVisitorsKeepLimit(events: seq<Event>)
    requires Genuine(events) && Monotone(events) && |Visitors(events)| <= MAX_ENTRIES
    ensures KeepsLimit(events)
  {
    hide Genuine, Monotone, Visitors, Accepts, FitsWithoutCleanUps, Run;
    FitsExactly(events);
    NothingIsEvicted(events);
    forall ip, i, j |
      0 <= i <= j < |Accepts(events, ip)| && Accepts(events, ip)[j] - Accepts(events, ip)[i] < WINDOW
      ensures j - i + 1 <= MAX_CONNS
    {
      NoWindowOverflows(events, ip, i, j);
    }
  }

  /** With `n` addresses about, all runs keep every window of every address within 20
      connections if and only if `n` is no more than the entry limit. */
  lemma LimitHoldsExactly(n: nat)
    ensures LimitHoldsFor(n) <==> n <= MAX_ENTRIES
  {
    hide Genuine, Monotone, Visitors, Accepts;
    if n <= MAX_ENTRIES {
      hide KeepsLimit;
      forall events | Genuine(events) && Monotone(events) && |Visitors(events)| <= n ensures KeepsLimit(events) {
        FewVisitorsKeepLimit(events);
      }
    } else {
      var ip: Address := [0, 0, 0, 0];
      var events := EvictionForgets(ip);
      assert Accepts(events, ip)[MAX_CONNS] - Accepts(events, ip)[0] < WINDOW;
      assert !KeepsLimit(events);
    }
  }

  /** Leaving out the clean-ups makes no difference to who is let in, in the run or after. */
  ghost predicate CleanUpsUnnoticed(events: seq<Event>) {
    && Genuine(DropCleanUps(events))
    && (forall ip :: Accepts(events, ip) == Accepts(DropCleanUps(events), ip))
    && forall ip, now, evicted, evicted' ::
         (events != [] ==> events[|events| - 1].now <= now)
         && Evicts(Run(events), evicted) && Evicts(Run(DropCleanUps(events)), evicted') ==>
         Answer(events, evicted, ip, now) == Answer(DropCleanUps(events), evicted', ip, now)
  }

  ghost predicate CleanUpsUnnoticedFor(n: nat) {
    forall events :: Genuine(events) && Monotone(events) && |Visitors(events)| <= n ==> CleanUpsUnnoticed(events)
  }

  lemma FewVisitorsUnnoticed(events: seq<Event>)
    requires Genuine(events) && Monotone(events) && |Visitors(events)| <= MAX_ENTRIES
    ensures CleanUpsUnnoticed(events)
  {
    hide Genuine, Monotone, Visitors, Accepts, FitsWithoutCleanUps, Run, Evicts, Answer, DropCleanUps;
    FitsExactly(events);
    NothingIsEvicted(events);
    SmallTableKeeps(Run(events), {});
    SmallTableKeeps(Run(DropCleanUps(events)), {});
    var last := if events == [] then 0 else events[|events| - 1].now;
    forall ip ensures Accepts(events, ip) == Accepts(DropCleanUps(events), ip) {
      CleanUpIsInvisible(events, ip, last, {}, {});
    }
    forall ip, now, evicted, evicted' |
      (events != [] ==> events[|events| - 1].now <= now)
      && Evicts(Run(events), evicted) && Evicts(Run(DropCleanUps(events)), evicted')
      ensures Answer(events, evicted, ip, now) == Answer(DropCleanUps(events), evicted', ip, now)
    {
      CleanUpIsInvisible(events, ip, now, evicted, evicted');
    }
  }

  /** With `n` addresses about, clean-ups go unnoticed in all runs if and only if `n` is
      no more than the entry limit. */
  lemma CleanUpsUnnoticedExactly(n: nat)
    ensures CleanUpsUnnoticedFor(n) <==> n <= MAX_ENTRIES
  {
    hide Genuine, Monotone, Visitors, Accepts, Run, Evicts, Answer, DropCleanUps;
    if n <= MAX_ENTRIES {
      hide CleanUpsUnnoticed;
      forall events | Genuine(events) && Monotone(events) && |Visitors(events)| <= n
        ensures CleanUpsUnnoticed(events)
      {
        FewVisitorsUnnoticed(events);
      }
    } else {
      var ip: Address := [0, 0, 0, 0];
      var events, now := CleanUpDecides(ip);
      assert !CleanUpsUnnoticed(events);
    }
  }
}
