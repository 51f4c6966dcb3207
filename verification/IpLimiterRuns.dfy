/**
 The limiter over whole runs: its pruned, cleaned and evicted table answers
 exactly like a full log of accepted connections.
 */
module IpLimiterRuns {
  import opened IpLimiter
  import opened Sets

  /** A `check`, with the entries it evicted first, or a periodic `cleanup`. */
  datatype Event = Check(ip: Address, now: int, evicted: set<Address>) | CleanUp(now: int)

  function Step(table: Table, e: Event): Table {
    match e
    case Check(ip, now, evicted) => Admit(table - evicted, ip, now).0
    case CleanUp(now) => Cleanup(table, now)
  }

  function Run(events: seq<Event>): Table {
    if events == [] then map[]
    else Step(Run(events[..|events| - 1]), events[|events| - 1])
  }

  /** What `check` answers after these events, once it has evicted these entries. */
  predicate Answer(events: seq<Event>, evicted: set<Address>, ip: Address, now: int) {
    Admit(Run(events) - evicted, ip, now).1
  }

  /** The evictions a run claims are the ones `check` performs. */
  ghost predicate Genuine(events: seq<Event>) {
    forall i :: 0 <= i < |events| && events[i].Check? ==> Evicts(Run(events[..i]), events[i].evicted)
  }

  /** The reference: the stamps at which the address was let in, in full, since it
      was last evicted, where letting in is decided by looking at this log alone. */
  function Log(events: seq<Event>, ip: Address): seq<int> {
    if events == [] then []
    else
      var before, last := Log(events[..|events| - 1], ip), events[|events| - 1];
      match last
      case CleanUp(_) => before
      case Check(who, now, evicted) =>
        var kept := if ip in evicted then [] else before;
        if who == ip && Allows(kept, now) then kept + [now] else kept
  }

  /** The clock never goes back. */
  ghost predicate Monotone(events: seq<Event>) {
    forall i, j :: 0 <= i <= j < |events| ==> events[i].now <= events[j].now
  }

  // -------------------------------------------------------------------- pruning

  lemma RecentSnoc(stamps: seq<int>, t: int, now: int)
    ensures Recent(stamps + [t], now) == Recent(stamps, now) + if IsRecent(t, now) then [t] else []
  {
    assert (stamps + [t])[..|stamps|] == stamps;
  }

  /** Pruning earlier does not change what is recent later. */
  lemma {:induction false} RecentTwice(stamps: seq<int>, earlier: int, now: int)
    requires earlier <= now
    ensures Recent(Recent(stamps, earlier), now) == Recent(stamps, now)
    decreases |stamps|
  {
    if stamps != [] {
      var front, last := stamps[..|stamps| - 1], stamps[|stamps| - 1];
      RecentTwice(front, earlier, now);
      if IsRecent(last, earlier) {
        RecentSnoc(Recent(front, earlier), last, now);
      } else {
        assert Recent(stamps, earlier) == Recent(front, earlier);
      }
    }
  }

  /** Two lists of stamps that no later question can tell apart. */
  ghost predicate SameFrom(a: seq<int>, b: seq<int>, clock: int) {
    forall now :: now >= clock ==> Recent(a, now) == Recent(b, now)
  }

  lemma SameAfterPruning(a: seq<int>, b: seq<int>, clock: int, now: int)
    requires SameFrom(a, b, clock) && clock <= now
    ensures SameFrom(Recent(a, now), b, now)
    ensures SameFrom(Recent(a, now) + [now], b + [now], now)
  {
    hide Recent, IsRecent, Young;
    forall later | later >= now
      ensures Recent(Recent(a, now), later) == Recent(b, later)
      ensures Recent(Recent(a, now) + [now], later) == Recent(b + [now], later)
    {
      RecentTwice(a, now, later);
      RecentSnoc(Recent(a, now), now, later);
      RecentSnoc(b, now, later);
    }
  }

  lemma StepMatchesLog(table: Table, log: seq<int>, clock: int, e: Event, ip: Address)
    requires SameFrom(StampsOf(table, ip), log, clock) && clock <= e.now
    ensures var log' := match e
                        case CleanUp(_) => log
                        case Check(who, now, evicted) =>
                          var kept := if ip in evicted then [] else log;
                          if who == ip && Allows(kept, now) then kept + [now] else kept;
            SameFrom(StampsOf(Step(table, e), ip), log', e.now)
  {
    hide Recent, IsRecent, Young;
    match e
    case CleanUp(now) =>
      SameAfterPruning(StampsOf(table, ip), log, clock, now);
      if ip in table && Recent(table[ip], now) == [] { assert StampsOf(Step(table, e), ip) == Recent(table[ip], now); }
    case Check(who, now, evicted) =>
      var kept := if ip in evicted then [] else log;
      RecentKeepsYoung(kept, now);
      assert SameFrom(StampsOf(table - evicted, ip), kept, clock);
      SameAfterPruning(StampsOf(table - evicted, ip), kept, clock, now);
  }

  lemma {:induction false} TableMatchesLog(events: seq<Event>, ip: Address, clock: int)
    requires Monotone(events) && (events != [] ==> events[|events| - 1].now <= clock)
    ensures SameFrom(StampsOf(Run(events), ip), Log(events, ip), clock)
    decreases |events|
  {
    hide Recent, Step;
    if events != [] {
      var front, last := events[..|events| - 1], events[|events| - 1];
      TableMatchesLog(front, ip, last.now);
      StepMatchesLog(Run(front), Log(front, ip), last.now, last, ip);
    }
  }

  // ------------------------------------------------------------------- theorems

  /** In every run with a monotone clock, evictions and clean-ups included, an address
      is let in exactly when the check itself evicts it or fewer than 20 of the
      connections it made since it was last evicted are less than 60 seconds old. */
  lemma AnswersFollowLog(events: seq<Event>, evicted: set<Address>, ip: Address, now: int)
    requires Monotone(events) && (events != [] ==> events[|events| - 1].now <= now)
    ensures Answer(events, evicted, ip, now) <==> ip in evicted || |Young(Log(events, ip), now)| < 20
  {
    hide Run, Log;
    assert Recent([], now) == [];
    hide Recent, Young;
    TableMatchesLog(events, ip, now);
    RecentKeepsYoung(Log(events, ip), now);
    assert StampsOf(Run(events) - evicted, ip) == if ip in evicted then [] else StampsOf(Run(events), ip);
  }

  /** The stamps at which the table, not the reference, let the address in. */
  function Accepts(events: seq<Event>, ip: Address): seq<int> {
    if events == [] then []
    else
      var front, last := events[..|events| - 1], events[|events| - 1];
      Accepts(front, ip)
      + if last.Check? && last.ip == ip && Answer(front, last.evicted, ip, last.now) then [last.now] else []
  }

  ghost predicate NeverEvicted(events: seq<Event>, ip: Address) {
    forall i :: 0 <= i < |events| && events[i].Check? ==> ip !in events[i].evicted
  }

  lemma {:induction false} AcceptsAreTheLog(events: seq<Event>, ip: Address)
    requires Monotone(events) && NeverEvicted(events, ip)
    ensures Accepts(events, ip) == Log(events, ip)
    decreases |events|
  {
    hide Recent, Step;
    if events != [] {
      var front, last := events[..|events| - 1], events[|events| - 1];
      AcceptsAreTheLog(front, ip);
      if last.Check? {
        AnswersFollowLog(front, last.evicted, ip, last.now);
      }
    }
  }

  /** While an address is never evicted, the check that is asked included, the limiter
      is an exact sliding window over all the connections it ever let in. */
  lemma SlidingWindowIsExact(events: seq<Event>, evicted: set<Address>, ip: Address, now: int)
    requires Monotone(events) && (events != [] ==> events[|events| - 1].now <= now)
    requires NeverEvicted(events, ip) && ip !in evicted
    ensures Answer(events, evicted, ip, now) <==> |Young(Accepts(events, ip), now)| < 20
  {
    AnswersFollowLog(events, evicted, ip, now);
    AcceptsAreTheLog(events, ip);
  }

  ghost predicate Sorted(stamps: seq<int>) {
    forall i, j :: 0 <= i <= j < |stamps| ==> stamps[i] <= stamps[j]
  }

  /** If the 20th stamp from the end is recent, there are 20 recent stamps. */
  lemma {:induction false} RecentSuffix(stamps: seq<int>, now: int, k: nat)
    requires Sorted(stamps) && k <= |stamps|
    requires k > 0 ==> IsRecent(stamps[|stamps| - k], now)
    ensures |Recent(stamps, now)| >= k
    decreases |stamps|
  {
    if k > 0 {
      var front := stamps[..|stamps| - 1];
      assert IsRecent(stamps[|stamps| - 1], now);
      RecentSuffix(front, now, k - 1);
    }
  }

  /** Any 21 consecutive entries of the log span at least the window. */
  ghost predicate Spaced(stamps: seq<int>) {
    forall i :: 0 <= i && i + MAX_CONNS < |stamps| ==> stamps[i + MAX_CONNS] - stamps[i] >= WINDOW
  }

  lemma {:induction false} LogIsSpaced(events: seq<Event>, ip: Address)
    requires Monotone(events)
    ensures Sorted(Log(events, ip)) && Spaced(Log(events, ip))
    ensures forall i :: 0 <= i < |Log(events, ip)| ==> events != [] && Log(events, ip)[i] <= events[|events| - 1].now
    decreases |events|
  {
    hide Recent, IsRecent, Young;
    if events != [] {
      var front, last := events[..|events| - 1], events[|events| - 1];
      LogIsSpaced(front, ip);
      var kept := if last.Check? && ip in last.evicted then [] else Log(front, ip);
      if last.Check? && last.ip == ip && Allows(kept, last.now) && |kept| >= MAX_CONNS {
        OldIsOut(kept, last.now);
      }
    }
  }

  lemma OldIsOut(stamps: seq<int>, now: int)
    requires Sorted(stamps) && |stamps| >= MAX_CONNS && Allows(stamps, now)
    ensures now - stamps[|stamps| - MAX_CONNS] >= WINDOW
  {
    RecentKeepsYoung(stamps, now);
    if IsRecent(stamps[|stamps| - MAX_CONNS], now) {
      RecentSuffix(stamps, now, MAX_CONNS);
    }
  }

  lemma SpacedApart(stamps: seq<int>, i: nat, j: nat)
    requires Sorted(stamps) && Spaced(stamps) && i + MAX_CONNS <= j < |stamps|
    ensures stamps[j] - stamps[i] >= WINDOW
  {
    assert stamps[i + MAX_CONNS] <= stamps[j];
  }

  /** No 60-second window ever holds more than 20 connections of one address. */
  lemma NoWindowOverflows(events: seq<Event>, ip: Address, i: nat, j: nat)
    requires Monotone(events) && NeverEvicted(events, ip)
    requires i <= j < |Accepts(events, ip)|
    requires Accepts(events, ip)[j] - Accepts(events, ip)[i] < WINDOW
    ensures j - i + 1 <= MAX_CONNS
  {
    AcceptsAreTheLog(events, ip);
    LogIsSpaced(events, ip);
    hide Accepts, Log;
    if j >= i + MAX_CONNS {
      SpacedApart(Accepts(events, ip), i, j);
    }
  }

  /** How many of these checks evict the address. */
  function Evictions(events: seq<Event>, ip: Address): nat {
    if events == [] then 0
    else
      var last := events[|events| - 1];
      Evictions(events[..|events| - 1], ip) + if last.Check? && ip in last.evicted then 1 else 0
  }

  ghost predicate StampedWithin(events: seq<Event>, from: int) {
    forall i :: 0 <= i < |events| ==> from <= events[i].now < from + WINDOW
  }

  /** The last `k` entries of a log are stamped at or after `from`. */
  ghost predicate EndsAfter(log: seq<int>, k: nat, from: int) {
    k <= |log| && forall i :: |log| - k <= i < |log| ==> from <= log[i]
  }

  lemma FewInWindow(log: seq<int>, k: nat, from: int)
    requires Sorted(log) && Spaced(log) && EndsAfter(log, k, from)
    requires forall i :: 0 <= i < |log| ==> log[i] < from + WINDOW
    ensures k <= MAX_CONNS
  {
    if k > MAX_CONNS {
      SpacedApart(log, |log| - k, |log| - 1);
    }
  }

  /** One more check of a run, as the log sees it. */
  lemma CheckLogs(events: seq<Event>, e: Event, ip: Address)
    requires Monotone(events + [e])
    ensures var evicted := e.Check? && ip in e.evicted;
            var kept := if evicted then [] else Log(events, ip);
            var more := if e.Check? && e.ip == ip && Allows(kept, e.now) then [e.now] else [];
            Log(events + [e], ip) == kept + more && Accepts(events + [e], ip) == Accepts(events, ip) + more
  {
    assert Recent([], e.now) == [];
    hide Recent, Answer;
    var all := events + [e];
    assert all[..|events|] == events && all[|events|] == e;
    assert forall i :: 0 <= i < |events| ==> events[i] == all[i];
    if e.Check? {
      AnswersFollowLog(events, e.evicted, ip, e.now);
    }
  }

  /** What a window has let in is paid for by 20 for each eviction in it and by the
      entries it has added to the log since. */
  lemma {:induction false} EvictionsPay(before: seq<Event>, window: seq<Event>, ip: Address, from: int) returns (k: nat)
    requires Monotone(before + window) && StampedWithin(window, from)
    ensures EndsAfter(Log(before + window, ip), k, from)
    ensures |Accepts(before + window, ip)| <= |Accepts(before, ip)| + MAX_CONNS * Evictions(window, ip) + k
    ensures k <= MAX_CONNS
    decreases |window|
  {
    hide Log, Accepts, Allows, Monotone, Spaced, Sorted;
    if window == [] {
      assert before + window == before;
      k := 0;
    } else {
      var front, last := window[..|window| - 1], window[|window| - 1];
      var all := before + front;
      assert before + window == all + [last];
      MonotoneFront(all, last);
      k := EvictionsPay(before, front, ip, from);
      CheckLogs(all, last, ip);
      LogIsSpaced(all + [last], ip);
      if last.Check? && ip in last.evicted { k := 0; }
      k := k + |Accepts(all + [last], ip)| - |Accepts(all, ip)|;
      FewInWindow(Log(all + [last], ip), k, from);
    }
  }

  lemma MonotoneFront(events: seq<Event>, e: Event)
    requires Monotone(events + [e])
    ensures Monotone(events)
  {
    assert forall i :: 0 <= i < |events| ==> events[i] == (events + [e])[i];
  }

  /** And with evictions: in any 60 seconds in which an address is evicted `n` times it
      is let in at most 20 times `n + 1` times. */
  lemma EvictionsBoundWindow(before: seq<Event>, window: seq<Event>, ip: Address, from: int)
    requires Monotone(before + window) && StampedWithin(window, from)
    ensures |Accepts(before + window, ip)| - |Accepts(before, ip)| <= MAX_CONNS * (Evictions(window, ip) + 1)
  {
    var _ := EvictionsPay(before, window, ip, from);
  }

  function DropCleanUps(events: seq<Event>): seq<Event> {
    if events == [] then []
    else
      var front, last := DropCleanUps(events[..|events| - 1]), events[|events| - 1];
      if last.CleanUp? then front else front + [last]
  }

  lemma {:induction false} DropKeepsOrder(events: seq<Event>)
    requires Monotone(events)
    ensures Monotone(DropCleanUps(events))
    ensures forall i :: 0 <= i < |DropCleanUps(events)| ==>
              events != [] && DropCleanUps(events)[i].now <= events[|events| - 1].now
    decreases |events|
  {
    if events != [] {
      DropKeepsOrder(events[..|events| - 1]);
    }
  }

  lemma {:induction false} DropKeepsLog(events: seq<Event>, ip: Address)
    ensures Log(DropCleanUps(events), ip) == Log(events, ip)
    decreases |events|
  {
    hide Allows;
    if events != [] {
      var front, last := events[..|events| - 1], events[|events| - 1];
      DropKeepsLog(front, ip);
      var kept := DropCleanUps(front);
      assert (kept + [last])[..|kept|] == kept;
    }
  }

  /** Leaving the clean-ups out, the table never grows over the entry limit. */
  ghost predicate FitsWithoutCleanUps(events: seq<Event>) {
    forall i :: 0 <= i <= |events| ==> |Run(DropCleanUps(events[..i]))| <= MAX_ENTRIES
  }

  ghost predicate NoEvictions(events: seq<Event>) {
    forall i :: 0 <= i < |events| && events[i].Check? ==> events[i].evicted == {}
  }

  lemma GenuineSnoc(events: seq<Event>, e: Event)
    ensures Genuine(events + [e]) <==> Genuine(events) && (e.Check? ==> Evicts(Run(events), e.evicted))
  {
    hide Evicts, Run;
    var all := events + [e];
    assert all[..|events|] == events && all[|events|] == e;
    assert forall i :: 0 <= i < |events| ==> all[i] == events[i] && all[..i] == events[..i];
  }

  lemma FitsSnoc(events: seq<Event>)
    requires events != []
    ensures var front := events[..|events| - 1];
            FitsWithoutCleanUps(events) <==>
              FitsWithoutCleanUps(front) && |Run(DropCleanUps(events))| <= MAX_ENTRIES
  {
    hide Run, DropCleanUps;
    var front := events[..|events| - 1];
    assert forall i :: 0 <= i <= |front| ==> front[..i] == events[..i];
    assert events[..|events|] == events;
  }

  lemma FitsNow(events: seq<Event>)
    requires FitsWithoutCleanUps(events)
    ensures |Run(DropCleanUps(events))| <= MAX_ENTRIES
  {
    assert events[..|events|] == events;
  }

  lemma RunSnoc(events: seq<Event>, e: Event)
    ensures Run(events + [e]) == Step(Run(events), e)
  {
    hide Step;
    assert (events + [e])[..|events|] == events;
  }

  lemma NoEvictionsSnoc(events: seq<Event>, e: Event)
    ensures NoEvictions(events + [e]) <==> NoEvictions(events) && (e.Check? ==> e.evicted == {})
  {
    var all := events + [e];
    assert all[|events|] == e && forall i :: 0 <= i < |events| ==> all[i] == events[i];
  }

  lemma SmallTableKeeps(table: Table, evicted: set<Address>)
    requires |table| <= MAX_ENTRIES
    ensures Evicts(table, evicted) <==> evicted == {}
  {
  }

  /** One event, on the table of a run and on a table that is not cleaned up. */
  lemma StepKeys(table: Table, larger: Table, e: Event)
    requires table.Keys <= larger.Keys && (e.Check? ==> e.evicted == {})
    ensures Step(table, e).Keys <= if e.Check? then Step(larger, e).Keys else larger.Keys
  {
    hide Recent;
  }

  lemma EmptyRun()
    ensures Run([]) == map[] && Genuine([]) && NoEvictions([])
  {
  }

  /** Where the run without clean-ups fits, nothing is evicted with or without them. */
  lemma {:induction false} NothingIsEvicted(events: seq<Event>)
    requires Genuine(events) && FitsWithoutCleanUps(events)
    ensures NoEvictions(events) && Genuine(DropCleanUps(events)) && NoEvictions(DropCleanUps(events))
    ensures Run(events).Keys <= Run(DropCleanUps(events)).Keys
    ensures |Run(events)| <= |Run(DropCleanUps(events))| <= MAX_ENTRIES
    decreases |events|
  {
    hide Run, Step, Evicts, FitsWithoutCleanUps, Genuine, NoEvictions;
    if events == [] {
      EmptyRun();
    } else {
      var front, last := events[..|events| - 1], events[|events| - 1];
      var dropped := DropCleanUps(front);
      assert events == front + [last];
      FitsSnoc(events);
      FitsNow(front);
      GenuineSnoc(front, last);
      NothingIsEvicted(front);
      SmallTableKeeps(Run(front), if last.Check? then last.evicted else {});
      SmallTableKeeps(Run(dropped), {});
      NoEvictionsSnoc(front, last);
      NoEvictionsSnoc(dropped, last);
      GenuineSnoc(dropped, last);
      RunSnoc(front, last);
      RunSnoc(dropped, last);
      StepKeys(Run(front), Run(dropped), last);
      SubsetSize(Run(events).Keys, Run(DropCleanUps(events)).Keys);
    }
  }

  /** Clean-ups are invisible wherever the run without them stays within the entry
      limit: that run is a genuine one too, it lets in the same connections, and it
      answers every further check alike. */
  lemma CleanUpIsInvisible(events: seq<Event>, ip: Address, now: int, evicted: set<Address>, evicted': set<Address>)
    requires Monotone(events) && (events != [] ==> events[|events| - 1].now <= now)
    requires Genuine(events) && FitsWithoutCleanUps(events)
    requires Evicts(Run(events), evicted) && Evicts(Run(DropCleanUps(events)), evicted')
    ensures Genuine(DropCleanUps(events)) && Monotone(DropCleanUps(events))
    ensures Accepts(events, ip) == Accepts(DropCleanUps(events), ip)
    ensures Answer(events, evicted, ip, now) == Answer(DropCleanUps(events), evicted', ip, now)
  {
    hide Answer, Accepts, Run, Log, Recent, DropCleanUps;
    NothingIsEvicted(events);
    SmallTableKeeps(Run(events), evicted);
    SmallTableKeeps(Run(DropCleanUps(events)), evicted');
    DropKeepsLog(events, ip);
    DropKeepsOrder(events);
    AcceptsAreTheLog(events, ip);
    AcceptsAreTheLog(DropCleanUps(events), ip);
    AnswersFollowLog(events, evicted, ip, now);
    AnswersFollowLog(DropCleanUps(events), evicted', ip, now);
  }

  /** All the addresses that were ever checked. */
  function Visitors(events: seq<Event>): set<Address> {
    set e | e in events && e.Check? :: e.ip
  }

  lemma VisitorsSnoc(events: seq<Event>, e: Event)
    ensures Visitors(events + [e]) == Visitors(events) + if e.Check? then {e.ip} else {}
    ensures |Visitors(events)| <= |Visitors(events + [e])|
  {
    var all := events + [e];
    assert e in all && forall x :: x in all <==> x in events || x == e;
    SubsetSize(Visitors(events), Visitors(all));
  }

  /** The condition of `CleanUpIsInvisible` in terms of what callers do: no more than
      10 000 different addresses are ever checked. */
  lemma {:induction false} FitsExactly(events: seq<Event>)
    requires Genuine(events)
    ensures FitsWithoutCleanUps(events) <==> |Visitors(events)| <= MAX_ENTRIES
    ensures FitsWithoutCleanUps(events) ==> Run(DropCleanUps(events)).Keys == Visitors(events)
    decreases |events|
  {
    hide Run, Step, Evicts, FitsWithoutCleanUps, Genuine, NoEvictions, Visitors;
    if events == [] {
      EmptyFits();
    } else {
      var front, last := events[..|events| - 1], events[|events| - 1];
      assert events == front + [last];
      GenuineSnoc(front, last);
      FitsSnoc(events);
      VisitorsSnoc(front, last);
      FitsExactly(front);
      if FitsWithoutCleanUps(front) {
        NothingIsEvicted(front);
        SmallTableKeeps(Run(front), if last.Check? then last.evicted else {});
        RunSnoc(DropCleanUps(front), last);
        StepVisits(Run(DropCleanUps(front)), last);
      }
    }
  }

  lemma StepVisits(table: Table, e: Event)
    ensures e.Check? && e.evicted == {} ==> Step(table, e).Keys == table.Keys + {e.ip}
  {
    hide Recent;
  }

  lemma EmptyFits()
    ensures FitsWithoutCleanUps([]) && Visitors([]) == {} && Run(DropCleanUps([])).Keys == {}
  {
  }

  /** In every run every entry holds between 1 and 20 stamps and there are never more
      than 10 001 entries. */
  lemma {:induction false} TableStaysBounded(events: seq<Event>)
    requires Genuine(events)
    ensures Bounded(Run(events))
    decreases |events|
  {
    hide Bounded, Evicts, Recent, Admit, Cleanup;
    if events == [] {
      EmptyIsBounded();
    } else {
      var front, last := events[..|events| - 1], events[|events| - 1];
      assert forall i :: 0 <= i < |front| ==> front[..i] == events[..i];
      TableStaysBounded(front);
      match last
      case Check(ip, now, evicted) => AdmitIsBounded(Run(front), evicted, ip, now);
      case CleanUp(now) => CleanupIsBounded(Run(front), now);
    }
  }

  lemma EmptyIsBounded()
    ensures Bounded(map[])
  {
  }
}
