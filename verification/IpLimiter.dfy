/**
 The per-address connection limiter: at most 20 connections in any 60 seconds,
 kept as a table of time stamps that is pruned, cleaned up and, when it grows too
 large, cut by a fifth. Instants are nanoseconds.
 */
module IpLimiter {
  import opened Bytes
  import opened Clock
  import opened Sets

  const WINDOW: nat := 60 * SECOND
  const MAX_CONNS: nat := 20
  const MAX_ENTRIES: nat := 10000

  /** An IPv4 address or an IPv6 address, as bytes. */
  type Address = a: seq<byte> | |a| == 4 || |a| == 16 witness [0, 0, 0, 0]
  type Table = map<Address, seq<int>>

  predicate IsRecent(t: int, now: int) {
    Elapsed(now, t) < WINDOW
  }

  /** The stamps less than a window old. */
  function Recent(stamps: seq<int>, now: int): (r: seq<int>)
    ensures |r| <= |stamps|
  {
    if stamps == [] then []
    else
      var last := stamps[|stamps| - 1];
      Recent(stamps[..|stamps| - 1], now) + if IsRecent(last, now) then [last] else []
  }

  function StampsOf(table: Table, ip: Address): seq<int> {
    if ip in table then table[ip] else []
  }

  /** The places of the stamps that are less than 60 seconds old. */
  function Young(stamps: seq<int>, now: int): set<nat> {
    set i: nat | i < |stamps| && now - stamps[i] < 60_000_000_000
  }

  /** Fewer than 20 of the stamps are less than 60 seconds old. */
  predicate Allows(stamps: seq<int>, now: int) {
    |Young(stamps, now)| < 20
  }

  /** `kept` is `stamps` at these places, in order. */
  ghost predicate Picks(stamps: seq<int>, kept: seq<int>, places: seq<nat>) {
    && |kept| == |places|
    && (forall j :: 0 <= j < |places| ==> places[j] < |stamps| && kept[j] == stamps[places[j]])
    && forall i, j :: 0 <= i < j < |places| ==> places[i] < places[j]
  }

  /** `kept` is what is left of `stamps`, in order, without those that are 60 seconds old. */
  ghost predicate KeepsYoung(stamps: seq<int>, kept: seq<int>, now: int) {
    exists places :: Picks(stamps, kept, places) && (set p | p in places) == Young(stamps, now)
  }

  lemma YoungSnoc(stamps: seq<int>, t: int, now: int)
    ensures Young(stamps + [t], now) == Young(stamps, now) + if now - t < 60_000_000_000 then {|stamps|} else {}
    ensures |Young(stamps + [t], now)| == |Young(stamps, now)| + if now - t < 60_000_000_000 then 1 else 0
  {
    var all := stamps + [t];
    assert forall i :: 0 <= i < |stamps| ==> all[i] == stamps[i];
    assert Young(all, now) == Young(stamps, now) + if now - t < 60_000_000_000 then {|stamps|} else {};
  }

  lemma PickOneMore(stamps: seq<int>, t: int, kept: seq<int>, places: seq<nat>)
    requires Picks(stamps, kept, places)
    ensures Picks(stamps + [t], kept, places) && Picks(stamps + [t], kept + [t], places + [|stamps|])
    ensures (set p | p in places + [|stamps|]) == (set p | p in places) + {|stamps|}
  {
    assert |stamps| in places + [|stamps|];
  }

  /** What pruning keeps, in plain numbers: the stamps less than 60 seconds old, all of
      them, in order. */
  lemma {:induction false} RecentExactly(stamps: seq<int>, now: int) returns (places: seq<nat>)
    ensures Picks(stamps, Recent(stamps, now), places) && (set p | p in places) == Young(stamps, now)
    ensures |Recent(stamps, now)| == |Young(stamps, now)|
    decreases |stamps|
  {
    if stamps == [] {
      places := [];
    } else {
      var front, last := stamps[..|stamps| - 1], stamps[|stamps| - 1];
      assert stamps == front + [last];
      places := RecentExactly(front, now);
      YoungSnoc(front, last, now);
      PickOneMore(front, last, Recent(front, now), places);
      if IsRecent(last, now) {
        places := places + [|front|];
      }
    }
  }

  lemma RecentKeepsYoung(stamps: seq<int>, now: int)
    ensures KeepsYoung(stamps, Recent(stamps, now), now)
    ensures |Recent(stamps, now)| == |Young(stamps, now)|
    ensures Recent(stamps, now) == [] <==> Young(stamps, now) == {}
    ensures Allows(stamps, now) <==> |Recent(stamps, now)| < MAX_CONNS
  {
    var _ := RecentExactly(stamps, now);
  }

  /** `check` after any eviction. */
  function Admit(table: Table, ip: Address, now: int): (Table, bool) {
    var entry := Recent(StampsOf(table, ip), now);
    if |entry| >= MAX_CONNS then (table[ip := entry], false) else (table[ip := entry + [now]], true)
  }

  function Cleanup(table: Table, now: int): Table {
    map ip | ip in table && Recent(table[ip], now) != [] :: Recent(table[ip], now)
  }

  /** The addresses the eviction sorts: those with at least one stamp. */
  function Candidates(table: Table): set<Address> {
    set ip | ip in table && table[ip] != []
  }

  /** `evicted` is a fifth of the candidates, rounded down, none of them with a
      first stamp later than a survivor's. */
  ghost predicate IsOldestFifth(table: Table, evicted: set<Address>) {
    && evicted <= Candidates(table)
    && |evicted| == |Candidates(table)| / 5
    && forall r, k :: r in evicted && k in Candidates(table) - evicted ==> table[r][0] <= table[k][0]
  }

  ghost predicate Evicts(table: Table, evicted: set<Address>) {
    if |table| > MAX_ENTRIES then IsOldestFifth(table, evicted) else evicted == {}
  }

  /** What the table always looks like. */
  ghost predicate Bounded(table: Table) {
    && |table| <= MAX_ENTRIES + 1
    && forall ip :: ip in table ==> 0 < |table[ip]| <= MAX_CONNS
  }

  lemma RemovalSize(table: Table, evicted: set<Address>)
    requires evicted <= table.Keys
    ensures |table - evicted| == |table| - |evicted|
  {
    assert (table - evicted).Keys == table.Keys - evicted;
  }

  lemma InsertSize(table: Table, ip: Address, entry: seq<int>)
    ensures |table[ip := entry]| <= |table| + 1
  {
    assert table[ip := entry].Keys == table.Keys + {ip};
  }

  /** After an eviction exactly a fifth is gone, and `check` never leaves more than
      one entry over the limit, nor an entry that is empty or over-full. */
  lemma AdmitIsBounded(table: Table, evicted: set<Address>, ip: Address, now: int)
    requires Bounded(table) && Evicts(table, evicted)
    ensures |table| > MAX_ENTRIES ==> |table - evicted| == |table| - |table| / 5
    ensures Bounded(Admit(table - evicted, ip, now).0)
  {
    hide Recent, IsRecent;
    assert Candidates(table) == table.Keys;
    RemovalSize(table, evicted);
    var kept := table - evicted;
    var entry := Recent(StampsOf(kept, ip), now);
    InsertSize(kept, ip, entry);
    InsertSize(kept, ip, entry + [now]);
  }

  lemma {:induction false} CleanupIsBounded(table: Table, now: int)
    requires Bounded(table)
    ensures Bounded(Cleanup(table, now))
  {
    hide IsRecent;
    var after := Cleanup(table, now);
    assert after.Keys <= table.Keys;
    SubsetSize(after.Keys, table.Keys);
  }

  // ------------------------------------------------------------------ the object

  /** A linear scan for the entry with the earliest first stamp. */
  method Oldest(table: Table, among: set<Address>) returns (oldest: Address)
    requires among != {} && among <= Candidates(table)
    ensures oldest in among && forall k :: k in among ==> table[oldest][0] <= table[k][0]
  {
    oldest :| oldest in among;
    var rest := among - {oldest};
    while rest != {}
      invariant rest <= among && oldest in among
      invariant forall k :: k in among - rest ==> table[oldest][0] <= table[k][0]
      decreases |rest|
    {
      var ip :| ip in rest;
      if table[ip][0] < table[oldest][0] {
        oldest := ip;
      }
      rest := rest - {ip};
    }
  }

  /** No evicted entry is younger than a candidate that is still there. */
  ghost predicate OldestGone(table: Table, evicted: set<Address>) {
    && evicted <= Candidates(table)
    && forall r, k :: r in evicted && k in Candidates(table) - evicted ==> table[r][0] <= table[k][0]
  }

  lemma EvictOneMore(table: Table, evicted: set<Address>, kept: Table, ip: Address)
    requires OldestGone(table, evicted) && kept == table - evicted && ip in Candidates(kept)
    requires forall k :: k in Candidates(kept) ==> kept[ip][0] <= kept[k][0]
    ensures OldestGone(table, evicted + {ip})
    ensures |evicted + {ip}| == |evicted| + 1
    ensures kept - {ip} == table - (evicted + {ip})
    ensures Candidates(kept - {ip}) == Candidates(kept) - {ip}
  {
    assert Candidates(kept) == Candidates(table) - evicted;
  }

  /** Removes the oldest entries, one after another in order of first stamp. */
  method EvictOldest(table: Table) returns (kept: Table, evicted: set<Address>)
    ensures IsOldestFifth(table, evicted)
    ensures kept == table - evicted
  {
    kept, evicted := table, {};
    var waiting := set ip | ip in table && table[ip] != [];
    var toRemove := |waiting| / 5;
    var removed := 0;
    assert OldestGone(table, {}) && waiting == Candidates(table) && table - {} == table;
    hide OldestGone, Candidates;
    while removed < toRemove
      invariant removed <= toRemove && removed == |evicted|
      invariant OldestGone(table, evicted) && kept == table - evicted
      invariant waiting == Candidates(kept) && |waiting| == |Candidates(table)| - removed
    {
      var ip := Oldest(kept, waiting);
      EvictOneMore(table, evicted, kept, ip);
      kept := kept - {ip};
      waiting := waiting - {ip};
      evicted := evicted + {ip};
      removed := removed + 1;
    }
    OldestFifth(table, evicted);
  }

  lemma OldestFifth(table: Table, evicted: set<Address>)
    requires OldestGone(table, evicted) && |evicted| == |Candidates(table)| / 5
    ensures IsOldestFifth(table, evicted)
  {
  }

  class IpRateLimiter {
    var connections: Table

    ghost predicate Valid()
      reads this
    {
      Bounded(connections)
    }

    constructor ()
      ensures Valid() && connections == map[]
    {
      connections := map[];
    }

    method Check(ip: Address, now: int) returns (ok: bool, ghost evicted: set<Address>)
      requires Valid()
      modifies this
      ensures Valid()
      ensures Evicts(old(connections), evicted)
      ensures (connections, ok) == Admit(old(connections) - evicted, ip, now)
      ensures var before := StampsOf(old(connections) - evicted, ip);
              && ok == (|Young(before, now)| < 20)
              && exists pruned :: KeepsYoung(before, pruned, now)
                                  && connections == (old(connections) - evicted)[ip := if ok then pruned + [now] else pruned]
    {
      hide Recent, IsOldestFifth, Bounded, Young, KeepsYoung;
      evicted := {};
      if |connections| > MAX_ENTRIES {
        connections, evicted := EvictOldest(connections);
      } else {
        assert connections - evicted == connections;
      }
      AdmitIsBounded(old(connections), evicted, ip, now);
      var entry := if ip in connections then connections[ip] else [];
      RecentKeepsYoung(entry, now);
      entry := Retain(entry, now);
      if |entry| >= MAX_CONNS {
        connections := connections[ip := entry];
        ok := false;
      } else {
        connections := connections[ip := entry + [now]];
        ok := true;
      }
    }

    method CleanUp(now: int)
      requires Valid()
      modifies this
      ensures Valid()
      ensures connections == Cleanup(old(connections), now)
      ensures forall ip :: ip in connections <==> ip in old(connections) && Young(old(connections)[ip], now) != {}
      ensures forall ip :: ip in connections ==> KeepsYoung(old(connections)[ip], connections[ip], now)
    {
      hide Recent, Young, KeepsYoung;
      forall ip | ip in connections
        ensures KeepsYoung(connections[ip], Recent(connections[ip], now), now)
        ensures Recent(connections[ip], now) == [] <==> Young(connections[ip], now) == {}
      {
        RecentKeepsYoung(connections[ip], now);
      }
      CleanupIsBounded(connections, now);
      var pruned := map ip | ip in connections :: Recent(connections[ip], now);
      connections := map ip | ip in pruned && pruned[ip] != [] :: pruned[ip];
      assert connections == Cleanup(old(connections), now);
    }
  }

  /** `retain`: drops the stamps that are a window old, in place and in order. */
  method Retain(stamps: seq<int>, now: int) returns (kept: seq<int>)
    ensures kept == Recent(stamps, now) && KeepsYoung(stamps, kept, now)
  {
    kept := [];
    for i := 0 to |stamps|
      invariant kept == Recent(stamps[..i], now)
    {
      assert stamps[..i + 1][..i] == stamps[..i];
      if IsRecent(stamps[i], now) {
        kept := kept + [stamps[i]];
      }
    }
    assert stamps[..|stamps|] == stamps;
    RecentKeepsYoung(stamps, now);
  }
}
