/**
 Proxied connections and what they tell the failover manager, for connections
 handled one after another with any outcome in any phase.
 */
module Connections {
  import opened Bytes
  import opened Failover
  import opened FailoverObject

  /** How far one connection got. Only the connect phase reports a failure, and
      only an acknowledged CONNECT reports a success. */
  datatype Outcome =
    | NotSocks
    | ConnectFailed(now: int)
    | BadEndpointConfig
    | HandshakeFailed
    | StreamBroken
    | Refused
    | Served

  function Handle(m: Manager, o: Outcome): (m': Manager)
    requires m.Valid()
    ensures m'.Valid() && |m'.states| == |m.states|
  {
    match o
    case ConnectFailed(now) => ReportFailure(m, now)
    case Served => ReportSuccess(m)
    case _ => m
  }

  /** What happens in each phase of one connection, as its peers decide it. */
  datatype Phases = Phases(socksOk: bool, connectOk: bool, configOk: bool, handshakeOk: bool, framesOk: bool,
                           ack: seq<byte>, now: int)

  /** "OK". */
  const ACK_OK: seq<byte> := [0x4F, 0x4B]

  /** `handle_connection` up to the relay. */
  method HandleConnection(failover: FailoverManager, p: Phases) returns (o: Outcome)
    requires failover.Valid()
    modifies failover
    ensures failover.Valid() && failover.View() == Handle(old(failover.View()), o)
    ensures o == NotSocks <==> !p.socksOk
    ensures o == BadEndpointConfig <==> p.socksOk && p.connectOk && !p.configOk
    ensures o == HandshakeFailed <==> p.socksOk && p.connectOk && p.configOk && !p.handshakeOk
    ensures o == StreamBroken <==> p.socksOk && p.connectOk && p.configOk && p.handshakeOk && !p.framesOk
    ensures o == Served <==> p.socksOk && p.connectOk && p.configOk && p.handshakeOk && p.framesOk && p.ack == ACK_OK
    ensures o.ConnectFailed? <==> p.socksOk && !p.connectOk
    ensures o.ConnectFailed? ==> o.now == p.now
  {
    if !p.socksOk { return NotSocks; }
    if !p.connectOk {
      failover.ReportFailure(p.now);
      return ConnectFailed(p.now);
    }
    if !p.configOk { return BadEndpointConfig; }
    if !p.handshakeOk { return HandshakeFailed; }
    if !p.framesOk { return StreamBroken; }
    if p.ack != ACK_OK { return Refused; }
    failover.ReportSuccess();
    return Served;
  }

  function After(m: Manager, outcomes: seq<Outcome>): (m': Manager)
    requires m.Valid()
    ensures m'.Valid() && |m'.states| == |m.states|
  {
    if outcomes == [] then m
    else Handle(After(m, outcomes[..|outcomes| - 1]), outcomes[|outcomes| - 1])
  }

  /** Connect failures since the active endpoint became active or last served,
      counted from the outcomes and the endpoint in use alone. */
  function Streak(m: Manager, outcomes: seq<Outcome>): nat
    requires m.Valid()
  {
    if outcomes == [] then 0
    else
      var front, last := outcomes[..|outcomes| - 1], outcomes[|outcomes| - 1];
      if After(m, outcomes).current != After(m, front).current || last == Served then 0
      else Streak(m, front) + if last.ConnectFailed? then 1 else 0
  }

  ghost predicate AnotherIsHealthy(m: Manager, now: int) {
    exists i :: 0 <= i < |m.states| && i != m.current && !FailedLately(m.states[i], now)
  }

  /** What one connection does to the active endpoint and its failure count. */
  lemma HandleExactly(m: Manager, o: Outcome)
    requires m.Valid()
    ensures var m' := Handle(m, o);
            var failures := (m.Failures() + 1) % U32_LIMIT;
            && (m'.current != m.current <==>
                && o.ConnectFailed? && failures >= 3
                && AnotherIsHealthy(m, o.now))
            && m'.Failures() == (if o == Served || m'.current != m.current then 0
                                 else if o.ConnectFailed? then failures else m.Failures())
  {
    if o.ConnectFailed? && (m.Failures() + 1) % U32_LIMIT >= FAILURE_THRESHOLD {
      var charged := Charge(m, o.now);
      SwitchPicksFirstHealthy(charged, o.now);
      hide Search, FirstHealthy;
      if TrySwitch(charged, o.now).1 {
        var c := TrySwitch(charged, o.now).0.current;
        CoolingExactly(charged.states[c], o.now);
        assert !InCooldown(charged.states[c], o.now);
      } else {
        assert forall i :: 0 <= i < |m.states| && i != m.current ==> charged.states[i] == m.states[i];
      }
    }
  }

  /** The manager's own count is the streak, modulo the width of its counter. */
  lemma {:induction false} CountIsStreak(endpoints: nat, outcomes: seq<Outcome>)
    requires endpoints > 0
    ensures var m := NewManager(endpoints);
            After(m, outcomes).Failures() == Streak(m, outcomes) % U32_LIMIT
    decreases |outcomes|
  {
    hide Handle;
    if outcomes != [] {
      var front, last := outcomes[..|outcomes| - 1], outcomes[|outcomes| - 1];
      CountIsStreak(endpoints, front);
      HandleExactly(After(NewManager(endpoints), front), last);
    }
  }

  /** The active endpoint changes at a connection exactly when that connection
      fails in its connect phase, the streak has reached the threshold (as a 32-bit
      count), and some other endpoint is not cooling. */
  lemma EndpointChangesExactlyWhen(endpoints: nat, outcomes: seq<Outcome>, o: Outcome)
    requires endpoints > 0
    ensures var m := After(NewManager(endpoints), outcomes);
            var streak := Streak(NewManager(endpoints), outcomes) + 1;
            && (Handle(m, o).current != m.current <==>
                && o.ConnectFailed? && streak % 0x1_0000_0000 >= 3
                && AnotherIsHealthy(m, o.now))
            && (Handle(m, o).current != m.current ==> streak >= 3)
            && (!o.ConnectFailed? && o != Served ==> Handle(m, o) == m)
  {
    hide ReportFailure, After, Streak, AnotherIsHealthy;
    CountIsStreak(endpoints, outcomes);
    HandleExactly(After(NewManager(endpoints), outcomes), o);
  }
}
