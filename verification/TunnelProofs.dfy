/**
 What every run of the tunnel keeps. The proofs carry, for each direction, the
 list of frames written so far and how many of them have been read.
 */
module TunnelProofs {
  import opened Bytes
  import opened Aead
  import opened Codec
  import opened Tunnel

  datatype Kind = Control | Data | Rekeying

  /** A frame that was written: its key, its purpose and its plaintext. */
  datatype Sent = Sent(k: KeyId, kind: Kind, body: seq<byte>)

  /** One direction: every frame written so far, the first `read` of them read. */
  datatype Flow = Flow(log: seq<Sent>, read: nat)

  /** The bytes of the frames from `lo` on; frame number `i` has counter `i`. */
  function Wire(aead: Cipher, prefix: Prefix, log: seq<Sent>, lo: nat): seq<byte>
    decreases |log| - lo
  {
    if lo >= |log| then []
    else EncodeRecord(aead, log[lo].k, prefix, lo, log[lo].body) + Wire(aead, prefix, log, lo + 1)
  }

  /** The application bytes carried by a list of frames. */
  function Payload(log: seq<Sent>): seq<byte> {
    if log == [] then []
    else
      var last := log[|log| - 1];
      Payload(log[..|log| - 1]) + if last.kind == Data then last.body else []
  }

  /** What holds of one direction, `from` writing and `to` reading. */
  ghost predicate LinkInv(aead: Cipher, from: Side, to: Side, f: Flow, wire: seq<byte>) {
    && f.read <= |f.log| <= REKEY_THRESHOLD
    && from.codec.sendPrefix == to.codec.recvPrefix
    && (forall i :: 0 <= i < |f.log| ==> |f.log[i].body| <= MAX_PAYLOAD)
    && (from.open ==> from.codec.sendCounter == |f.log| && from.supplied == Payload(f.log))
    && Payload(f.log) <= from.supplied
    && (to.open ==>
      && wire == Wire(aead, to.codec.recvPrefix, f.log, f.read)
      && (forall a :: a in to.codec.accepted ==> a < f.read)
      && to.delivered == Payload(f.log[..f.read]))
    && to.delivered <= Payload(f.log)
  }

  lemma {:induction false} WireGrows(aead: Cipher, prefix: Prefix, log: seq<Sent>, lo: nat, f: Sent)
    requires lo <= |log|
    ensures Wire(aead, prefix, log + [f], lo)
         == Wire(aead, prefix, log, lo) + EncodeRecord(aead, f.k, prefix, |log|, f.body)
    decreases |log| - lo
  {
    hide EncodeRecord;
    var record := EncodeRecord(aead, f.k, prefix, |log|, f.body);
    if lo == |log| {
      assert Wire(aead, prefix, log + [f], lo + 1) == [];
      assert record + [] == [] + record;
    } else {
      WireGrows(aead, prefix, log, lo + 1, f);
      var head := EncodeRecord(aead, log[lo].k, prefix, lo, log[lo].body);
      var tail := Wire(aead, prefix, log, lo + 1);
      assert head + (tail + record) == (head + tail) + record;
    }
  }

  lemma PayloadGrows(log: seq<Sent>, f: Sent)
    ensures Payload(log + [f]) == Payload(log) + if f.kind == Data then f.body else []
  {
    assert (log + [f])[..|log|] == log;
  }

  lemma {:induction false} PayloadOfPrefix(log: seq<Sent>, i: nat)
    requires i <= |log|
    ensures Payload(log[..i]) <= Payload(log)
    decreases |log|
  {
    if i == |log| {
      assert log[..i] == log;
    } else {
      PayloadOfPrefix(log[..|log| - 1], i);
      assert log[..|log| - 1][..i] == log[..i];
    }
  }

  /** The end that writes appends its frame to the flow and to the wire. */
  lemma LinkEmit(aead: Cipher, from: Side, to: Side, f: Flow, wire: seq<byte>, fed: Side, kind: Kind, payload: seq<byte>)
    returns (f': Flow)
    requires LinkInv(aead, from, to, f, wire)
    requires from.open && |payload| <= MAX_PAYLOAD
    requires fed == (if kind == Data then from.(supplied := from.supplied + payload) else from)
    ensures var (from', record) := Emit(aead, fed, payload);
            && LinkInv(aead, from', to, f', wire + record)
            && f'.read == f.read
            && f'.log == f.log + (if from'.open then [Sent(from.codec.active, kind, payload)] else [])
            && from' == fed.(codec := from'.codec, open := from'.open)
            && from'.codec == from.codec.(sendCounter := from'.codec.sendCounter)
  {
    var (from', record) := Emit(aead, fed, payload);
    hide EncodeRecord;
    if from'.open {
      var s := Sent(from.codec.active, kind, payload);
      f' := Flow(f.log + [s], f.read);
      WireGrows(aead, to.codec.recvPrefix, f.log, f.read, s);
      PayloadGrows(f.log, s);
      assert f'.log[..f.read] == f.log[..f.read];
    } else {
      f' := f;
      assert wire + record == wire;
    }
  }

  /** The end that reads gets the next frame whole, if it holds its key. */
  lemma LinkRead(aead: Cipher, from: Side, to: Side, f: Flow, wire: seq<byte>)
    requires LinkInv(aead, from, to, f, wire)
    requires to.open && wire != []
    requires f.read < |f.log| ==> f.log[f.read].k == to.codec.active
    ensures f.read < |f.log|
    ensures var next := f.log[f.read];
            var r := ReadFrame(aead, to.codec, wire);
            && r.result == Ok(next.body)
            && r.left == Wire(aead, to.codec.recvPrefix, f.log, f.read + 1)
            && r.st.active == to.codec.active && r.st.sendCounter == to.codec.sendCounter
            && r.st.sendPrefix == to.codec.sendPrefix && r.st.recvPrefix == to.codec.recvPrefix
            && (forall a :: a in r.st.accepted ==> a < f.read + 1)
  {
    var next := f.log[f.read];
    var rest := Wire(aead, to.codec.recvPrefix, f.log, f.read + 1);
    ReadEncoded(aead, to.codec, next.k, f.read, next.body, rest);
    hide EncodeRecord, ReadFrame;
  }

  /** Reading the next frame and delivering its application bytes, if any. */
  lemma LinkConsume(aead: Cipher, from: Side, to: Side, f: Flow, wire: seq<byte>, to': Side)
    requires LinkInv(aead, from, to, f, wire)
    requires to.open && f.read < |f.log|
    requires to'.codec.recvPrefix == to.codec.recvPrefix
    requires forall a :: a in to'.codec.accepted ==> a < f.read + 1
    requires to'.open ==> to'.delivered == to.delivered + if f.log[f.read].kind == Data then f.log[f.read].body else []
    requires !to'.open ==> to'.delivered == to.delivered
    ensures LinkInv(aead, from, to', Flow(f.log, f.read + 1), Wire(aead, to.codec.recvPrefix, f.log, f.read + 1))
  {
    PayloadGrows(f.log[..f.read], f.log[f.read]);
    assert f.log[..f.read + 1] == f.log[..f.read] + [f.log[f.read]];
    PayloadOfPrefix(f.log, f.read);
    PayloadOfPrefix(f.log, f.read + 1);
    hide EncodeRecord;
  }

  // ------------------------------------------------------------------- keys

  ghost predicate DataUnder(log: seq<Sent>, lo: nat, hi: nat, k: KeyId)
    requires hi <= |log|
  {
    forall i :: lo <= i < hi ==> log[i].k == k && log[i].kind == Data && !LooksLikeAck(log[i].body)
  }

  /** The unread frames to the gateway are data under its key, then the ACK, then
      data under the key the ACK announces. */
  ghost predicate AckAt(up: Flow, p: nat, current: KeyId, next: KeyId) {
    && up.read <= p < |up.log|
    && up.log[p] == Sent(current, Rekeying, AckPayload(next.kid))
    && DataUnder(up.log, up.read, p, current)
    && DataUnder(up.log, p + 1, |up.log|, next)
  }

  ghost predicate InStep(s: System, up: Flow) {
    && s.client.epoch == s.gateway.epoch
    && s.client.codec.active == s.gateway.codec.active
    && DataUnder(up.log, up.read, |up.log|, s.gateway.codec.active)
  }

  ghost predicate ClientAhead(s: System, up: Flow, next: KeyId) {
    && s.client.epoch == s.gateway.epoch + 1
    && s.client.codec.active == next
    && exists p :: AckAt(up, p, s.gateway.codec.active, next)
  }

  ghost predicate UpKeys(s: System, up: Flow) {
    s.gateway.open ==>
      || InStep(s, up)
      || (s.mode.AwaitingAck? && ClientAhead(s, up, s.mode.next))
  }

  /** An unread REKEY_INIT is the last frame the gateway wrote, and a gateway that
      is still up is waiting for its answer. */
  ghost predicate PendingInit(s: System, log: seq<Sent>, i: nat)
    requires i < |log|
  {
    && log[i].kind == Rekeying && i == |log| - 1 && LooksLikeInit(log[i].body)
    && (s.gateway.open ==>
      && s.mode.AwaitingAck? && s.client.epoch == s.gateway.epoch
      && log[i].body == InitPayload(s.mode.next))
  }

  ghost predicate DownKeys(s: System, down: Flow) {
    s.client.open ==>
      forall i :: down.read <= i < |down.log| ==>
        && down.log[i].k == s.client.codec.active
        && ((down.log[i].kind == Data && !LooksLikeInit(down.log[i].body)) || PendingInit(s, down.log, i))
  }

  /** While the gateway waits and the client has not followed, REKEY_INIT is unread. */
  ghost predicate InitUnread(s: System, down: Flow) {
    s.client.open && s.gateway.open && s.mode.AwaitingAck? && s.client.epoch == s.gateway.epoch ==>
      down.read < |down.log| && down.log[|down.log| - 1].kind == Rekeying
  }

  ghost predicate Inv(aead: Cipher, s: System, up: Flow, down: Flow) {
    && LinkInv(aead, s.client, s.gateway, up, s.toGateway)
    && LinkInv(aead, s.gateway, s.client, down, s.toClient)
    && UpKeys(s, up)
    && DownKeys(s, down)
    && InitUnread(s, down)
  }

  // ------------------------------------------------------------------ steps

  lemma ClientChunkStep(aead: Cipher, s: System, up: Flow, down: Flow, chunk: seq<byte>) returns (up': Flow)
    requires Inv(aead, s, up, down)
    requires s.client.open && |chunk| <= CHUNK_SIZE && !LooksLikeAck(chunk)
    ensures Inv(aead, Next(aead, s, ClientChunk(chunk)), up', down)
  {
    hide EncodeRecord, Wire, Payload;
    if chunk == [] {
      up' := up;
      assert s.toGateway + [] == s.toGateway;
    } else {
      up' := LinkEmit(aead, s.client, s.gateway, up, s.toGateway,
                      s.client.(supplied := s.client.supplied + chunk), Data, chunk);
      if s.gateway.open && !InStep(s, up) {
        var p: nat :| AckAt(up, p, s.gateway.codec.active, s.mode.next);
        assert AckAt(up', p, s.gateway.codec.active, s.mode.next);
      }
    }
  }

  lemma GatewayChunkStep(aead: Cipher, s: System, up: Flow, down: Flow, chunk: seq<byte>) returns (down': Flow)
    requires Inv(aead, s, up, down)
    requires s.gateway.open && s.mode == Relaying && |chunk| <= CHUNK_SIZE && !LooksLikeInit(chunk)
    ensures Inv(aead, Next(aead, s, GatewayChunk(chunk)), up, down')
  {
    hide EncodeRecord, Wire, Payload;
    if chunk == [] {
      down' := down;
      assert s.toClient + [] == s.toClient;
    } else {
      down' := LinkEmit(aead, s.gateway, s.client, down, s.toClient,
                        s.gateway.(supplied := s.gateway.supplied + chunk), Data, chunk);
    }
  }

  lemma GatewayRekeyStep(aead: Cipher, s: System, up: Flow, down: Flow, newKey: Key) returns (down': Flow)
    requires Inv(aead, s, up, down)
    requires s.gateway.open && s.mode == Relaying
    ensures Inv(aead, Next(aead, s, GatewayRekey(newKey)), up, down')
  {
    hide EncodeRecord, Wire, Payload;
    var next := KeyId((s.gateway.codec.active.kid + 1) % 256, newKey);
    assert InitPayload(next)[..6] == REKEY_INIT_MAGIC;
    down' := LinkEmit(aead, s.gateway, s.client, down, s.toClient, s.gateway, Rekeying, InitPayload(next));
  }

  lemma GatewayFrameStep(aead: Cipher, s: System, up: Flow, down: Flow) returns (up': Flow)
    requires Inv(aead, s, up, down)
    requires s.gateway.open && s.toGateway != []
    ensures ReadFrame(aead, s.gateway.codec, s.toGateway).result.Ok?
    ensures Inv(aead, Next(aead, s, GatewayFrame), up', down)
  {
    hide EncodeRecord, Wire, Payload, ReadFrame;
    LinkRead(aead, s.client, s.gateway, up, s.toGateway);
    var s' := Next(aead, s, GatewayFrame);
    LinkConsume(aead, s.client, s.gateway, up, s.toGateway, s'.gateway);
    up' := Flow(up.log, up.read + 1);
    if !InStep(s, up) {
      var p: nat :| AckAt(up, p, s.gateway.codec.active, s.mode.next);
      assert p > up.read ==> AckAt(up', p, s.gateway.codec.active, s.mode.next);
    }
  }

  /** The client recovers from REKEY_INIT the key the gateway put in. */
  lemma InitRoundTrip(next: KeyId)
    ensures LooksLikeInit(InitPayload(next))
    ensures KeyId(InitPayload(next)[6], InitPayload(next)[7..INIT_SIZE]) == next
  {
    assert InitPayload(next)[..6] == REKEY_INIT_MAGIC;
    assert InitPayload(next)[7..INIT_SIZE] == next.key;
  }

  lemma ClientFrameStep(aead: Cipher, s: System, up: Flow, down: Flow) returns (up': Flow, down': Flow)
    requires Inv(aead, s, up, down)
    requires s.client.open && s.toClient != []
    ensures ReadFrame(aead, s.client.codec, s.toClient).result.Ok?
    ensures Inv(aead, Next(aead, s, ClientFrame), up', down')
    ensures up'.read == up.read && up.log <= up'.log
  {
    hide EncodeRecord, Wire, Payload, ReadFrame;
    LinkRead(aead, s.gateway, s.client, down, s.toClient);
    var r := ReadFrame(aead, s.client.codec, s.toClient);
    var client := s.client.(codec := r.st);
    var s' := Next(aead, s, ClientFrame);
    LinkConsume(aead, s.gateway, s.client, down, s.toClient, s'.client);
    down' := Flow(down.log, down.read + 1);
    var data := r.result.value;
    if StartsWith(data, REKEY_INIT_MAGIC) && |data| >= INIT_SIZE {
      up' := LinkEmit(aead, client, s.gateway, up, s.toGateway, client, Rekeying, AckPayload(data[6]));
      assert PendingInit(s, down.log, down.read);
      if s.gateway.open {
        InitRoundTrip(s.mode.next);
        if s'.client.open {
          assert AckAt(up', |up.log|, s.gateway.codec.active, s.mode.next);
        }
      }
    } else {
      up' := up;
      assert s.toGateway + [] == s.toGateway;
    }
  }

  lemma CloseStep(aead: Cipher, s: System, up: Flow, down: Flow, a: Action)
    requires Inv(aead, s, up, down) && (a == ClientClose || a == GatewayClose)
    ensures Inv(aead, Next(aead, s, a), up, down)
  {
    hide EncodeRecord, Wire, Payload;
  }

  lemma StepKeepsInv(aead: Cipher, s: System, up: Flow, down: Flow, a: Action) returns (up': Flow, down': Flow)
    requires Inv(aead, s, up, down) && Clean(a)
    ensures Inv(aead, Next(aead, s, a), up', down')
  {
    hide LinkInv, UpKeys, DownKeys, InitUnread;
    up', down' := up, down;
    match a
    case ClientChunk(chunk) =>
      if s.client.open && |chunk| <= CHUNK_SIZE { up' := ClientChunkStep(aead, s, up, down, chunk); }
    case ClientFrame =>
      if s.client.open && s.toClient != [] { up', down' := ClientFrameStep(aead, s, up, down); }
    case GatewayChunk(chunk) =>
      if s.gateway.open && s.mode == Relaying && |chunk| <= CHUNK_SIZE {
        down' := GatewayChunkStep(aead, s, up, down, chunk);
      }
    case GatewayFrame =>
      if s.gateway.open && s.toGateway != [] { up' := GatewayFrameStep(aead, s, up, down); }
    case GatewayRekey(newKey) =>
      if s.gateway.open && s.mode == Relaying { down' := GatewayRekeyStep(aead, s, up, down, newKey); }
    case _ => CloseStep(aead, s, up, down, a);
  }

  lemma {:induction false} RunKeepsInv(aead: Cipher, s: System, up: Flow, down: Flow, actions: seq<Action>)
    returns (up': Flow, down': Flow)
    requires Inv(aead, s, up, down)
    requires forall a :: a in actions ==> Clean(a)
    ensures Inv(aead, After(aead, s, actions), up', down')
    decreases |actions|
  {
    hide Inv, Next;
    up', down' := up, down;
    if actions != [] {
      var front := actions[..|actions| - 1];
      up', down' := RunKeepsInv(aead, s, up, down, front);
      up', down' := StepKeepsInv(aead, After(aead, s, front), up', down', actions[|actions| - 1]);
    }
  }

  // ------------------------------------------------------------- the session

  /** The state of a session at the start of its relays. */
  lemma EstablishedState(aead: Cipher, key: Key, c2s: Prefix, s2c: Prefix, request: seq<byte>, reply: seq<byte>)
    requires |request| <= MAX_PAYLOAD && |reply| <= MAX_PAYLOAD
    ensures Established(aead, key, c2s, s2c, request, reply)
         == System(Side(NewCodec(key, c2s, s2c, 0).(sendCounter := 1, accepted := {0}), true, 0, [], []),
                   Side(NewCodec(key, s2c, c2s, 0).(sendCounter := 1, accepted := {0}), true, 0, [], []),
                   Relaying, [], [])
  {
    var client, gateway := NewCodec(key, c2s, s2c, 0), NewCodec(key, s2c, c2s, 0);
    var up := EncodeRecord(aead, client.active, c2s, 0, request);
    var down := EncodeRecord(aead, gateway.active, s2c, 0, reply);
    ReadEncoded(aead, gateway, client.active, 0, request, []);
    ReadEncoded(aead, client.(sendCounter := 1), gateway.active, 0, reply, []);
    assert up + [] == up && down + [] == down;
    hide EncodeRecord, ReadFrame;
  }

  /** One direction after its first frame has been written and read. */
  lemma LinkStart(aead: Cipher, from: Side, to: Side, first: Sent)
    requires first.kind == Control && |first.body| <= MAX_PAYLOAD
    requires from.codec.sendPrefix == to.codec.recvPrefix && from.codec.sendCounter == 1
    requires from.supplied == [] && to.delivered == [] && to.codec.accepted == {0}
    ensures LinkInv(aead, from, to, Flow([first], 1), [])
  {
    hide EncodeRecord;
    var log := [first];
    PayloadGrows([], first);
    assert [] + [first] == log && log[..1] == log;
    assert Wire(aead, to.codec.recvPrefix, log, 1) == [];
  }

  lemma EstablishedInv(aead: Cipher, key: Key, c2s: Prefix, s2c: Prefix, request: seq<byte>, reply: seq<byte>)
    returns (up: Flow, down: Flow)
    requires |request| <= MAX_PAYLOAD && |reply| <= MAX_PAYLOAD
    ensures Inv(aead, Established(aead, key, c2s, s2c, request, reply), up, down)
  {
    hide LinkInv, Established;
    EstablishedState(aead, key, c2s, s2c, request, reply);
    var s := Established(aead, key, c2s, s2c, request, reply);
    up := Flow([Sent(KeyId(0, key), Control, request)], 1);
    down := Flow([Sent(KeyId(0, key), Control, reply)], 1);
    LinkStart(aead, s.client, s.gateway, up.log[0]);
    LinkStart(aead, s.gateway, s.client, down.log[0]);
  }

  /** In every run without look-alike chunks, with any number of rekeys and any
      endings, what each socket has been given is a prefix of what the other
      socket supplied: in order, without loss in the middle and without repeats. */
  lemma TunnelDelivers(aead: Cipher, key: Key, c2s: Prefix, s2c: Prefix, request: seq<byte>, reply: seq<byte>,
                       actions: seq<Action>)
    requires |request| <= MAX_PAYLOAD && |reply| <= MAX_PAYLOAD
    requires forall a :: a in actions ==> Clean(a)
    ensures var s := After(aead, Established(aead, key, c2s, s2c, request, reply), actions);
            && s.gateway.delivered <= s.client.supplied
            && s.client.delivered <= s.gateway.supplied
  {
    hide Established, After;
    var s := Established(aead, key, c2s, s2c, request, reply);
    var up, down := EstablishedInv(aead, key, c2s, s2c, request, reply);
    up, down := RunKeepsInv(aead, s, up, down, actions);
    hide EncodeRecord, Wire, Payload;
  }

  /** When everything written has been read and both ends are up, everything
      supplied has been delivered. */
  lemma QuiescentTunnelIsComplete(aead: Cipher, key: Key, c2s: Prefix, s2c: Prefix, request: seq<byte>,
                                  reply: seq<byte>, actions: seq<Action>)
    requires |request| <= MAX_PAYLOAD && |reply| <= MAX_PAYLOAD
    requires forall a :: a in actions ==> Clean(a)
    ensures var s := After(aead, Established(aead, key, c2s, s2c, request, reply), actions);
            s.client.open && s.gateway.open && s.toGateway == [] && s.toClient == [] ==>
              s.gateway.delivered == s.client.supplied && s.client.delivered == s.gateway.supplied
  {
    hide Established, After;
    var s0 := Established(aead, key, c2s, s2c, request, reply);
    var up, down := EstablishedInv(aead, key, c2s, s2c, request, reply);
    up, down := RunKeepsInv(aead, s0, up, down, actions);
    hide EncodeRecord, Payload;
    assert up.log[..|up.log|] == up.log && down.log[..|down.log|] == down.log;
  }

  /** Neither codec ever refuses a frame of the other: every frame finds the
      receiver holding its key and its counter unused. */
  lemma NoFrameIsRefused(aead: Cipher, key: Key, c2s: Prefix, s2c: Prefix, request: seq<byte>, reply: seq<byte>,
                         actions: seq<Action>)
    requires |request| <= MAX_PAYLOAD && |reply| <= MAX_PAYLOAD
    requires forall a :: a in actions ==> Clean(a)
    ensures var s := After(aead, Established(aead, key, c2s, s2c, request, reply), actions);
            && (s.gateway.open && s.toGateway != [] ==> ReadFrame(aead, s.gateway.codec, s.toGateway).result.Ok?)
            && (s.client.open && s.toClient != [] ==> ReadFrame(aead, s.client.codec, s.toClient).result.Ok?)
  {
    hide Established, After, ReadFrame, Inv, Next;
    var s0 := Established(aead, key, c2s, s2c, request, reply);
    var up, down := EstablishedInv(aead, key, c2s, s2c, request, reply);
    up, down := RunKeepsInv(aead, s0, up, down, actions);
    var s := After(aead, s0, actions);
    if s.gateway.open && s.toGateway != [] { var _ := GatewayFrameStep(aead, s, up, down); }
    if s.client.open && s.toClient != [] { var _, _ := ClientFrameStep(aead, s, up, down); }
  }

  /** The client's ACK, sealed under the gateway's current key, is on the wire. */
  ghost predicate AckInFlight(aead: Cipher, s: System, kid: byte) {
    exists before: seq<byte>, counter: nat, after: seq<byte> ::
      s.toGateway == before + AckRecord(aead, s, counter, kid) + after
  }

  function AckRecord(aead: Cipher, s: System, counter: nat, kid: byte): seq<byte> {
    EncodeRecord(aead, s.gateway.codec.active, s.client.codec.sendPrefix, counter, AckPayload(kid))
  }

  lemma {:induction false} WireSplit(aead: Cipher, prefix: Prefix, log: seq<Sent>, lo: nat, p: nat) returns (before: seq<byte>)
    requires lo <= p < |log|
    ensures Wire(aead, prefix, log, lo)
         == before + EncodeRecord(aead, log[p].k, prefix, p, log[p].body) + Wire(aead, prefix, log, p + 1)
    decreases p - lo
  {
    hide EncodeRecord;
    if lo == p {
      before := [];
    } else {
      before := WireSplit(aead, prefix, log, lo + 1, p);
      before := EncodeRecord(aead, log[lo].k, prefix, lo, log[lo].body) + before;
    }
  }

  /** While the gateway is up the two ends are in the same epoch with the same key,
      or the client is exactly one epoch ahead, on the key the gateway is waiting to
      adopt, and its ACK has not been read yet. */
  lemma RekeyAgreement(aead: Cipher, key: Key, c2s: Prefix, s2c: Prefix, request: seq<byte>, reply: seq<byte>,
                       actions: seq<Action>)
    requires |request| <= MAX_PAYLOAD && |reply| <= MAX_PAYLOAD
    requires forall a :: a in actions ==> Clean(a)
    ensures var s := After(aead, Established(aead, key, c2s, s2c, request, reply), actions);
            s.gateway.open ==>
              || (s.client.epoch == s.gateway.epoch && s.client.codec.active == s.gateway.codec.active)
              || (&& s.mode.AwaitingAck? && s.client.epoch == s.gateway.epoch + 1
                  && s.client.codec.active == s.mode.next && AckInFlight(aead, s, s.mode.next.kid))
  {
    hide Established, After;
    var s0 := Established(aead, key, c2s, s2c, request, reply);
    var up, down := EstablishedInv(aead, key, c2s, s2c, request, reply);
    up, down := RunKeepsInv(aead, s0, up, down, actions);
    var s := After(aead, s0, actions);
    hide EncodeRecord, Payload;
    if s.gateway.open && !InStep(s, up) {
      var p: nat :| AckAt(up, p, s.gateway.codec.active, s.mode.next);
      var before := WireSplit(aead, s.gateway.codec.recvPrefix, up.log, up.read, p);
      assert s.toGateway == before + AckRecord(aead, s, p, s.mode.next.kid)
                          + Wire(aead, s.gateway.codec.recvPrefix, up.log, p + 1);
    }
  }

  // ------------------------------------------------------- the end of a rekey

  /** The next frame on the wire to the gateway is the client's ACK. */
  ghost predicate AckIsNext(aead: Cipher, s: System, kid: byte) {
    exists counter: nat, after: seq<byte> ::
      counter < U32_LIMIT && s.toGateway == AckRecord(aead, s, counter, kid) + after
  }

  /** A record under the active key reads back as what was written, if it reads at all. */
  lemma ReadAsWritten(aead: Cipher, st: CodecState, counter: nat, plaintext: seq<byte>, rest: seq<byte>)
    requires |plaintext| <= MAX_PAYLOAD && counter < U32_LIMIT
    ensures var r := ReadFrame(aead, st, EncodeRecord(aead, st.active, st.recvPrefix, counter, plaintext) + rest);
            r.result.Ok? ==> r.result.value == plaintext
  {
    hide EncodeRecord, ParseRecord;
    ParseEncoded(aead, st.active, st.recvPrefix, counter, plaintext, rest);
  }

  /** Of the frames that may come next while the gateway waits, only the ACK passes
      for one. */
  lemma AckIsRecognised(aead: Cipher, s: System, up: Flow, down: Flow)
    requires Inv(aead, s, up, down) && s.gateway.open && s.mode.AwaitingAck? && s.toGateway != []
    ensures up.read < |up.log| && up.log[up.read].k == s.gateway.codec.active
    ensures AckIsNext(aead, s, s.mode.next.kid) <==> up.log[up.read].body == AckPayload(s.mode.next.kid)
    ensures AckIsNext(aead, s, s.mode.next.kid) ==> ClientAhead(s, up, s.mode.next)
    ensures !AckIsNext(aead, s, s.mode.next.kid) ==> !LooksLikeAck(up.log[up.read].body)
  {
    hide EncodeRecord, Payload, ReadFrame;
    LinkRead(aead, s.client, s.gateway, up, s.toGateway);
    var kid, head := s.mode.next.kid, up.log[up.read];
    assert AckPayload(kid)[..9] == REKEY_ACK_MAGIC;
    if head.kind == Rekeying {
      assert s.toGateway == AckRecord(aead, s, up.read, kid)
                          + Wire(aead, s.gateway.codec.recvPrefix, up.log, up.read + 1);
    }
    if AckIsNext(aead, s, kid) {
      var counter: nat, after: seq<byte> :|
        counter < U32_LIMIT && s.toGateway == AckRecord(aead, s, counter, kid) + after;
      ReadAsWritten(aead, s.gateway.codec, counter, AckPayload(kid), after);
    }
  }

  /** The gateway's next turn takes up the announced key, in agreement with the client,
      if the ACK is what comes next, and ends the session otherwise. */
  ghost predicate EndsRekey(aead: Cipher, s: System, s': System)
    requires s.mode.AwaitingAck?
  {
    && s'.gateway.delivered == s.gateway.delivered
    && (AckIsNext(aead, s, s.mode.next.kid) ==>
        && s'.gateway.open && s'.mode == Relaying && s'.gateway.epoch == s'.client.epoch
        && s'.gateway.codec.active == s'.client.codec.active == s.mode.next)
    && (!AckIsNext(aead, s, s.mode.next.kid) ==>
        && !s'.gateway.open && s'.gateway.codec.active == s.gateway.codec.active)
  }

  lemma RekeyEnds(aead: Cipher, s: System, up: Flow, down: Flow)
    requires Inv(aead, s, up, down) && s.gateway.open && s.mode.AwaitingAck? && s.toGateway != []
    ensures EndsRekey(aead, s, Next(aead, s, GatewayFrame))
  {
    hide EncodeRecord, Wire, Payload, ReadFrame, AckIsNext;
    AckIsRecognised(aead, s, up, down);
    LinkRead(aead, s.client, s.gateway, up, s.toGateway);
    assert AckPayload(s.mode.next.kid)[..9] == REKEY_ACK_MAGIC;
  }

  /** In every reachable state in which the gateway waits for an ACK and something is
      there to read, its next turn takes up the announced key, in agreement with the
      client, if and only if the ACK is what comes next. A frame of data in front of
      the ACK ends the session, and the data is lost. */
  lemma RekeyOutcome(aead: Cipher, key: Key, c2s: Prefix, s2c: Prefix, request: seq<byte>, reply: seq<byte>,
                     actions: seq<Action>)
    requires |request| <= MAX_PAYLOAD && |reply| <= MAX_PAYLOAD
    requires forall a :: a in actions ==> Clean(a)
    ensures var s := After(aead, Established(aead, key, c2s, s2c, request, reply), actions);
            s.gateway.open && s.mode.AwaitingAck? && s.toGateway != [] ==>
              EndsRekey(aead, s, Next(aead, s, GatewayFrame))
  {
    hide Established, After, Inv, Next, EndsRekey;
    var s0 := Established(aead, key, c2s, s2c, request, reply);
    var up, down := EstablishedInv(aead, key, c2s, s2c, request, reply);
    up, down := RunKeepsInv(aead, s0, up, down, actions);
    var s := After(aead, s0, actions);
    if s.gateway.open && s.mode.AwaitingAck? && s.toGateway != [] {
      RekeyEnds(aead, s, up, down);
    }
  }
}
