/**
 Whether a session can come to rest: the states from which the two relays, reading
 what is in flight and nothing else, empty both channels with both ends up.
 */
module TunnelDrain {
  import opened Bytes
  import opened Aead
  import opened Codec
  import CodecLife
  import opened Tunnel
  import opened TunnelProofs

  predicate BothUp(s: System) {
    s.client.open && s.gateway.open
  }

  predicate AtRest(s: System) {
    BothUp(s) && s.toClient == [] && s.toGateway == []
  }

  /** A plaintext that begins like REKEY_INIT and is too short to be one. */
  predicate ShortInit(data: seq<byte>) {
    StartsWith(data, REKEY_INIT_MAGIC) && |data| < INIT_SIZE
  }

  /** What the client would read from the bytes in flight to it. */
  function ClientWillRead(aead: Cipher, s: System): seq<seq<byte>> {
    CodecLife.ReadAll(aead, s.client.codec, s.toClient).payloads
  }

  ghost predicate NoShortInit(aead: Cipher, s: System) {
    forall data :: data in ClientWillRead(aead, s) ==> !ShortInit(data)
  }

  /** While the gateway waits for an ACK, the ACK is next, or nothing is in flight to the
      gateway and the client's codec can still write it. */
  ghost predicate AckCanCome(aead: Cipher, s: System) {
    s.mode.AwaitingAck? ==>
      if s.toGateway == [] then s.client.codec.sendCounter < REKEY_THRESHOLD
      else AckIsNext(aead, s, s.mode.next.kid)
  }

  ghost predicate Drainable(aead: Cipher, s: System) {
    NoShortInit(aead, s) && AckCanCome(aead, s)
  }

  predicate IsFrame(a: Action) {
    a == ClientFrame || a == GatewayFrame
  }

  // --------------------------------------------------------------------- steps

  /** What the client will read is what it reads next and what is left then. */
  lemma WillReadNext(aead: Cipher, st: CodecState, stream: seq<byte>)
    requires stream != [] && ReadFrame(aead, st, stream).result.Ok?
    ensures var r := ReadFrame(aead, st, stream);
            CodecLife.ReadAll(aead, st, stream).payloads
            == [r.result.value] + CodecLife.ReadAll(aead, r.st, r.left).payloads
  {
    hide ReadFrame;
  }

  lemma SameAck(aead: Cipher, s: System, s': System, kid: byte)
    requires s'.toGateway == s.toGateway && s'.gateway.codec.active == s.gateway.codec.active
    requires s'.client.codec.sendPrefix == s.client.codec.sendPrefix
    ensures AckIsNext(aead, s', kid) <==> AckIsNext(aead, s, kid)
  {
    hide EncodeRecord;
    assert forall counter :: AckRecord(aead, s', counter, kid) == AckRecord(aead, s, counter, kid);
  }

  lemma AckAlone(aead: Cipher, s: System, counter: nat, kid: byte)
    requires counter < U32_LIMIT && s.toGateway == AckRecord(aead, s, counter, kid)
    ensures AckIsNext(aead, s, kid) && s.toGateway != []
  {
    hide BigEndian16, BigEndian32, NonceFor;
    assert s.toGateway == AckRecord(aead, s, counter, kid) + [];
  }

  /** The client reads data, or a short REKEY_INIT that ends its relay. */
  lemma DataDrains(aead: Cipher, s: System, up: Flow, down: Flow)
    requires Inv(aead, s, up, down) && BothUp(s) && s.toClient != []
    requires down.read < |down.log| && down.log[down.read].kind == Data
    ensures var s' := Next(aead, s, ClientFrame);
            Drainable(aead, s) <==> BothUp(s') && Drainable(aead, s')
  {
    hide EncodeRecord, Wire, Payload, ReadFrame, AckIsNext, CodecLife.ReadAll;
    LinkRead(aead, s.gateway, s.client, down, s.toClient);
    WillReadNext(aead, s.client.codec, s.toClient);
    var s', data := Next(aead, s, ClientFrame), down.log[down.read].body;
    if ShortInit(data) {
      assert data in ClientWillRead(aead, s);
    } else {
      assert s'.toGateway == s.toGateway;
      if s.mode.AwaitingAck? { SameAck(aead, s, s', s.mode.next.kid); }
    }
  }

  /** The client reads REKEY_INIT and answers. */
  lemma InitDrains(aead: Cipher, s: System, up: Flow, down: Flow)
    requires Inv(aead, s, up, down) && BothUp(s) && s.toClient != []
    requires down.read < |down.log| && down.log[down.read].kind == Rekeying
    ensures var s' := Next(aead, s, ClientFrame);
            Drainable(aead, s) <==> BothUp(s') && Drainable(aead, s')
  {
    hide EncodeRecord, Payload, ReadFrame, AckIsNext;
    LinkRead(aead, s.gateway, s.client, down, s.toClient);
    WillReadNext(aead, s.client.codec, s.toClient);
    assert PendingInit(s, down.log, down.read);
    InitRoundTrip(s.mode.next);
    var s' := Next(aead, s, ClientFrame);
    assert s'.toClient == [] && s'.mode == s.mode && s'.gateway == s.gateway;
    if s.toGateway == [] {
      if s'.client.open { AckAlone(aead, s', s.client.codec.sendCounter, s.mode.next.kid); }
    } else {
      AckIsRecognised(aead, s, up, down);
      var up', down' := ClientFrameStep(aead, s, up, down);
      if s'.client.open { AckIsRecognised(aead, s', up', down'); }
    }
  }

  /** The gateway reads data, or what should be an ACK. */
  lemma GatewayDrains(aead: Cipher, s: System, up: Flow, down: Flow)
    requires Inv(aead, s, up, down) && BothUp(s) && s.toGateway != []
    ensures var s' := Next(aead, s, GatewayFrame);
            Drainable(aead, s) <==> BothUp(s') && Drainable(aead, s')
    ensures |Next(aead, s, GatewayFrame).toGateway| < |s.toGateway|
  {
    hide EncodeRecord, Wire, Payload, ReadFrame, AckIsNext, CodecLife.ReadAll;
    LinkRead(aead, s.client, s.gateway, up, s.toGateway);
    if s.mode.AwaitingAck? {
      RekeyEnds(aead, s, up, down);
    }
  }

  lemma ClientDrains(aead: Cipher, s: System, up: Flow, down: Flow)
    requires Inv(aead, s, up, down) && BothUp(s) && s.toClient != []
    ensures var s' := Next(aead, s, ClientFrame);
            Drainable(aead, s) <==> BothUp(s') && Drainable(aead, s')
    ensures |Next(aead, s, ClientFrame).toClient| < |s.toClient|
  {
    hide EncodeRecord, Wire, Payload, ReadFrame, Drainable;
    LinkRead(aead, s.gateway, s.client, down, s.toClient);
    if down.log[down.read].kind == Data {
      DataDrains(aead, s, up, down);
    } else {
      InitDrains(aead, s, up, down);
    }
  }

  /** A turn that reads a frame neither makes a state drainable nor spoils it. */
  lemma FrameDrains(aead: Cipher, s: System, up: Flow, down: Flow, a: Action)
    requires Inv(aead, s, up, down) && BothUp(s) && IsFrame(a)
    ensures var s' := Next(aead, s, a);
            Drainable(aead, s) <==> BothUp(s') && Drainable(aead, s')
  {
    hide Inv, Drainable, ReadFrame;
    if a == ClientFrame && s.toClient != [] {
      ClientDrains(aead, s, up, down);
    } else if a == GatewayFrame && s.toGateway != [] {
      GatewayDrains(aead, s, up, down);
    }
  }

  /** An end that is down stays down. */
  lemma DownStaysDown(aead: Cipher, s: System, a: Action)
    requires !BothUp(s)
    ensures !BothUp(Next(aead, s, a))
  {
    hide ReadFrame, WriteFrame;
  }

  /** The order in which frames are read makes no difference to where a session can go. */
  lemma {:induction false} OrderDoesNotMatter(aead: Cipher, s: System, up: Flow, down: Flow, frames: seq<Action>)
    returns (up': Flow, down': Flow)
    requires Inv(aead, s, up, down) && BothUp(s) && forall a :: a in frames ==> IsFrame(a)
    ensures var s' := After(aead, s, frames);
            && Inv(aead, s', up', down')
            && (Drainable(aead, s) <==> BothUp(s') && Drainable(aead, s'))
    decreases |frames|
  {
    hide Inv, Next, Drainable, BothUp;
    up', down' := up, down;
    if frames != [] {
      var front, last := frames[..|frames| - 1], frames[|frames| - 1];
      up', down' := OrderDoesNotMatter(aead, s, up, down, front);
      var mid := After(aead, s, front);
      if BothUp(mid) {
        FrameDrains(aead, mid, up', down', last);
      } else {
        DownStaysDown(aead, mid, last);
      }
      up', down' := StepKeepsInv(aead, mid, up', down', last);
    }
  }

  /** A session at rest waits for nothing. */
  lemma RestIsDrainable(aead: Cipher, s: System, up: Flow, down: Flow)
    requires Inv(aead, s, up, down) && AtRest(s)
    ensures s.mode == Relaying && Drainable(aead, s)
  {
    hide EncodeRecord, Payload;
    WireEmpty(aead, s.client.codec.recvPrefix, down.log, down.read);
    WireEmpty(aead, s.gateway.codec.recvPrefix, up.log, up.read);
  }

  lemma WireEmpty(aead: Cipher, prefix: Prefix, log: seq<Sent>, lo: nat)
    requires Wire(aead, prefix, log, lo) == []
    ensures lo >= |log|
  {
  }

  /** A drainable session is drained by reading to the gateway first, then to the client. */
  lemma {:induction false} Drain(aead: Cipher, s: System, up: Flow, down: Flow) returns (frames: seq<Action>)
    requires Inv(aead, s, up, down) && BothUp(s) && Drainable(aead, s)
    ensures (forall a :: a in frames ==> IsFrame(a)) && AtRest(After(aead, s, frames))
    decreases |s.toClient|, |s.toGateway|
  {
    hide Inv, Drainable, Next;
    if AtRest(s) {
      frames := [];
    } else {
      var a := if s.toGateway != [] then GatewayFrame else ClientFrame;
      var s' := Next(aead, s, a);
      if s.toGateway != [] {
        GatewayDrains(aead, s, up, down);
        GatewayLeavesClient(aead, s);
      } else {
        ClientDrains(aead, s, up, down);
      }
      var up', down' := StepKeepsInv(aead, s, up, down, a);
      var rest := Drain(aead, s', up', down');
      AfterFirst(aead, s, a, rest);
      frames := [a] + rest;
    }
  }

  lemma GatewayLeavesClient(aead: Cipher, s: System)
    ensures Next(aead, s, GatewayFrame).toClient == s.toClient
  {
    hide ReadFrame;
  }

  lemma {:induction false} AfterFirst(aead: Cipher, s: System, a: Action, rest: seq<Action>)
    ensures After(aead, s, [a] + rest) == After(aead, Next(aead, s, a), rest)
    decreases |rest|
  {
    hide Next;
    if rest == [] {
      assert [a] + rest == [a] && [a][..0] == [];
    } else {
      AfterFirst(aead, s, a, rest[..|rest| - 1]);
      assert ([a] + rest)[..|[a] + rest| - 1] == [a] + rest[..|rest| - 1];
    }
  }

  // ------------------------------------------------------------------- theorems

  /** Some run that only reads frames brings the session to rest. */
  ghost predicate CanComeToRest(aead: Cipher, s: System) {
    exists frames :: (forall a :: a in frames ==> IsFrame(a)) && AtRest(After(aead, s, frames))
  }

  /** From every reachable state with both ends up, a session can come to rest if and only
      if no short REKEY_INIT is in flight to the client and an ACK the gateway waits for
      is next or can still be written with nothing in front of it. */
  lemma DrainIsExact(aead: Cipher, key: Key, c2s: Prefix, s2c: Prefix, request: seq<byte>, reply: seq<byte>,
                     actions: seq<Action>)
    requires |request| <= MAX_PAYLOAD && |reply| <= MAX_PAYLOAD
    requires forall a :: a in actions ==> Clean(a)
    requires BothUp(After(aead, Established(aead, key, c2s, s2c, request, reply), actions))
    ensures var s := After(aead, Established(aead, key, c2s, s2c, request, reply), actions);
            CanComeToRest(aead, s) <==> Drainable(aead, s)
  {
    hide Established, After, Inv, Drainable, BothUp, AtRest;
    var s0 := Established(aead, key, c2s, s2c, request, reply);
    var up, down := EstablishedInv(aead, key, c2s, s2c, request, reply);
    up, down := RunKeepsInv(aead, s0, up, down, actions);
    var s := After(aead, s0, actions);
    if Drainable(aead, s) {
      var _ := Drain(aead, s, up, down);
    }
    if CanComeToRest(aead, s) {
      var frames :| (forall a :: a in frames ==> IsFrame(a)) && AtRest(After(aead, s, frames));
      var up', down' := OrderDoesNotMatter(aead, s, up, down, frames);
      RestIsDrainable(aead, After(aead, s, frames), up', down');
      RestIsUp(After(aead, s, frames));
    }
  }

  lemma RestIsUp(s: System)
    requires AtRest(s)
    ensures BothUp(s)
  {
  }

  lemma FrameSuppliesNothing(aead: Cipher, s: System, a: Action)
    requires IsFrame(a)
    ensures Next(aead, s, a).client.supplied == s.client.supplied
    ensures Next(aead, s, a).gateway.supplied == s.gateway.supplied
  {
    hide ReadFrame, WriteFrame;
  }

  lemma {:induction false} FramesSupplyNothing(aead: Cipher, s: System, frames: seq<Action>)
    requires forall a :: a in frames ==> IsFrame(a)
    ensures After(aead, s, frames).client.supplied == s.client.supplied
    ensures After(aead, s, frames).gateway.supplied == s.gateway.supplied
    decreases |frames|
  {
    hide Next;
    if frames != [] {
      FramesSupplyNothing(aead, s, frames[..|frames| - 1]);
      FrameSuppliesNothing(aead, After(aead, s, frames[..|frames| - 1]), frames[|frames| - 1]);
    }
  }

  lemma InvAtRest(aead: Cipher, s: System, up: Flow, down: Flow)
    requires Inv(aead, s, up, down) && AtRest(s)
    ensures s.gateway.delivered == s.client.supplied && s.client.delivered == s.gateway.supplied
  {
    hide EncodeRecord, Payload;
    WireEmpty(aead, s.client.codec.recvPrefix, down.log, down.read);
    WireEmpty(aead, s.gateway.codec.recvPrefix, up.log, up.read);
    assert up.log[..|up.log|] == up.log && down.log[..|down.log|] == down.log;
  }

  /** However a session comes to rest, by then everything that had been supplied at either
      end is delivered at the other. */
  lemma RestIsComplete(aead: Cipher, key: Key, c2s: Prefix, s2c: Prefix, request: seq<byte>, reply: seq<byte>,
                       actions: seq<Action>, frames: seq<Action>)
    requires |request| <= MAX_PAYLOAD && |reply| <= MAX_PAYLOAD
    requires (forall a :: a in actions ==> Clean(a)) && forall a :: a in frames ==> IsFrame(a)
    ensures var s := After(aead, Established(aead, key, c2s, s2c, request, reply), actions);
            var s' := After(aead, s, frames);
            AtRest(s') ==> s'.gateway.delivered == s.client.supplied && s'.client.delivered == s.gateway.supplied
  {
    hide Established, After, Inv, AtRest;
    var s0 := Established(aead, key, c2s, s2c, request, reply);
    var up, down := EstablishedInv(aead, key, c2s, s2c, request, reply);
    up, down := RunKeepsInv(aead, s0, up, down, actions);
    var s := After(aead, s0, actions);
    up, down := RunKeepsInv(aead, s, up, down, frames);
    FramesSupplyNothing(aead, s, frames);
    if AtRest(After(aead, s, frames)) {
      InvAtRest(aead, After(aead, s, frames), up, down);
    }
  }
}
