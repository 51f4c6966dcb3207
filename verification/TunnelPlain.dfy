/**
 The tunnel when the gateway never starts a rekey, which is how its relay loop runs
 as long as `read_frame` does not ask for one.
 */
module TunnelPlain {
  import opened Bytes
  import opened Aead
  import opened Codec
  import opened Tunnel
  import opened TunnelProofs
  import opened TunnelLimits

  /** Both ends use one key for ever, and everything unread is data. */
  ghost predicate PlainInv(aead: Cipher, s: System, k: KeyId, up: Flow, down: Flow) {
    && LinkInv(aead, s.client, s.gateway, up, s.toGateway)
    && LinkInv(aead, s.gateway, s.client, down, s.toClient)
    && s.mode == Relaying && s.client.codec.active == k && s.gateway.codec.active == k
    && (forall i :: up.read <= i < |up.log| ==> up.log[i].k == k && up.log[i].kind == Data)
    && forall i :: down.read <= i < |down.log| ==>
         down.log[i].k == k && down.log[i].kind == Data && !LooksLikeInit(down.log[i].body)
  }

  /** No rekey, and nothing from the target that the client would take for REKEY_INIT. */
  predicate Plain(a: Action) {
    !a.GatewayRekey? && (a.GatewayChunk? && |a.chunk| <= CHUNK_SIZE ==> !LooksLikeInit(a.chunk))
  }

  lemma PlainClientChunk(aead: Cipher, s: System, k: KeyId, up: Flow, down: Flow, chunk: seq<byte>) returns (up': Flow)
    requires PlainInv(aead, s, k, up, down) && s.client.open && |chunk| <= CHUNK_SIZE
    ensures PlainInv(aead, Next(aead, s, ClientChunk(chunk)), k, up', down)
  {
    hide EncodeRecord, Wire, Payload;
    if chunk == [] {
      up' := up;
      assert s.toGateway + [] == s.toGateway;
    } else {
      up' := LinkEmit(aead, s.client, s.gateway, up, s.toGateway,
                      s.client.(supplied := s.client.supplied + chunk), Data, chunk);
    }
  }

  lemma PlainGatewayChunk(aead: Cipher, s: System, k: KeyId, up: Flow, down: Flow, chunk: seq<byte>)
    returns (down': Flow)
    requires PlainInv(aead, s, k, up, down) && s.gateway.open && |chunk| <= CHUNK_SIZE && !LooksLikeInit(chunk)
    ensures PlainInv(aead, Next(aead, s, GatewayChunk(chunk)), k, up, down')
  {
    hide EncodeRecord, Wire, Payload;
    if chunk == [] {
      down' := down;
      assert s.toClient + [] == s.toClient;
    } else {
      down' := LinkEmit(aead, s.gateway, s.client, down, s.toClient,
                        s.gateway.(supplied := s.gateway.supplied + chunk), Data, chunk);
    }
  }

  lemma PlainGatewayFrame(aead: Cipher, s: System, k: KeyId, up: Flow, down: Flow) returns (up': Flow)
    requires PlainInv(aead, s, k, up, down) && s.gateway.open && s.toGateway != []
    ensures PlainInv(aead, Next(aead, s, GatewayFrame), k, up', down)
  {
    hide EncodeRecord, Wire, Payload, ReadFrame;
    LinkRead(aead, s.client, s.gateway, up, s.toGateway);
    LinkConsume(aead, s.client, s.gateway, up, s.toGateway, Next(aead, s, GatewayFrame).gateway);
    up' := Flow(up.log, up.read + 1);
  }

  lemma PlainClientFrame(aead: Cipher, s: System, k: KeyId, up: Flow, down: Flow) returns (down': Flow)
    requires PlainInv(aead, s, k, up, down) && s.client.open && s.toClient != []
    ensures PlainInv(aead, Next(aead, s, ClientFrame), k, up, down')
  {
    hide EncodeRecord, Wire, Payload, ReadFrame;
    LinkRead(aead, s.gateway, s.client, down, s.toClient);
    LinkConsume(aead, s.gateway, s.client, down, s.toClient, Next(aead, s, ClientFrame).client);
    down' := Flow(down.log, down.read + 1);
    assert s.toGateway + [] == s.toGateway;
  }

  lemma PlainClose(aead: Cipher, s: System, k: KeyId, up: Flow, down: Flow, a: Action)
    requires PlainInv(aead, s, k, up, down) && (a == ClientClose || a == GatewayClose)
    ensures PlainInv(aead, Next(aead, s, a), k, up, down)
  {
    hide EncodeRecord, Wire, Payload;
  }

  lemma PlainStep(aead: Cipher, s: System, k: KeyId, up: Flow, down: Flow, a: Action) returns (up': Flow, down': Flow)
    requires PlainInv(aead, s, k, up, down) && Plain(a)
    ensures PlainInv(aead, Next(aead, s, a), k, up', down')
  {
    hide LinkInv;
    up', down' := up, down;
    match a
    case ClientChunk(chunk) =>
      if s.client.open && |chunk| <= CHUNK_SIZE { up' := PlainClientChunk(aead, s, k, up, down, chunk); }
    case ClientFrame =>
      if s.client.open && s.toClient != [] { down' := PlainClientFrame(aead, s, k, up, down); }
    case GatewayChunk(chunk) =>
      if s.gateway.open && |chunk| <= CHUNK_SIZE { down' := PlainGatewayChunk(aead, s, k, up, down, chunk); }
    case GatewayFrame =>
      if s.gateway.open && s.toGateway != [] { up' := PlainGatewayFrame(aead, s, k, up, down); }
    case _ => PlainClose(aead, s, k, up, down, a);
  }

  lemma {:induction false} PlainRun(aead: Cipher, s: System, k: KeyId, up: Flow, down: Flow, actions: seq<Action>)
    returns (up': Flow, down': Flow)
    requires PlainInv(aead, s, k, up, down) && forall a :: a in actions ==> Plain(a)
    ensures PlainInv(aead, After(aead, s, actions), k, up', down')
    decreases |actions|
  {
    hide PlainInv, Next, Plain;
    up', down' := up, down;
    if actions != [] {
      var front := actions[..|actions| - 1];
      up', down' := PlainRun(aead, s, k, up, down, front);
      up', down' := PlainStep(aead, After(aead, s, front), k, up', down', actions[|actions| - 1]);
    }
  }

  lemma PlainStart(aead: Cipher, key: Key, c2s: Prefix, s2c: Prefix, request: seq<byte>, reply: seq<byte>)
    returns (up: Flow, down: Flow)
    requires |request| <= MAX_PAYLOAD && |reply| <= MAX_PAYLOAD
    ensures PlainInv(aead, Established(aead, key, c2s, s2c, request, reply), KeyId(0, key), up, down)
  {
    hide LinkInv, Established;
    EstablishedState(aead, key, c2s, s2c, request, reply);
    var s := Established(aead, key, c2s, s2c, request, reply);
    up := Flow([Sent(KeyId(0, key), Control, request)], 1);
    down := Flow([Sent(KeyId(0, key), Control, reply)], 1);
    LinkStart(aead, s.client, s.gateway, up.log[0]);
    LinkStart(aead, s.gateway, s.client, down.log[0]);
  }

  lemma PlainRunIsSafe(aead: Cipher, key: Key, c2s: Prefix, s2c: Prefix, request: seq<byte>, reply: seq<byte>,
                       actions: seq<Action>)
    requires |request| <= MAX_PAYLOAD && |reply| <= MAX_PAYLOAD && forall a :: a in actions ==> Plain(a)
    ensures var s := After(aead, Established(aead, key, c2s, s2c, request, reply), actions);
            s.gateway.delivered <= s.client.supplied && s.client.delivered <= s.gateway.supplied
  {
    hide Established, After;
    var up, down := PlainStart(aead, key, c2s, s2c, request, reply);
    up, down := PlainRun(aead, Established(aead, key, c2s, s2c, request, reply), KeyId(0, key), up, down, actions);
    hide EncodeRecord, Wire, Payload;
  }

  /** The client answers a look-alike of REKEY_INIT, and the gateway, which waits for no
      answer, delivers the answer as data. */
  lemma AnswerIsDelivered(aead: Cipher, s: System, n: nat, chunk: seq<byte>)
    requires Quiet(s, n) && n <= REKEY_THRESHOLD && LooksLikeInit(chunk) && |chunk| <= CHUNK_SIZE
    ensures var s' := After(aead, s, [GatewayChunk(chunk), ClientFrame, GatewayFrame]);
            && s'.gateway.delivered == s.gateway.delivered + AckPayload(chunk[6])
            && s'.client.supplied == s.client.supplied
  {
    hide EncodeRecord, ReadFrame, Emit;
    var k, g, c := s.client.codec.active, s.gateway.codec.sendCounter, s.client.codec.sendCounter;
    var s1 := Next(aead, s, GatewayChunk(chunk));
    EmitBelowThreshold(aead, s.gateway.(supplied := s.gateway.supplied + chunk), chunk);
    assert s1.toClient == EncodeRecord(aead, k, s.gateway.codec.sendPrefix, g, chunk) + [];

    ClientReads(aead, s1, k, g, chunk, []);
    EmitBelowThreshold(aead, s1.client.(codec := HavingRead(s1.client.codec, g)), AckPayload(chunk[6]));
    var s2 := Next(aead, s1, ClientFrame);
    assert s2.toGateway == EncodeRecord(aead, k, s.client.codec.sendPrefix, c, AckPayload(chunk[6])) + [];

    GatewayReads(aead, s2, k, c, AckPayload(chunk[6]), []);
    AfterThree(aead, s, GatewayChunk(chunk), ClientFrame, GatewayFrame);
  }

  /** The chunks of the target are among these, and the gateway starts no rekey. */
  ghost predicate Offers(actions: seq<Action>, chunks: iset<seq<byte>>) {
    forall a :: a in actions ==> !a.GatewayRekey? && (a.GatewayChunk? ==> a.chunk in chunks)
  }

  ghost predicate SafeFor(aead: Cipher, key: Key, c2s: Prefix, s2c: Prefix, request: seq<byte>, reply: seq<byte>,
                          chunks: iset<seq<byte>>)
  {
    forall actions: seq<Action> :: Offers(actions, chunks) ==>
      var s := After(aead, Established(aead, key, c2s, s2c, request, reply), actions);
      s.gateway.delivered <= s.client.supplied && s.client.delivered <= s.gateway.supplied
  }

  lemma LookAlikeIsUnsafe(aead: Cipher, key: Key, c2s: Prefix, s2c: Prefix, request: seq<byte>, reply: seq<byte>,
                          chunks: iset<seq<byte>>, chunk: seq<byte>)
    requires |request| <= MAX_PAYLOAD && |reply| <= MAX_PAYLOAD
    requires chunk in chunks && LooksLikeInit(chunk) && |chunk| <= CHUNK_SIZE
    ensures !SafeFor(aead, key, c2s, s2c, request, reply, chunks)
  {
    hide Established, After, LooksLikeInit;
    var s := Established(aead, key, c2s, s2c, request, reply);
    EstablishedState(aead, key, c2s, s2c, request, reply);
    EstablishedIsQuiet(aead, key, c2s, s2c, request, reply);
    AnswerIsDelivered(aead, s, 2, chunk);
    var actions := [GatewayChunk(chunk), ClientFrame, GatewayFrame];
    assert Offers(actions, chunks);
    assert |After(aead, s, actions).gateway.delivered| > 0;
  }

  /** Without rekeys by the gateway, whatever the client's socket supplies, the tunnel is
      safe for a set of chunks from the target if and only if none of them that is read
      in one piece passes for REKEY_INIT. */
  lemma SafetyWithoutRekey(aead: Cipher, key: Key, c2s: Prefix, s2c: Prefix, request: seq<byte>, reply: seq<byte>,
                           chunks: iset<seq<byte>>)
    requires |request| <= MAX_PAYLOAD && |reply| <= MAX_PAYLOAD
    ensures SafeFor(aead, key, c2s, s2c, request, reply, chunks)
       <==> forall chunk :: chunk in chunks && |chunk| <= CHUNK_SIZE ==> !LooksLikeInit(chunk)
  {
    hide Established, After, LooksLikeInit;
    if chunk :| chunk in chunks && |chunk| <= CHUNK_SIZE && LooksLikeInit(chunk) {
      LookAlikeIsUnsafe(aead, key, c2s, s2c, request, reply, chunks, chunk);
    } else {
      forall actions: seq<Action> | Offers(actions, chunks)
        ensures var s := After(aead, Established(aead, key, c2s, s2c, request, reply), actions);
                s.gateway.delivered <= s.client.supplied && s.client.delivered <= s.gateway.supplied
      {
        PlainRunIsSafe(aead, key, c2s, s2c, request, reply, actions);
      }
    }
  }
}
