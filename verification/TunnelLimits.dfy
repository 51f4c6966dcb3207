/**
 The look-alike chunks excluded in `TunnelProofs` are excluded exactly: for every
 chunk that passes for a rekey message there is a run, otherwise free of such
 chunks, in which the tunnel drops it and delivers what follows.
 */
module TunnelLimits {
  import opened Bytes
  import opened Aead
  import opened Codec
  import opened Tunnel
  import opened TunnelProofs

  /** Both ends up and in step, nothing in flight, fewer than `n` frames written each way. */
  ghost predicate Quiet(s: System, n: nat) {
    && s.client.open && s.gateway.open && s.mode == Relaying && s.toGateway == [] && s.toClient == []
    && s.client.codec.active == s.gateway.codec.active
    && s.client.codec.sendPrefix == s.gateway.codec.recvPrefix
    && s.gateway.codec.sendPrefix == s.client.codec.recvPrefix
    && s.client.codec.sendCounter < n && s.gateway.codec.sendCounter < n
    && (forall a :: a in s.gateway.codec.accepted ==> a < s.client.codec.sendCounter)
    && (forall a :: a in s.client.codec.accepted ==> a < s.gateway.codec.sendCounter)
  }

  lemma {:induction false} AfterConcat(aead: Cipher, s: System, first: seq<Action>, second: seq<Action>)
    ensures After(aead, s, first + second) == After(aead, After(aead, s, first), second)
    decreases |second|
  {
    hide Next;
    if second == [] {
      assert first + second == first;
    } else {
      var front := second[..|second| - 1];
      AfterConcat(aead, s, first, front);
      assert (first + second)[..|first + second| - 1] == first + front;
    }
  }

  lemma AfterOne(aead: Cipher, s: System, first: seq<Action>, a: Action)
    ensures After(aead, s, first + [a]) == Next(aead, After(aead, s, first), a)
  {
    hide Next;
    assert (first + [a])[..|first|] == first;
  }

  lemma AfterThree(aead: Cipher, s: System, a: Action, b: Action, c: Action)
    ensures After(aead, s, [a, b, c]) == Next(aead, Next(aead, Next(aead, s, a), b), c)
  {
    hide Next;
    AfterOne(aead, s, [], a);
    AfterOne(aead, s, [a], b);
    AfterOne(aead, s, [a, b], c);
    assert [] + [a] == [a] && [a] + [b] == [a, b] && [a, b] + [c] == [a, b, c];
  }

  lemma EmitBelowThreshold(aead: Cipher, side: Side, payload: seq<byte>)
    requires side.codec.sendCounter < REKEY_THRESHOLD && |payload| <= MAX_PAYLOAD
    ensures Emit(aead, side, payload)
         == (side.(codec := side.codec.(sendCounter := side.codec.sendCounter + 1)),
             EncodeRecord(aead, side.codec.active, side.codec.sendPrefix, side.codec.sendCounter, payload))
  {
    hide EncodeRecord;
  }

  /** What a codec becomes by reading counter `c`. */
  function HavingRead(st: CodecState, c: nat): CodecState {
    CountRead(st.(accepted := st.accepted + {c}))
  }

  lemma ClientReads(aead: Cipher, s: System, k: KeyId, c: nat, data: seq<byte>, rest: seq<byte>)
    requires s.client.open && |data| <= MAX_PAYLOAD && c < U32_LIMIT
    requires s.toClient == EncodeRecord(aead, k, s.client.codec.recvPrefix, c, data) + rest
    requires KeyFor(s.client.codec, k.kid) == Some(k.key)
    requires forall a :: a in s.client.codec.accepted ==> a < c
    ensures var (client, record) := ClientHandle(aead, s.client.(codec := HavingRead(s.client.codec, c)), data);
            Next(aead, s, ClientFrame) == s.(client := client, toClient := rest, toGateway := s.toGateway + record)
  {
    ReadEncoded(aead, s.client.codec, k, c, data, rest);
    assert |EncodeRecord(aead, k, s.client.codec.recvPrefix, c, data)| > 0;
    hide EncodeRecord, ReadFrame, ClientHandle;
  }

  lemma GatewayReads(aead: Cipher, s: System, k: KeyId, c: nat, data: seq<byte>, rest: seq<byte>)
    requires s.gateway.open && |data| <= MAX_PAYLOAD && c < U32_LIMIT
    requires s.toGateway == EncodeRecord(aead, k, s.gateway.codec.recvPrefix, c, data) + rest
    requires KeyFor(s.gateway.codec, k.kid) == Some(k.key)
    requires forall a :: a in s.gateway.codec.accepted ==> a < c
    ensures var (gateway, mode) := GatewayHandle(s.gateway.(codec := HavingRead(s.gateway.codec, c)), s.mode, data);
            Next(aead, s, GatewayFrame) == s.(gateway := gateway, mode := mode, toGateway := rest)
  {
    ReadEncoded(aead, s.gateway.codec, k, c, data, rest);
    assert |EncodeRecord(aead, k, s.gateway.codec.recvPrefix, c, data)| > 0;
    hide EncodeRecord, ReadFrame, GatewayHandle;
  }

  /** One undisturbed rekey takes a quiet session to a quiet session on the next
      key identifier and touches no application bytes. */
  lemma RekeyRound(aead: Cipher, s: System, n: nat, newKey: Key) returns (actions: seq<Action>)
    requires Quiet(s, n) && n <= REKEY_THRESHOLD
    ensures forall a :: a in actions ==> Clean(a)
    ensures var s' := After(aead, s, actions);
            && Quiet(s', n + 1)
            && s'.client.codec.active == KeyId((s.client.codec.active.kid + 1) % 256, newKey)
            && s'.client.supplied == s.client.supplied && s'.client.delivered == s.client.delivered
            && s'.gateway.supplied == s.gateway.supplied && s'.gateway.delivered == s.gateway.delivered
  {
    hide EncodeRecord, ReadFrame, Emit;
    actions := [GatewayRekey(newKey), ClientFrame, GatewayFrame];
    var k, g, c := s.client.codec.active, s.gateway.codec.sendCounter, s.client.codec.sendCounter;
    var next := KeyId((k.kid + 1) % 256, newKey);

    EmitBelowThreshold(aead, s.gateway, InitPayload(next));
    var init := EncodeRecord(aead, k, s.gateway.codec.sendPrefix, g, InitPayload(next));
    var s1 := Next(aead, s, GatewayRekey(newKey));
    assert s1.toClient == init + [] && s1.mode == AwaitingAck(next);

    ClientReads(aead, s1, k, g, InitPayload(next), []);
    InitRoundTrip(next);
    EmitBelowThreshold(aead, s1.client.(codec := HavingRead(s1.client.codec, g)), AckPayload(next.kid));
    var ack := EncodeRecord(aead, k, s.client.codec.sendPrefix, c, AckPayload(next.kid));
    var s2 := Next(aead, s1, ClientFrame);
    assert s2.toGateway == ack + [] && s2.client.codec.active == next;

    GatewayReads(aead, s2, k, c, AckPayload(next.kid), []);
    var s3 := Next(aead, s2, GatewayFrame);
    assert AckPayload(next.kid)[..9] == REKEY_ACK_MAGIC;
    assert Quiet(s3, n + 1);

    AfterThree(aead, s, GatewayRekey(newKey), ClientFrame, GatewayFrame);
  }

  /** Enough rekeys bring a quiet session to any key identifier. */
  lemma {:induction false} RekeyTo(aead: Cipher, s: System, n: nat, rounds: nat) returns (actions: seq<Action>)
    requires Quiet(s, n) && n + rounds <= REKEY_THRESHOLD
    ensures forall a :: a in actions ==> Clean(a)
    ensures var s' := After(aead, s, actions);
            && Quiet(s', n + rounds)
            && s'.client.codec.active.kid == (s.client.codec.active.kid + rounds) % 256
            && s'.client.supplied == s.client.supplied && s'.client.delivered == s.client.delivered
            && s'.gateway.supplied == s.gateway.supplied && s'.gateway.delivered == s.gateway.delivered
    decreases rounds
  {
    hide Next;
    if rounds == 0 {
      actions := [];
    } else {
      var first := RekeyRound(aead, s, n, s.client.codec.active.key);
      var rest := RekeyTo(aead, After(aead, s, first), n + 1, rounds - 1);
      AfterConcat(aead, s, first, rest);
      actions := first + rest;
    }
  }

  /** In a quiet session a target chunk that looks like REKEY_INIT, for another key
      identifier, is swallowed by the client while the next chunk gets through. */
  lemma InitChunkIsSwallowed(aead: Cipher, s: System, n: nat, chunk: seq<byte>)
    requires Quiet(s, n) && n + 2 <= REKEY_THRESHOLD
    requires LooksLikeInit(chunk) && |chunk| <= CHUNK_SIZE && chunk[6] != s.client.codec.active.kid
    ensures var s' := Next(aead, Next(aead, Next(aead, Next(aead, s,
                GatewayChunk(chunk)), GatewayChunk([0])), ClientFrame), ClientFrame);
            && s'.gateway.supplied == s.gateway.supplied + chunk + [0]
            && s'.client.delivered == s.client.delivered + [0]
  {
    hide EncodeRecord, ReadFrame, Emit;
    var k, g := s.client.codec.active, s.gateway.codec.sendCounter;
    var s1 := Next(aead, s, GatewayChunk(chunk));
    EmitBelowThreshold(aead, s.gateway.(supplied := s.gateway.supplied + chunk), chunk);
    var s2 := Next(aead, s1, GatewayChunk([0]));
    EmitBelowThreshold(aead, s1.gateway.(supplied := s1.gateway.supplied + [0]), [0]);
    var second := EncodeRecord(aead, k, s.gateway.codec.sendPrefix, g + 1, [0]);
    assert s2.toClient == EncodeRecord(aead, k, s.gateway.codec.sendPrefix, g, chunk) + second;

    ClientReads(aead, s2, k, g, chunk, second);
    EmitBelowThreshold(aead, s2.client.(codec := HavingRead(s2.client.codec, g)), AckPayload(chunk[6]));
    var s3 := Next(aead, s2, ClientFrame);
    assert s3.toClient == second + [] && s3.client.delivered == s.client.delivered;
    assert s3.client.codec.prev == Some(k);
    ClientReads(aead, s3, k, g + 1, [0], []);
  }

  /** In a quiet session a client chunk that looks like the ACK of the next rekey
      is swallowed by the gateway while the next chunk gets through. */
  lemma AckChunkIsSwallowed(aead: Cipher, s: System, n: nat, chunk: seq<byte>, newKey: Key)
    requires Quiet(s, n) && n + 2 <= REKEY_THRESHOLD
    requires LooksLikeAck(chunk) && |chunk| <= CHUNK_SIZE && chunk[9] == (s.client.codec.active.kid + 1) % 256
    ensures var s' := Next(aead, Next(aead, Next(aead, Next(aead, Next(aead, s,
                ClientChunk(chunk)), GatewayRekey(newKey)), GatewayFrame), ClientChunk([0])), GatewayFrame);
            && s'.client.supplied == s.client.supplied + chunk + [0]
            && s'.gateway.delivered == s.gateway.delivered + [0]
  {
    hide EncodeRecord, ReadFrame, Emit;
    var k, c := s.client.codec.active, s.client.codec.sendCounter;
    var next := KeyId((k.kid + 1) % 256, newKey);
    var s1 := Next(aead, s, ClientChunk(chunk));
    EmitBelowThreshold(aead, s.client.(supplied := s.client.supplied + chunk), chunk);
    assert s1.toGateway == EncodeRecord(aead, k, s.client.codec.sendPrefix, c, chunk) + [];
    var s2 := Next(aead, s1, GatewayRekey(newKey));
    EmitBelowThreshold(aead, s1.gateway, InitPayload(next));

    GatewayReads(aead, s2, k, c, chunk, []);
    var s3 := Next(aead, s2, GatewayFrame);
    assert s3.gateway.codec.prev == Some(k) && s3.gateway.delivered == s.gateway.delivered;
    var s4 := Next(aead, s3, ClientChunk([0]));
    EmitBelowThreshold(aead, s3.client.(supplied := s3.client.supplied + [0]), [0]);
    assert s4.toGateway == EncodeRecord(aead, k, s.client.codec.sendPrefix, c + 1, [0]) + [];
    GatewayReads(aead, s4, k, c + 1, [0], []);
  }

  lemma EstablishedIsQuiet(aead: Cipher, key: Key, c2s: Prefix, s2c: Prefix, request: seq<byte>, reply: seq<byte>)
    requires |request| <= MAX_PAYLOAD && |reply| <= MAX_PAYLOAD
    ensures Quiet(Established(aead, key, c2s, s2c, request, reply), 2)
  {
    hide Established;
    EstablishedState(aead, key, c2s, s2c, request, reply);
  }

  /** For every look-alike of REKEY_INIT there is a run, clean but for it, whose
      client socket is given something the target never supplied in that place. */
  lemma InitLookAlikeBreaksTunnel(aead: Cipher, key: Key, c2s: Prefix, s2c: Prefix, request: seq<byte>,
                                  reply: seq<byte>, chunk: seq<byte>)
    returns (actions: seq<Action>)
    requires |request| <= MAX_PAYLOAD && |reply| <= MAX_PAYLOAD
    requires LooksLikeInit(chunk) && |chunk| <= CHUNK_SIZE
    ensures forall a :: a in actions ==> Clean(a) || a == GatewayChunk(chunk)
    ensures var s := After(aead, Established(aead, key, c2s, s2c, request, reply), actions);
            !(s.client.delivered <= s.gateway.supplied)
  {
    hide Next, Established;
    var s0 := Established(aead, key, c2s, s2c, request, reply);
    EstablishedState(aead, key, c2s, s2c, request, reply);
    EstablishedIsQuiet(aead, key, c2s, s2c, request, reply);
    var before := RekeyTo(aead, s0, 2, if chunk[6] == 0 then 1 else 0);
    var s := After(aead, s0, before);
    InitChunkIsSwallowed(aead, s, 3, chunk);
    var tail := [GatewayChunk(chunk), GatewayChunk([0]), ClientFrame, ClientFrame];
    AfterThree(aead, s, tail[0], tail[1], tail[2]);
    AfterOne(aead, s, [tail[0], tail[1], tail[2]], tail[3]);
    assert tail == [tail[0], tail[1], tail[2]] + [tail[3]];
    AfterConcat(aead, s0, before, tail);
    actions := before + tail;
    var s' := After(aead, s0, actions);
    assert s'.client.delivered == [0] && s'.gateway.supplied == chunk + [0];
    assert s'.gateway.supplied[0] == chunk[..6][0] == 0x52;
  }

  /** The same for look-alikes of REKEY_ACK from the client's side. */
  lemma AckLookAlikeBreaksTunnel(aead: Cipher, key: Key, c2s: Prefix, s2c: Prefix, request: seq<byte>,
                                 reply: seq<byte>, chunk: seq<byte>)
    returns (actions: seq<Action>)
    requires |request| <= MAX_PAYLOAD && |reply| <= MAX_PAYLOAD
    requires LooksLikeAck(chunk) && |chunk| <= CHUNK_SIZE
    ensures forall a :: a in actions ==> Clean(a) || a == ClientChunk(chunk)
    ensures var s := After(aead, Established(aead, key, c2s, s2c, request, reply), actions);
            !(s.gateway.delivered <= s.client.supplied)
  {
    hide Next, Established;
    var s0 := Established(aead, key, c2s, s2c, request, reply);
    EstablishedState(aead, key, c2s, s2c, request, reply);
    EstablishedIsQuiet(aead, key, c2s, s2c, request, reply);
    var rounds: nat := (chunk[9] as int + 255) % 256;
    var before := RekeyTo(aead, s0, 2, rounds);
    var s := After(aead, s0, before);
    AckChunkIsSwallowed(aead, s, 2 + rounds, chunk, key);
    var tail := [ClientChunk(chunk), GatewayRekey(key), GatewayFrame, ClientChunk([0]), GatewayFrame];
    AfterThree(aead, s, tail[0], tail[1], tail[2]);
    AfterOne(aead, s, [tail[0], tail[1], tail[2]], tail[3]);
    AfterOne(aead, s, [tail[0], tail[1], tail[2]] + [tail[3]], tail[4]);
    assert tail == [tail[0], tail[1], tail[2]] + [tail[3]] + [tail[4]];
    AfterConcat(aead, s0, before, tail);
    actions := before + tail;
    var s' := After(aead, s0, actions);
    assert s'.gateway.delivered == [0] && s'.client.supplied == chunk + [0];
    assert s'.client.supplied[0] == chunk[..9][0] == 0x52;
  }

  /** Every run whose chunks are clean, or the given one, delivers prefixes. */
  ghost predicate SafeWith(aead: Cipher, key: Key, c2s: Prefix, s2c: Prefix, request: seq<byte>, reply: seq<byte>,
                           extra: Action)
  {
    forall actions: seq<Action> :: (forall a :: a in actions ==> Clean(a) || a == extra) ==>
      var s := After(aead, Established(aead, key, c2s, s2c, request, reply), actions);
      s.gateway.delivered <= s.client.supplied && s.client.delivered <= s.gateway.supplied
  }

  /** Allowing one more chunk keeps the tunnel safe if and only if the chunk does
      not pass for a rekey message of its direction. */
  lemma SafetyIsExact(aead: Cipher, key: Key, c2s: Prefix, s2c: Prefix, request: seq<byte>, reply: seq<byte>,
                      chunk: seq<byte>)
    requires |request| <= MAX_PAYLOAD && |reply| <= MAX_PAYLOAD && |chunk| <= CHUNK_SIZE
    ensures SafeWith(aead, key, c2s, s2c, request, reply, GatewayChunk(chunk)) <==> !LooksLikeInit(chunk)
    ensures SafeWith(aead, key, c2s, s2c, request, reply, ClientChunk(chunk)) <==> !LooksLikeAck(chunk)
  {
    hide Established, After;
    if LooksLikeInit(chunk) {
      var actions := InitLookAlikeBreaksTunnel(aead, key, c2s, s2c, request, reply, chunk);
      assert !SafeWith(aead, key, c2s, s2c, request, reply, GatewayChunk(chunk));
    } else {
      CleanIsSafe(aead, key, c2s, s2c, request, reply, GatewayChunk(chunk));
    }
    if LooksLikeAck(chunk) {
      var actions := AckLookAlikeBreaksTunnel(aead, key, c2s, s2c, request, reply, chunk);
      assert !SafeWith(aead, key, c2s, s2c, request, reply, ClientChunk(chunk));
    } else {
      CleanIsSafe(aead, key, c2s, s2c, request, reply, ClientChunk(chunk));
    }
  }

  lemma CleanIsSafe(aead: Cipher, key: Key, c2s: Prefix, s2c: Prefix, request: seq<byte>, reply: seq<byte>, extra: Action)
    requires |request| <= MAX_PAYLOAD && |reply| <= MAX_PAYLOAD && Clean(extra)
    ensures SafeWith(aead, key, c2s, s2c, request, reply, extra)
  {
    hide Established, After, Clean;
    forall actions: seq<Action> | forall a :: a in actions ==> Clean(a) || a == extra
      ensures var s := After(aead, Established(aead, key, c2s, s2c, request, reply), actions);
              s.gateway.delivered <= s.client.supplied && s.client.delivered <= s.gateway.supplied
    {
      TunnelDelivers(aead, key, c2s, s2c, request, reply, actions);
    }
  }
}
