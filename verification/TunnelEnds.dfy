/**
 How a relay goes on and how it ends: for each end, exactly which turns end it, what
 a turn that does not end it does, and that an end which is down does nothing more.
 */
module TunnelEnds {
  import opened Bytes
  import opened Aead
  import opened Codec
  import opened Tunnel

  // ------------------------------------------------------------ rekey messages

  /** REKEY_INIT: "REKEY", a zero byte, the identifier and the key; 39 bytes. */
  predicate IsInit(data: seq<byte>) {
    |data| >= 39 && data[..6] == [0x52, 0x45, 0x4B, 0x45, 0x59, 0x00]
  }

  /** Begins like REKEY_INIT and is cut off. */
  predicate IsCutInit(data: seq<byte>) {
    6 <= |data| < 39 && data[..6] == [0x52, 0x45, 0x4B, 0x45, 0x59, 0x00]
  }

  /** REKEY_ACK for an identifier: "REKEYACK", a zero byte and the identifier; 10 bytes. */
  predicate IsAckFor(data: seq<byte>, kid: byte) {
    |data| >= 10 && data[..9] == [0x52, 0x45, 0x4B, 0x45, 0x59, 0x41, 0x43, 0x4B, 0x00] && data[9] == kid
  }

  lemma RekeyMessageLayout(next: KeyId)
    ensures |InitPayload(next)| == 39 && IsInit(InitPayload(next))
    ensures InitPayload(next)[6] == next.kid && InitPayload(next)[7..] == next.key
    ensures |AckPayload(next.kid)| == 10 && IsAckFor(AckPayload(next.kid), next.kid)
  {
    var init, ack := InitPayload(next), AckPayload(next.kid);
    assert init[..6] == REKEY_INIT_MAGIC && init[7..] == next.key && ack[..9] == REKEY_ACK_MAGIC;
  }

  // ------------------------------------------------------------- the client end

  /** The turns that end the client's relay: it closes; its socket is at end of file; its
      codec has no counter left for a chunk or an ACK; a frame does not read, or reads as
      a REKEY_INIT that is cut off. */
  predicate EndsClient(aead: Cipher, s: System, a: Action) {
    var spent := s.client.codec.sendCounter >= 0xF000_0000;
    match a
    case ClientClose => true
    case ClientChunk(chunk) => |chunk| == 0 || (|chunk| <= 8192 && spent)
    case ClientFrame =>
      && s.toClient != []
      && (match ReadFrame(aead, s.client.codec, s.toClient).result
          case Err(_) => true
          case Ok(data) => IsCutInit(data) || (IsInit(data) && spent))
    case _ => false
  }

  lemma ReadKeepsSending(aead: Cipher, st: CodecState, stream: seq<byte>)
    ensures var st' := ReadFrame(aead, st, stream).st;
            && st'.sendCounter == st.sendCounter && st'.sendPrefix == st.sendPrefix && st'.active == st.active
  {
    hide ParseRecord;
  }

  lemma ClientEndsExactly(aead: Cipher, s: System, a: Action)
    requires s.client.open
    ensures !Next(aead, s, a).client.open <==> EndsClient(aead, s, a)
  {
    ReadKeepsSending(aead, s.client.codec, s.toClient);
    hide ReadFrame, EncodeRecord;
  }

  /** A chunk that does not end the client's relay is supplied, and put on the wire as one
      frame under the active key and the next counter. */
  lemma ClientForwards(aead: Cipher, s: System, chunk: seq<byte>)
    requires s.client.open && 0 < |chunk| <= 8192 && s.client.codec.sendCounter < 0xF000_0000
    ensures var st := s.client.codec;
            Next(aead, s, ClientChunk(chunk))
            == s.(client := s.client.(codec := st.(sendCounter := st.sendCounter + 1),
                                      supplied := s.client.supplied + chunk),
                  toGateway := s.toGateway + EncodeRecord(aead, st.active, st.sendPrefix, st.sendCounter, chunk))
  {
    hide EncodeRecord;
  }

  /** A frame that does not end the client's relay is delivered, or is a REKEY_INIT: then
      nothing is delivered, an ACK goes out under the old key, and the key is replaced. */
  lemma ClientTakesFrame(aead: Cipher, s: System)
    requires s.client.open && s.toClient != [] && !EndsClient(aead, s, ClientFrame)
    ensures var r := ReadFrame(aead, s.client.codec, s.toClient);
            var s' := Next(aead, s, ClientFrame);
            var data := r.result.value;
            && s'.toClient == r.left && s'.gateway == s.gateway && s'.mode == s.mode
            && s'.client.supplied == s.client.supplied
            && (!IsInit(data) ==>
                && s'.client.delivered == s.client.delivered + data
                && s'.toGateway == s.toGateway && s'.client.codec == r.st && s'.client.epoch == s.client.epoch)
            && (IsInit(data) ==>
                && s'.client.delivered == s.client.delivered
                && s'.toGateway == s.toGateway + EncodeRecord(aead, s.client.codec.active, s.client.codec.sendPrefix,
                                                              s.client.codec.sendCounter, AckPayload(data[6]))
                && s'.client.codec.active == KeyId(data[6], data[7..39])
                && s'.client.codec.prev == Some(s.client.codec.active)
                && s'.client.epoch == s.client.epoch + 1)
  {
    ReadKeepsSending(aead, s.client.codec, s.toClient);
    hide ReadFrame, EncodeRecord;
    assert s.toGateway + [] == s.toGateway;
  }

  // ------------------------------------------------------------ the gateway end

  /** The turns that end the gateway's relay. While it waits for an ACK it reads nothing
      from its socket, and every frame but the ACK it waits for ends it. */
  predicate EndsGateway(aead: Cipher, s: System, a: Action) {
    var spent := s.gateway.codec.sendCounter >= 0xF000_0000;
    match a
    case GatewayClose => true
    case GatewayChunk(chunk) => s.mode == Relaying && (|chunk| == 0 || (|chunk| <= 8192 && spent))
    case GatewayRekey(_) => s.mode == Relaying && spent
    case GatewayFrame =>
      && s.toGateway != []
      && (match ReadFrame(aead, s.gateway.codec, s.toGateway).result
          case Err(_) => true
          case Ok(data) => s.mode.AwaitingAck? && !IsAckFor(data, s.mode.next.kid))
    case _ => false
  }

  lemma GatewayEndsExactly(aead: Cipher, s: System, a: Action)
    requires s.gateway.open
    ensures !Next(aead, s, a).gateway.open <==> EndsGateway(aead, s, a)
  {
    hide ReadFrame, EncodeRecord;
  }

  lemma GatewayForwards(aead: Cipher, s: System, chunk: seq<byte>)
    requires s.gateway.open && 0 < |chunk| <= 8192 && s.gateway.codec.sendCounter < 0xF000_0000
    ensures var st := s.gateway.codec;
            Next(aead, s, GatewayChunk(chunk))
            == if s.mode.AwaitingAck? then s
               else s.(gateway := s.gateway.(codec := st.(sendCounter := st.sendCounter + 1),
                                             supplied := s.gateway.supplied + chunk),
                       toClient := s.toClient + EncodeRecord(aead, st.active, st.sendPrefix, st.sendCounter, chunk))
  {
    hide EncodeRecord;
  }

  /** A frame that does not end the gateway's relay is delivered, or is the ACK: then
      nothing is delivered and the announced key is taken up. */
  lemma GatewayTakesFrame(aead: Cipher, s: System)
    requires s.gateway.open && s.toGateway != [] && !EndsGateway(aead, s, GatewayFrame)
    ensures var r := ReadFrame(aead, s.gateway.codec, s.toGateway);
            var s' := Next(aead, s, GatewayFrame);
            && s'.toGateway == r.left && s'.toClient == s.toClient && s'.client == s.client
            && s'.mode == Relaying && s'.gateway.supplied == s.gateway.supplied
            && (s.mode == Relaying ==>
                && s'.gateway.delivered == s.gateway.delivered + r.result.value
                && s'.gateway.codec == r.st && s'.gateway.epoch == s.gateway.epoch)
            && (s.mode.AwaitingAck? ==>
                && s'.gateway.delivered == s.gateway.delivered
                && s'.gateway.codec.active == s.mode.next && s'.gateway.codec.prev == Some(s.gateway.codec.active)
                && s'.gateway.epoch == s.gateway.epoch + 1)
  {
    ReadKeepsSending(aead, s.gateway.codec, s.toGateway);
    hide ReadFrame;
  }

  /** A rekey is announced under the old key, which stays in use, with the next identifier. */
  lemma GatewayAnnounces(aead: Cipher, s: System, newKey: Key)
    requires s.gateway.open && s.mode == Relaying && s.gateway.codec.sendCounter < 0xF000_0000
    ensures var st := s.gateway.codec;
            var next := KeyId(if st.active.kid == 255 then 0 else st.active.kid + 1, newKey);
            Next(aead, s, GatewayRekey(newKey))
            == s.(gateway := s.gateway.(codec := st.(sendCounter := st.sendCounter + 1)),
                  mode := AwaitingAck(next),
                  toClient := s.toClient + EncodeRecord(aead, st.active, st.sendPrefix, st.sendCounter, InitPayload(next)))
  {
    hide EncodeRecord;
  }

  // --------------------------------------------------------------- after the end

  ghost predicate IsSuffix(s: seq<byte>, of: seq<byte>) {
    |s| <= |of| && s == of[|of| - |s|..]
  }

  lemma LeftIsSuffix(aead: Cipher, st: CodecState, stream: seq<byte>)
    ensures IsSuffix(ReadFrame(aead, st, stream).left, stream)
  {
  }

  lemma SuffixOfSuffix(a: seq<byte>, b: seq<byte>, c: seq<byte>)
    requires IsSuffix(a, b) && IsSuffix(b, c)
    ensures IsSuffix(a, c)
  {
  }

  lemma ClientStepDown(aead: Cipher, s: System, a: Action)
    requires !s.client.open
    ensures var s' := Next(aead, s, a);
            s'.client == s.client && IsSuffix(s'.toGateway, s.toGateway)
  {
    LeftIsSuffix(aead, s.gateway.codec, s.toGateway);
    hide ReadFrame, WriteFrame;
  }

  lemma GatewayStepDown(aead: Cipher, s: System, a: Action)
    requires !s.gateway.open
    ensures var s' := Next(aead, s, a);
            s'.gateway == s.gateway && IsSuffix(s'.toClient, s.toClient)
  {
    LeftIsSuffix(aead, s.client.codec, s.toClient);
    hide ReadFrame, WriteFrame;
  }

  /** A client that is down supplies, delivers and writes nothing more: what is in flight
      from it is what is left of what it wrote before. */
  lemma {:induction false} ClientStaysDown(aead: Cipher, s: System, actions: seq<Action>)
    requires !s.client.open
    ensures var s' := After(aead, s, actions);
            s'.client == s.client && IsSuffix(s'.toGateway, s.toGateway)
    decreases |actions|
  {
    hide Next, IsSuffix;
    if actions == [] {
      WholeIsSuffix(s.toGateway);
    } else {
      ClientStaysDown(aead, s, actions[..|actions| - 1]);
      var mid := After(aead, s, actions[..|actions| - 1]);
      ClientStepDown(aead, mid, actions[|actions| - 1]);
      SuffixOfSuffix(After(aead, s, actions).toGateway, mid.toGateway, s.toGateway);
    }
  }

  lemma {:induction false} GatewayStaysDown(aead: Cipher, s: System, actions: seq<Action>)
    requires !s.gateway.open
    ensures var s' := After(aead, s, actions);
            s'.gateway == s.gateway && IsSuffix(s'.toClient, s.toClient)
    decreases |actions|
  {
    hide Next, IsSuffix;
    if actions == [] {
      WholeIsSuffix(s.toClient);
    } else {
      GatewayStaysDown(aead, s, actions[..|actions| - 1]);
      var mid := After(aead, s, actions[..|actions| - 1]);
      GatewayStepDown(aead, mid, actions[|actions| - 1]);
      SuffixOfSuffix(After(aead, s, actions).toClient, mid.toClient, s.toClient);
    }
  }

  lemma WholeIsSuffix(s: seq<byte>)
    ensures IsSuffix(s, s)
  {
  }

  /** End of file on the browser's socket ends the client's relay for good: it changes
      nothing else, and whatever happens afterwards the client supplies, delivers and
      writes nothing more. */
  lemma ClientEndOfFile(aead: Cipher, s: System, actions: seq<Action>)
    requires s.client.open
    ensures var s1 := Next(aead, s, ClientChunk([]));
            var s2 := After(aead, s1, actions);
            && s1 == s.(client := s.client.(open := false))
            && !s2.client.open
            && s2.client.supplied == s.client.supplied && s2.client.delivered == s.client.delivered
            && IsSuffix(s2.toGateway, s.toGateway)
  {
    assert s.toGateway + [] == s.toGateway;
    ClientStaysDown(aead, Next(aead, s, ClientChunk([])), actions);
    hide After, IsSuffix;
  }

  /** The same for end of file on the target's socket while the gateway relays. */
  lemma GatewayEndOfFile(aead: Cipher, s: System, actions: seq<Action>)
    requires s.gateway.open && s.mode == Relaying
    ensures var s1 := Next(aead, s, GatewayChunk([]));
            var s2 := After(aead, s1, actions);
            && s1 == s.(gateway := s.gateway.(open := false))
            && !s2.gateway.open
            && s2.gateway.supplied == s.gateway.supplied && s2.gateway.delivered == s.gateway.delivered
            && IsSuffix(s2.toClient, s.toClient)
  {
    assert s.toClient + [] == s.toClient;
    GatewayStaysDown(aead, Next(aead, s, GatewayChunk([])), actions);
    hide After, IsSuffix;
  }
}
