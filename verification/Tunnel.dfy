/**
 The tunnel: the two relay loops joined by two reliable FIFO byte channels, with
 the in-band rekey protocol between them. Each action is one turn of one loop.
 */
module Tunnel {
  import opened Bytes
  import opened Aead
  import opened Codec

  const CHUNK_SIZE: nat := 8192
  /** "REKEY" and a zero byte. */
  const REKEY_INIT_MAGIC: seq<byte> := [0x52, 0x45, 0x4B, 0x45, 0x59, 0x00]
  /** "REKEYACK" and a zero byte. */
  const REKEY_ACK_MAGIC: seq<byte> := [0x52, 0x45, 0x4B, 0x45, 0x59, 0x41, 0x43, 0x4B, 0x00]
  const INIT_SIZE: nat := 6 + 1 + KEY_SIZE
  const ACK_SIZE: nat := 9 + 1

  function InitPayload(next: KeyId): seq<byte> {
    REKEY_INIT_MAGIC + [next.kid] + next.key
  }

  function AckPayload(kid: byte): seq<byte> {
    REKEY_ACK_MAGIC + [kid]
  }

  /** One end of the tunnel. `supplied` is what its socket has given it so far and
      `delivered` what it has written to its socket; `epoch` counts its rekeys. */
  datatype Side = Side(codec: CodecState, open: bool, epoch: nat, supplied: seq<byte>, delivered: seq<byte>)

  datatype Mode = Relaying | AwaitingAck(next: KeyId)

  datatype System = System(client: Side, gateway: Side, mode: Mode, toGateway: seq<byte>, toClient: seq<byte>)

  datatype Action =
    | ClientChunk(chunk: seq<byte>)
    | ClientFrame
    | ClientClose
    | GatewayChunk(chunk: seq<byte>)
    | GatewayFrame
    | GatewayRekey(newKey: Key)
    | GatewayClose

  /** Writes one frame; a refusal by the codec ends the relay. */
  function Emit(aead: Cipher, side: Side, payload: seq<byte>): (Side, seq<byte>) {
    var (codec, r) := WriteFrame(aead, side.codec, payload);
    if r.Ok? then (side.(codec := codec), r.value) else (side.(codec := codec, open := false), [])
  }

  function Rekeyed(side: Side, next: KeyId): Side {
    side.(codec := StartRekey(side.codec, next), epoch := side.epoch + 1)
  }

  /** The relay reads a chunk from its socket; an empty one is end of file. */
  function Forward(aead: Cipher, side: Side, chunk: seq<byte>): (Side, seq<byte>) {
    if chunk == [] then (side.(open := false), [])
    else Emit(aead, side.(supplied := side.supplied + chunk), chunk)
  }

  /** The client relay handles the plaintext of a frame from the gateway. */
  function ClientHandle(aead: Cipher, side: Side, data: seq<byte>): (Side, seq<byte>) {
    if StartsWith(data, REKEY_INIT_MAGIC) then
      if |data| < INIT_SIZE then (side.(open := false), [])
      else
        var next := KeyId(data[6], data[7..INIT_SIZE]);
        var (acked, record) := Emit(aead, side, AckPayload(next.kid));
        (if acked.open then Rekeyed(acked, next) else acked, record)
    else (side.(delivered := side.delivered + data), [])
  }

  /** The gateway relay handles the plaintext of a frame from the client: data
      while relaying; while it waits for an ACK, the ACK or the end. */
  function GatewayHandle(side: Side, mode: Mode, data: seq<byte>): (Side, Mode) {
    match mode
    case Relaying => (side.(delivered := side.delivered + data), Relaying)
    case AwaitingAck(next) =>
      if |data| < ACK_SIZE || data[..9] != REKEY_ACK_MAGIC || data[9] != next.kid then
        (side.(open := false), mode)
      else (Rekeyed(side, next), Relaying)
  }

  function Next(aead: Cipher, s: System, a: Action): System {
    match a
    case ClientChunk(chunk) =>
      if !s.client.open || |chunk| > CHUNK_SIZE then s
      else
        var (client, record) := Forward(aead, s.client, chunk);
        s.(client := client, toGateway := s.toGateway + record)
    case ClientFrame =>
      if !s.client.open || s.toClient == [] then s
      else
        var r := ReadFrame(aead, s.client.codec, s.toClient);
        var client := s.client.(codec := r.st);
        if r.result.Err? then s.(client := client.(open := false), toClient := r.left)
        else
          var (client', record) := ClientHandle(aead, client, r.result.value);
          s.(client := client', toClient := r.left, toGateway := s.toGateway + record)
    case ClientClose => s.(client := s.client.(open := false))
    case GatewayChunk(chunk) =>
      if !s.gateway.open || s.mode != Relaying || |chunk| > CHUNK_SIZE then s
      else
        var (gateway, record) := Forward(aead, s.gateway, chunk);
        s.(gateway := gateway, toClient := s.toClient + record)
    case GatewayFrame =>
      if !s.gateway.open || s.toGateway == [] then s
      else
        var r := ReadFrame(aead, s.gateway.codec, s.toGateway);
        var gateway := s.gateway.(codec := r.st);
        if r.result.Err? then s.(gateway := gateway.(open := false), toGateway := r.left)
        else
          var (gateway', mode) := GatewayHandle(gateway, s.mode, r.result.value);
          s.(gateway := gateway', mode := mode, toGateway := r.left)
    case GatewayRekey(newKey) =>
      if !s.gateway.open || s.mode != Relaying then s
      else
        var next := KeyId((s.gateway.codec.active.kid + 1) % 256, newKey);
        var (gateway, record) := Emit(aead, s.gateway, InitPayload(next));
        s.(gateway := gateway, toClient := s.toClient + record,
           mode := if gateway.open then AwaitingAck(next) else Relaying)
    case GatewayClose => s.(gateway := s.gateway.(open := false))
  }

  function After(aead: Cipher, s: System, actions: seq<Action>): System {
    if actions == [] then s
    else Next(aead, After(aead, s, actions[..|actions| - 1]), actions[|actions| - 1])
  }

  /** A session at the start of its relays: two mirrored codecs that have
      exchanged the CONNECT request and the OK reply. */
  function Established(aead: Cipher, key: Key, c2s: Prefix, s2c: Prefix, request: seq<byte>, reply: seq<byte>): System {
    var (client, up) := WriteFrame(aead, NewCodec(key, c2s, s2c, 0), request);
    var gateway := ReadFrame(aead, NewCodec(key, s2c, c2s, 0), if up.Ok? then up.value else []).st;
    var (gateway', down) := WriteFrame(aead, gateway, reply);
    var client' := ReadFrame(aead, client, if down.Ok? then down.value else []).st;
    System(Side(client', true, 0, [], []), Side(gateway', true, 0, [], []), Relaying, [], [])
  }

  /** A chunk the client would take for a complete REKEY_INIT. */
  predicate LooksLikeInit(chunk: seq<byte>) {
    |chunk| >= INIT_SIZE && StartsWith(chunk, REKEY_INIT_MAGIC)
  }

  /** A chunk a waiting gateway could take for a REKEY_ACK. */
  predicate LooksLikeAck(chunk: seq<byte>) {
    |chunk| >= ACK_SIZE && StartsWith(chunk, REKEY_ACK_MAGIC)
  }

  predicate Clean(a: Action) {
    && (a.ClientChunk? ==> !LooksLikeAck(a.chunk))
    && (a.GatewayChunk? ==> !LooksLikeInit(a.chunk))
  }
}
