/**
 The frame codec: records that look like TLS application data (sections 5.1 and
 5.2 of RFC 8446), sealed under the active key, with in-band key rotation.

 `CodecState` with `WriteFrame` and `ReadFrame` is the specification used by the
 proofs about streams and sessions; the stateful codec is `CodecObject.FrameCodec`.
 */
module Codec {
  import opened Bytes
  import opened Aead
  import opened Replay

  const CONTENT_TYPE: byte := 0x17
  const VERSION_MAJOR: byte := 0x03
  const VERSION_MINOR: byte := 0x03
  const HEADER_SIZE: nat := 5
  const KID_SIZE: nat := 1
  const COUNTER_SIZE: nat := 4
  const PREFIX_SIZE: nat := 8
  const MAX_PAYLOAD: nat := 16 * 1024
  const MIN_FRAME_BODY: nat := KID_SIZE + COUNTER_SIZE + TAG_SIZE
  const MAX_FRAME_BODY: nat := KID_SIZE + COUNTER_SIZE + MAX_PAYLOAD + TAG_SIZE
  const REKEY_THRESHOLD: nat := 0xF000_0000
  const REPLAY_WINDOW_SIZE: nat := 64
  const REKEY_OVERLAP_FRAMES: nat := 256

  type Prefix = p: seq<byte> | |p| == PREFIX_SIZE witness seq(PREFIX_SIZE, _ => 0)

  datatype ProtocolFault =
    | BadContentType(found: byte)
    | BadVersion(major: byte, minor: byte)
    | BodyTooSmall(length: nat)

  datatype TransportError =
    | UnexpectedEof
    | Protocol(fault: ProtocolFault)
    | FrameTooLarge(length: nat, max: nat)
    | ReplayDetected(counter: nat)
    | UnknownKeyId(kid: byte)
    | Crypto
    | RekeyNeeded(counter: nat, threshold: nat)

  datatype Result<+T> = Ok(value: T) | Err(error: TransportError)

  datatype KeyId = KeyId(kid: byte, key: Key)

  datatype CodecState = CodecState(
    active: KeyId,
    prev: Option<KeyId>,
    framesSinceRekey: nat,
    sendPrefix: Prefix,
    recvPrefix: Prefix,
    sendCounter: nat,
    accepted: set<nat>)

  function NewCodec(key: Key, sendPrefix: Prefix, recvPrefix: Prefix, kid: byte): CodecState {
    CodecState(KeyId(kid, key), None, 0, sendPrefix, recvPrefix, 0, {})
  }

  // ---------------------------------------------------------------- records

  function NonceFor(prefix: Prefix, counter: nat): (n: Nonce) {
    prefix + BigEndian32(counter % U32_LIMIT)
  }

  /** The arguments of one call of the AEAD's `seal`. */
  datatype SealCall = SealCall(key: Key, nonce: Nonce, plaintext: seq<byte>)

  /** The call that seals the record with this counter. */
  function SealCallFor(k: KeyId, prefix: Prefix, counter: nat, plaintext: seq<byte>): SealCall {
    SealCall(k.key, NonceFor(prefix, counter), plaintext)
  }

  function Seal(aead: Cipher, call: SealCall): seq<byte> {
    aead.seal(call.key, call.nonce, call.plaintext)
  }

  /** The bytes of one record, with the narrowing casts of the implementation. */
  function EncodeRecord(aead: Cipher, k: KeyId, prefix: Prefix, counter: nat, plaintext: seq<byte>): seq<byte> {
    var ciphertext := Seal(aead, SealCallFor(k, prefix, counter, plaintext));
    [CONTENT_TYPE, VERSION_MAJOR, VERSION_MINOR]
    + BigEndian16((KID_SIZE + COUNTER_SIZE + |ciphertext|) % U16_LIMIT)
    + [k.kid] + BigEndian32(counter % U32_LIMIT) + ciphertext
  }

  datatype Parsed =
    | Malformed(error: TransportError, left: seq<byte>)
    | Record(kid: byte, counter: nat, ciphertext: seq<byte>, left: seq<byte>)

  /** Splits the first record off a stream of bytes. */
  function ParseRecord(stream: seq<byte>): (r: Parsed) {
    if |stream| < HEADER_SIZE then Malformed(UnexpectedEof, [])
    else
      var rest := stream[HEADER_SIZE..];
      var bodyLength := FromBigEndian16(stream[3..5]);
      if stream[0] != CONTENT_TYPE then
        Malformed(Protocol(BadContentType(stream[0])), rest)
      else if stream[1] != VERSION_MAJOR || stream[2] != VERSION_MINOR then
        Malformed(Protocol(BadVersion(stream[1], stream[2])), rest)
      else if bodyLength < MIN_FRAME_BODY then
        Malformed(Protocol(BodyTooSmall(bodyLength)), rest)
      else if bodyLength > MAX_FRAME_BODY then
        Malformed(FrameTooLarge(bodyLength, MAX_FRAME_BODY), rest)
      else if |rest| < bodyLength then
        Malformed(UnexpectedEof, [])
      else
        Record(rest[0], FromBigEndian32(rest[1..5]), rest[5..bodyLength], rest[bodyLength..])
  }

  /** The canonical bytes of a record with these fields. */
  function RecordBytes(kid: byte, counter: nat, ciphertext: seq<byte>): seq<byte>
    requires counter < U32_LIMIT && |ciphertext| <= MAX_PAYLOAD + TAG_SIZE
  {
    [CONTENT_TYPE, VERSION_MAJOR, VERSION_MINOR] + BigEndian16(KID_SIZE + COUNTER_SIZE + |ciphertext|)
    + [kid] + BigEndian32(counter) + ciphertext
  }

  /** The parser finds the fields of a canonical record and leaves what follows it. */
  lemma ParseCanonical(kid: byte, counter: nat, ciphertext: seq<byte>, rest: seq<byte>)
    requires counter < U32_LIMIT && TAG_SIZE <= |ciphertext| <= MAX_PAYLOAD + TAG_SIZE
    ensures ParseRecord(RecordBytes(kid, counter, ciphertext) + rest) == Record(kid, counter, ciphertext, rest)
  {
    var bodyLength := KID_SIZE + COUNTER_SIZE + |ciphertext|;
    var stream := RecordBytes(kid, counter, ciphertext) + rest;
    BigEndian16RoundTrip(bodyLength);
    BigEndian32RoundTrip(counter);
    assert stream[3..5] == BigEndian16(bodyLength);
    var body := stream[HEADER_SIZE..];
    assert body == [kid] + BigEndian32(counter) + ciphertext + rest;
    assert body[1..5] == BigEndian32(counter);
    assert body[5..bodyLength] == ciphertext;
    assert body[bodyLength..] == rest;
  }

  /** And it accepts nothing else: whatever it takes for a record is canonical. */
  lemma ParsedIsCanonical(stream: seq<byte>)
    requires ParseRecord(stream).Record?
    ensures var r := ParseRecord(stream);
            && r.counter < U32_LIMIT && TAG_SIZE <= |r.ciphertext| <= MAX_PAYLOAD + TAG_SIZE
            && stream == RecordBytes(r.kid, r.counter, r.ciphertext) + r.left
  {
    var r := ParseRecord(stream);
    var bodyLength := FromBigEndian16(stream[3..5]);
    var body := stream[HEADER_SIZE..];
    FromBigEndian16RoundTrip(stream[3..5]);
    FromBigEndian32RoundTrip(body[1..5]);
    assert body == [r.kid] + BigEndian32(r.counter) + r.ciphertext + r.left;
    assert stream == [stream[0], stream[1], stream[2]] + stream[3..5] + body;
    assert |r.ciphertext| == bodyLength - 5;
  }

  /** A record of an admissible payload loses nothing to the 16- and 32-bit casts:
      the parser finds exactly its fields and leaves exactly what follows it. */
  lemma ParseEncoded(aead: Cipher, k: KeyId, prefix: Prefix, counter: nat, plaintext: seq<byte>, rest: seq<byte>)
    requires |plaintext| <= MAX_PAYLOAD && counter < U32_LIMIT
    ensures ParseRecord(EncodeRecord(aead, k, prefix, counter, plaintext) + rest)
         == Record(k.kid, counter, aead.seal(k.key, NonceFor(prefix, counter), plaintext), rest)
    ensures KID_SIZE + COUNTER_SIZE + |plaintext| + TAG_SIZE < U16_LIMIT
    ensures |EncodeRecord(aead, k, prefix, counter, plaintext)| == HEADER_SIZE + MIN_FRAME_BODY + |plaintext|
  {
    hide ParseRecord, NonceFor, BigEndian16, BigEndian32;
    var ciphertext := aead.seal(k.key, NonceFor(prefix, counter), plaintext);
    var bodyLength := KID_SIZE + COUNTER_SIZE + |ciphertext|;
    assert bodyLength % U16_LIMIT == bodyLength && counter % U32_LIMIT == counter;
    assert EncodeRecord(aead, k, prefix, counter, plaintext) == RecordBytes(k.kid, counter, ciphertext);
    ParseCanonical(k.kid, counter, ciphertext, rest);
  }

  // ------------------------------------------------------------- operations

  /** `write_frame`: the record, or the reason there is none. The counter is
      spent by every call that passes the size check. */
  function WriteFrame(aead: Cipher, st: CodecState, plaintext: seq<byte>): (CodecState, Result<seq<byte>>) {
    if |plaintext| > MAX_PAYLOAD then
      (st, Err(FrameTooLarge(|plaintext|, MAX_PAYLOAD)))
    else
      var spent := st.(sendCounter := (st.sendCounter + 1) % U64_LIMIT);
      if st.sendCounter >= REKEY_THRESHOLD then
        (spent, Err(RekeyNeeded(st.sendCounter, REKEY_THRESHOLD)))
      else
        (spent, Ok(EncodeRecord(aead, st.active, st.sendPrefix, st.sendCounter, plaintext)))
  }

  function StartRekey(st: CodecState, next: KeyId): CodecState {
    st.(active := next, prev := Some(st.active), framesSinceRekey := 0)
  }

  function CompleteRekey(st: CodecState): CodecState {
    st.(prev := None)
  }

  /** The key a record with this identifier is opened with, if any. */
  function KeyFor(st: CodecState, kid: byte): Option<Key> {
    if kid == st.active.kid then Some(st.active.key)
    else if st.prev.Some? && kid == st.prev.value.kid then Some(st.prev.value.key)
    else None
  }

  /** Counts one successful read against the overlap window. */
  function CountRead(st: CodecState): CodecState {
    if st.prev.None? then st
    else
      var n := st.framesSinceRekey + 1;
      st.(framesSinceRekey := n, prev := if n >= REKEY_OVERLAP_FRAMES then None else st.prev)
  }

  /** What `read_frame` does with a well-formed record: the counter is marked
      as seen before a key is chosen, so a record that fails later still uses it up. */
  function AcceptRecord(aead: Cipher, st: CodecState, kid: byte, counter: nat, ciphertext: seq<byte>)
    : (CodecState, Result<seq<byte>>)
  {
    if !Fresh(st.accepted, REPLAY_WINDOW_SIZE, counter) then (st, Err(ReplayDetected(counter)))
    else
      var marked := st.(accepted := st.accepted + {counter});
      match KeyFor(st, kid)
      case None => (marked, Err(UnknownKeyId(kid)))
      case Some(key) =>
        match aead.open(key, NonceFor(st.recvPrefix, counter), ciphertext)
        case None => (marked, Err(Crypto))
        case Some(plaintext) => (CountRead(marked), Ok(plaintext))
  }

  datatype ReadResult = ReadResult(st: CodecState, result: Result<seq<byte>>, left: seq<byte>)

  /** `read_frame` on a stream of bytes; `left` is what it leaves unread.
      It never asks for a rekey: only writing does. */
  function ReadFrame(aead: Cipher, st: CodecState, stream: seq<byte>): (r: ReadResult)
    ensures r.result.Err? ==> !r.result.error.RekeyNeeded?
    ensures r.result.Ok? ==> |r.left| + HEADER_SIZE + MIN_FRAME_BODY <= |stream|
  {
    match ParseRecord(stream)
    case Malformed(e, left) => ReadResult(st, Err(e), left)
    case Record(kid, counter, ciphertext, left) =>
      var (st', result) := AcceptRecord(aead, st, kid, counter, ciphertext);
      ReadResult(st', result, left)
  }

  /** A written record is read back, byte for byte, by any codec that holds its
      key under its identifier, knows its prefix and has not seen its counter. */
  lemma ReadEncoded(aead: Cipher, st: CodecState, k: KeyId, counter: nat, plaintext: seq<byte>, rest: seq<byte>)
    requires |plaintext| <= MAX_PAYLOAD && counter < U32_LIMIT
    requires KeyFor(st, k.kid) == Some(k.key)
    requires Fresh(st.accepted, REPLAY_WINDOW_SIZE, counter)
    ensures ReadFrame(aead, st, EncodeRecord(aead, k, st.recvPrefix, counter, plaintext) + rest)
         == ReadResult(CountRead(st.(accepted := st.accepted + {counter})), Ok(plaintext), rest)
  {
    ParseEncoded(aead, k, st.recvPrefix, counter, plaintext, rest);
  }

  /** Any read of a well-formed record, successful or not, uses up its counter: every
      later read of a record with that counter is a replay, whatever it contains. */
  lemma AnyReadSpendsCounter(aead: Cipher, st: CodecState, stream: seq<byte>, later: seq<byte>)
    requires ParseRecord(stream).Record? && ParseRecord(later).Record?
    requires ParseRecord(stream).counter == ParseRecord(later).counter
    ensures var st' := ReadFrame(aead, st, stream).st;
            ReadFrame(aead, st', later).result == Err(ReplayDetected(ParseRecord(later).counter))
  {
    hide ParseRecord;
    var p := ParseRecord(stream);
    assert ReadFrame(aead, st, stream).st == AcceptRecord(aead, st, p.kid, p.counter, p.ciphertext).0;
  }
}
