/**
 The bytes of the protocol, written out: where each field of a record stands and
 what it weighs, which streams are read as records, and what each operation of the
 codec answers. Numbers stand here as numbers, not as names from `Codec`.
 */
module WireFormat {
  import opened Bytes
  import opened Aead
  import opened Codec
  import opened Replay

  function Weigh16(high: byte, low: byte): nat {
    256 * (high as int) + (low as int)
  }

  function Weigh32(a: byte, b: byte, c: byte, d: byte): nat {
    0x100_0000 * (a as int) + 0x1_0000 * (b as int) + 0x100 * (c as int) + (d as int)
  }

  /** A record: content type 23, version 3.3, the length high byte first, the key
      identifier, the counter high byte first, and the sealed text. The nonce is the
      prefix and those same four counter bytes. */
  ghost predicate IsRecordOf(r: seq<byte>, aead: Cipher, k: KeyId, prefix: Prefix, counter: nat, plaintext: seq<byte>) {
    && |r| == |plaintext| + 26
    && r[0] == 0x17 && r[1] == 0x03 && r[2] == 0x03
    && Weigh16(r[3], r[4]) == |plaintext| + 21
    && r[5] == k.kid
    && Weigh32(r[6], r[7], r[8], r[9]) == counter
    && r[10..] == aead.seal(k.key, prefix + r[6..10], plaintext)
  }

  lemma RecordLayout(aead: Cipher, k: KeyId, prefix: Prefix, counter: nat, plaintext: seq<byte>)
    requires |plaintext| <= 16384 && counter < 0x1_0000_0000
    ensures IsRecordOf(EncodeRecord(aead, k, prefix, counter, plaintext), aead, k, prefix, counter, plaintext)
  {
    hide BigEndian16, BigEndian32, Weigh16, Weigh32;
    var ciphertext := aead.seal(k.key, NonceFor(prefix, counter), plaintext);
    assert |ciphertext| == |plaintext| + 16;
    var length, count := BigEndian16(|plaintext| + 21), BigEndian32(counter);
    Slots([0x17, 0x03, 0x03], length, k.kid, count, ciphertext);
    Field16(|plaintext| + 21);
    Field32(counter);
  }

  lemma Slots(start: seq<byte>, length: seq<byte>, kid: byte, count: seq<byte>, rest: seq<byte>)
    requires |start| == 3 && |length| == 2 && |count| == 4
    ensures var r := start + length + [kid] + count + rest;
            && |r| == 10 + |rest|
            && r[0] == start[0] && r[1] == start[1] && r[2] == start[2]
            && r[3] == length[0] && r[4] == length[1] && r[5] == kid
            && r[6] == count[0] && r[7] == count[1] && r[8] == count[2] && r[9] == count[3]
            && r[6..10] == count && r[10..] == rest
  {
  }

  lemma Field16(n: nat)
    requires n < 0x1_0000
    ensures Weigh16(BigEndian16(n)[0], BigEndian16(n)[1]) == n
  {
  }

  lemma Field32(n: nat)
    requires n < 0x1_0000_0000
    ensures var b := BigEndian32(n); Weigh32(b[0], b[1], b[2], b[3]) == n
  {
    BigEndian32RoundTrip(n);
  }

  /** Which streams are read as a record, with which fields, and what is wrong with the
      others. A body of 21 to 16405 bytes is taken; an incomplete one is end of file. */
  lemma ParseOutcome(s: seq<byte>)
    ensures |s| < 5 ==> ParseRecord(s) == Malformed(UnexpectedEof, [])
    ensures |s| >= 5 && s[0] != 0x17 ==> ParseRecord(s) == Malformed(Protocol(BadContentType(s[0])), s[5..])
    ensures |s| >= 5 && s[0] == 0x17 && !(s[1] == 3 && s[2] == 3) ==>
              ParseRecord(s) == Malformed(Protocol(BadVersion(s[1], s[2])), s[5..])
    ensures |s| >= 5 && s[0] == 0x17 && s[1] == 3 && s[2] == 3 ==>
              var length := Weigh16(s[3], s[4]);
              && (length < 21 ==> ParseRecord(s) == Malformed(Protocol(BodyTooSmall(length)), s[5..]))
              && (length > 16405 ==> ParseRecord(s) == Malformed(FrameTooLarge(length, 16405), s[5..]))
              && (21 <= length <= 16405 && |s| < 5 + length ==> ParseRecord(s) == Malformed(UnexpectedEof, []))
              && (21 <= length <= 16405 && |s| >= 5 + length ==>
                  ParseRecord(s) == Record(s[5], Weigh32(s[6], s[7], s[8], s[9]), s[10..5 + length], s[5 + length..]))
  {
    if |s| >= 5 {
      var rest, length := s[5..], Weigh16(s[3], s[4]);
      assert FromBigEndian16(s[3..5]) == length;
      if 21 <= length <= 16405 && |s| >= 5 + length {
        assert rest[0] == s[5] && rest[1..5] == s[6..10];
        assert FromBigEndian32(rest[1..5]) == Weigh32(s[6], s[7], s[8], s[9]);
        assert rest[5..length] == s[10..5 + length] && rest[length..] == s[5 + length..];
      }
    }
  }

  /** What a write answers and what it costs. */
  lemma WriteOutcome(aead: Cipher, st: CodecState, plaintext: seq<byte>)
    requires st.sendCounter < 0x1_0000_0000_0000_0000
    ensures var (st', r) := WriteFrame(aead, st, plaintext);
            && (|plaintext| > 16384 <==> r == Err(FrameTooLarge(|plaintext|, 16384)))
            && (|plaintext| <= 16384 && st.sendCounter >= 0xF000_0000 <==>
                r == Err(RekeyNeeded(st.sendCounter, 0xF000_0000)))
            && (r.Ok? ==> IsRecordOf(r.value, aead, st.active, st.sendPrefix, st.sendCounter, plaintext))
            && (r.Err? ==> |plaintext| > 16384 || st.sendCounter >= 0xF000_0000)
            && (|plaintext| <= 16384 && st.sendCounter < 0xFFFF_FFFF_FFFF_FFFF ==>
                st' == st.(sendCounter := st.sendCounter + 1))
            && (|plaintext| <= 16384 && st.sendCounter == 0xFFFF_FFFF_FFFF_FFFF ==> st' == st.(sendCounter := 0))
            && (|plaintext| > 16384 ==> st' == st)
  {
    hide EncodeRecord, IsRecordOf;
    if |plaintext| <= 16384 && st.sendCounter < 0xF000_0000 {
      RecordLayout(aead, st.active, st.sendPrefix, st.sendCounter, plaintext);
    }
  }

  /** The counter was never accepted and no accepted one is more than 64 ahead. */
  ghost predicate InWindow(accepted: set<nat>, counter: nat) {
    counter !in accepted && forall a :: a in accepted ==> a - counter <= 64
  }

  /** The key with this identifier: the active one, or else the previous one. */
  ghost predicate Holds(st: CodecState, kid: byte, key: Key) {
    || st.active == KeyId(kid, key)
    || (st.active.kid != kid && st.prev == Some(KeyId(kid, key)))
  }

  /** The nonce that goes with the first record of a stream. */
  function NonceOnWire(prefix: Prefix, stream: seq<byte>): Nonce
    requires |stream| >= 10
  {
    prefix + stream[6..10]
  }

  lemma ReaderRebuildsNonce(prefix: Prefix, stream: seq<byte>)
    requires ParseRecord(stream).Record?
    ensures |stream| >= 26 && NonceFor(prefix, ParseRecord(stream).counter) == NonceOnWire(prefix, stream)
  {
    var body := stream[5..];
    assert body[1..5] == stream[6..10];
    FromBigEndian32RoundTrip(stream[6..10]);
    hide BigEndian32, FromBigEndian32;
  }

  /** What a read of a well-formed record answers, and what it leaves of the history. */
  lemma ReadOutcome(aead: Cipher, st: CodecState, stream: seq<byte>)
    requires ParseRecord(stream).Record?
    ensures |stream| >= 26
    ensures var p := ParseRecord(stream);
            var r := ReadFrame(aead, st, stream);
            var nonce := NonceOnWire(st.recvPrefix, stream);
            var unseen := InWindow(st.accepted, p.counter);
            && r.left == p.left
            && r.st.accepted == st.accepted + (if unseen then {p.counter} else {})
            && (r.result == Err(ReplayDetected(p.counter)) <==> !unseen)
            && (r.result == Err(UnknownKeyId(p.kid)) <==> unseen && !exists key :: Holds(st, p.kid, key))
            && (r.result == Err(Crypto) <==>
                unseen && exists key :: Holds(st, p.kid, key) && aead.open(key, nonce, p.ciphertext).None?)
            && (r.result.Ok? <==>
                unseen && exists key :: Holds(st, p.kid, key) && aead.open(key, nonce, p.ciphertext).Some?)
            && (r.result.Ok? ==>
                exists key :: Holds(st, p.kid, key) && aead.open(key, nonce, p.ciphertext) == Some(r.result.value))
  {
    ReaderRebuildsNonce(st.recvPrefix, stream);
    hide ParseRecord, NonceFor, NonceOnWire;
    var p := ParseRecord(stream);
    assert KeyFor(st, p.kid).Some? ==> Holds(st, p.kid, KeyFor(st, p.kid).value);
    assert forall key :: Holds(st, p.kid, key) ==> KeyFor(st, p.kid) == Some(key);
    assert Fresh(st.accepted, 64, p.counter) <==> InWindow(st.accepted, p.counter);
  }
}
