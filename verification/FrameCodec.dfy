/**
 The stateful frame codec. Every method is proved to take the codec from one
 `CodecState` to the next exactly as the functions of `Codec` say; the replay
 history of that state is kept only as the bounded window of `ReplayWindow`.
 */
module CodecObject {
  import opened Bytes
  import opened Aead
  import opened Replay
  import opened Codec
  import opened WireFormat

  class FrameCodec {
    const aead: Cipher
    const sendPrefix: Prefix
    const recvPrefix: Prefix
    const recvReplay: ReplayWindow
    var key: Key
    var kid: byte
    var prev: Option<KeyId>
    var framesSinceRekey: nat
    var sendCounter: nat

    ghost predicate Valid()
      reads this, recvReplay
    {
      recvReplay.Valid() && recvReplay.windowSize == REPLAY_WINDOW_SIZE
    }

    ghost function View(): CodecState
      reads this, recvReplay
    {
      CodecState(KeyId(kid, key), prev, framesSinceRekey, sendPrefix, recvPrefix, sendCounter, recvReplay.accepted)
    }

    constructor (aead: Cipher, key: Key, sendPrefix: Prefix, recvPrefix: Prefix, kid: byte)
      ensures Valid() && fresh(recvReplay)
      ensures this.aead == aead && View() == NewCodec(key, sendPrefix, recvPrefix, kid)
      ensures View() == CodecState(KeyId(kid, key), None, 0, sendPrefix, recvPrefix, 0, {})
    {
      this.aead := aead;
      this.key, this.kid := key, kid;
      this.sendPrefix, this.recvPrefix := sendPrefix, recvPrefix;
      prev, framesSinceRekey, sendCounter := None, 0, 0;
      recvReplay := new ReplayWindow(REPLAY_WINDOW_SIZE);
    }

    method StartRekey(newKid: byte, newKey: Key)
      requires Valid()
      modifies this
      ensures Valid()
      ensures View() == Codec.StartRekey(old(View()), KeyId(newKid, newKey))
    {
      var outgoing := KeyId(kid, key);
      key := newKey;
      prev := Some(outgoing);
      framesSinceRekey := 0;
      kid := newKid;
    }

    method CompleteRekey()
      requires Valid()
      modifies this
      ensures Valid()
      ensures View() == Codec.CompleteRekey(old(View()))
    {
      prev := None;
    }

    method WriteFrame(plaintext: seq<byte>) returns (r: Result<seq<byte>>)
      requires Valid()
      modifies this
      ensures Valid()
      ensures (View(), r) == Codec.WriteFrame(aead, old(View()), plaintext)
      ensures r.Ok? ==> IsRecordOf(r.value, aead, KeyId(old(kid), old(key)), sendPrefix, old(sendCounter), plaintext)
    {
      if |plaintext| > MAX_PAYLOAD {
        return Err(FrameTooLarge(|plaintext|, MAX_PAYLOAD));
      }
      var counter := sendCounter;
      sendCounter := (sendCounter + 1) % U64_LIMIT;
      if counter >= REKEY_THRESHOLD {
        return Err(RekeyNeeded(counter, REKEY_THRESHOLD));
      }
      var ciphertext := aead.seal(key, NonceFor(sendPrefix, counter), plaintext);
      var buf: seq<byte> := [CONTENT_TYPE];
      buf := buf + [VERSION_MAJOR];
      buf := buf + [VERSION_MINOR];
      buf := buf + BigEndian16((KID_SIZE + COUNTER_SIZE + |ciphertext|) % U16_LIMIT);
      buf := buf + [kid];
      buf := buf + BigEndian32(counter % U32_LIMIT);
      buf := buf + ciphertext;
      assert buf == EncodeRecord(aead, KeyId(kid, key), sendPrefix, counter, plaintext);
      RecordLayout(aead, KeyId(kid, key), sendPrefix, counter, plaintext);
      r := Ok(buf);
    }

    method ReadFrame(stream: seq<byte>) returns (r: Result<seq<byte>>, left: seq<byte>)
      requires Valid()
      modifies this, recvReplay
      ensures Valid()
      ensures ReadResult(View(), r, left) == Codec.ReadFrame(aead, old(View()), stream)
    {
      if |stream| < HEADER_SIZE {
        return Err(UnexpectedEof), [];
      }
      var header := stream[..HEADER_SIZE];
      left := stream[HEADER_SIZE..];
      if header[0] != CONTENT_TYPE {
        return Err(Protocol(BadContentType(header[0]))), left;
      }
      if header[1] != VERSION_MAJOR || header[2] != VERSION_MINOR {
        return Err(Protocol(BadVersion(header[1], header[2]))), left;
      }
      assert header[3..5] == stream[3..5];
      var bodyLength := FromBigEndian16(header[3..5]);
      if bodyLength < MIN_FRAME_BODY {
        return Err(Protocol(BodyTooSmall(bodyLength))), left;
      }
      if bodyLength > MAX_FRAME_BODY {
        return Err(FrameTooLarge(bodyLength, MAX_FRAME_BODY)), left;
      }
      if |left| < bodyLength {
        return Err(UnexpectedEof), [];
      }
      var body := left;
      left := left[bodyLength..];
      r := Accept(body[0], FromBigEndian32(body[1..5]), body[5..bodyLength]);
    }

    /** The part of `read_frame` after the record is in memory. */
    method Accept(frameKid: byte, counter: nat, ciphertext: seq<byte>) returns (r: Result<seq<byte>>)
      requires Valid()
      modifies this, recvReplay
      ensures Valid()
      ensures (View(), r) == AcceptRecord(aead, old(View()), frameKid, counter, ciphertext)
    {
      var isNew := recvReplay.Check(counter);
      if !isNew {
        return Err(ReplayDetected(counter));
      }
      var nonce := NonceFor(recvPrefix, counter);
      var plain: Option<seq<byte>>;
      if frameKid == kid {
        plain := aead.open(key, nonce, ciphertext);
      } else if prev.Some? && frameKid == prev.value.kid {
        plain := aead.open(prev.value.key, nonce, ciphertext);
      } else {
        return Err(UnknownKeyId(frameKid));
      }
      if plain.None? {
        return Err(Crypto);
      }
      if prev.Some? {
        framesSinceRekey := framesSinceRekey + 1;
        if framesSinceRekey >= REKEY_OVERLAP_FRAMES {
          prev := None;
        }
      }
      r := Ok(plain.value);
    }
  }
}
