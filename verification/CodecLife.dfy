/**
 Properties of one codec over its whole life: streams of records, the overlap
 window after a rekey, and the nonces it spends.
 */
module CodecLife {
  import opened Bytes
  import opened Aead
  import opened Replay
  import opened Codec

  // ------------------------------------------------------------ whole streams

  /** The bytes that writing a list of payloads puts on the wire. */
  function WriteAll(aead: Cipher, st: CodecState, payloads: seq<seq<byte>>): (CodecState, seq<byte>)
    decreases |payloads|
  {
    if payloads == [] then (st, [])
    else
      var (st1, r) := WriteFrame(aead, st, payloads[0]);
      var (st2, more) := WriteAll(aead, st1, payloads[1..]);
      (st2, (if r.Ok? then r.value else []) + more)
  }

  datatype Drained = Drained(st: CodecState, payloads: seq<seq<byte>>, left: seq<byte>, error: Option<TransportError>)

  /** Reads records until the stream is used up or a read fails. */
  function ReadAll(aead: Cipher, st: CodecState, stream: seq<byte>): Drained
    decreases |stream|
  {
    if stream == [] then Drained(st, [], [], None)
    else
      var r := ReadFrame(aead, st, stream);
      match r.result
      case Err(e) => Drained(r.st, [], r.left, Some(e))
      case Ok(p) =>
        var rest := ReadAll(aead, r.st, r.left);
        rest.(payloads := [p] + rest.payloads)
  }

  /** `r` holds the key and prefix `w` writes with, and has seen none of the
      counters `w` has still to use. */
  ghost predicate Mirrors(w: CodecState, r: CodecState) {
    && r.active == w.active
    && r.recvPrefix == w.sendPrefix
    && forall a :: a in r.accepted ==> a < w.sendCounter
  }

  ghost predicate Admissible(payloads: seq<seq<byte>>) {
    forall i :: 0 <= i < |payloads| ==> |payloads[i]| <= MAX_PAYLOAD
  }

  /** Writing any list of payloads and reading the bytes with a mirror codec gives
      the list back, uses every byte, and leaves the two codecs mirrored. */
  lemma {:induction false} StreamRoundTrip(aead: Cipher, w: CodecState, r: CodecState, payloads: seq<seq<byte>>)
    requires Mirrors(w, r) && Admissible(payloads)
    requires w.sendCounter + |payloads| <= REKEY_THRESHOLD
    ensures var (w', stream) := WriteAll(aead, w, payloads);
            var d := ReadAll(aead, r, stream);
            && d.payloads == payloads && d.left == [] && d.error == None
            && Mirrors(w', d.st) && w'.sendCounter == w.sendCounter + |payloads|
    decreases |payloads|
  {
    hide ReadFrame, EncodeRecord;
    if payloads != [] {
      var (w1, wrote) := WriteFrame(aead, w, payloads[0]);
      var (w2, more) := WriteAll(aead, w1, payloads[1..]);
      ReadEncoded(aead, r, w.active, w.sendCounter, payloads[0], more);
      var read := ReadFrame(aead, r, wrote.value + more);
      StreamRoundTrip(aead, w1, read.st, payloads[1..]);
      assert [payloads[0]] + payloads[1..] == payloads;
    }
  }

  // ------------------------------------------------------------- codec runs

  datatype Op =
    | Write(plaintext: seq<byte>)
    | Read(stream: seq<byte>)
    | Rekey(next: KeyId)
    | Complete

  function Step(aead: Cipher, st: CodecState, op: Op): CodecState {
    match op
    case Write(p) => WriteFrame(aead, st, p).0
    case Read(s) => ReadFrame(aead, st, s).st
    case Rekey(next) => StartRekey(st, next)
    case Complete => CompleteRekey(st)
  }

  function Run(aead: Cipher, st: CodecState, ops: seq<Op>): CodecState {
    if ops == [] then st
    else Step(aead, Run(aead, st, ops[..|ops| - 1]), ops[|ops| - 1])
  }

  // --------------------------------------------------------- overlap window

  /** How many of the reads in a run succeeded. */
  function GoodReads(aead: Cipher, st: CodecState, ops: seq<Op>): nat {
    if ops == [] then 0
    else
      var front, last := ops[..|ops| - 1], ops[|ops| - 1];
      GoodReads(aead, st, front)
      + if last.Read? && ReadFrame(aead, Run(aead, st, front), last.stream).result.Ok? then 1 else 0
  }

  /** The overlap has ended: it was completed, or 256 reads succeeded. */
  predicate OverlapClosed(aead: Cipher, st: CodecState, ops: seq<Op>) {
    Complete in ops || GoodReads(aead, st, ops) >= REKEY_OVERLAP_FRAMES
  }

  lemma StepInOverlap(aead: Cipher, st: CodecState, op: Op)
    requires !op.Rekey?
    ensures var st' := Step(aead, st, op);
            && st'.active == st.active && st'.recvPrefix == st.recvPrefix
            && var counted := if op.Read? && ReadFrame(aead, st, op.stream).result.Ok? then CountRead(st) else st;
               && st'.framesSinceRekey == counted.framesSinceRekey
               && st'.prev == if op == Complete then None else counted.prev
  {
    hide ParseRecord;
  }

  /** After a rekey, and until the next one, the codec holds the new key and,
      exactly while the overlap is open, the key it replaced. */
  lemma {:induction false} OverlapIsExact(aead: Cipher, st: CodecState, next: KeyId, ops: seq<Op>)
    requires forall op :: op in ops ==> !op.Rekey?
    ensures var st0 := StartRekey(st, next);
            var st' := Run(aead, st0, ops);
            && st'.active == next && st'.recvPrefix == st.recvPrefix
            && st'.prev == (if OverlapClosed(aead, st0, ops) then None else Some(st.active))
            && (st'.prev.Some? ==> st'.framesSinceRekey == GoodReads(aead, st0, ops))
    decreases |ops|
  {
    hide Step, ReadFrame;
    if ops != [] {
      var front, last := ops[..|ops| - 1], ops[|ops| - 1];
      OverlapIsExact(aead, st, next, front);
      assert ops == front + [last];
      assert Complete in ops <==> Complete in front || last == Complete;
      StepInOverlap(aead, Run(aead, StartRekey(st, next), front), last);
    }
  }

  /** A record written under the replaced key is read if and only if the overlap
      is open; once it is closed nothing that carries the old identifier is read. */
  lemma OldKeyUsableInOverlapOnly(aead: Cipher, st: CodecState, next: KeyId, ops: seq<Op>,
                                  counter: nat, plaintext: seq<byte>, rest: seq<byte>)
    requires forall op :: op in ops ==> !op.Rekey?
    requires next.kid != st.active.kid
    requires |plaintext| <= MAX_PAYLOAD && counter < U32_LIMIT
    requires Fresh(Run(aead, StartRekey(st, next), ops).accepted, REPLAY_WINDOW_SIZE, counter)
    ensures var st0 := StartRekey(st, next);
            var st' := Run(aead, st0, ops);
            var record := EncodeRecord(aead, st.active, st.recvPrefix, counter, plaintext);
            var outcome := ReadFrame(aead, st', record + rest).result;
            outcome == (if OverlapClosed(aead, st0, ops) then Err(UnknownKeyId(st.active.kid)) else Ok(plaintext))
    ensures var st0 := StartRekey(st, next);
            OverlapClosed(aead, st0, ops) ==>
              forall stream :: ParseRecord(stream).Record? && ParseRecord(stream).kid == st.active.kid
                ==> ReadFrame(aead, Run(aead, st0, ops), stream).result.Err?
  {
    OverlapIsExact(aead, st, next, ops);
    ParseEncoded(aead, st.active, st.recvPrefix, counter, plaintext, rest);
  }

  // ----------------------------------------------------------------- nonces

  /** A record on the wire, with the call of `seal` that was made for it. */
  datatype Emitted = Emitted(call: SealCall, record: seq<byte>)

  /** The records a run puts on the wire, in order. */
  function Emissions(aead: Cipher, st: CodecState, ops: seq<Op>): seq<Emitted> {
    if ops == [] then []
    else
      var front, last := ops[..|ops| - 1], ops[|ops| - 1];
      var earlier := Emissions(aead, st, front);
      if !last.Write? then earlier
      else
        var mid := Run(aead, st, front);
        var r := WriteFrame(aead, mid, last.plaintext).1;
        if r.Err? then earlier
        else earlier + [Emitted(SealCallFor(mid.active, mid.sendPrefix, mid.sendCounter, last.plaintext), r.value)]
  }

  /** The write calls that pass the size check; each spends one counter. */
  function Writes(ops: seq<Op>): nat {
    if ops == [] then 0
    else
      var last := ops[|ops| - 1];
      Writes(ops[..|ops| - 1]) + if last.Write? && |last.plaintext| <= MAX_PAYLOAD then 1 else 0
  }

  /** The nonce a reader recovers from the bytes on the wire. */
  function WireNonce(prefix: Prefix, record: seq<byte>): Nonce
    requires |record| >= 10
  {
    prefix + record[6..10]
  }

  /** The record carries the output of its call, and the nonce of that call is the
      one a reader recovers from the record's own bytes. */
  ghost predicate SealedAsLogged(aead: Cipher, prefix: Prefix, e: Emitted) {
    && |e.record| >= 10
    && e.record[10..] == Seal(aead, e.call)
    && e.call.nonce == WireNonce(prefix, e.record)
  }

  ghost predicate AllSealedAsLogged(aead: Cipher, prefix: Prefix, emitted: seq<Emitted>) {
    forall i :: 0 <= i < |emitted| ==> SealedAsLogged(aead, prefix, emitted[i])
  }

  /** No two calls of `seal` were given the same nonce. */
  ghost predicate NoncesDistinct(emitted: seq<Emitted>) {
    forall i, j :: 0 <= i < j < |emitted| ==> emitted[i].call.nonce != emitted[j].call.nonce
  }

  /** Record number `i` is sealed under the nonce of counter `i`. */
  ghost predicate Numbered(prefix: Prefix, emitted: seq<Emitted>) {
    forall i :: 0 <= i < |emitted| ==> i < U32_LIMIT && emitted[i].call.nonce == prefix + BigEndian32(i)
  }

  lemma EncodedCounterField(aead: Cipher, k: KeyId, prefix: Prefix, counter: nat, plaintext: seq<byte>)
    requires counter < U32_LIMIT
    ensures var e := Emitted(SealCallFor(k, prefix, counter, plaintext), EncodeRecord(aead, k, prefix, counter, plaintext));
            SealedAsLogged(aead, prefix, e) && e.call.nonce == prefix + BigEndian32(counter)
  {
    var record := EncodeRecord(aead, k, prefix, counter, plaintext);
    assert record[6..10] == BigEndian32(counter);
    assert record[10..] == Seal(aead, SealCallFor(k, prefix, counter, plaintext));
  }

  /** Only an admissible write moves the send counter, and nothing moves the prefix. */
  lemma StepSpendsCounter(aead: Cipher, st: CodecState, op: Op)
    ensures var st' := Step(aead, st, op);
            && st'.sendPrefix == st.sendPrefix
            && st'.sendCounter == (if op.Write? && |op.plaintext| <= MAX_PAYLOAD
                                   then (st.sendCounter + 1) % U64_LIMIT else st.sendCounter)
  {
  }

  /** In every run, however long and from whatever state, each record carries the
      output of its own call of `seal`, whose nonce begins with the codec's prefix. */
  lemma {:induction false} EmissionsAreSealed(aead: Cipher, st: CodecState, ops: seq<Op>)
    ensures Run(aead, st, ops).sendPrefix == st.sendPrefix
    ensures AllSealedAsLogged(aead, st.sendPrefix, Emissions(aead, st, ops))
    decreases |ops|
  {
    hide Step, EncodeRecord, SealCallFor, SealedAsLogged;
    if ops != [] {
      var front, last := ops[..|ops| - 1], ops[|ops| - 1];
      EmissionsAreSealed(aead, st, front);
      var mid := Run(aead, st, front);
      StepSpendsCounter(aead, mid, last);
      if last.Write? && mid.sendCounter < REKEY_THRESHOLD {
        EncodedCounterField(aead, mid.active, mid.sendPrefix, mid.sendCounter, last.plaintext);
      }
    }
  }

  /** Up to 2^64 writes, whatever rekeys happen in between, the emitted records are
      sealed under the nonces of 0, 1, 2 and so on, and there are at most
      REKEY_THRESHOLD of them. */
  lemma {:induction false} RecordsAreNumbered(aead: Cipher, st: CodecState, ops: seq<Op>)
    requires st.sendCounter == 0 && Writes(ops) <= U64_LIMIT
    ensures Run(aead, st, ops).sendCounter == Writes(ops) % U64_LIMIT
    ensures Run(aead, st, ops).sendPrefix == st.sendPrefix
    ensures |Emissions(aead, st, ops)| == Min(Writes(ops), REKEY_THRESHOLD)
    ensures Numbered(st.sendPrefix, Emissions(aead, st, ops))
    decreases |ops|
  {
    hide Step, EncodeRecord, SealCallFor, SealedAsLogged;
    if ops != [] {
      var front, last := ops[..|ops| - 1], ops[|ops| - 1];
      RecordsAreNumbered(aead, st, front);
      var mid := Run(aead, st, front);
      StepSpendsCounter(aead, mid, last);
      if last.Write? && |last.plaintext| <= MAX_PAYLOAD {
        assert mid.sendCounter == Writes(front);
        if mid.sendCounter < REKEY_THRESHOLD {
          EncodedCounterField(aead, mid.active, mid.sendPrefix, mid.sendCounter, last.plaintext);
        }
      }
    }
  }

  lemma NumberedAreDistinct(prefix: Prefix, emitted: seq<Emitted>)
    requires Numbered(prefix, emitted)
    ensures NoncesDistinct(emitted)
  {
    forall i, j | 0 <= i < j < |emitted|
      ensures emitted[i].call.nonce != emitted[j].call.nonce
    {
      var first, second := emitted[i].call.nonce, emitted[j].call.nonce;
      BigEndian32RoundTrip(i);
      BigEndian32RoundTrip(j);
      assert first[8..] == BigEndian32(i) && second[8..] == BigEndian32(j);
    }
  }

  lemma PrefixStaysDistinct(earlier: seq<Emitted>, emitted: seq<Emitted>)
    requires earlier <= emitted && NoncesDistinct(emitted)
    ensures NoncesDistinct(earlier)
  {
    assert forall i :: 0 <= i < |earlier| ==> earlier[i] == emitted[i];
  }

  /** Past 2^64 writes the 64-bit counter wraps and a nonce comes back. */
  lemma {:induction false} WrappedCounterRepeats(aead: Cipher, st: CodecState, ops: seq<Op>)
    requires st.sendCounter == 0 && Writes(ops) > U64_LIMIT
    ensures !NoncesDistinct(Emissions(aead, st, ops))
    decreases |ops|
  {
    hide Step, EncodeRecord, SealCallFor, SealedAsLogged;
    var front, last := ops[..|ops| - 1], ops[|ops| - 1];
    var emitted, earlier := Emissions(aead, st, ops), Emissions(aead, st, front);
    if Writes(front) > U64_LIMIT {
      WrappedCounterRepeats(aead, st, front);
      if NoncesDistinct(emitted) {
        PrefixStaysDistinct(earlier, emitted);
      }
    } else {
      RecordsAreNumbered(aead, st, front);
      EncodedCounterField(aead, Run(aead, st, front).active, st.sendPrefix, 0, last.plaintext);
      assert emitted[0].call.nonce == emitted[|emitted| - 1].call.nonce;
    }
  }

  /** Every record on the wire is the output of the call of `seal` logged for it, and
      a codec never gives `seal` one nonce twice, across any number of rekeys, exactly
      as long as it has made no more than 2^64 writes. */
  lemma NoncesAreFresh(aead: Cipher, st: CodecState, ops: seq<Op>)
    requires st.sendCounter == 0
    ensures AllSealedAsLogged(aead, st.sendPrefix, Emissions(aead, st, ops))
    ensures NoncesDistinct(Emissions(aead, st, ops)) <==> Writes(ops) <= U64_LIMIT
  {
    hide Emissions, SealedAsLogged;
    EmissionsAreSealed(aead, st, ops);
    if Writes(ops) <= U64_LIMIT {
      RecordsAreNumbered(aead, st, ops);
      NumberedAreDistinct(st.sendPrefix, Emissions(aead, st, ops));
    } else {
      WrappedCounterRepeats(aead, st, ops);
    }
  }

  /** Two codecs with different send prefixes, such as the two ends of a session, never
      give `seal` the same nonce, whatever either does and under whatever keys. */
  lemma DirectionsShareNoNonce(aead: Cipher, client: CodecState, gateway: CodecState, up: seq<Op>, down: seq<Op>,
                               i: nat, j: nat)
    requires client.sendPrefix != gateway.sendPrefix
    requires i < |Emissions(aead, client, up)| && j < |Emissions(aead, gateway, down)|
    ensures Emissions(aead, client, up)[i].call.nonce != Emissions(aead, gateway, down)[j].call.nonce
  {
    EmissionsAreSealed(aead, client, up);
    EmissionsAreSealed(aead, gateway, down);
    hide Emissions;
    assert Emissions(aead, client, up)[i].call.nonce[..8] == client.sendPrefix;
    assert Emissions(aead, gateway, down)[j].call.nonce[..8] == gateway.sendPrefix;
  }
}
