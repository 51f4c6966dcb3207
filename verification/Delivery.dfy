/**
 One direction of a session over a channel that may drop, duplicate and reorder
 the records it is given and inject any bytes of its own, while both ends rekey at
 will.
 */
module Delivery {
  import opened Bytes
  import opened Aead
  import opened Replay
  import opened Codec
  import opened CodecLife

  /** A record that was written, with what it was made from. */
  datatype Written = Written(k: KeyId, counter: nat, plaintext: seq<byte>, record: seq<byte>)

  /** A successful read: the written record it was given, if it was one, the counter
      of the record it found, and the plaintext it returned. */
  datatype Receipt = Receipt(source: Option<nat>, counter: nat, plaintext: seq<byte>)

  datatype World = World(sender: CodecState, receiver: CodecState, written: seq<Written>, returned: seq<Receipt>)

  datatype Action =
    | Send(plaintext: seq<byte>)
    | Deliver(index: nat)
    | SenderOp(op: Op)
    | ReceiverOp(op: Op)

  /** The receiver reads from a stream that is, or is not, a written record. */
  function Receive(aead: Cipher, w: World, stream: seq<byte>, source: Option<nat>): World {
    var r := ReadFrame(aead, w.receiver, stream);
    if r.result.Err? then w.(receiver := r.st)
    else w.(receiver := r.st,
            returned := w.returned + [Receipt(source, ParseRecord(stream).counter, r.result.value)])
  }

  /** `Deliver` may name any written record at any time and any number of times;
      a record that is never named is lost. Besides writing, the sender may do
      anything else; a read among the receiver's own operations is of bytes that
      someone injected. */
  function Next(aead: Cipher, w: World, a: Action): World {
    match a
    case Send(p) =>
      var (sender, r) := WriteFrame(aead, w.sender, p);
      if r.Err? then w.(sender := sender)
      else w.(sender := sender,
              written := w.written + [Written(w.sender.active, w.sender.sendCounter, p, r.value)])
    case Deliver(i) =>
      if i >= |w.written| then w else Receive(aead, w, w.written[i].record, Some(i))
    case SenderOp(op) =>
      if op.Write? then w else w.(sender := Step(aead, w.sender, op))
    case ReceiverOp(op) =>
      if op.Read? then Receive(aead, w, op.stream, None) else w.(receiver := Step(aead, w.receiver, op))
  }

  function After(aead: Cipher, w: World, actions: seq<Action>): World {
    if actions == [] then w
    else Next(aead, After(aead, w, actions[..|actions| - 1]), actions[|actions| - 1])
  }

  ghost predicate Initial(w: World) {
    w.sender.sendPrefix == w.receiver.recvPrefix && w.written == [] && w.returned == []
  }

  /** The keys the receiver ever holds in a run are all among `keys`. */
  ghost predicate ReceiverKeysAmong(keys: set<Key>, w: World, actions: seq<Action>) {
    && HoldsOnly(keys, w.receiver)
    && forall a :: a in actions && a.ReceiverOp? && a.op.Rekey? ==> a.op.next.key in keys
  }

  ghost predicate HoldsOnly(keys: set<Key>, st: CodecState) {
    st.active.key in keys && (st.prev.Some? ==> st.prev.value.key in keys)
  }

  /** No written record opens under one of `keys` other than its own. */
  ghost predicate Separated(aead: Cipher, keys: set<Key>, prefix: Prefix, written: seq<Written>) {
    forall i, key :: 0 <= i < |written| && key in keys && key != written[i].k.key ==>
      OpensAs(aead, key, prefix, written[i]) == None
  }

  function OpensAs(aead: Cipher, key: Key, prefix: Prefix, w: Written): Option<seq<byte>> {
    var nonce := NonceFor(prefix, w.counter);
    aead.open(key, nonce, aead.seal(w.k.key, nonce, w.plaintext))
  }

  ghost predicate Genuine(aead: Cipher, prefix: Prefix, w: Written) {
    && |w.plaintext| <= MAX_PAYLOAD && w.counter < REKEY_THRESHOLD
    && w.record == EncodeRecord(aead, w.k, prefix, w.counter, w.plaintext)
  }

  /** Holds in every reachable world, whatever the keys. */
  ghost predicate Inv(aead: Cipher, w: World) {
    && w.sender.sendPrefix == w.receiver.recvPrefix
    && (forall i :: 0 <= i < |w.written| ==> Genuine(aead, w.receiver.recvPrefix, w.written[i]))
    && (forall r :: 0 <= r < |w.returned| ==> ReceiptOk(w, w.returned[r]))
    && AtMostOnce(w)
  }

  ghost predicate ReceiptOk(w: World, r: Receipt) {
    && r.counter in w.receiver.accepted
    && (r.source.Some? ==> r.source.value < |w.written| && w.written[r.source.value].counter == r.counter)
  }

  /** No counter is returned twice, and so no written record either. */
  ghost predicate AtMostOnce(w: World) {
    forall r, s :: 0 <= r < s < |w.returned| ==>
      && w.returned[r].counter != w.returned[s].counter
      && (w.returned[r].source.Some? ==> w.returned[r].source != w.returned[s].source)
  }

  /** Any successful read, of whatever bytes, is of a counter not accepted before. */
  lemma ReadSpendsFresh(aead: Cipher, st: CodecState, stream: seq<byte>)
    ensures var r := ReadFrame(aead, st, stream);
            && r.st.recvPrefix == st.recvPrefix && st.accepted <= r.st.accepted
            && (r.result.Ok? ==>
                && ParseRecord(stream).Record?
                && ParseRecord(stream).counter !in st.accepted && ParseRecord(stream).counter in r.st.accepted)
  {
    hide ParseRecord;
  }

  /** Reading a genuine record: the exact outcome. */
  lemma ReadGenuine(aead: Cipher, st: CodecState, w: Written)
    requires Genuine(aead, st.recvPrefix, w)
    ensures var r := ReadFrame(aead, st, w.record);
            && (r.result.Ok? <==>
                && Fresh(st.accepted, REPLAY_WINDOW_SIZE, w.counter) && KeyFor(st, w.k.kid).Some?
                && OpensAs(aead, KeyFor(st, w.k.kid).value, st.recvPrefix, w).Some?)
            && (r.result.Ok? ==>
                && ParseRecord(w.record).Record? && ParseRecord(w.record).counter == w.counter
                && Some(r.result.value) == OpensAs(aead, KeyFor(st, w.k.kid).value, st.recvPrefix, w))
  {
    ParseEncoded(aead, w.k, st.recvPrefix, w.counter, w.plaintext, []);
    assert w.record + [] == w.record;
    hide ParseRecord, EncodeRecord;
  }

  lemma OpKeepsHistory(aead: Cipher, st: CodecState, op: Op)
    ensures var st' := Step(aead, st, op);
            && st'.sendPrefix == st.sendPrefix && st'.recvPrefix == st.recvPrefix
            && st.accepted <= st'.accepted
  {
    hide ParseRecord, EncodeRecord;
  }

  lemma ReceiveKeepsInv(aead: Cipher, w: World, stream: seq<byte>, source: Option<nat>)
    requires Inv(aead, w)
    requires source.Some? ==> source.value < |w.written| && w.written[source.value].record == stream
    ensures Inv(aead, Receive(aead, w, stream, source))
    ensures Receive(aead, w, stream, source).written == w.written
  {
    ReadSpendsFresh(aead, w.receiver, stream);
    if source.Some? { ReadGenuine(aead, w.receiver, w.written[source.value]); }
    hide ReadFrame, ParseRecord, Genuine;
  }

  lemma StepKeepsInv(aead: Cipher, w: World, a: Action)
    requires Inv(aead, w)
    ensures Inv(aead, Next(aead, w, a))
    ensures w.written <= Next(aead, w, a).written
  {
    hide Receive, EncodeRecord, Step;
    match a
    case Send(p) =>
    case Deliver(i) =>
      if i < |w.written| { ReceiveKeepsInv(aead, w, w.written[i].record, Some(i)); }
    case SenderOp(op) => OpKeepsHistory(aead, w.sender, op);
    case ReceiverOp(op) =>
      if op.Read? { ReceiveKeepsInv(aead, w, op.stream, None); } else { OpKeepsHistory(aead, w.receiver, op); }
  }

  lemma {:induction false} RunKeepsInv(aead: Cipher, w: World, actions: seq<Action>)
    requires Initial(w)
    ensures Inv(aead, After(aead, w, actions))
    decreases |actions|
  {
    if actions != [] {
      var front := actions[..|actions| - 1];
      RunKeepsInv(aead, w, front);
      StepKeepsInv(aead, After(aead, w, front), actions[|actions| - 1]);
    }
  }

  lemma OpKeepsKeys(aead: Cipher, keys: set<Key>, st: CodecState, op: Op)
    requires HoldsOnly(keys, st) && (op.Rekey? ==> op.next.key in keys)
    ensures HoldsOnly(keys, Step(aead, st, op))
  {
    hide ParseRecord, EncodeRecord;
  }

  lemma {:induction false} ReceiverHolds(aead: Cipher, keys: set<Key>, w: World, actions: seq<Action>)
    requires ReceiverKeysAmong(keys, w, actions)
    ensures HoldsOnly(keys, After(aead, w, actions).receiver)
    decreases |actions|
  {
    hide ReadFrame, WriteFrame;
    if actions != [] {
      var front, last := actions[..|actions| - 1], actions[|actions| - 1];
      ReceiverHolds(aead, keys, w, front);
      var mid := After(aead, w, front);
      match last
      case ReceiverOp(op) => OpKeepsKeys(aead, keys, mid.receiver, op);
      case Deliver(i) =>
        if i < |mid.written| {
          OpKeepsKeys(aead, keys, mid.receiver, Read(mid.written[i].record));
        }
      case _ =>
    }
  }

  /** What the receiver gets from a record, in any reachable world: the written
      plaintext exactly when the counter is fresh and the receiver holds the key
      the record was written under, and nothing otherwise. */
  lemma DeliveryIsExact(aead: Cipher, keys: set<Key>, w: World, actions: seq<Action>, i: nat)
    requires Initial(w) && ReceiverKeysAmong(keys, w, actions)
    requires i < |After(aead, w, actions).written|
    requires Separated(aead, keys, w.receiver.recvPrefix, After(aead, w, actions).written)
    ensures var w' := After(aead, w, actions);
            var f := w'.written[i];
            var readable := Fresh(w'.receiver.accepted, REPLAY_WINDOW_SIZE, f.counter)
                            && KeyFor(w'.receiver, f.k.kid) == Some(f.k.key);
            Next(aead, w', Deliver(i)).returned
              == w'.returned + (if readable then [Receipt(Some(i), f.counter, f.plaintext)] else [])
  {
    RunKeepsInv(aead, w, actions);
    ReceiverHolds(aead, keys, w, actions);
    PrefixIsFixed(aead, w, actions);
    var w' := After(aead, w, actions);
    ReadGenuine(aead, w'.receiver, w'.written[i]);
    hide ReadFrame, EncodeRecord;
    var key := KeyFor(w'.receiver, w'.written[i].k.kid);
    if key.Some? && key.value != w'.written[i].k.key {
      assert OpensAs(aead, key.value, w.receiver.recvPrefix, w'.written[i]) == None;
    }
  }

  lemma {:induction false} PrefixIsFixed(aead: Cipher, w: World, actions: seq<Action>)
    ensures After(aead, w, actions).receiver.recvPrefix == w.receiver.recvPrefix
    decreases |actions|
  {
    hide ReadFrame, WriteFrame;
    if actions != [] {
      var front, last := actions[..|actions| - 1], actions[|actions| - 1];
      PrefixIsFixed(aead, w, front);
      var mid := After(aead, w, front);
      match last
      case ReceiverOp(op) => OpKeepsHistory(aead, mid.receiver, op);
      case Deliver(i) =>
        if i < |mid.written| { OpKeepsHistory(aead, mid.receiver, Read(mid.written[i].record)); }
      case _ =>
    }
  }

  ghost predicate ReturnedAsWritten(w: World) {
    forall r :: 0 <= r < |w.returned| && w.returned[r].source.Some? ==>
      && w.returned[r].source.value < |w.written|
      && w.returned[r].plaintext == w.written[w.returned[r].source.value].plaintext
  }

  lemma InjectionKeepsReturned(aead: Cipher, w: World, stream: seq<byte>)
    requires ReturnedAsWritten(w)
    ensures ReturnedAsWritten(Receive(aead, w, stream, None))
  {
    hide ReadFrame, ParseRecord;
    ReadSpendsFresh(aead, w.receiver, stream);
  }

  lemma DeliveryKeepsReturned(w: World, w': World, i: nat)
    requires ReturnedAsWritten(w) && w.written <= w'.written && i < |w.written|
    requires || w'.returned == w.returned
             || w'.returned == w.returned + [Receipt(Some(i), w.written[i].counter, w.written[i].plaintext)]
    ensures ReturnedAsWritten(w')
  {
    assert forall j :: 0 <= j < |w.written| ==> w'.written[j] == w.written[j];
  }

  /** Each written record is returned at most once, and as the plaintext it was
      written with, under any loss, duplication, reordering and injection and any rekeys. */
  lemma {:induction false} AtMostOnceDelivery(aead: Cipher, keys: set<Key>, w: World, actions: seq<Action>)
    requires Initial(w) && ReceiverKeysAmong(keys, w, actions)
    requires Separated(aead, keys, w.receiver.recvPrefix, After(aead, w, actions).written)
    ensures AtMostOnce(After(aead, w, actions))
    ensures ReturnedAsWritten(After(aead, w, actions))
    decreases |actions|
  {
    hide ReadFrame, WriteFrame, Receive, Step, ReceiptOk, Genuine;
    RunKeepsInv(aead, w, actions);
    if actions != [] {
      var front, last := actions[..|actions| - 1], actions[|actions| - 1];
      var mid := After(aead, w, front);
      RunKeepsInv(aead, w, front);
      StepKeepsInv(aead, mid, last);
      assert forall i :: 0 <= i < |mid.written| ==> mid.written[i] == After(aead, w, actions).written[i];
      AtMostOnceDelivery(aead, keys, w, front);
      match last
      case Deliver(i) =>
        if i < |mid.written| {
          DeliveryIsExact(aead, keys, w, front, i);
          DeliveryKeepsReturned(mid, After(aead, w, actions), i);
        }
      case ReceiverOp(op) =>
        if op.Read? { InjectionKeepsReturned(aead, mid, op.stream); }
      case _ =>
    }
  }
}
