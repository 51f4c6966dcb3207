/**
 The two relay loops as objects: one method per branch of each `select!`. The
 bytes an end writes to the other are its results; what `Tunnel` says about one
 turn of a loop is proved of each method.
 */
module Relay {
  import opened Bytes
  import opened Aead
  import opened Codec
  import opened CodecObject
  import opened Tunnel

  class Endpoint {
    const codec: FrameCodec
    var open: bool
    ghost var epoch: nat
    ghost var supplied: seq<byte>
    var delivered: seq<byte>

    ghost predicate Valid()
      reads this, codec, codec.recvReplay
    {
      codec.Valid()
    }

    ghost function View(): Side
      reads this, codec, codec.recvReplay
    {
      Side(codec.View(), open, epoch, supplied, delivered)
    }

    constructor (codec: FrameCodec)
      requires codec.Valid()
      ensures Valid() && this.codec == codec
      ensures View() == Side(codec.View(), true, 0, [], [])
    {
      this.codec := codec;
      open, epoch, supplied, delivered := true, 0, [], [];
    }

    /** Writes one frame; a refusal by the codec ends the relay. */
    method Emit(payload: seq<byte>) returns (record: seq<byte>)
      requires Valid()
      modifies this, codec
      ensures Valid()
      ensures (View(), record) == Tunnel.Emit(codec.aead, old(View()), payload)
    {
      var r := codec.WriteFrame(payload);
      match r
      case Ok(bytes) => record := bytes;
      case Err(_) => open, record := false, [];
    }

    /** The branch that reads the socket. */
    method OnChunk(chunk: seq<byte>) returns (record: seq<byte>)
      requires Valid()
      modifies this, codec
      ensures Valid()
      ensures (View(), record) == Forward(codec.aead, old(View()), chunk)
      ensures chunk == [] ==> !open && record == [] && delivered == old(delivered)
    {
      if chunk == [] {
        open := false;
        return [];
      }
      supplied := supplied + chunk;
      record := Emit(chunk);
    }

    /** What the client does with the plaintext of a frame. */
    method ClientOnData(data: seq<byte>) returns (record: seq<byte>)
      requires Valid()
      modifies this, codec
      ensures Valid()
      ensures (View(), record) == ClientHandle(codec.aead, old(View()), data)
    {
      record := [];
      if |data| >= 6 && data[..6] == REKEY_INIT_MAGIC {
        if |data| < INIT_SIZE {
          open := false;
          return;
        }
        var newKid := data[6];
        var newKey := data[7..INIT_SIZE];
        record := Emit(REKEY_ACK_MAGIC + [newKid]);
        if open {
          codec.StartRekey(newKid, newKey);
          epoch := epoch + 1;
        }
      } else {
        delivered := delivered + data;
      }
    }

    /** The client's branch that reads a frame from the gateway. */
    method ClientOnFrame(stream: seq<byte>) returns (left: seq<byte>, record: seq<byte>)
      requires Valid()
      modifies this, codec, codec.recvReplay
      ensures Valid()
      ensures var r := Codec.ReadFrame(codec.aead, old(View()).codec, stream);
              var side := old(View()).(codec := r.st);
              && left == r.left
              && (View(), record) == (if r.result.Ok? then ClientHandle(codec.aead, side, r.result.value)
                                      else (side.(open := false), []))
    {
      hide Codec.ReadFrame, ClientHandle;
      var frame;
      frame, left := codec.ReadFrame(stream);
      match frame
      case Err(_) => open, record := false, [];
      case Ok(data) => record := ClientOnData(data);
    }

    /** The gateway's branch that reads a frame while relaying. */
    method GatewayOnFrame(stream: seq<byte>) returns (left: seq<byte>)
      requires Valid()
      modifies this, codec, codec.recvReplay
      ensures Valid()
      ensures var r := Codec.ReadFrame(codec.aead, old(View()).codec, stream);
              var side := old(View()).(codec := r.st);
              && left == r.left
              && View() == if r.result.Ok? then GatewayHandle(side, Relaying, r.result.value).0
                           else side.(open := false)
    {
      var frame;
      frame, left := codec.ReadFrame(stream);
      match frame
      case Err(_) => open := false;
      case Ok(data) => delivered := delivered + data;
    }

    /** `send_rekey_init`, with the identifier the gateway picks for the new key. */
    method SendRekeyInit(newKey: Key) returns (newKid: byte, record: seq<byte>)
      requires Valid()
      modifies this, codec
      ensures Valid()
      ensures newKid == (old(View()).codec.active.kid as int + 1) % 256
      ensures (View(), record) == Tunnel.Emit(codec.aead, old(View()), InitPayload(KeyId(newKid, newKey)))
    {
      newKid := if codec.kid == 255 then 0 else codec.kid + 1;
      var payload := REKEY_INIT_MAGIC;
      payload := payload + [newKid];
      payload := payload + newKey;
      record := Emit(payload);
    }

    /** `server_handle_rekey_ack`: reads the ACK and adopts the key, or gives up. */
    method HandleRekeyAck(stream: seq<byte>, newKid: byte, newKey: Key) returns (left: seq<byte>, ok: bool)
      requires Valid()
      modifies this, codec, codec.recvReplay
      ensures Valid()
      ensures var r := Codec.ReadFrame(codec.aead, old(View()).codec, stream);
              var side := old(View()).(codec := r.st);
              var waiting := AwaitingAck(KeyId(newKid, newKey));
              && left == r.left
              && (View(), if ok then Relaying else waiting)
                 == (if r.result.Ok? then GatewayHandle(side, waiting, r.result.value)
                     else (side.(open := false), waiting))
    {
      var frame;
      frame, left := codec.ReadFrame(stream);
      ok := false;
      match frame
      case Err(_) => open := false;
      case Ok(data) =>
        if |data| < ACK_SIZE {
          open := false;
        } else if data[..9] != REKEY_ACK_MAGIC {
          open := false;
        } else if data[9] != newKid {
          open := false;
        } else {
          codec.StartRekey(newKid, newKey);
          epoch := epoch + 1;
          ok := true;
        }
    }
  }
}
