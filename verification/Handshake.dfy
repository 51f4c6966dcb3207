/**
 The steal handshake: an 80-byte auth frame, a 32-byte answer, and a session key
 on both sides. X25519 (section 6.1 of RFC 7748) enters as a key agreement whose
 two sides commute, HKDF (section 2 of RFC 5869) as a labelled function.
 */
module Handshake {
  import opened Bytes
  import opened Aead
  import opened Codec
  import opened CodecLife

  const AUTH_FRAME_SIZE: nat := 80

  datatype Agreement = Agreement(public: Key -> Key, shared: (Key, Key) -> Key)

  ghost predicate Commutes(g: Agreement) {
    forall a: Key, b: Key :: g.shared(a, g.public(b)) == g.shared(b, g.public(a))
  }

  function Trivial(): (g: Agreement)
    ensures Commutes(g)
  {
    var zero: Key := seq(KEY_SIZE, _ => 0);
    Agreement((s: Key) => zero, (s: Key, p: Key) => zero)
  }

  type KeyAgreement = g: Agreement | Commutes(g) ghost witness Trivial()

  datatype Label = AuthInfo | SessionInfo
  type Kdf = (Label, seq<byte>) -> Key

  /** The token both sides compute from the Diffie-Hellman secret and the PSK. */
  function AuthToken(kdf: Kdf, shared: Key, psk: Key): Key {
    kdf(AuthInfo, shared + psk)
  }

  datatype AuthFrame = AuthFrame(ephemeral: Key, token: Key, c2s: Prefix, s2c: Prefix)

  /** What the client sends first. */
  function ClientFrame(g: KeyAgreement, kdf: Kdf, secret: Key, serverPublic: Key, psk: Key, c2s: Prefix, s2c: Prefix)
    : seq<byte>
  {
    g.public(secret) + AuthToken(kdf, g.shared(secret, serverPublic), psk) + c2s + s2c
  }

  /** `read_auth_frame`: the four fields and what follows, or end of file. */
  function ReadAuthFrame(stream: seq<byte>): Option<(AuthFrame, seq<byte>)> {
    if |stream| < AUTH_FRAME_SIZE then None
    else Some((AuthFrame(stream[..32], stream[32..64], stream[64..72], stream[72..80]), stream[80..]))
  }

  /** `server_derive_session`; the fresh ephemeral secret is a parameter. */
  function ServerDerive(g: KeyAgreement, kdf: Kdf, staticSecret: Key, ephemeralSecret: Key,
                        clientPublic: Key, token: Key, psk: Key): Option<(Key, Key)>
  {
    if AuthToken(kdf, g.shared(staticSecret, clientPublic), psk) != token then None
    else Some((g.public(ephemeralSecret), kdf(SessionInfo, g.shared(ephemeralSecret, clientPublic))))
  }

  /** The client's session key, from the server's answer. */
  function ClientFinish(g: KeyAgreement, kdf: Kdf, secret: Key, response: Key): Key {
    kdf(SessionInfo, g.shared(secret, response))
  }

  /** Where the fields of the auth frame stand, on the way out and on the way in. */
  lemma AuthFrameLayout(g: KeyAgreement, kdf: Kdf, secret: Key, serverPublic: Key, psk: Key,
                        c2s: Prefix, s2c: Prefix, stream: seq<byte>)
    ensures var frame := ClientFrame(g, kdf, secret, serverPublic, psk, c2s, s2c);
            && |frame| == 80
            && frame[..32] == g.public(secret)
            && frame[32..64] == kdf(AuthInfo, g.shared(secret, serverPublic) + psk)
            && frame[64..72] == c2s && frame[72..] == s2c
    ensures ReadAuthFrame(stream).Some? <==> |stream| >= 80
    ensures |stream| >= 80 ==>
              var (auth, rest) := ReadAuthFrame(stream).value;
              && auth.ephemeral == stream[..32] && auth.token == stream[32..64]
              && auth.c2s == stream[64..72] && auth.s2c == stream[72..80] && rest == stream[80..]
  {
    var frame := ClientFrame(g, kdf, secret, serverPublic, psk, c2s, s2c);
    assert frame[..32] == g.public(secret);
    assert frame[32..64] == AuthToken(kdf, g.shared(secret, serverPublic), psk);
    assert frame[64..72] == c2s && frame[72..] == s2c;
  }

  lemma AuthFrameRoundTrip(g: KeyAgreement, kdf: Kdf, secret: Key, serverPublic: Key, psk: Key,
                           c2s: Prefix, s2c: Prefix, rest: seq<byte>)
    ensures var frame := ClientFrame(g, kdf, secret, serverPublic, psk, c2s, s2c);
            && |frame| == AUTH_FRAME_SIZE
            && ReadAuthFrame(frame + rest)
               == Some((AuthFrame(g.public(secret), AuthToken(kdf, g.shared(secret, serverPublic), psk), c2s, s2c), rest))
  {
    var stream := ClientFrame(g, kdf, secret, serverPublic, psk, c2s, s2c) + rest;
    assert stream[..32] == g.public(secret);
    assert stream[32..64] == AuthToken(kdf, g.shared(secret, serverPublic), psk);
    assert stream[64..72] == c2s;
    assert stream[72..80] == s2c;
    assert stream[80..] == rest;
  }

  /** What the gateway makes of a client's frame: it accepts exactly when the KDF maps
      the client's Diffie-Hellman secret with the two PSKs to one token. */
  lemma AcceptsExactly(g: KeyAgreement, kdf: Kdf, clientSecret: Key, clientPsk: Key, serverSecret: Key,
                       serverPsk: Key, ephemeral: Key, c2s: Prefix, s2c: Prefix, rest: seq<byte>)
    ensures var frame := ClientFrame(g, kdf, clientSecret, g.public(serverSecret), clientPsk, c2s, s2c);
            var auth := ReadAuthFrame(frame + rest).value.0;
            var shared := g.shared(clientSecret, g.public(serverSecret));
            ServerDerive(g, kdf, serverSecret, ephemeral, auth.ephemeral, auth.token, serverPsk).Some?
            <==> kdf(AuthInfo, shared + clientPsk) == kdf(AuthInfo, shared + serverPsk)
  {
    AuthFrameRoundTrip(g, kdf, clientSecret, g.public(serverSecret), clientPsk, c2s, s2c, rest);
    assert g.shared(clientSecret, g.public(serverSecret)) == g.shared(serverSecret, g.public(clientSecret));
  }

  lemma ConcatInjective(a: seq<byte>, b: seq<byte>, c: seq<byte>)
    requires a + b == a + c
    ensures b == c
  {
    assert (a + b)[|a|..] == b && (a + c)[|a|..] == c;
  }

  /** No two of these inputs give the same token. */
  ghost predicate CollisionFree(kdf: Kdf, inputs: set<seq<byte>>) {
    forall x, y :: x in inputs && y in inputs && x != y ==> kdf(AuthInfo, x) != kdf(AuthInfo, y)
  }

  /** A different PSK is refused wherever the KDF does not collide. */
  lemma WrongPskIsRefused(g: KeyAgreement, kdf: Kdf, inputs: set<seq<byte>>, clientSecret: Key, clientPsk: Key,
                          serverSecret: Key, serverPsk: Key, ephemeral: Key, c2s: Prefix, s2c: Prefix, rest: seq<byte>)
    requires clientPsk != serverPsk && CollisionFree(kdf, inputs)
    requires g.shared(clientSecret, g.public(serverSecret)) + clientPsk in inputs
    requires g.shared(clientSecret, g.public(serverSecret)) + serverPsk in inputs
    ensures var frame := ClientFrame(g, kdf, clientSecret, g.public(serverSecret), clientPsk, c2s, s2c);
            var auth := ReadAuthFrame(frame + rest).value.0;
            ServerDerive(g, kdf, serverSecret, ephemeral, auth.ephemeral, auth.token, serverPsk) == None
  {
    AcceptsExactly(g, kdf, clientSecret, clientPsk, serverSecret, serverPsk, ephemeral, c2s, s2c, rest);
    var shared := g.shared(clientSecret, g.public(serverSecret));
    if shared + clientPsk == shared + serverPsk {
      ConcatInjective(shared, clientPsk, serverPsk);
    }
  }

  /** With one PSK and the matching server key the handshake succeeds, both sides
      hold the same session key, and the codecs they build read each other's
      streams in both directions. */
  lemma HandshakeMirrors(aead: Cipher, g: KeyAgreement, kdf: Kdf, clientSecret: Key, serverSecret: Key, psk: Key,
                         ephemeral: Key, c2s: Prefix, s2c: Prefix, rest: seq<byte>,
                         up: seq<seq<byte>>, down: seq<seq<byte>>)
    requires Admissible(up) && |up| <= REKEY_THRESHOLD
    requires Admissible(down) && |down| <= REKEY_THRESHOLD
    ensures var frame := ClientFrame(g, kdf, clientSecret, g.public(serverSecret), psk, c2s, s2c);
            var auth := ReadAuthFrame(frame + rest).value.0;
            var derived := ServerDerive(g, kdf, serverSecret, ephemeral, auth.ephemeral, auth.token, psk);
            && derived.Some?
            && derived.value.1 == kdf(SessionInfo, g.shared(clientSecret, g.public(ephemeral)))
            && ClientFinish(g, kdf, clientSecret, derived.value.0) == derived.value.1
            && var client := NewCodec(ClientFinish(g, kdf, clientSecret, derived.value.0), c2s, s2c, 0);
               var gateway := NewCodec(derived.value.1, auth.s2c, auth.c2s, 0);
               && ReadAll(aead, gateway, WriteAll(aead, client, up).1).payloads == up
               && ReadAll(aead, client, WriteAll(aead, gateway, down).1).payloads == down
  {
    AuthFrameRoundTrip(g, kdf, clientSecret, g.public(serverSecret), psk, c2s, s2c, rest);
    AcceptsExactly(g, kdf, clientSecret, psk, serverSecret, psk, ephemeral, c2s, s2c, rest);
    assert g.shared(clientSecret, g.public(ephemeral)) == g.shared(ephemeral, g.public(clientSecret));
    var key := ClientFinish(g, kdf, clientSecret, g.public(ephemeral));
    var client, gateway := NewCodec(key, c2s, s2c, 0), NewCodec(key, s2c, c2s, 0);
    hide ReadAll, WriteAll;
    StreamRoundTrip(aead, client, gateway, up);
    StreamRoundTrip(aead, gateway, client, down);
  }
}
