/**
 The AEAD interface the codec relies on (section 2.8 of RFC 8439), as a pair of
 functions over bytes. The only laws are the two that ChaCha20-Poly1305 meets
 exactly: a sealed text is 16 bytes longer than its plaintext, and opening it
 with the key and nonce it was sealed with gives the plaintext back.
 */
module Aead {
  import opened Bytes

  const KEY_SIZE: nat := 32
  const NONCE_SIZE: nat := 12
  const TAG_SIZE: nat := 16

  type Key = k: seq<byte> | |k| == KEY_SIZE witness seq(KEY_SIZE, _ => 0)
  type Nonce = n: seq<byte> | |n| == NONCE_SIZE witness seq(NONCE_SIZE, _ => 0)

  datatype Scheme = Scheme(
    seal: (Key, Nonce, seq<byte>) -> seq<byte>,
    open: (Key, Nonce, seq<byte>) -> Option<seq<byte>>)

  ghost predicate Lawful(a: Scheme) {
    forall k: Key, n: Nonce, p: seq<byte> ::
      && |a.seal(k, n, p)| == |p| + TAG_SIZE
      && a.open(k, n, a.seal(k, n, p)) == Some(p)
  }

  /** A keyless scheme that meets the laws; it shows that they are consistent. */
  function Transparent(): (a: Scheme)
    ensures Lawful(a)
  {
    var tag: seq<byte> := seq(TAG_SIZE, _ => 0);
    var a := Scheme(
               (k: Key, n: Nonce, p: seq<byte>) => p + tag,
               (k: Key, n: Nonce, c: seq<byte>) =>
                 if |c| < TAG_SIZE then None else Some(c[..|c| - TAG_SIZE]));
    assert forall p: seq<byte> :: (p + tag)[..|p + tag| - TAG_SIZE] == p;
    a
  }

  type Cipher = a: Scheme | Lawful(a) ghost witness Transparent()
}
