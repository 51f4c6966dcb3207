/** Bytes, optional values, and the big-endian integers of the record header. */
module Bytes {

  type byte = n: nat | n < 256

  datatype Option<+T> = None | Some(value: T)

  const U16_LIMIT: nat := 0x1_0000
  const U32_LIMIT: nat := 0x1_0000_0000
  const U64_LIMIT: nat := 0x1_0000_0000_0000_0000

  function Min(a: nat, b: nat): nat {
    if a < b then a else b
  }

  function BigEndian16(n: nat): (b: seq<byte>)
    requires n < U16_LIMIT
    ensures |b| == 2
  {
    [n / 256, n % 256]
  }

  function FromBigEndian16(b: seq<byte>): (n: nat)
    requires |b| == 2
    ensures n < U16_LIMIT
  {
    256 * (b[0] as int) + b[1]
  }

  function BigEndian32(n: nat): (b: seq<byte>)
    requires n < U32_LIMIT
    ensures |b| == 4
  {
    [n / 0x100_0000, n / 0x1_0000 % 256, n / 0x100 % 256, n % 256]
  }

  function FromBigEndian32(b: seq<byte>): (n: nat)
    requires |b| == 4
    ensures n < U32_LIMIT
  {
    0x100_0000 * (b[0] as int) + 0x1_0000 * (b[1] as int) + 0x100 * (b[2] as int) + b[3]
  }

  lemma BigEndian16RoundTrip(n: nat)
    requires n < U16_LIMIT
    ensures FromBigEndian16(BigEndian16(n)) == n
  {
  }

  lemma BigEndian32RoundTrip(n: nat)
    requires n < U32_LIMIT
    ensures FromBigEndian32(BigEndian32(n)) == n
  {
    assert n / 0x100 == (n / 0x1_0000) * 256 + n / 0x100 % 256;
    assert n / 0x1_0000 == (n / 0x100_0000) * 256 + n / 0x1_0000 % 256;
  }

  lemma FromBigEndian16RoundTrip(b: seq<byte>)
    requires |b| == 2
    ensures BigEndian16(FromBigEndian16(b)) == b
  {
  }

  lemma FromBigEndian32RoundTrip(b: seq<byte>)
    requires |b| == 4
    ensures BigEndian32(FromBigEndian32(b)) == b
  {
    var n := FromBigEndian32(b);
    assert n == 0x100 * (0x1_0000 * (b[0] as int) + 0x100 * (b[1] as int) + b[2]) + b[3];
    assert n / 0x100 == 0x1_0000 * (b[0] as int) + 0x100 * (b[1] as int) + b[2];
    assert n / 0x1_0000 == 0x100 * (b[0] as int) + b[1];
    assert n / 0x100_0000 == b[0];
  }

  /** `p` is an initial segment of `s`. */
  predicate StartsWith(s: seq<byte>, p: seq<byte>) {
    |p| <= |s| && s[..|p|] == p
  }
}
