/**
 * Bytes, fixed-width unsigned integers and the one byte order the model uses.
 *
 * The host is fixed to be little-endian: a 16- or 32-bit value that the C code
 * stores into a struct member lands in memory least significant byte first.
 * `htons`/`htonl` are written out as byte swaps, so a value stored after a
 * swap appears in memory in network (big-endian) order.
 */
module Bytes {

  type byte = b: int | 0 <= b < 0x100
  type u16 = x: int | 0 <= x < 0x1_0000
  type u32 = x: int | 0 <= x < 0x1_0000_0000

  /** `n` zero bytes: what `calloc` hands out. */
  function Zeros(n: nat): (z: seq<byte>)
    ensures |z| == n
    ensures forall k :: 0 <= k < n ==> z[k] == 0
  {
    seq(n, _ => 0)
  }

  /** True when no byte of `s` is the NUL terminator. */
  predicate NoNul(s: seq<byte>)
  {
    forall k :: 0 <= k < |s| ==> s[k] != 0
  }

  /** Memory image of a 16-bit host value (little-endian). */
  function HostU16(v: u16): (b: seq<byte>)
    ensures |b| == 2
  {
    [v % 0x100, v / 0x100]
  }

  /** Memory image of a 32-bit host value (little-endian). */
  function HostU32(v: u32): (b: seq<byte>)
    ensures |b| == 4
  {
    [v % 0x100, (v / 0x100) % 0x100, (v / 0x1_0000) % 0x100, v / 0x100_0000]
  }

  /** The 16-bit host value read from two bytes at a time (`*(unsigned short *)p`). */
  function ReadU16(lo: byte, hi: byte): (v: u16)
  {
    lo + 0x100 * hi
  }

  function ReadU32(b0: byte, b1: byte, b2: byte, b3: byte): (v: u32)
  {
    b0 + 0x100 * b1 + 0x1_0000 * b2 + 0x100_0000 * b3
  }

  /** `htons` on a little-endian host: swap the two bytes. */
  function Htons(v: u16): (r: u16)
    ensures r / 0x100 == v % 0x100 && r % 0x100 == v / 0x100
  {
    (v % 0x100) * 0x100 + v / 0x100
  }

  /** `htonl` on a little-endian host: reverse the four bytes. */
  function Htonl(v: u32): (r: u32)
  {
    (v % 0x100) * 0x100_0000 + ((v / 0x100) % 0x100) * 0x1_0000
      + ((v / 0x1_0000) % 0x100) * 0x100 + v / 0x100_0000
  }

  /** Reading back a stored 16-bit value gives the value. */
  lemma HostU16RoundTrip(v: u16)
    ensures ReadU16(HostU16(v)[0], HostU16(v)[1]) == v
  {
  }

  /** Reading back a stored 32-bit value gives the value. */
  lemma HostU32RoundTrip(v: u32)
    ensures ReadU32(HostU32(v)[0], HostU32(v)[1], HostU32(v)[2], HostU32(v)[3]) == v
  {
    var y := v / 0x100;
    var z := y / 0x100;
    var a, b, c, d := v % 0x100, y % 0x100, z % 0x100, z / 0x100;
    assert v == 0x100 * y + a && y == 0x100 * z + b && z == 0x100 * d + c;
    assert v == 0x1_0000 * z + (a + 0x100 * b);
    assert v == 0x100_0000 * d + (a + 0x100 * b + 0x1_0000 * c);
    assert v / 0x1_0000 == z;
    assert v / 0x100_0000 == d;
    assert HostU32(v) == [a, b, c, d];
  }

  /** A value stored after `htons` sits in memory most significant byte first. */
  lemma HtonsIsNetworkOrder(v: u16)
    ensures HostU16(Htons(v)) == [v / 0x100, v % 0x100]
  {
  }

  /** A value stored after `htonl` sits in memory most significant byte first. */
  lemma HtonlIsNetworkOrder(v: u32)
    ensures HostU32(Htonl(v)) == [v / 0x100_0000, (v / 0x1_0000) % 0x100, (v / 0x100) % 0x100, v % 0x100]
  {
    var a, b, c, d := v % 0x100, (v / 0x100) % 0x100, (v / 0x1_0000) % 0x100, v / 0x100_0000;
    var y := c + 0x100 * b + 0x1_0000 * a;
    var z := b + 0x100 * a;
    assert Htonl(v) == d + 0x100 * y;
    DigitSplit(Htonl(v), y, d);
    DigitSplit(y, z, c);
    DigitSplit(z, a, b);
  }

  /** `x == 256 * q + r` with `r` a byte determines the quotient and the remainder. */
  lemma DigitSplit(x: int, q: int, r: int)
    requires 0 <= r < 0x100 && x == 0x100 * q + r
    ensures x / 0x100 == q && x % 0x100 == r
  {
  }
}
