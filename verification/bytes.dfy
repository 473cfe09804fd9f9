/** Bytes, the bitwise exclusive or Go's `^` computes on them, and the 4-byte
    little-endian integers the block file is framed with.

    A byte is an integer in [0, 256). `binary.Read(r, binary.LittleEndian, &v)`
    on a `uint32` reads four bytes and assembles them least significant first:
    `LE32` is that assembly and `LE32Bytes` its inverse. */
module Bytes {

  type byte = x: int | 0 <= x < 256

  /** 2^32: the exclusive bound of a Go `uint32`. */
  const TWO32: nat := 0x1_0000_0000

  function Pow2(n: nat): (p: nat)
    ensures p >= 1
  {
    if n == 0 then 1 else 2 * Pow2(n - 1)
  }

  lemma Pow2Eight()
    ensures Pow2(8) == 256
  {
    assert Pow2(2) == 4;
    assert Pow2(4) == 16;
    assert Pow2(6) == 64;
  }

  /** Exclusive or of the low `width` bits of `a` and `b`, one bit at a time
      from the least significant. */
  function XorBits(a: nat, b: nat, width: nat): (r: nat)
    ensures r < Pow2(width)
  {
    if width == 0 then 0
    else (if a % 2 == b % 2 then 0 else 1) + 2 * XorBits(a / 2, b / 2, width - 1)
  }

  /** Go's `x ^ y` on two bytes. */
  function Xor(x: byte, y: byte): byte
  {
    Pow2Eight();
    XorBits(x, y, 8)
  }

  /** Exclusive or with the same mask twice restores the value. */
  lemma {:induction false} XorBitsInvolutive(a: nat, k: nat, width: nat)
    requires a < Pow2(width)
    ensures XorBits(XorBits(a, k, width), k, width) == a
  {
    if width > 0 {
      var x' := XorBits(a / 2, k / 2, width - 1);
      var x := XorBits(a, k, width);
      assert x % 2 == (if a % 2 == k % 2 then 0 else 1) && x / 2 == x';
      XorBitsInvolutive(a / 2, k / 2, width - 1);
    }
  }

  /** Exclusive or with zero changes nothing. */
  lemma {:induction false} XorBitsZero(a: nat, width: nat)
    requires a < Pow2(width)
    ensures XorBits(a, 0, width) == a
  {
    if width > 0 {
      XorBitsZero(a / 2, width - 1);
    }
  }

  lemma XorInvolutive(x: byte, k: byte)
    ensures Xor(Xor(x, k), k) == x
  {
    Pow2Eight();
    XorBitsInvolutive(x, k, 8);
  }

  lemma XorZero(x: byte)
    ensures Xor(x, 0) == x
  {
    Pow2Eight();
    XorBitsZero(x, 8);
  }

  /** The value of four bytes read little-endian. */
  function LE32(b: seq<byte>): (v: nat)
    requires |b| == 4
    ensures v < TWO32
  {
    (b[0] as int) + 256 * (b[1] as int) + 65536 * (b[2] as int) + 16777216 * (b[3] as int)
  }

  /** The four bytes that encode `v` little-endian. */
  function LE32Bytes(v: nat): (r: seq<byte>)
    requires v < TWO32
    ensures |r| == 4
  {
    [v % 256, (v / 256) % 256, (v / 65536) % 256, v / 16777216]
  }

  /** Base-256 digits of a 32-bit value. */
  lemma Digits(v: nat)
    requires v < TWO32
    ensures v == v % 256 + 256 * ((v / 256) % 256) + 65536 * ((v / 65536) % 256) + 16777216 * (v / 16777216)
    ensures v / 16777216 < 256
  {
    var a := v / 256;
    assert v == v % 256 + 256 * a;
    var b := a / 256;
    assert a == a % 256 + 256 * b;
    assert b == v / 65536;
    var c := b / 256;
    assert b == b % 256 + 256 * c;
    assert c == v / 16777216;
  }

  /** The lowest base-256 digit of a number is determined by it. */
  lemma Peel(a: int, x: int, c: int, y: int)
    requires 0 <= a < 256 && 0 <= c < 256
    requires a + 256 * x == c + 256 * y
    ensures a == c && x == y
  {
    assert 256 * (x - y) == c - a;
  }

  /** Decoding an encoded value gives the value back. */
  lemma LE32OfLE32Bytes(v: nat)
    requires v < TWO32
    ensures LE32(LE32Bytes(v)) == v
  {
    Digits(v);
  }

  /** Different 4-byte groups read as different values. */
  lemma LE32Injective(b: seq<byte>, c: seq<byte>)
    requires |b| == 4 && |c| == 4
    requires LE32(b) == LE32(c)
    ensures b == c
  {
    var b0, b1, b2, b3: int := b[0], b[1], b[2], b[3];
    var c0, c1, c2, c3: int := c[0], c[1], c[2], c[3];
    Peel(b0, b1 + 256 * (b2 + 256 * b3), c0, c1 + 256 * (c2 + 256 * c3));
    Peel(b1, b2 + 256 * b3, c1, c2 + 256 * c3);
    Peel(b2, b3, c2, c3);
    assert forall i | 0 <= i < 4 :: b[i] == c[i];
  }

  /** Encoding a decoded group gives the group back. */
  lemma LE32BytesOfLE32(b: seq<byte>)
    requires |b| == 4
    ensures LE32Bytes(LE32(b)) == b
  {
    LE32OfLE32Bytes(LE32(b));
    LE32Injective(LE32Bytes(LE32(b)), b);
  }
}
