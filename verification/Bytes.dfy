/** Bytes, little-endian integers, XOR and the result type shared by the whole model. */
module Bytes {
  type Byte = x: int | 0 <= x < 256

  /** The largest length a Rust buffer can have (`isize::MAX` on 64-bit platforms). */
  const ISIZE_MAX := 0x7FFF_FFFF_FFFF_FFFF
  const U32_MAX := 0xFFFF_FFFF
  const I32_MAX := 0x7FFF_FFFF

  datatype Option<+T> = None | Some(value: T)

  datatype Result<+T, +E> = Ok(value: T) | Err(error: E)

  function Pow2(bits: nat): (r: nat)
    ensures r >= 1
  {
    if bits == 0 then 1 else 2 * Pow2(bits - 1)
  }

  /** Bit `k` of a natural number, counting from the least significant. */
  predicate Bit(n: nat, k: nat) {
    if k == 0 then n % 2 == 1 else Bit(n / 2, k - 1)
  }

  /** Exclusive or of the low `bits` bits. */
  function XorBits(a: nat, b: nat, bits: nat): (r: nat)
    ensures r < Pow2(bits)
  {
    if bits == 0 then 0 else 2 * XorBits(a / 2, b / 2, bits - 1) + (a + b) % 2
  }

  function Xor(a: Byte, b: Byte): Byte {
    assert Pow2(8) == 256 by { assert Pow2(4) == 16; }
    XorBits(a, b, 8)
  }

  lemma {:induction false} XorBitsCancels(a: nat, b: nat, c: nat, bits: nat)
    requires b < Pow2(bits) && c < Pow2(bits)
    requires XorBits(a, b, bits) == XorBits(a, c, bits)
    ensures b == c
  {
    if bits > 0 {
      var x, y := XorBits(a / 2, b / 2, bits - 1), XorBits(a / 2, c / 2, bits - 1);
      assert 2 * x + (a + b) % 2 == 2 * y + (a + c) % 2 && b / 2 < Pow2(bits - 1) && c / 2 < Pow2(bits - 1);
      hide XorBits, Pow2;
      TwiceAndParity(x, y, a, b, c);
      XorBitsCancels(a / 2, b / 2, c / 2, bits - 1);
    }
  }

  lemma TwiceAndParity(x: nat, y: nat, a: nat, b: nat, c: nat)
    requires 2 * x + (a + b) % 2 == 2 * y + (a + c) % 2
    ensures x == y && b % 2 == c % 2
  {
  }

  /** Equal XOR with an equal first byte forces an equal second byte. */
  lemma XorCancels(a: Byte, b: Byte, c: Byte)
    requires Xor(a, b) == Xor(a, c)
    ensures b == c
  {
    assert Pow2(8) == 256 by { assert Pow2(4) == 16; }
    XorBitsCancels(a, b, c, 8);
  }

  /** The low `width` bytes of `n`, least significant first (`to_le_bytes` after truncation). */
  function LittleEndian(n: nat, width: nat): (s: seq<Byte>)
    ensures |s| == width
  {
    if width == 0 then [] else [n % 256] + LittleEndian(n / 256, width - 1)
  }

  function FromLittleEndian(s: seq<Byte>): (n: nat)
  {
    if s == [] then 0 else s[0] + 256 * FromLittleEndian(s[1..])
  }

  function Pow256(width: nat): (r: nat)
    ensures r >= 1
  {
    if width == 0 then 1 else 256 * Pow256(width - 1)
  }

  lemma {:induction false} LittleEndianRoundTrip(n: nat, width: nat)
    requires n < Pow256(width)
    ensures FromLittleEndian(LittleEndian(n, width)) == n
  {
    if width > 0 {
      assert LittleEndian(n, width)[1..] == LittleEndian(n / 256, width - 1);
      LittleEndianRoundTrip(n / 256, width - 1);
    }
  }

  lemma {:induction false} LittleEndianInverse(s: seq<Byte>)
    ensures FromLittleEndian(s) < Pow256(|s|)
    ensures LittleEndian(FromLittleEndian(s), |s|) == s
  {
    if s != [] {
      LittleEndianInverse(s[1..]);
      var n := FromLittleEndian(s);
      assert n / 256 == FromLittleEndian(s[1..]) && n % 256 == s[0];
    }
  }

  lemma Pow256Values()
    ensures Pow256(4) == 0x1_0000_0000
    ensures Pow256(8) == 0x1_0000_0000_0000_0000
  {
    assert Pow256(2) == 0x1_0000;
    assert Pow256(4) == 0x1_0000_0000;
    assert Pow256(6) == 0x1_0000_0000_0000;
  }
}
