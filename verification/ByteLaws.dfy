/** What the byte-level primitives mean: bits and base-256 digits of numbers. */
module ByteLaws {
  import opened Bytes

  lemma QuotientUnique(n: nat, d: nat, q: nat, r: nat)
    requires d > 0 && r < d && n == d * q + r
    ensures n / d == q && n % d == r
  {
    var e := n / d - q;
    assert n == d * (n / d) + n % d;
    assert d * e == r - n % d;
  }

  lemma Product(a: nat, b: nat, p: nat, s: nat, r: nat)
    requires s < b && r < a
    ensures a * (b * p + s) + r == (a * b) * p + (a * s + r)
    ensures a * s + r < a * b
  {
    assert a * (s + 1) <= a * b;
  }

  /** Dividing twice is dividing by the product. */
  lemma DivideTwice(n: nat, a: nat, b: nat)
    requires a > 0 && b > 0
    ensures a * b > 0 && (n / a) / b == n / (a * b)
  {
    var q, r := n / a, n % a;
    DivideTwiceAs(n, a, b, q, r, q / b, q % b);
  }

  lemma DivideTwiceAs(n: nat, a: nat, b: nat, q: nat, r: nat, p: nat, s: nat)
    requires r < a && s < b && n == a * q + r && q == b * p + s
    ensures a * b > 0 && n / (a * b) == p
  {
    Product(a, b, p, s, r);
    assert n == (a * b) * p + (a * s + r);
    QuotientUnique(n, a * b, p, a * s + r);
  }

  /** Bit `k` is the digit of weight two to the `k`. */
  lemma {:induction false} BitIsDigit(n: nat, k: nat)
    ensures Bit(n, k) <==> (n / Pow2(k)) % 2 == 1
    decreases k
  {
    if k > 0 {
      BitIsDigit(n / 2, k - 1);
      DivideTwice(n, 2, Pow2(k - 1));
    }
  }

  lemma BitOfDouble(half: nat, parity: nat, k: nat)
    requires parity < 2
    ensures Bit(2 * half + parity, k) <==> if k == 0 then parity == 1 else Bit(half, k - 1)
  {
    assert (2 * half + parity) / 2 == half && (2 * half + parity) % 2 == parity;
  }

  lemma ParityOfSum(a: nat, b: nat)
    ensures (a + b) % 2 == 1 <==> ((a % 2 == 1) != (b % 2 == 1))
  {
  }

  lemma {:induction false} XorBitsAt(a: nat, b: nat, bits: nat, k: nat)
    requires k < bits
    ensures Bit(XorBits(a, b, bits), k) <==> (Bit(a, k) != Bit(b, k))
    decreases bits
  {
    var half, parity := XorBits(a / 2, b / 2, bits - 1), (a + b) % 2;
    assert XorBits(a, b, bits) == 2 * half + parity;
    hide XorBits;
    BitOfDouble(half, parity, k);
    if k == 0 {
      ParityOfSum(a, b);
    } else {
      XorBitsAt(a / 2, b / 2, bits - 1, k - 1);
    }
  }

  /** The hash of a pair is its bitwise exclusive or. */
  lemma XorIsBitwise(a: Byte, b: Byte, k: nat)
    requires k < 8
    ensures Bit(Xor(a, b), k) <==> (Bit(a, k) != Bit(b, k))
  {
    XorBitsAt(a, b, 8, k);
  }

  lemma XorSelf(a: Byte)
    ensures Xor(a, a) == 0
  {
    XorBitsSelf(a, 8);
  }

  lemma {:induction false} XorBitsSelf(a: nat, bits: nat)
    ensures XorBits(a, a, bits) == 0
  {
    if bits > 0 {
      XorBitsSelf(a / 2, bits - 1);
    }
  }

  /** Byte `i` of the little-endian form is the digit of weight 256 to the `i`. */
  lemma {:induction false} LittleEndianDigit(n: nat, width: nat, i: nat)
    requires i < width
    ensures LittleEndian(n, width)[i] == (n / Pow256(i)) % 256
    decreases width
  {
    if i > 0 {
      LittleEndianDigit(n / 256, width - 1, i - 1);
      DivideTwice(n, 256, Pow256(i - 1));
    }
  }

  function FourDigits(a: int, b: int, c: int, d: int): int {
    a + 0x100 * b + 0x1_0000 * c + 0x100_0000 * d
  }

  /** A four-byte number, written out. */
  lemma FourBytes(s: seq<Byte>)
    requires |s| == 4
    ensures FromLittleEndian(s) == FourDigits(s[0], s[1], s[2], s[3])
  {
    var a, b, c := s[1..], s[2..], s[3..];
    assert a[1..] == b && b[1..] == c && c[1..] == [];
    assert FromLittleEndian(c) == s[3] + 256 * FromLittleEndian([]);
    assert FromLittleEndian(b) == s[2] + 256 * FromLittleEndian(c);
    assert FromLittleEndian(a) == s[1] + 256 * FromLittleEndian(b);
  }

  lemma {:induction false} Pow2Sum(a: nat, b: nat)
    ensures Pow2(a + b) == Pow2(a) * Pow2(b)
    decreases a
  {
    if a > 0 {
      Pow2Sum(a - 1, b);
    }
  }

  /** The integer limits are those of their widths. */
  lemma Limits()
    ensures I32_MAX == Pow2(31) - 1 && U32_MAX == Pow2(32) - 1 && ISIZE_MAX == Pow2(63) - 1
  {
    assert Pow2(4) == 16;
    assert Pow2(8) == 256;
    Pow2Sum(8, 8);
    Pow2Sum(16, 15);
    Pow2Sum(16, 16);
    Pow2Sum(32, 31);
    assert Pow2(15) == 0x8000 by { Pow2Sum(8, 7); assert Pow2(7) == 128; }
  }
}
