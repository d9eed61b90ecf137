/**
 UTF-8 from the other side: Unicode scalar values and their encodings, as section 3 of RFC 3629 writes them.
 Valid text is exactly a concatenation of encoded scalar values, and lossy transcoding replaces exactly the
 maximal subparts of what is not.
 */
module Scalars {
  import opened Bytes
  import opened Utf8

  /** Code points other than surrogates. */
  predicate Scalar(n: nat) {
    n < 0xD800 || 0xE000 <= n <= 0x10FFFF
  }

  /** The encoding of a scalar value in one to four bytes. */
  function EncodeScalar(n: nat): (s: seq<Byte>)
    requires Scalar(n)
    ensures 1 <= |s| <= 4
  {
    if n < 0x80 then [n]
    else if n < 0x800 then [0xC0 + n / 64, 0x80 + n % 64]
    else if n < 0x1_0000 then [0xE0 + n / 4096, 0x80 + n / 64 % 64, 0x80 + n % 64]
    else [0xF0 + n / 0x4_0000, 0x80 + n / 4096 % 64, 0x80 + n / 64 % 64, 0x80 + n % 64]
  }

  ghost predicate Scalars(ns: seq<nat>) {
    forall i :: 0 <= i < |ns| ==> Scalar(ns[i])
  }

  function EncodeText(ns: seq<nat>): seq<Byte>
    requires Scalars(ns)
  {
    if ns == [] then [] else EncodeScalar(ns[0]) + EncodeText(ns[1..])
  }

  // ---------- One scalar ----------

  /** The value that well-formed leading bytes stand for. */
  function HeadScalar(s: seq<Byte>): int
    requires s != [] && WellFormedHead(s)
  {
    if Need(s[0]) == 1 then s[0]
    else if Need(s[0]) == 2 then Two(s[0], s[1])
    else if Need(s[0]) == 3 then Three(s[0], s[1], s[2])
    else Four(s[0], s[1], s[2], s[3])
  }

  function Two(a: int, b: int): int {
    64 * (a - 0xC0) + (b - 0x80)
  }

  function Three(a: int, b: int, c: int): int {
    4096 * (a - 0xE0) + 64 * (b - 0x80) + (c - 0x80)
  }

  function Four(a: int, b: int, c: int, d: int): int {
    0x4_0000 * (a - 0xF0) + 4096 * (b - 0x80) + 64 * (c - 0x80) + (d - 0x80)
  }

  /** Well-formed leading bytes are the encoding of the value they stand for. */
  lemma HeadIsEncoded(s: seq<Byte>)
    requires s != [] && WellFormedHead(s)
    ensures HeadScalar(s) >= 0 && Scalar(HeadScalar(s)) && EncodeScalar(HeadScalar(s)) == s[..HeadLength(s)]
  {
    var k := Need(s[0]);
    if k == 2 {
      TwoDigits(s[0], s[1]);
    } else if k == 3 {
      ThreeDigits(s[0], s[1], s[2]);
    } else if k == 4 {
      FourDigits(s[0], s[1], s[2], s[3]);
    }
  }

  lemma TwoDigits(a: int, b: int)
    requires 0xC0 <= a <= 0xDF && 0x80 <= b <= 0xBF
    ensures Two(a, b) / 64 == a - 0xC0 && Two(a, b) % 64 == b - 0x80
  {
  }

  lemma ThreeDigits(a: int, b: int, c: int)
    requires 0xE0 <= a <= 0xEF && 0x80 <= b <= 0xBF && 0x80 <= c <= 0xBF
    ensures var n := Three(a, b, c); n / 4096 == a - 0xE0 && n / 64 % 64 == b - 0x80 && n % 64 == c - 0x80
  {
    assert Three(a, b, c) / 64 == 64 * (a - 0xE0) + (b - 0x80);
  }

  lemma FourDigits(a: int, b: int, c: int, d: int)
    requires 0xF0 <= a <= 0xF4 && 0x80 <= b <= 0xBF && 0x80 <= c <= 0xBF && 0x80 <= d <= 0xBF
    ensures var n := Four(a, b, c, d);
      && n / 0x4_0000 == a - 0xF0 && n / 4096 % 64 == b - 0x80
      && n / 64 % 64 == c - 0x80 && n % 64 == d - 0x80
  {
    var n := Four(a, b, c, d);
    assert n / 64 == 4096 * (a - 0xF0) + 64 * (b - 0x80) + (c - 0x80);
    assert n / 4096 == 64 * (a - 0xF0) + (b - 0x80);
  }

  /** And an encoded scalar value is always a well-formed head, whatever follows. */
  lemma EncodedIsHead(n: nat, rest: seq<Byte>)
    requires Scalar(n)
    ensures var s := EncodeScalar(n) + rest;
      WellFormedHead(s) && HeadLength(s) == |EncodeScalar(n)| && s[HeadLength(s)..] == rest
  {
    var s := EncodeScalar(n) + rest;
    assert s[..|EncodeScalar(n)|] == EncodeScalar(n);
    if n < 0x80 {
    } else if n < 0x800 {
      assert 2 <= n / 64 < 32;
    } else if n < 0x1_0000 {
      assert n / 4096 < 16 && n / 64 % 64 < 64;
      assert n / 64 == 64 * (n / 4096) + n / 64 % 64;
    } else {
      assert 0 <= n / 0x4_0000 <= 4;
      assert n / 4096 == 64 * (n / 0x4_0000) + n / 4096 % 64;
    }
  }

  // ---------- Text ----------

  lemma {:induction false} EncodedTextIsValid(ns: seq<nat>)
    requires Scalars(ns)
    ensures Valid(EncodeText(ns))
  {
    hide WellFormedHead, HeadLength, EncodeScalar;
    if ns != [] {
      EncodedTextIsValid(ns[1..]);
      EncodedIsHead(ns[0], EncodeText(ns[1..]));
    }
  }

  lemma {:induction false} ValidTextIsEncoded(s: seq<Byte>) returns (ns: seq<nat>)
    requires Valid(s)
    ensures Scalars(ns) && EncodeText(ns) == s
    decreases |s|
  {
    hide WellFormedHead, HeadLength, EncodeScalar, HeadScalar, Scalar;
    if s == [] {
      ns := [];
    } else {
      HeadIsEncoded(s);
      var rest := ValidTextIsEncoded(s[HeadLength(s)..]);
      ns := [HeadScalar(s)] + rest;
      assert ns[1..] == rest;
      assert s == s[..HeadLength(s)] + s[HeadLength(s)..];
    }
  }

  /** Text is valid if and only if it encodes some sequence of scalar values. */
  lemma ValidExactlyEncodedText(s: seq<Byte>)
    ensures Valid(s) <==> exists ns :: Scalars(ns) && EncodeText(ns) == s
  {
    hide Valid, EncodeText, Scalars;
    if Valid(s) {
      var ns := ValidTextIsEncoded(s);
      assert Scalars(ns) && EncodeText(ns) == s;
    }
    if exists ns :: Scalars(ns) && EncodeText(ns) == s {
      var ns :| Scalars(ns) && EncodeText(ns) == s;
      EncodedTextIsValid(ns);
    }
  }

  // ---------- Replacement ----------

  /** The bytes put in place of an ill-formed part are U+FFFD. */
  lemma ReplacementIsFFFD()
    ensures REPLACEMENT == EncodeScalar(0xFFFD)
  {
    assert 0xFFFD / 4096 == 15 && 0xFFFD / 64 % 64 == 63 && 0xFFFD % 64 == 61;
  }

  /** `p` could still become an encoded scalar value. */
  ghost predicate Begins(p: seq<Byte>) {
    exists n: nat :: Scalar(n) && p < EncodeScalar(n)
  }

  /**
   The part that is replaced is maximal: it begins some encoding, or is a single byte, and one byte more
   neither begins nor is an encoding.
   */
  lemma ReplacedPartIsMaximal(s: seq<Byte>)
    requires s != [] && !WellFormedHead(s)
    ensures var k := HeadLength(s);
      && (k == 1 || Begins(s[..k]))
      && (k < |s| ==> !Begins(s[..k + 1]) && forall n: nat :: Scalar(n) ==> EncodeScalar(n) != s[..k + 1])
  {
    var k := HeadLength(s);
    if k > 1 {
      PartBegins(s);
    }
    if k < |s| {
      forall n: nat | Scalar(n) ensures !(s[..k + 1] <= EncodeScalar(n)) {
        if s[..k + 1] <= EncodeScalar(n) {
          SharedBytesMatch(s, n, k + 1);
        }
      }
    }
  }

  /** Two or three bytes that were matched begin the encoding that fills up with the lowest continuation. */
  lemma PartBegins(s: seq<Byte>)
    requires s != [] && !WellFormedHead(s) && HeadLength(s) > 1
    ensures Begins(s[..HeadLength(s)])
  {
    var k := HeadLength(s);
    var full := s[..k] + (if Need(s[0]) - k == 1 then [0x80] else [0x80, 0x80]);
    assert |full| == Need(s[0]) && Matched(full) == Need(s[0]);
    assert WellFormedHead(full);
    HeadIsEncoded(full);
    assert full[..HeadLength(full)] == full;
    assert s[..k] < full;
    assert Begins(s[..k]);
  }

  /** Bytes shared with an encoded scalar value are matched. */
  lemma SharedBytesMatch(s: seq<Byte>, n: nat, m: nat)
    requires Scalar(n) && 1 <= m <= |s| && s[..m] <= EncodeScalar(n)
    ensures Matched(s) >= m
  {
    var e := EncodeScalar(n);
    EncodedIsHead(n, []);
    assert e + [] == e;
    hide EncodeScalar;
    assert forall i :: 0 <= i < m ==> e[i] == s[..m][i] == s[i];
  }

  /** Transcoding replaces an ill-formed part by U+FFFD and keeps every encoded scalar value. */
  lemma LossyByParts(s: seq<Byte>)
    requires s != []
    ensures var k := HeadLength(s);
      Lossy(s) == (if WellFormedHead(s) then s[..k] else EncodeScalar(0xFFFD)) + Lossy(s[k..])
  {
    ReplacementIsFFFD();
    hide EncodeScalar;
  }

  /** Lossy decoding of a text is its transcoding, also when there is nothing to replace. */
  lemma LossyDecodingIsTranscoding(s: seq<Byte>)
    ensures DecodeText(s, Lossily) == Some(Lossy(s))
    ensures DecodeText(s, Strict) == if Valid(s) then Some(s) else None
  {
    LossyFixesValid(s);
  }
}
