/**
 UTF-8 well-formedness (section 4 of RFC 3629), lossy transcoding that replaces each maximal subpart
 of an ill-formed sequence (section 3.9 of the Unicode Standard), and how both behave at boundaries.
 */
module Utf8 {
  import opened Bytes

  const REPLACEMENT: seq<Byte> := [0xEF, 0xBF, 0xBD]

  predicate Continuation(b: Byte) {
    0x80 <= b <= 0xBF
  }

  /** How many bytes a sequence with this lead byte has; 0 for a byte that cannot lead. */
  function Need(lead: Byte): nat {
    if lead <= 0x7F then 1
    else if 0xC2 <= lead <= 0xDF then 2
    else if 0xE0 <= lead <= 0xEF then 3
    else if 0xF0 <= lead <= 0xF4 then 4
    else 0
  }

  /** The second bytes a lead byte admits, which rule out overlong forms, surrogates and values too large. */
  predicate Second(lead: Byte, b: Byte) {
    if lead == 0xE0 then 0xA0 <= b <= 0xBF
    else if lead == 0xED then 0x80 <= b <= 0x9F
    else if lead == 0xF0 then 0x90 <= b <= 0xBF
    else if lead == 0xF4 then 0x80 <= b <= 0x8F
    else Continuation(b)
  }

  /** How many leading bytes of `s` can begin one well-formed sequence. */
  function Matched(s: seq<Byte>): (n: nat)
    requires s != []
    ensures n <= Need(s[0]) && n <= |s|
  {
    var need := Need(s[0]);
    if need <= 1 then need
    else if |s| < 2 || !Second(s[0], s[1]) then 1
    else if need == 2 then 2
    else if |s| < 3 || !Continuation(s[2]) then 2
    else if need == 3 then 3
    else if |s| < 4 || !Continuation(s[3]) then 3
    else 4
  }

  /** `s` begins with a well-formed sequence. */
  predicate WellFormedHead(s: seq<Byte>)
    requires s != []
  {
    Need(s[0]) > 0 && Matched(s) == Need(s[0])
  }

  /** The length of the first well-formed sequence or maximal ill-formed subpart. */
  function HeadLength(s: seq<Byte>): (n: nat)
    requires s != []
    ensures 1 <= n <= |s|
  {
    if Matched(s) == 0 then 1 else Matched(s)
  }

  predicate Valid(s: seq<Byte>)
    decreases |s|
  {
    s == [] || (WellFormedHead(s) && Valid(s[HeadLength(s)..]))
  }

  function TranscodedHead(s: seq<Byte>): seq<Byte>
    requires s != []
  {
    if WellFormedHead(s) then s[..HeadLength(s)] else REPLACEMENT
  }

  function Lossy(s: seq<Byte>): (t: seq<Byte>)
    decreases |s|
  {
    if s == [] then []
    else TranscodedHead(s) + Lossy(s[HeadLength(s)..])
  }

  // ---------- Boundaries ----------

  /** A position that a decoder may be restarted at: the end, or a byte that continues nothing. */
  predicate Boundary(s: seq<Byte>) {
    s == [] || !Continuation(s[0])
  }

  /** What follows a boundary never joins the sequence before it. */
  lemma HeadStopsAtBoundary(a: seq<Byte>, b: seq<Byte>)
    requires a != [] && Boundary(b)
    ensures Matched(a + b) == Matched(a)
    ensures WellFormedHead(a + b) == WellFormedHead(a) && HeadLength(a + b) == HeadLength(a)
  {
    var s := a + b;
    assert forall i :: 0 <= i < |a| ==> s[i] == a[i];
    if b != [] { assert s[|a|] == b[0]; }
  }

  lemma {:induction false} ValidSplitsAtBoundary(a: seq<Byte>, b: seq<Byte>)
    requires Boundary(b)
    ensures Valid(a + b) <==> Valid(a) && Valid(b)
    decreases |a|
  {
    hide WellFormedHead, HeadLength;
    if a == [] {
      assert a + b == b;
    } else {
      HeadStopsAtBoundary(a, b);
      var n := HeadLength(a);
      assert (a + b)[n..] == a[n..] + b;
      ValidSplitsAtBoundary(a[n..], b);
    }
  }

  lemma AppendAssociates(x: seq<Byte>, y: seq<Byte>, z: seq<Byte>)
    ensures x + (y + z) == (x + y) + z
  {
  }

  lemma {:induction false} LossySplitsAtBoundary(a: seq<Byte>, b: seq<Byte>)
    requires Boundary(b)
    ensures Lossy(a + b) == Lossy(a) + Lossy(b)
    decreases |a|
  {
    hide WellFormedHead, HeadLength;
    if a == [] {
      assert a + b == b;
    } else {
      HeadStopsAtBoundary(a, b);
      var n := HeadLength(a);
      assert (a + b)[n..] == a[n..] + b && (a + b)[..n] == a[..n];
      assert TranscodedHead(a + b) == TranscodedHead(a);
      LossySplitsAtBoundary(a[n..], b);
      AppendAssociates(TranscodedHead(a), Lossy(a[n..]), Lossy(b));
    }
  }

  lemma ValidStartsAtBoundary(s: seq<Byte>)
    requires Valid(s)
    ensures Boundary(s)
  {
  }

  // ---------- Lossy transcoding ----------

  lemma WellFormedHeadAlone(s: seq<Byte>)
    requires s != [] && WellFormedHead(s)
    ensures Valid(s[..HeadLength(s)])
  {
    var h := s[..HeadLength(s)];
    assert HeadLength(h) == |h| && h[|h|..] == [];
  }

  lemma TranscodedHeadIsValid(s: seq<Byte>)
    requires s != []
    ensures Valid(TranscodedHead(s))
  {
    if WellFormedHead(s) {
      WellFormedHeadAlone(s);
    } else {
      assert HeadLength(REPLACEMENT) == 3 && REPLACEMENT[3..] == [];
    }
  }

  /** Transcoded text is always valid. */
  lemma {:induction false} LossyIsValid(s: seq<Byte>)
    ensures Valid(Lossy(s))
    decreases |s|
  {
    hide WellFormedHead, TranscodedHead;
    if s != [] {
      var rest := s[HeadLength(s)..];
      LossyIsValid(rest);
      TranscodedHeadIsValid(s);
      ValidStartsAtBoundary(Lossy(rest));
      ValidSplitsAtBoundary(TranscodedHead(s), Lossy(rest));
    }
  }

  /** Transcoding leaves exactly the valid texts alone. */
  lemma {:induction false} LossyFixesValid(s: seq<Byte>)
    ensures Lossy(s) == s <==> Valid(s)
    decreases |s|
  {
    if Valid(s) && s != [] {
      var n := HeadLength(s);
      assert Valid(s[n..]) && Lossy(s) == s[..n] + Lossy(s[n..]);
      LossyFixesValid(s[n..]);
      hide Lossy, Valid;
      assert s == s[..n] + s[n..];
    } else if Lossy(s) == s {
      LossyIsValid(s);
    }
  }

  lemma IllFormedIsNulFree(s: seq<Byte>)
    requires s != [] && !WellFormedHead(s)
    ensures 0 !in s[..HeadLength(s)]
  {
  }

  /** No replacement introduces a NUL, and no NUL is ever replaced. */
  lemma {:induction false} LossyKeepsNulFree(s: seq<Byte>)
    ensures 0 in Lossy(s) <==> 0 in s
    decreases |s|
  {
    if s != [] {
      var n := HeadLength(s);
      LossyKeepsNulFree(s[n..]);
      assert s == s[..n] + s[n..];
      if !WellFormedHead(s) {
        IllFormedIsNulFree(s);
      }
    }
  }

  /** `transcode_utf8_lossy`: one pass sizes the text exactly, the second pass builds it. */
  method TranscodeLossy(bytes: seq<Byte>) returns (text: seq<Byte>, reserved: nat)
    ensures text == Lossy(bytes)
    ensures reserved == |text|
  {
    reserved := 0;
    var rest := bytes;
    while rest != []
      invariant reserved + |Lossy(rest)| == |Lossy(bytes)|
      decreases |rest|
    {
      reserved := reserved + (if WellFormedHead(rest) then HeadLength(rest) else |REPLACEMENT|);
      rest := rest[HeadLength(rest)..];
    }
    text, rest := [], bytes;
    while rest != []
      invariant text + Lossy(rest) == Lossy(bytes)
      decreases |rest|
    {
      AppendAssociates(text, TranscodedHead(rest), Lossy(rest[HeadLength(rest)..]));
      text := text + TranscodedHead(rest);
      rest := rest[HeadLength(rest)..];
    }
  }

  datatype Encoding = Strict | Lossily

  /** `decode_utf8`: valid text as it stands, otherwise an error or its transcoding. */
  function DecodeText(bytes: seq<Byte>, encoding: Encoding): (r: Option<seq<Byte>>)
    ensures r.Some? <==> Valid(bytes) || encoding.Lossily?
  {
    if Valid(bytes) then Some(bytes)
    else if encoding.Strict? then None
    else Some(Lossy(bytes))
  }
}
