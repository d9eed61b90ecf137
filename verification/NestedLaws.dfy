/** Offsets cut concatenated children apart again: which part of a decoded nested list is which child. */
module NestedLaws {
  import opened Bytes
  import opened NestedDecoder
  import T = TextColumns

  /** Each offset is the one before it and the count of the child between them. */
  lemma {:induction false} OffsetsAreCumulative(cs: seq<Child>, i: nat)
    requires i < |cs|
    ensures OffsetsOf(cs)[i + 1] == OffsetsOf(cs)[i] + cs[i].count
    ensures OffsetsOf(cs)[i + 1] <= Total(cs)
    decreases |cs|
  {
    var init, last := cs[..|cs| - 1], cs[|cs| - 1];
    assert init + [last] == cs;
    PayloadsAppend(init, last);
    if i < |init| {
      OffsetsAreCumulative(init, i);
    }
  }

  ghost predicate OfWidth(cs: seq<Child>, width: nat) {
    forall i :: 0 <= i < |cs| ==> |cs[i].payload| == width * cs[i].count
  }

  lemma {:induction false} PayloadLength(cs: seq<Child>, width: nat)
    requires OfWidth(cs, width)
    ensures |Payloads(cs)| == ByteAt(width, Total(cs))
  {
    if cs != [] {
      var init, last := cs[..|cs| - 1], cs[|cs| - 1];
      PayloadLength(init, width);
      Distribute(width, Total(init), last.count);
    }
  }

  lemma Distribute(w: nat, a: nat, b: nat)
    ensures w * (a + b) == w * a + w * b
  {
  }

  /** Where the element with this index starts. */
  function ByteAt(width: nat, index: nat): nat {
    width * index
  }

  /** The bytes between two scaled offsets are the payload of the child between them. */
  lemma {:induction false} PayloadBetweenOffsets(cs: seq<Child>, width: nat, i: nat)
    requires OfWidth(cs, width) && i < |cs|
    ensures var lo, hi := ByteAt(width, OffsetsOf(cs)[i]), ByteAt(width, OffsetsOf(cs)[i + 1]);
      lo <= hi <= |Payloads(cs)| && Payloads(cs)[lo..hi] == cs[i].payload
    decreases |cs|
  {
    var init, last, n := cs[..|cs| - 1], cs[|cs| - 1], |cs| - 1;
    var b := OffsetsOf(cs);
    assert b == OffsetsOf(init) + [Total(cs)] && b[n] == Total(init) && b[n + 1] == Total(cs);
    assert Payloads(cs) == Payloads(init) + last.payload;
    hide Payloads, OffsetsOf, Total, ByteAt;
    PayloadLength(cs, width);
    PayloadLength(init, width);
    if i < n {
      PayloadBetweenOffsets(init, width, i);
      PrefixSlice(Payloads(init), last.payload, ByteAt(width, b[i]), ByteAt(width, b[i + 1]));
    } else {
      SuffixSlice(Payloads(init), last.payload);
    }
  }

  lemma PrefixSlice(p: seq<Byte>, q: seq<Byte>, lo: nat, hi: nat)
    requires lo <= hi <= |p|
    ensures (p + q)[lo..hi] == p[lo..hi]
  {
  }

  lemma SuffixSlice(p: seq<Byte>, q: seq<Byte>)
    ensures (p + q)[|p|..|p + q|] == q
  {
  }

  /** The symbols between two offsets are those of the child between them. */
  lemma {:induction false} SymbolsBetweenOffsets(cs: seq<Child>, i: nat)
    requires i < |cs| && forall c <- cs :: T.SplitSymbols(c.payload, c.count).Some?
    ensures |AllSymbols(cs)| == Total(cs) && OffsetsOf(cs)[i] <= OffsetsOf(cs)[i + 1] <= Total(cs)
    ensures cs[i] in cs
      && AllSymbols(cs)[OffsetsOf(cs)[i]..OffsetsOf(cs)[i + 1]] == T.SplitSymbols(cs[i].payload, cs[i].count).value
    decreases |cs|
  {
    hide T.SplitSymbols;
    var init, last := cs[..|cs| - 1], cs[|cs| - 1];
    assert last in cs && cs[i] in cs && init + [last] == cs;
    SymbolCount(cs);
    SymbolCount(init);
    OffsetsAreCumulative(cs, i);
    AllSymbolsAppend(init, last);
    assert OffsetsOf(cs) == OffsetsOf(init) + [Total(cs)];
    hide AllSymbols, OffsetsOf, Total;
    if i < |init| {
      SymbolsBetweenOffsets(init, i);
    }
  }

  lemma {:induction false} SymbolCount(cs: seq<Child>)
    requires forall c <- cs :: T.SplitSymbols(c.payload, c.count).Some?
    ensures |AllSymbols(cs)| == Total(cs)
  {
    hide T.SplitSymbols;
    if cs != [] {
      assert cs[|cs| - 1] in cs;
      SymbolCount(cs[..|cs| - 1]);
    }
  }
}
