/** How good the compressor is: which tokens it picks, when it compresses, and by how much. */
module LzQuality {
  import opened Bytes
  import opened LzTokens
  import opened LzEncoder
  import opened LzReference
  import opened ByteLaws
  import LzDecoder

  // ---------- The choice of a token ----------

  lemma {:induction false} MatchIsMaximal(body: seq<Byte>, a: nat, b: nat, limit: nat)
    requires a < b && b + limit <= |body|
    ensures var n := MatchLength(body, a, b, limit); n < limit ==> body[a + n] != body[b + n]
    decreases limit
  {
    if limit > 0 && body[a] == body[b] {
      MatchIsMaximal(body, a + 1, b + 1, limit - 1);
    }
  }

  /** The window knows an earlier place with the pair that comes next, and enough bytes remain for a run. */
  ghost predicate PairRepeats(body: seq<Byte>, w: Window)
    requires WellFormed(w) && w.out < body
  {
    var o := |w.out|;
    && |body| - o >= 3
    && Xor(body[o], body[o + 1]) in w.slots
    && (var source := w.slots[Xor(body[o], body[o + 1])];
        source + 2 <= o && body[source] == body[o] && body[source + 1] == body[o + 1])
  }

  /**
   A back-reference is chosen exactly when the pair that comes next repeats at its slot, and then covers as
   much as it can: up to 257 bytes, the end of the body, or the first byte that differs.
   */
  lemma ChoosesLongestRun(body: seq<Byte>, w: Window)
    requires WellFormed(w) && w.out < body
    ensures Choose(body, w).Backref? <==> PairRepeats(body, w)
    ensures Choose(body, w).Literal? ==> Choose(body, w).value == body[|w.out|]
    ensures Choose(body, w).Backref? ==>
      var t, o := Choose(body, w), |w.out|;
      var source, n := w.slots[t.hash], Length(t);
      && t.hash == Xor(body[o], body[o + 1]) && o + n <= |body|
      && body[source..source + n] == body[o..o + n]
      && (n == 257 || o + n == |body| || body[source + n] != body[o + n])
  {
    hide Xor, MatchLength, SlotsNamePairs;
    var t, o := Choose(body, w), |w.out|;
    if t.Backref? {
      ChosenPairRepeats(body, w);
      ChosenRunRepeats(body, w);
      MatchIsMaximal(body, w.slots[t.hash] + 2, o + 2, RunLimit(|body| - o));
    }
  }

  // ---------- When a frame is compressed ----------

  /** The compressor changes a frame exactly when it is long enough and its tokens fit, and then shortens it. */
  lemma CompressesExactlyWhatFits(frame: seq<Byte>)
    ensures Compressed(frame) != frame <==> |frame| >= 2000 && Fits(Greedy(frame[8..], EMPTY), |frame|)
    ensures Compressed(frame) != frame ==> |Compressed(frame)| <= |frame| / 2
  {
    if |frame| >= 2000 {
      var ts := Greedy(frame[8..], EMPTY);
      hide Greedy;
      if Fits(ts, |frame|) {
        FittingIsHalf(ts, |frame|);
      }
    }
  }

  /** The length prefix takes four bytes exactly when 32 bits hold the length, and eight otherwise. */
  lemma PrefixIsExact(total: nat)
    ensures PrefixLength(total) == 4 <==> total < Pow2(32)
    ensures PrefixLength(total) == 8 <==> total >= Pow2(32)
  {
    Limits();
    hide Pow2;
  }

  lemma {:induction false} FittingIsHalf(ts: seq<Token>, total: nat)
    requires total >= 2000 && Fits(ts, total)
    ensures 8 + PrefixLength(total) + |Layout(ts)| <= total / 2
  {
    hide Layout;
    if ts != [] {
      var m := (|ts| - 1) / 8 * 8;
      assert ts == ts[..m] + ts[m..];
      LayoutLength(ts);
      LayoutLength(ts[..m]);
      BackrefsConcat(ts[..m], ts[m..]);
    } else {
      LayoutLength(ts);
      assert Backrefs(ts) == 0;
    }
  }

  // ---------- Frames of one repeated byte ----------

  ghost predicate Constant(body: seq<Byte>, b: Byte) {
    forall i :: 0 <= i < |body| ==> body[i] == b
  }

  lemma {:induction false} ConstantMatches(body: seq<Byte>, b: Byte, a: nat, c: nat, limit: nat)
    requires Constant(body, b) && a < c && c + limit <= |body|
    ensures MatchLength(body, a, c, limit) == limit
    decreases limit
  {
    if limit > 0 {
      ConstantMatches(body, b, a + 1, c + 1, limit - 1);
    }
  }

  /** Once the pair is known, each token but the last two covers 257 bytes. */
  lemma {:induction false} ConstantTokens(body: seq<Byte>, b: Byte, w: Window)
    requires Constant(body, b) && WellFormed(w) && w.out <= body && 0 in w.slots
    ensures |Greedy(body, w)| <= (|body| - |w.out|) / 257 + 2
    decreases |body| - |w.out|
  {
    var o := |w.out|;
    if o < |body| {
      ChooseContinuesBody(body, w);
      var t := Choose(body, w);
      var next := Emit(w, t).value;
      assert |Greedy(body, w)| == 1 + |Greedy(body, next)|;
      KeepsHash(w, t);
      ConstantTokens(body, b, next);
      ConstantChoice(body, b, w);
      TokenAppends(w, t);
    }
  }

  lemma KeepsHash(w: Window, t: Token)
    requires WellFormed(w) && Emit(w, t).Some? && 0 in w.slots
    ensures 0 in Emit(w, t).value.slots
  {
    hide Xor, Copied;
    var next := Emit(w, t).value;
    HashesOnlyGrow(w.slots, next.out, w.hashed, if t.Literal? then |next.out| - 1 else |w.out| + 1);
  }

  lemma {:induction false} HashesOnlyGrow(slots: map<Byte, nat>, out: seq<Byte>, lo: nat, hi: nat)
    requires lo < hi ==> hi < |out|
    ensures slots.Keys <= HashPairs(slots, out, lo, hi).Keys
    decreases hi
  {
    hide Xor;
    if lo < hi {
      HashesOnlyGrow(slots, out, lo, hi - 1);
    }
  }

  lemma ConstantChoice(body: seq<Byte>, b: Byte, w: Window)
    requires Constant(body, b) && WellFormed(w) && w.out < body && 0 in w.slots
    ensures var left := |body| - |w.out|;
      Length(Choose(body, w)) == if left < 3 then 1 else if left < 257 then left else 257
  {
    hide Xor, MatchLength;
    var o := |w.out|;
    if |body| - o >= 3 {
      XorSelf(b);
      assert Xor(body[o], body[o + 1]) == 0;
      var source := w.slots[0];
      assert source + 2 <= |w.out|;
      ConstantMatches(body, b, source + 2, o + 2, RunLimit(|body| - o));
    }
  }

  /** Two literals make the pair known. */
  lemma ConstantStart(body: seq<Byte>, b: Byte)
    requires Constant(body, b) && |body| >= 5
    ensures |Greedy(body, EMPTY)| <= (|body| - 2) / 257 + 4
  {
    hide Xor;
    var w1 := Emit(EMPTY, Literal(b)).value;
    assert Choose(body, EMPTY) == Literal(b) && w1.out == [b] && w1.slots == map[] && w1.hashed == 0;
    ChooseContinuesBody(body, EMPTY);
    assert |Greedy(body, EMPTY)| == 1 + |Greedy(body, w1)|;
    SecondLiteral(body, b, w1);
  }

  lemma SecondLiteral(body: seq<Byte>, b: Byte, w: Window)
    requires Constant(body, b) && |body| >= 5
    requires w == Window([b], map[], 0) && WellFormed(w) && w.out <= body
    ensures |Greedy(body, w)| <= (|body| - 2) / 257 + 3
  {
    hide Xor;
    var next := Emit(w, Literal(b)).value;
    assert Choose(body, w) == Literal(b) && next.out == [b, b];
    XorSelf(b);
    HashOne(w.slots, next.out, 0);
    assert 0 in next.slots;
    ChooseContinuesBody(body, w);
    assert |Greedy(body, w)| == 1 + |Greedy(body, next)|;
    ConstantTokens(body, b, next);
  }

  /** Every long frame of one repeated byte is compressed, to about a hundred and twentieth of its length. */
  lemma ConstantFramesShrink(frame: seq<Byte>, b: Byte)
    requires |frame| >= 2000 && Constant(frame[8..], b)
    ensures Compressed(frame) != frame
    ensures |Compressed(frame)| <= 30 + |frame| / 120
  {
    hide Greedy, Layout;
    var ts := Greedy(frame[8..], EMPTY);
    ConstantStart(frame[8..], b);
    FewTokensFit(ts, |frame|);
    CompressesExactlyWhatFits(frame);
  }

  lemma {:induction false} FewTokensFit(ts: seq<Token>, total: nat)
    requires total >= 2000 && |ts| <= (total - 10) / 257 + 4
    ensures Fits(ts, total) && 8 + PrefixLength(total) + |Layout(ts)| <= 30 + total / 120
  {
    hide Layout;
    LayoutLength(ts);
    if ts != [] {
      LayoutLength(ts[..(|ts| - 1) / 8 * 8]);
    }
  }

  // ---------- Known payloads ----------

  /** The text "ababab" as two literals and a back-reference to the very start of the output. */
  lemma KnownBackref()
    ensures LzDecoder.Decompressed([14, 0, 0, 0, 4, 97, 98, 3, 2], 4, 6) == Ok([97, 98, 97, 98, 97, 98])
  {
    var w1 := Emit(EMPTY, Literal(97)).value;
    assert w1 == Window([97], map[], 0);
    KnownSecond(w1);
    var w2 := Emit(w1, Literal(98)).value;
    KnownRun(w2);
    KnownFlags();
    var vec: seq<Byte> := [14, 0, 0, 0, 4, 97, 98, 3, 2];
    assert vec[..4] == [14, 0, 0, 0];
    FourBytes(vec[..4]);
    var p: seq<Byte> := [4, 97, 98, 3, 2];
    assert vec[4..] == p;
    KnownSteps(p, w1, w2, Emit(w2, Backref(3, 2)).value);
  }

  lemma KnownSecond(w: Window)
    requires w == Window([97], map[], 0) && WellFormed(w)
    ensures Emit(w, Literal(98)) == Some(Window([97, 98], map[3 := 0], 1))
  {
    hide Xor;
    var next := Emit(w, Literal(98)).value;
    assert next.out == [97, 98];
    KnownHash();
    HashOne(w.slots, next.out, 0);
  }

  lemma KnownHash()
    ensures Xor(97, 98) == 3
  {
    assert XorBits(97 / 16, 98 / 16, 4) == 0;
  }

  lemma KnownRun(w: Window)
    requires w == Window([97, 98], map[3 := 0], 1) && WellFormed(w)
    ensures Emit(w, Backref(3, 2)).Some? && Emit(w, Backref(3, 2)).value.out == [97, 98, 97, 98, 97, 98]
  {
    TokenAppends(w, Backref(3, 2));
    var out := Emit(w, Backref(3, 2)).value.out;
    assert out[2] == out[0] && out[3] == out[1] && out[4] == out[2] && out[5] == out[3];
    assert out[..2] == [97, 98];
  }

  lemma KnownFlags()
    ensures !Bit(4, 0) && !Bit(4, 1) && Bit(4, 2)
  {
  }

  lemma KnownSteps(p: seq<Byte>, w1: Window, w2: Window, w3: Window)
    requires p == [4, 97, 98, 3, 2]
    requires Emit(EMPTY, Literal(97)) == Some(w1) && WellFormed(w1) && |w1.out| == 1
    requires Emit(w1, Literal(98)) == Some(w2) && WellFormed(w2) && |w2.out| == 2 && 3 in w2.slots
    requires Emit(w2, Backref(3, 2)) == Some(w3) && WellFormed(w3) && |w3.out| == 6
    requires !Bit(4, 0) && !Bit(4, 1) && Bit(4, 2)
    ensures LzDecoder.DecodeFrom(p, 0, 8, EMPTY, 6) == Ok(w3.out)
  {
    hide Xor, Emit, Bit;
    assert p[1..] == [97, 98, 3, 2] && p[1..][1..] == [98, 3, 2] && p[1..][1..][1..] == [3, 2];
    assert p[1..][1..][1..][2..] == [];
    assert LzDecoder.DecodeFrom([], 4, 3, w3, 6) == Ok(w3.out);
    assert LzDecoder.DecodeFrom([3, 2], 4, 2, w2, 6) == LzDecoder.DecodeFrom([], 4, 3, w3, 6);
  }
}
