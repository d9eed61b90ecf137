/** The q wire compressor, proved to produce only compressed forms of its input. */
module LzEncoder {
  import opened Bytes
  import opened LzTokens
  import LzDecoder

  /** The flag byte of a group: bit `j` is set exactly for a back-reference at index `j`. */
  function Flags(ts: seq<Token>): (n: nat)
    ensures n < Pow2(|ts|)
  {
    if ts == [] then 0 else (if ts[0].Backref? then 1 else 0) + 2 * Flags(ts[1..])
  }

  lemma {:induction false} FlagsAppend(ts: seq<Token>, t: Token)
    ensures Flags(ts + [t]) == Flags(ts) + (if t.Backref? then Pow2(|ts|) else 0)
  {
    if ts == [] {
      assert ([] + [t])[1..] == [];
    } else {
      assert (ts + [t])[1..] == ts[1..] + [t];
      FlagsAppend(ts[1..], t);
    }
  }

  lemma {:induction false} FlagsBits(ts: seq<Token>, j: nat)
    requires j < |ts|
    ensures Bit(Flags(ts), j) == ts[j].Backref?
    decreases |ts|
  {
    if j > 0 {
      FlagsBits(ts[1..], j - 1);
    }
  }

  lemma {:induction false} Pow2Monotone(a: nat, b: nat)
    requires a <= b
    ensures Pow2(a) <= Pow2(b)
    decreases b
  {
    if a < b {
      Pow2Monotone(a, b - 1);
    }
  }

  lemma FlagsByte(ts: seq<Token>)
    requires |ts| <= 8
    ensures Flags(ts) < 256
  {
    Pow2Monotone(|ts|, 8);
    assert Pow2(8) == 256 by { assert Pow2(4) == 16; }
  }

  /** A finished group: its flag byte followed by its units. */
  lemma GroupSpells(ts: seq<Token>, flags: Byte)
    requires 0 < |ts| <= 8 && flags == Flags(ts)
    ensures Spells([flags] + Units(ts), 0, 8, ts)
  {
    forall j | 0 <= j < |ts| ensures Bit(flags, 0 + j) == ts[j].Backref? {
      FlagsBits(ts, j);
    }
    UnitsSpell(flags, 0, ts);
    assert ([flags] + Units(ts))[1..] == Units(ts);
  }

  function Group(ts: seq<Token>): (g: seq<Byte>)
    requires |ts| <= 8
  {
    FlagsByte(ts);
    [Flags(ts)] + Units(ts)
  }

  /** The packed form of a token stream: groups of up to eight, each behind its flag byte. */
  function Layout(ts: seq<Token>): seq<Byte>
    decreases |ts|
  {
    if ts == [] then []
    else if |ts| <= 8 then Group(ts)
    else Group(ts[..8]) + Layout(ts[8..])
  }

  lemma {:induction false} LayoutSpells(ts: seq<Token>)
    ensures Spells(Layout(ts), 0, 8, ts)
    decreases |ts|
  {
    if ts == [] {
    } else if |ts| <= 8 {
      FlagsByte(ts);
      GroupSpells(ts, Flags(ts));
    } else {
      FlagsByte(ts[..8]);
      GroupSpells(ts[..8], Flags(ts[..8]));
      LayoutSpells(ts[8..]);
      SpellsConcat(Group(ts[..8]), 0, 8, ts[..8], Layout(ts[8..]), ts[8..]);
      assert ts[..8] + ts[8..] == ts;
    }
  }

  lemma {:induction false} LayoutAppend(done: seq<Token>, group: seq<Token>)
    requires |done| % 8 == 0 && 0 < |group| <= 8
    ensures Layout(done + group) == Layout(done) + Group(group)
    decreases |done|
  {
    hide Group;
    if done == [] {
      assert done + group == group;
    } else {
      assert (done + group)[..8] == done[..8] && (done + group)[8..] == done[8..] + group;
      LayoutAppend(done[8..], group);
      assert Layout(done) == Group(done[..8]) + Layout(done[8..]) by {
        if |done| == 8 { assert done[..8] == done && done[8..] == []; }
      }
    }
  }

  lemma LayoutLength(ts: seq<Token>)
    ensures |Layout(ts)| == |ts| + Backrefs(ts) + (|ts| + 7) / 8
  {
    LayoutSpells(ts);
    PayloadLength(Layout(ts), 0, 8, ts);
  }

  // ---------- The greedy choice of tokens ----------

  /** How many bytes match at `a` and `b`, counting at most `limit`. */
  function MatchLength(body: seq<Byte>, a: nat, b: nat, limit: nat): (n: nat)
    requires a < b && b + limit <= |body|
    ensures n <= limit
    decreases limit
  {
    if limit == 0 || body[a] != body[b] then 0
    else 1 + MatchLength(body, a + 1, b + 1, limit - 1)
  }

  /** The longest run one back-reference may cover beyond its first pair. */
  function RunLimit(remaining: nat): nat
    requires remaining >= 2
  {
    if remaining - 2 < 255 then remaining - 2 else 255
  }

  function Choose(body: seq<Byte>, w: Window): (t: Token)
    requires WellFormed(w) && w.out < body
  {
    var o := |w.out|;
    if |body| - o < 3 then Literal(body[o])
    else
      var h := Xor(body[o], body[o + 1]);
      if h !in w.slots || body[w.slots[h]] != body[o] then Literal(body[o])
      else
        Backref(h, MatchLength(body, w.slots[h] + 2, o + 2, RunLimit(|body| - o)))
  }

  /** Copying from an earlier position reproduces the body as far as the body repeats itself. */
  lemma {:induction false} CopiedMatches(body: seq<Byte>, source: nat, o: nat, count: nat)
    requires source < o && o + count <= |body|
    requires body[source..source + count] == body[o..o + count]
    ensures Copied(body[..o], source, count) == body[..o + count]
    decreases count
  {
    if count > 0 {
      assert body[source..source + count][count - 1] == body[o..o + count][count - 1];
      assert body[source..source + count][..count - 1] == body[o..o + count][..count - 1];
      assert body[source..source + count - 1] == body[source..source + count][..count - 1];
      assert body[o..o + count - 1] == body[o..o + count][..count - 1];
      CopiedMatches(body, source, o, count - 1);
    }
  }

  lemma {:induction false} MatchLengthMatches(body: seq<Byte>, a: nat, b: nat, limit: nat)
    requires a < b && b + limit <= |body|
    ensures var n := MatchLength(body, a, b, limit); body[a..a + n] == body[b..b + n]
    decreases limit
  {
    if limit > 0 && body[a] == body[b] {
      MatchLengthMatches(body, a + 1, b + 1, limit - 1);
      var n := MatchLength(body, a, b, limit);
      assert body[a..a + n] == [body[a]] + body[a + 1..a + n];
      assert body[b..b + n] == [body[b]] + body[b + 1..b + n];
    }
  }

  /** The second byte of a chosen pair matches too, because the hashes and first bytes agree. */
  lemma ChosenPairRepeats(body: seq<Byte>, w: Window)
    requires WellFormed(w) && w.out < body && Choose(body, w).Backref?
    ensures var source := w.slots[Choose(body, w).hash];
      source + 2 <= |w.out| && body[source] == body[|w.out|] && body[source + 1] == body[|w.out| + 1]
  {
    var h := Choose(body, w).hash;
    var source := w.slots[h];
    assert w.out == body[..|w.out|];
    assert Xor(w.out[source], w.out[source + 1]) == h;
    XorCancels(body[source], body[|w.out| + 1], body[source + 1]);
  }

  lemma PairThenRun(body: seq<Byte>, a: nat, b: nat, n: nat)
    requires a < b && b + 2 + n <= |body|
    requires body[a] == body[b] && body[a + 1] == body[b + 1]
    requires body[a + 2..a + 2 + n] == body[b + 2..b + 2 + n]
    ensures body[a..a + (n + 2)] == body[b..b + (n + 2)]
  {
    assert body[a..a + (n + 2)] == [body[a], body[a + 1]] + body[a + 2..a + 2 + n];
    assert body[b..b + (n + 2)] == [body[b], body[b + 1]] + body[b + 2..b + 2 + n];
  }

  lemma ChosenRunRepeats(body: seq<Byte>, w: Window)
    requires WellFormed(w) && w.out < body && Choose(body, w).Backref?
    ensures var t, o := Choose(body, w), |w.out|;
      var source, count: nat := w.slots[t.hash], t.extra + 2;
      o + count <= |body| && body[source..source + count] == body[o..o + count]
  {
    hide Xor, MatchLength, SlotsNamePairs;
    var t, o := Choose(body, w), |w.out|;
    ChosenPairRepeats(body, w);
    var source := w.slots[t.hash];
    MatchLengthMatches(body, source + 2, o + 2, RunLimit(|body| - o));
    PairThenRun(body, source, o, t.extra);
  }

  /** Whatever the greedy encoder chooses, expanding it continues the body. */
  lemma ChooseContinuesBody(body: seq<Byte>, w: Window)
    requires WellFormed(w) && w.out < body
    ensures Emit(w, Choose(body, w)).Some?
    ensures Emit(w, Choose(body, w)).value.out <= body
  {
    hide Xor;
    var t, o := Choose(body, w), |w.out|;
    assert w.out == body[..o];
    if t.Literal? {
      assert w.out + [body[o]] == body[..o + 1];
    } else {
      ChosenRunRepeats(body, w);
      CopiedMatches(body, w.slots[t.hash], o, t.extra + 2);
    }
  }

  function Greedy(body: seq<Byte>, w: Window): (ts: seq<Token>)
    requires WellFormed(w) && w.out <= body
    decreases |body| - |w.out|
  {
    if |w.out| == |body| then []
    else
      var t := Choose(body, w);
      ChooseContinuesBody(body, w);
      [t] + Greedy(body, Emit(w, t).value)
  }

  lemma {:induction false} GreedyExpands(body: seq<Byte>, w: Window)
    requires WellFormed(w) && w.out <= body
    ensures Expand(w, Greedy(body, w)).Some?
    ensures Expand(w, Greedy(body, w)).value.out == body
    decreases |body| - |w.out|
  {
    if |w.out| < |body| {
      var t := Choose(body, w);
      ChooseContinuesBody(body, w);
      GreedyExpands(body, Emit(w, t).value);
      assert Greedy(body, w)[1..] == Greedy(body, Emit(w, t).value);
    }
  }

  // ---------- The compressed frame ----------

  function PrefixLength(total: nat): nat {
    if total > U32_MAX then 8 else 4
  }

  /** The last group starts at least 17 bytes before the end of a scratch buffer of half the frame. */
  predicate Fits(ts: seq<Token>, total: nat) {
    |ts| > 0 ==>
      8 + PrefixLength(total) + |Layout(ts[..(|ts| - 1) / 8 * 8])| + 17 <= total / 2
  }

  /** A compressed frame around `payload`, for an uncompressed frame of `total` bytes. */
  function Framed(first: Byte, kind: Byte, total: nat, payload: seq<Byte>): (c: seq<Byte>)
    ensures |c| == 8 + PrefixLength(total) + |payload|
    ensures c[2] == (if PrefixLength(total) == 8 then 2 else 1)
    ensures c[8..] == LittleEndian(total, PrefixLength(total)) + payload
  {
    var prefix := PrefixLength(total);
    var length := 8 + prefix + |payload|;
    var header := [first, kind, if prefix == 8 then 2 else 1, (length / 0x1_0000_0000) % 256] + LittleEndian(length, 4);
    header + (LittleEndian(total, prefix) + payload)
  }

  /** What the compressor makes of a frame: the frame itself when short or incompressible. */
  function Compressed(frame: seq<Byte>): seq<Byte> {
    if |frame| < 2000 then frame
    else
      var ts := Greedy(frame[8..], EMPTY);
      if Fits(ts, |frame|) then Framed(frame[0], frame[1], |frame|, Layout(ts)) else frame
  }

  lemma GreedyLayoutDecodes(body: seq<Byte>)
    ensures LzDecoder.DecodeFrom(Layout(Greedy(body, EMPTY)), 0, 8, EMPTY, |body|) == Ok(body)
  {
    var ts := Greedy(body, EMPTY);
    LayoutSpells(ts);
    GreedyExpands(body, EMPTY);
    LzDecoder.DecodeComplete(Layout(ts), 0, 8, EMPTY, ts);
  }

  lemma PrefixThenPayload(total: nat, payload: seq<Byte>)
    requires 8 <= total <= ISIZE_MAX
    ensures var prefix := PrefixLength(total);
      LzDecoder.Decompressed(LittleEndian(total, prefix) + payload, prefix, total - 8)
      == LzDecoder.DecodeFrom(payload, 0, 8, EMPTY, total - 8)
  {
    var prefix := PrefixLength(total);
    var vec := LittleEndian(total, prefix) + payload;
    assert vec[..prefix] == LittleEndian(total, prefix) && vec[prefix..] == payload;
    Pow256Values();
    LittleEndianRoundTrip(total, prefix);
  }

  /** Compression is undone by the decompressor, for every frame a buffer can hold. */
  lemma CompressThenDecompress(frame: seq<Byte>)
    requires |frame| <= ISIZE_MAX && Compressed(frame) != frame
    ensures |frame| >= 2000 && |Compressed(frame)| >= 8
    ensures Compressed(frame)[2] == (if PrefixLength(|frame|) == 8 then 2 else 1)
    ensures LzDecoder.Decompressed(Compressed(frame)[8..], PrefixLength(|frame|), |frame| - 8) == Ok(frame[8..])
  {
    GreedyLayoutDecodes(frame[8..]);
    PrefixThenPayload(|frame|, Layout(Greedy(frame[8..], EMPTY)));
  }

  // ---------- The imperative encoder ----------

  /**
   How the encoder's table and pending pair stand for the window. The table uses 0 for "empty",
   which no position can collide with because positions count from the frame header. Once fewer
   than three bytes remain the table is never consulted again, and nothing is claimed about it.
   */
  ghost predicate Tracks(xs: seq<nat>, px: Byte, pPos: nat, vec: seq<Byte>, oPos: nat, w: Window) {
    && |xs| == 256
    && WellFormed(w)
    && 8 <= oPos <= |vec| && w.out == vec[8..oPos]
    && (|vec| - oPos >= 3 ==>
          && (forall h: Byte :: xs[h] == if h in w.slots then w.slots[h] + 8 else 0)
          && (if w.hashed < |w.out| then pPos == oPos - 1 && px == Xor(vec[oPos - 1], vec[oPos]) else pPos == 0))
  }

  function Flush(xs: seq<nat>, px: Byte, pPos: nat): seq<nat>
    requires |xs| == 256
  {
    if pPos > 0 then xs[px := pPos] else xs
  }

  method MatchRun(vec: seq<Byte>, source: nat, start: nat, maxIndex: nat) returns (end: nat)
    requires 8 <= source < start <= maxIndex <= |vec|
    ensures start <= end <= maxIndex
    ensures end - start == MatchLength(vec[8..], source - 8, start - 8, maxIndex - start)
  {
    var xPos := source;
    end := start;
    while end < maxIndex && vec[xPos] == vec[end]
      invariant start <= end <= maxIndex && xPos - source == end - start
      invariant MatchLength(vec[8..], source - 8, start - 8, maxIndex - start)
             == end - start + MatchLength(vec[8..], xPos - 8, end - 8, maxIndex - end)
    {
      end := end + 1;
      xPos := xPos + 1;
    }
  }

  /** Consults the table before the pending pair enters it. */
  method Lookup(vec: seq<Byte>, x: array<nat>, oPos: nat, ghost px: Byte, ghost pPos: nat, ghost w: Window)
    returns (skip: bool, cx: Byte, xPos: nat)
    requires oPos < |vec| && Tracks(x[..], px, pPos, vec, oPos, w)
    ensures w.out < vec[8..]
    ensures |vec| - oPos >= 3 ==> cx == Xor(vec[oPos], vec[oPos + 1])
    ensures !skip ==> |vec| - oPos >= 3 && 8 <= xPos < oPos
    ensures Choose(vec[8..], w) == if skip then Literal(vec[oPos])
      else Backref(cx, MatchLength(vec[8..], xPos - 6, oPos - 6, RunLimit(|vec| - oPos)))
  {
    assert w.out == vec[8..][..|w.out|];
    skip, xPos, cx := |vec| - oPos < 3, 0, 0;
    if !skip {
      cx := Xor(vec[oPos], vec[oPos + 1]);
      xPos := x[cx];
      skip := xPos == 0 || vec[oPos] != vec[xPos];
    }
  }

  /** The token at `oPos`, the hash computed for it (0 when too few bytes remain) and the next position. */
  method ChooseToken(vec: seq<Byte>, x: array<nat>, oPos: nat, ghost px: Byte, ghost pPos: nat, ghost w: Window)
    returns (t: Token, cx: Byte, oPos': nat)
    requires oPos < |vec| && Tracks(x[..], px, pPos, vec, oPos, w)
    ensures w.out < vec[8..] && t == Choose(vec[8..], w)
    ensures |vec| - oPos >= 3 ==> cx == Xor(vec[oPos], vec[oPos + 1])
    ensures t.Backref? ==> cx == t.hash
    ensures t.Literal? ==> t.value == vec[oPos]
    ensures oPos' == oPos + (if t.Literal? then 1 else t.extra + 2)
  {
    var skip, hash, xPos := Lookup(vec, x, oPos, px, pPos, w);
    cx := hash;
    if skip {
      t, oPos' := Literal(vec[oPos]), oPos + 1;
    } else {
      var s := oPos + 2;
      var maxIndex := if s + 255 < |vec| then s + 255 else |vec|;
      assert maxIndex - s == RunLimit(|vec| - oPos);
      oPos' := MatchRun(vec, xPos + 2, s, maxIndex);
      t := Backref(cx, oPos' - s);
    }
  }

  /** One step of the encoder: the token, and the table and pending pair after it. */
  method NextToken(vec: seq<Byte>, x: array<nat>, px: Byte, pPos: nat, oPos: nat, ghost w: Window)
    returns (t: Token, px': Byte, pPos': nat, oPos': nat)
    requires oPos < |vec| && Tracks(x[..], px, pPos, vec, oPos, w)
    modifies x
    ensures w.out < vec[8..] && t == Choose(vec[8..], w)
    ensures oPos' == oPos + (if t.Literal? then 1 else t.extra + 2)
    ensures Emit(w, t).Some? && Tracks(x[..], px', pPos', vec, oPos', Emit(w, t).value)
  {
    hide Xor, Emit, Choose;
    var cx;
    t, cx, oPos' := ChooseToken(vec, x, oPos, px, pPos, w);
    ghost var xs := x[..];
    if pPos > 0 {
      x[px] := pPos;
    }
    assert x[..] == Flush(xs, px, pPos);
    if t.Literal? {
      LiteralKeepsTracking(xs, px, pPos, vec, oPos, w, cx);
      px', pPos' := cx, oPos;
    } else {
      BackrefKeepsTracking(xs, px, pPos, vec, oPos, w);
      x[cx] := oPos;
      assert x[..] == Flush(xs, px, pPos)[cx := oPos];
      px', pPos' := px, 0;
    }
  }

  /** The pair a literal completes is the pending one. */
  lemma LiteralTracked(vec: seq<Byte>, oPos: nat, w: Window)
    requires 8 <= oPos < |vec| && WellFormed(w) && w.out == vec[8..oPos]
    ensures Emit(w, Literal(vec[oPos])).Some?
    ensures var w' := Emit(w, Literal(vec[oPos])).value;
      && w'.out == vec[8..oPos + 1] && w'.hashed == |w.out|
      && w'.slots == if w.hashed < |w.out| then w.slots[Xor(vec[oPos - 1], vec[oPos]) := |w.out| - 1] else w.slots
  {
    var out := w.out + [vec[oPos]];
    if w.hashed < |w.out| {
      assert HashPairs(w.slots, out, w.hashed, |out| - 1)
          == HashPairs(w.slots, out, w.hashed, w.hashed)[Xor(out[w.hashed], out[w.hashed + 1]) := w.hashed];
    }
  }

  /** A back-reference hashes the pending pair and then its own first pair. */
  lemma BackrefTracked(vec: seq<Byte>, oPos: nat, w: Window)
    requires 8 <= oPos < |vec| && WellFormed(w) && w.out == vec[8..oPos]
    requires w.out < vec[8..] && Choose(vec[8..], w).Backref?
    ensures var t := Choose(vec[8..], w);
      && Emit(w, t).Some?
      && var w' := Emit(w, t).value;
      && |vec| - oPos >= 3 && t.hash == Xor(vec[oPos], vec[oPos + 1])
      && oPos + t.extra + 2 <= |vec|
      && w'.out == vec[8..oPos + t.extra + 2] && w'.hashed == |w'.out|
      && (var slots := if w.hashed < |w.out| then w.slots[Xor(vec[oPos - 1], vec[oPos]) := |w.out| - 1] else w.slots;
          w'.slots == slots[t.hash := |w.out|])
  {
    hide Xor;
    ChooseContinuesBody(vec[8..], w);
    var t := Choose(vec[8..], w);
    var out := Emit(w, t).value.out;
    var o := |w.out|;
    assert out == vec[8..][..|out|];
    assert HashPairs(w.slots, out, w.hashed, o + 1)
        == HashPairs(w.slots, out, w.hashed, o)[Xor(out[o], out[o + 1]) := o];
    if w.hashed < o {
      assert HashPairs(w.slots, out, w.hashed, o)
          == HashPairs(w.slots, out, w.hashed, w.hashed)[Xor(out[w.hashed], out[w.hashed + 1]) := w.hashed];
    }
  }

  lemma LiteralKeepsTracking(xs: seq<nat>, px: Byte, pPos: nat, vec: seq<Byte>, oPos: nat, w: Window, cx: Byte)
    requires oPos < |vec| && Tracks(xs, px, pPos, vec, oPos, w)
    requires |vec| - oPos >= 3 ==> cx == Xor(vec[oPos], vec[oPos + 1])
    ensures Emit(w, Literal(vec[oPos])).Some?
    ensures Tracks(Flush(xs, px, pPos), cx, oPos, vec, oPos + 1, Emit(w, Literal(vec[oPos])).value)
  {
    hide Xor, Emit;
    LiteralTracked(vec, oPos, w);
  }

  lemma BackrefKeepsTracking(xs: seq<nat>, px: Byte, pPos: nat, vec: seq<Byte>, oPos: nat, w: Window)
    requires oPos < |vec| && Tracks(xs, px, pPos, vec, oPos, w)
    requires w.out < vec[8..] && Choose(vec[8..], w).Backref?
    ensures var t := Choose(vec[8..], w);
      && Emit(w, t).Some?
      && Tracks(Flush(xs, px, pPos)[t.hash := oPos], px, 0, vec, oPos + t.extra + 2, Emit(w, t).value)
  {
    hide Xor, Emit, Choose;
    BackrefTracked(vec, oPos, w);
  }

  lemma {:induction false} BackrefsConcat(a: seq<Token>, b: seq<Token>)
    ensures Backrefs(a + b) == Backrefs(a) + Backrefs(b)
  {
    if a == [] {
      assert a + b == b;
    } else {
      assert (a + b)[1..] == a[1..] + b;
      BackrefsConcat(a[1..], b);
    }
  }

  /** A group that starts too late stays too late: later groups only start later. */
  lemma LateGroupDoesNotFit(ts: seq<Token>, m: nat, total: nat)
    requires m < |ts| && m % 8 == 0
    requires 8 + PrefixLength(total) + |Layout(ts[..m])| + 17 > total / 2
    ensures !Fits(ts, total)
  {
    var last := (|ts| - 1) / 8 * 8;
    assert m <= last;
    LayoutLength(ts[..m]);
    LayoutLength(ts[..last]);
    assert ts[..last] == ts[..m] + ts[m..last];
    BackrefsConcat(ts[..m], ts[m..last]);
  }

  /** Writes a token's bytes at `cPos`. */
  method WriteUnit(cVec: array<Byte>, cPos: nat, t: Token)
    requires cPos + |Unit(t)| <= cVec.Length
    modifies cVec
    ensures cVec[..cPos + |Unit(t)|] == old(cVec[..cPos]) + Unit(t)
  {
    match t
    case Literal(value) =>
      cVec[cPos] := value;
    case Backref(hash, extra) =>
      cVec[cPos] := hash;
      cVec[cPos + 1] := extra;
  }

  lemma {:induction false} UnitsLength(ts: seq<Token>)
    ensures |ts| <= |Units(ts)| <= 2 * |ts|
  {
    if ts != [] {
      UnitsLength(ts[1..]);
    }
  }

  /**
   A started group: everything before `nPos` is laid out, the flag byte at `nPos` is still to be
   written, the group's units follow it, and its 17 bytes are reserved.
   */
  ghost predicate Started(c: seq<Byte>, start: nat, nPos: nat, cPos: nat, done: seq<Token>, cur: seq<Token>) {
    && |done| % 8 == 0 && |cur| <= 8
    && start <= nPos && nPos + 17 <= |c|
    && c[start..nPos] == Layout(done)
    && cPos == nPos + 1 + |Units(cur)| <= |c|
    && c[nPos + 1..cPos] == Units(cur)
  }

  /** Either nothing has been written yet, or a group with at least one token is under construction. */
  ghost predicate Building(c: seq<Byte>, start: nat, nPos: nat, cPos: nat, done: seq<Token>, cur: seq<Token>) {
    if cur == [] then done == [] && start == nPos == cPos <= |c|
    else Started(c, start, nPos, cPos, done, cur)
  }

  /** Writing the flag byte finishes the group. */
  lemma GroupFinished(c: seq<Byte>, start: nat, nPos: nat, cPos: nat, done: seq<Token>, cur: seq<Token>, flags: Byte)
    requires Building(c, start, nPos, cPos, done, cur) && cur != [] && flags == Flags(cur)
    ensures c[nPos := flags][start..cPos] == Layout(done + cur)
  {
    hide Layout;
    LayoutAppend(done, cur);
    FlagsByte(cur);
    var c' := c[nPos := flags];
    assert c'[start..cPos] == c'[start..nPos] + [c'[nPos]] + c'[nPos + 1..cPos];
    assert c'[start..nPos] == c[start..nPos] && c'[nPos + 1..cPos] == c[nPos + 1..cPos];
  }

  /** Writes the flag byte of the group under construction, if there is one. */
  method CloseGroup(
    cVec: array<Byte>, start: nat, nPos: nat, cPos: nat, n: Byte, ghost done: seq<Token>, ghost cur: seq<Token>)
    requires Building(cVec[..], start, nPos, cPos, done, cur) && n == Flags(cur)
    requires nPos < cVec.Length
    modifies cVec
    ensures start <= cPos <= cVec.Length
    ensures cVec[start..cPos] == Layout(done + cur)
    ensures cVec[..start] == old(cVec[..start])
  {
    hide Layout, Flags;
    ghost var before := cVec[..];
    cVec[nPos] := n;
    assert cVec[..] == before[nPos := n];
    assert cVec[..start] == before[..start];
    if cur == [] {
      EmptyLayout();
      assert done + cur == [];
    } else {
      GroupFinished(before, start, nPos, cPos, done, cur, n);
    }
  }

  lemma EmptyLayout()
    ensures Layout([]) == [] && Flags([]) == 0
  {
  }

  /** The unit of a new token goes right after those of its group. */
  lemma TokenAdded(
    c: seq<Byte>, c': seq<Byte>, start: nat, nPos: nat, cPos: nat, done: seq<Token>, cur: seq<Token>, t: Token)
    requires Started(c, start, nPos, cPos, done, cur) && |cur| < 8
    requires |c'| == |c| && cPos + |Unit(t)| <= |c| && c'[..cPos + |Unit(t)|] == c[..cPos] + Unit(t)
    ensures Started(c', start, nPos, cPos + |Unit(t)|, done, cur + [t])
    ensures c'[..start] == c[..start]
  {
    hide Layout, Units;
    UnitsAppend(cur, t);
    var e := cPos + |Unit(t)|;
    var both := c[..cPos] + Unit(t);
    assert c'[start..nPos] == c'[..e][start..nPos] && c'[nPos + 1..e] == c'[..e][nPos + 1..];
    assert c'[..start] == c'[..e][..start];
    assert both[..start] == c[..start];
    assert both[start..nPos] == both[..cPos][start..nPos] && both[..cPos] == c[..cPos];
    assert c[..cPos][start..nPos] == c[start..nPos];
    assert both[nPos + 1..] == c[nPos + 1..cPos] + Unit(t);
  }

  /** Adds a token to the started group, with `i` selecting its flag bit. */
  method AddToken(
    cVec: array<Byte>, start: nat, nPos: nat, cPos: nat, n: Byte, i: nat, t: Token, ghost done: seq<Token>,
    ghost cur: seq<Token>)
    returns (cPos': nat, n': Byte, i': nat)
    requires Started(cVec[..], start, nPos, cPos, done, cur) && |cur| < 8
    requires n == Flags(cur) && i == LzDecoder.Mask(|cur|)
    modifies cVec
    ensures Started(cVec[..], start, nPos, cPos', done, cur + [t])
    ensures n' == Flags(cur + [t]) && i' == LzDecoder.Mask(|cur| + 1)
    ensures cVec[..start] == old(cVec[..start])
  {
    hide Layout, Flags, Units;
    UnitsLength(cur);
    FlagsAppend(cur, t);
    FlagsByte(cur + [t]);
    LzDecoder.MaskShift(|cur|);
    ghost var before := cVec[..];
    WriteUnit(cVec, cPos, t);
    cPos' := cPos + |Unit(t)|;
    assert cVec[..][..cPos'] == cVec[..cPos'] && before[..cPos] == old(cVec[..cPos]);
    TokenAdded(before, cVec[..], start, nPos, cPos, done, cur, t);
    assert cVec[..start] == cVec[..][..start] && old(cVec[..start]) == before[..start];
    // The bit is still clear, so setting it adds the mask.
    n' := if t.Backref? then n + i else n;
    i' := (2 * i) % 256;
  }

  lemma GreedyStep(body: seq<Byte>, w: Window)
    requires WellFormed(w) && w.out < body
    ensures Emit(w, Choose(body, w)).Some?
    ensures Emit(w, Choose(body, w)).value.out <= body
    ensures Greedy(body, w) == [Choose(body, w)] + Greedy(body, Emit(w, Choose(body, w)).value)
  {
    ChooseContinuesBody(body, w);
  }

  lemma TracksPrefix(xs: seq<nat>, px: Byte, pPos: nat, vec: seq<Byte>, oPos: nat, w: Window)
    requires Tracks(xs, px, pPos, vec, oPos, w)
    ensures WellFormed(w) && 8 <= oPos <= |vec| && w.out <= vec[8..] && |w.out| == oPos - 8
  {
    assert w.out == vec[8..][..oPos - 8];
  }

  /** Tokens chosen so far, and those still to come, make up the greedy stream. */
  ghost predicate Chosen(ts: seq<Token>, done: seq<Token>, cur: seq<Token>, body: seq<Byte>, w: Window) {
    WellFormed(w) && w.out <= body && ts == done + cur + Greedy(body, w)
  }

  lemma ChosenNext(ts: seq<Token>, done: seq<Token>, cur: seq<Token>, body: seq<Byte>, w: Window)
    requires Chosen(ts, done, cur, body, w) && w.out < body
    ensures Emit(w, Choose(body, w)).Some?
    ensures Chosen(ts, done, cur + [Choose(body, w)], body, Emit(w, Choose(body, w)).value)
  {
    GreedyStep(body, w);
    hide Greedy, Emit, Choose;
    var t := Choose(body, w);
    var rest := Greedy(body, Emit(w, t).value);
    assert done + cur + ([t] + rest) == done + (cur + [t]) + rest;
  }

  /** Makes sure a group is open for the next token, unless a new one would start too late. */
  method OpenGroup(cVec: array<Byte>, start: nat, nPos: nat, cPos: nat, n: Byte, i: nat, ghost ts: seq<Token>,
                   ghost done: seq<Token>, ghost cur: seq<Token>, ghost body: seq<Byte>, ghost w: Window,
                   ghost total: nat)
    returns (full: bool, nPos': nat, cPos': nat, n': Byte, i': nat, ghost done': seq<Token>, ghost cur': seq<Token>)
    requires cVec.Length == total / 2 && total >= 2000 && start == 8 + PrefixLength(total)
    requires Building(cVec[..], start, nPos, cPos, done, cur)
    requires n == Flags(cur) && i == if cur == [] then 0 else LzDecoder.Mask(|cur|)
    requires Chosen(ts, done, cur, body, w) && w.out < body
    modifies cVec
    ensures cVec[..start] == old(cVec[..start])
    ensures full ==> !Fits(ts, total)
    ensures !full ==>
      && Started(cVec[..], start, nPos', cPos', done', cur') && |cur'| < 8
      && n' == Flags(cur') && i' == LzDecoder.Mask(|cur'|)
      && Chosen(ts, done', cur', body, w)
  {
    hide Layout, Fits, Greedy, Emit, Choose;
    full, nPos', cPos', n', i', done', cur' := false, nPos, cPos, n, i, done, cur;
    if i == 0 {
      if cPos > cVec.Length - 17 {
        GreedyStep(body, w);
        LateGroup(ts, done, cur, Greedy(body, w), cVec[..], start, nPos, cPos, total);
        full := true;
        return;
      }
      CloseGroup(cVec, start, nPos, cPos, n, done, cur);
      done' := done + cur;
      assert done + cur + Greedy(body, w) == done' + [] + Greedy(body, w);
      cur', i', nPos', n', cPos' := [], 1, cPos, 0, cPos + 1;
      GroupOpened(cVec[..], start, nPos', done');
    }
  }

  /** Fills the scratch buffer from `start`, or reports that a group would start too late. */
  method FillTokens(vec: seq<Byte>, cVec: array<Byte>, start: nat) returns (fits: bool, cPos: nat)
    requires |vec| >= 2000 && cVec.Length == |vec| / 2 && start == 8 + PrefixLength(|vec|)
    modifies cVec
    ensures fits == Fits(Greedy(vec[8..], EMPTY), |vec|)
    ensures cVec[..start] == old(cVec[..start])
    ensures fits ==> start <= cPos <= cVec.Length && cVec[start..cPos] == Layout(Greedy(vec[8..], EMPTY))
  {
    hide Tracks, Chosen, Started, Building, Emit, Choose, Greedy, Layout, Flags, WellFormed, Fits, LzDecoder.Mask;
    var x := new nat[256](_ => 0);
    var nPos, oPos, pPos := start, 8, 0;
    var px: Byte, n: Byte, i := 0, 0, 0;
    cPos := start;
    ghost var body, w, done, cur := vec[8..], EMPTY, [], [];
    EncoderStart(x[..], vec, cVec[..], start);
    ghost var ts := Greedy(body, EMPTY);
    while oPos < |vec|
      invariant 8 <= oPos <= |vec| && Tracks(x[..], px, pPos, vec, oPos, w) && Chosen(ts, done, cur, body, w)
      invariant Building(cVec[..], start, nPos, cPos, done, cur)
      invariant n == Flags(cur) && i == if cur == [] then 0 else LzDecoder.Mask(|cur|)
      invariant cVec[..start] == old(cVec[..start])
      invariant oPos > 8 ==> cur != []
      invariant fresh(x)
      decreases |vec| - oPos
    {
      TracksPrefix(x[..], px, pPos, vec, oPos, w);
      var full;
      full, nPos, cPos, n, i, done, cur := OpenGroup(cVec, start, nPos, cPos, n, i, ts, done, cur, body, w, |vec|);
      if full {
        return false, cPos;
      }
      var t;
      ChosenNext(ts, done, cur, body, w);
      t, px, pPos, oPos := NextToken(vec, x, px, pPos, oPos, w);
      w := Emit(w, t).value;
      TracksPrefix(x[..], px, pPos, vec, oPos, w);
      cPos, n, i := AddToken(cVec, start, nPos, cPos, n, i, t, done, cur);
      cur := cur + [t];
      StartedIsBuilding(cVec[..], start, nPos, cPos, done, cur);
    }
    fits := true;
    TracksPrefix(x[..], px, pPos, vec, oPos, w);
    StreamComplete(ts, done, cur, body, w, cVec[..], start, nPos, cPos, |vec|);
    CloseGroup(cVec, start, nPos, cPos, n, done, cur);
  }

  lemma EncoderStart(xs: seq<nat>, vec: seq<Byte>, c: seq<Byte>, start: nat)
    requires |xs| == 256 && (forall h :: 0 <= h < 256 ==> xs[h] == 0)
    requires |vec| >= 8 && start <= |c|
    ensures WellFormed(EMPTY) && EMPTY.out <= vec[8..]
    ensures Tracks(xs, 0, 0, vec, 8, EMPTY)
    ensures Chosen(Greedy(vec[8..], EMPTY), [], [], vec[8..], EMPTY)
    ensures Building(c, start, start, start, [], []) && Flags([]) == 0
  {
    hide Greedy;
    var ts := Greedy(vec[8..], EMPTY);
    assert [] + [] + ts == ts;
  }

  lemma StartedIsBuilding(c: seq<Byte>, start: nat, nPos: nat, cPos: nat, done: seq<Token>, cur: seq<Token>)
    requires Started(c, start, nPos, cPos, done, cur) && cur != []
    ensures Building(c, start, nPos, cPos, done, cur)
  {
  }

  lemma GroupOpened(c: seq<Byte>, start: nat, nPos: nat, done: seq<Token>)
    requires |done| % 8 == 0 && start <= nPos && nPos + 17 <= |c| && c[start..nPos] == Layout(done)
    ensures Started(c, start, nPos, nPos + 1, done, []) && Flags([]) == 0 && LzDecoder.Mask(0) == 1
  {
  }

  lemma StreamComplete(ts: seq<Token>, done: seq<Token>, cur: seq<Token>, body: seq<Byte>, w: Window,
                       c: seq<Byte>, start: nat, nPos: nat, cPos: nat, total: nat)
    requires Chosen(ts, done, cur, body, w) && |w.out| == |body|
    requires Building(c, start, nPos, cPos, done, cur) && cur != []
    requires |c| == total / 2 && start == 8 + PrefixLength(total)
    ensures ts == done + cur && Fits(ts, total) && nPos < |c|
  {
    assert ts == done + cur;
    assert done == ts[..(|ts| - 1) / 8 * 8];
  }

  /** The early return happens only for streams that do not fit. */
  lemma LateGroup(
    ts: seq<Token>, done: seq<Token>, cur: seq<Token>, rest: seq<Token>, c: seq<Byte>, start: nat, nPos: nat,
    cPos: nat, total: nat)
    requires ts == done + cur + rest && rest != []
    requires Building(c, start, nPos, cPos, done, cur) && (cur == [] || |cur| == 8)
    requires |c| == total / 2 && start == 8 + PrefixLength(total) && cPos + 17 > |c|
    ensures !Fits(ts, total)
  {
    var m := |done| + |cur|;
    assert ts[..m] == done + cur;
    if cur != [] {
      LayoutAppend(done, cur);
      assert |Layout(ts[..m])| == cPos - start;
    }
    LateGroupDoesNotFit(ts, m, total);
  }

  /** `write_decompressed_length_prefix`: mode byte and length prefix of a compressed frame. */
  method WriteLengthPrefix(header: array<Byte>, total: nat) returns (offset: nat)
    requires header.Length >= 16
    modifies header
    ensures offset == 8 + PrefixLength(total)
    ensures header[2] == (if PrefixLength(total) == 8 then 2 else 1)
    ensures header[8..offset] == LittleEndian(total, PrefixLength(total))
  {
    hide LittleEndian;
    var prefix := PrefixLength(total);
    var bytes := LittleEndian(total, prefix);
    header[2] := if prefix == 8 then 2 else 1;
    for k := 0 to prefix
      invariant header[8..8 + k] == bytes[..k]
      invariant header[2] == if prefix == 8 then 2 else 1
    {
      header[8 + k] := bytes[k];
      assert header[8..8 + k + 1] == header[8..8 + k] + [bytes[k]];
    }
    assert bytes[..prefix] == bytes;
    offset := 8 + prefix;
  }

  lemma SplitAt(c: seq<Byte>, start: nat, end: nat)
    requires 8 <= start <= end <= |c|
    ensures c[2] == c[..start][2] && c[8..end] == c[..start][8..] + c[start..end]
  {
  }

  method Compress(vec: seq<Byte>) returns (r: seq<Byte>)
    requires |vec| <= ISIZE_MAX
    ensures r == Compressed(vec)
  {
    if |vec| < 2000 {
      return vec;
    }
    hide Greedy, Layout, Fits, LittleEndian, Framed;
    var cVec := new Byte[|vec| / 2](_ => 0);
    var start := WriteLengthPrefix(cVec, |vec|);
    SplitAt(cVec[..], start, start);
    var fits, cPos := FillTokens(vec, cVec, start);
    if !fits {
      return vec;
    }
    SplitAt(cVec[..], start, cPos);
    r := FinishHeader(vec[0], vec[1], cVec[2], cVec[8..cPos], |vec|, Layout(Greedy(vec[8..], EMPTY)));
  }

  /** The header fields written last: byte order, message kind and the 40-bit frame length. */
  method FinishHeader(first: Byte, kind: Byte, mode: Byte, tail: seq<Byte>, ghost total: nat, ghost payload: seq<Byte>)
    returns (r: seq<Byte>)
    requires mode == (if PrefixLength(total) == 8 then 2 else 1)
    requires tail == LittleEndian(total, PrefixLength(total)) + payload
    ensures r == Framed(first, kind, total, payload)
  {
    var length := 8 + |tail|;
    r := [first, kind, mode, (length / 0x1_0000_0000) % 256] + LittleEndian(length, 4) + tail;
  }
}
