/**
 The meaning of a q compressed payload, stated without reference to either the encoder or the
 decoder: a payload is a stream of tokens packed eight to a flag byte, and a token stream expands
 to a body through a window that remembers where each two-byte hash was last seen.
 */
module LzTokens {
  import opened Bytes

  datatype Token = Literal(value: Byte) | Backref(hash: Byte, extra: Byte)

  function Unit(t: Token): seq<Byte> {
    match t
    case Literal(value) => [value]
    case Backref(hash, extra) => [hash, extra]
  }

  function Units(ts: seq<Token>): seq<Byte> {
    if ts == [] then [] else Unit(ts[0]) + Units(ts[1..])
  }

  /**
   `payload` spells exactly the tokens `ts`, given that `k` bits of `flags` are used up already
   (`k == 8`: the next byte is a fresh flag byte). Flag bits past the last token are unconstrained.
   */
  ghost predicate Spells(payload: seq<Byte>, flags: Byte, k: nat, ts: seq<Token>)
    requires k <= 8
    decreases |ts|, k
  {
    if ts == [] then payload == []
    else if k == 8 then payload != [] && Spells(payload[1..], payload[0], 0, ts)
    else
      && ts[0].Backref? == Bit(flags, k)
      && Unit(ts[0]) <= payload
      && Spells(payload[|Unit(ts[0])|..], flags, k + 1, ts[1..])
  }

  /** The bytes expanded so far, the latest position of every hash, and the first unhashed position. */
  datatype Window = Window(out: seq<Byte>, slots: map<Byte, nat>, hashed: nat)

  const EMPTY := Window([], map[], 0)

  /** `out` followed by `count` bytes copied one at a time from `source`, so a run may overlap itself. */
  function Copied(out: seq<Byte>, source: nat, count: nat): (r: seq<Byte>)
    requires source < |out|
    ensures |r| == |out| + count && out <= r
  {
    if count == 0 then out
    else
      var shorter := Copied(out, source, count - 1);
      shorter + [shorter[source + count - 1]]
  }

  function HashPairs(slots: map<Byte, nat>, out: seq<Byte>, lo: nat, hi: nat): map<Byte, nat>
    requires lo < hi ==> hi < |out|
  {
    if lo >= hi then slots
    else HashPairs(slots, out, lo, hi - 1)[Xor(out[hi - 1], out[hi]) := hi - 1]
  }

  /** Every slot names a pair of `out` with the slot's own hash. */
  ghost predicate SlotsNamePairs(slots: map<Byte, nat>, out: seq<Byte>) {
    forall h <- slots :: slots[h] + 2 <= |out| && Xor(out[slots[h]], out[slots[h] + 1]) == h
  }

  lemma {:induction false} HashPairsNamePairs(slots: map<Byte, nat>, out: seq<Byte>, lo: nat, hi: nat)
    requires lo < hi ==> hi < |out|
    requires SlotsNamePairs(slots, out)
    ensures SlotsNamePairs(HashPairs(slots, out, lo, hi), out)
    decreases hi
  {
    if lo < hi {
      HashPairsNamePairs(slots, out, lo, hi - 1);
    }
  }

  ghost predicate WellFormed(w: Window) {
    && w.hashed <= |w.out| <= w.hashed + 1
    && SlotsNamePairs(w.slots, w.out)
  }

  /** The effect of one token; `None` when a back-reference names a hash never seen. */
  function Emit(w: Window, t: Token): (r: Option<Window>)
    requires WellFormed(w)
    ensures r.Some? ==> WellFormed(r.value) && w.out < r.value.out
    ensures r.Some? ==> |Unit(t)| <= |r.value.out| - |w.out| <= (if t.Literal? then 1 else 257)
  {
    hide Xor;
    match t
    case Literal(value) =>
      var out := w.out + [value];
      assert SlotsNamePairs(w.slots, out);
      HashPairsNamePairs(w.slots, out, w.hashed, |out| - 1);
      Some(Window(out, HashPairs(w.slots, out, w.hashed, |out| - 1), |out| - 1))
    case Backref(hash, extra) =>
      if hash !in w.slots then None
      else
        var out := Copied(w.out, w.slots[hash], extra + 2);
        assert SlotsNamePairs(w.slots, out);
        HashPairsNamePairs(w.slots, out, w.hashed, |w.out| + 1);
        Some(Window(out, HashPairs(w.slots, out, w.hashed, |w.out| + 1), |out|))
  }

  function Expand(w: Window, ts: seq<Token>): (r: Option<Window>)
    requires WellFormed(w)
    ensures r.Some? ==> WellFormed(r.value) && w.out <= r.value.out
    decreases |ts|
  {
    if ts == [] then Some(w)
    else
      var next := Emit(w, ts[0]);
      if next.None? then None else Expand(next.value, ts[1..])
  }

  /** `payload` is a compressed form of `body`. */
  ghost predicate Compresses(payload: seq<Byte>, ts: seq<Token>, body: seq<Byte>)
  {
    && Spells(payload, 0, 8, ts)
    && var w := Expand(EMPTY, ts);
    && w.Some? && w.value.out == body
  }

  // ---------- Lemmas about growing token streams at the end ----------

  lemma {:induction false} UnitsAppend(ts: seq<Token>, t: Token)
    ensures Units(ts + [t]) == Units(ts) + Unit(t)
  {
    if ts == [] {
      assert ([] + [t])[1..] == [];
    } else {
      assert (ts + [t])[1..] == ts[1..] + [t];
      UnitsAppend(ts[1..], t);
    }
  }

  /** A flag byte and the units it governs spell those tokens. */
  lemma {:induction false} UnitsSpell(flags: Byte, k: nat, ts: seq<Token>)
    requires k + |ts| <= 8
    requires forall j :: 0 <= j < |ts| ==> Bit(flags, k + j) == ts[j].Backref?
    ensures Spells(Units(ts), flags, k, ts)
    decreases |ts|
  {
    if ts != [] {
      assert Bit(flags, k + 0) == ts[0].Backref?;
      forall j | 0 <= j < |ts[1..]| ensures Bit(flags, k + 1 + j) == ts[1..][j].Backref? {
        assert Bit(flags, k + (1 + j)) == ts[1 + j].Backref?;
      }
      UnitsSpell(flags, k + 1, ts[1..]);
      assert Units(ts)[|Unit(ts[0])|..] == Units(ts[1..]);
    }
  }

  /** Complete groups followed by any further stream. */
  lemma {:induction false} SpellsConcat(p: seq<Byte>, flags: Byte, k: nat, ts: seq<Token>, q: seq<Byte>, us: seq<Token>)
    requires k <= 8 && us != []
    requires (k + |ts|) % 8 == 0
    requires Spells(p, flags, k, ts)
    requires Spells(q, 0, 8, us)
    requires ts == [] ==> k == 8
    ensures Spells(p + q, flags, k, ts + us)
    decreases |ts|, k
  {
    hide Bit, Unit;
    if ts == [] {
      assert p + q == q && ts + us == us;
    } else if k == 8 {
      assert (p + q)[1..] == p[1..] + q;
      SpellsConcat(p[1..], p[0], 0, ts, q, us);
    } else {
      var n := |Unit(ts[0])|;
      assert (p + q)[n..] == p[n..] + q;
      assert (ts + us)[1..] == ts[1..] + us;
      if |ts| == 1 { assert k + 1 == 8; }
      SpellsConcat(p[n..], flags, k + 1, ts[1..], q, us);
    }
  }

  // ---------- The two length bounds ----------

  function Backrefs(ts: seq<Token>): (n: nat)
    ensures n <= |ts|
  {
    if ts == [] then 0 else (if ts[0].Backref? then 1 else 0) + Backrefs(ts[1..])
  }

  /** A payload is its units plus one flag byte per started group of eight. */
  lemma {:induction false} PayloadLength(payload: seq<Byte>, flags: Byte, k: nat, ts: seq<Token>)
    requires k <= 8 && Spells(payload, flags, k, ts)
    ensures |payload| == |ts| + Backrefs(ts) + (if |ts| + k <= 8 then 0 else (|ts| + k - 1) / 8)
    decreases |ts|, k
  {
    if ts == [] {
    } else if k == 8 {
      PayloadLength(payload[1..], payload[0], 0, ts);
    } else {
      PayloadLength(payload[|Unit(ts[0])|..], flags, k + 1, ts[1..]);
    }
  }

  lemma {:induction false} ExpandLength(w: Window, ts: seq<Token>)
    requires WellFormed(w) && Expand(w, ts).Some?
    ensures |ts| + Backrefs(ts) <= |Expand(w, ts).value.out| - |w.out| <= |ts| + 256 * Backrefs(ts)
    decreases |ts|
  {
    if ts != [] {
      ExpandLength(Emit(w, ts[0]).value, ts[1..]);
    }
  }

  /** Every compressed form expands at most 121 times, and is at most an eighth longer than its body. */
  lemma LengthBounds(payload: seq<Byte>, ts: seq<Token>, body: seq<Byte>)
    requires Compresses(payload, ts, body)
    ensures |body| <= 121 * |payload|
    ensures |payload| <= |body| + (|body| + 7) / 8
  {
    PayloadLength(payload, 0, 8, ts);
    ExpandLength(EMPTY, ts);
  }
}
