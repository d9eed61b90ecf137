/** The q wire decompressor, proved to accept exactly the compressed forms of its output. */
module LzDecoder {
  import opened Bytes
  import opened LzTokens

  datatype DecodeError =
    | MissingPrefix | UnsupportedPrefix | InvalidLength | LengthMismatch
    | Truncated | UnknownHash | OutputOverrun | TrailingBytes

  /** The sentinel the decoder keeps in a slot no pair has hashed to yet (`usize::MAX`). */
  const INVALID_OFFSET := 0xFFFF_FFFF_FFFF_FFFF

  /** Decoding of the remaining payload `p` in the middle of a run. */
  function DecodeFrom(p: seq<Byte>, flags: Byte, k: nat, w: Window, n: nat): (r: Result<seq<Byte>, DecodeError>)
    requires k <= 8 && WellFormed(w) && |w.out| <= n
    decreases n - |w.out|, k
  {
    if |w.out| == n then (if p == [] then Ok(w.out) else Err(TrailingBytes))
    else if k == 8 then (if p == [] then Err(Truncated) else DecodeFrom(p[1..], p[0], 0, w, n))
    else if Bit(flags, k) then
      if |p| < 2 then Err(Truncated)
      else if p[0] !in w.slots then Err(UnknownHash)
      else if |w.out| + p[1] + 2 > n then Err(OutputOverrun)
      else DecodeFrom(p[2..], flags, k + 1, Emit(w, Backref(p[0], p[1])).value, n)
    else if p == [] then Err(Truncated)
    else DecodeFrom(p[1..], flags, k + 1, Emit(w, Literal(p[0])).value, n)
  }

  /** The whole call: the length prefix is checked first, then the tokens are decoded. */
  function Decompressed(vec: seq<Byte>, startPos: nat, n: nat): (r: Result<seq<Byte>, DecodeError>)
  {
    if startPos != 4 && startPos != 8 then Err(UnsupportedPrefix)
    else if |vec| < startPos then Err(MissingPrefix)
    else
      var total := FromLittleEndian(vec[..startPos]);
      if total < 8 then Err(InvalidLength)
      else if total - 8 != n then Err(LengthMismatch)
      else DecodeFrom(vec[startPos..], 0, 8, EMPTY, n)
  }

  lemma {:induction false} DecodeSound(p: seq<Byte>, flags: Byte, k: nat, w: Window, n: nat) returns (ts: seq<Token>)
    requires k <= 8 && WellFormed(w) && |w.out| <= n
    requires DecodeFrom(p, flags, k, w, n).Ok?
    ensures Spells(p, flags, k, ts)
    ensures Expand(w, ts).Some? && Expand(w, ts).value.out == DecodeFrom(p, flags, k, w, n).value
    ensures |Expand(w, ts).value.out| == n
    decreases n - |w.out|, k
  {
    hide Xor, Bit, HashPairs, Copied;
    if |w.out| == n {
      ts := [];
    } else if k == 8 {
      ts := DecodeSound(p[1..], p[0], 0, w, n);
    } else {
      var t := if Bit(flags, k) then Backref(p[0], p[1]) else Literal(p[0]);
      assert Emit(w, t).Some?;
      var rest := DecodeSound(p[|Unit(t)|..], flags, k + 1, Emit(w, t).value, n);
      ts := [t] + rest;
      assert ts[1..] == rest;
    }
  }

  lemma BackrefSeen(w: Window, t: Token)
    requires WellFormed(w) && t.Backref? && Emit(w, t).Some?
    ensures t.hash in w.slots && |Emit(w, t).value.out| == |w.out| + t.extra + 2
  {
  }

  lemma {:induction false} DecodeComplete(p: seq<Byte>, flags: Byte, k: nat, w: Window, ts: seq<Token>)
    requires k <= 8 && WellFormed(w)
    requires Spells(p, flags, k, ts) && Expand(w, ts).Some?
    ensures DecodeFrom(p, flags, k, w, |Expand(w, ts).value.out|) == Ok(Expand(w, ts).value.out)
    decreases |ts|, k
  {
    hide Xor, Bit, Emit;
    if ts == [] {
    } else if k == 8 {
      DecodeComplete(p[1..], p[0], 0, w, ts);
    } else {
      var t := ts[0];
      assert Emit(w, t).Some?;
      assert Unit(t) == p[..|Unit(t)|];
      if t.Backref? {
        assert p[0] == t.hash && p[1] == t.extra;
        BackrefSeen(w, t);
      }
      DecodeComplete(p[|Unit(t)|..], flags, k + 1, Emit(w, t).value, ts[1..]);
    }
  }

  /** The decoder accepts a payload for an `n`-byte body exactly when it compresses that body. */
  lemma DecodesExactlyCompressedForms(payload: seq<Byte>, n: nat, body: seq<Byte>)
    ensures DecodeFrom(payload, 0, 8, EMPTY, n) == Ok(body)
       <==> |body| == n && exists ts :: Compresses(payload, ts, body)
  {
    if DecodeFrom(payload, 0, 8, EMPTY, n) == Ok(body) {
      var ts := DecodeSound(payload, 0, 8, EMPTY, n);
      assert Compresses(payload, ts, body);
    }
    if |body| == n && exists ts :: Compresses(payload, ts, body) {
      var ts :| Compresses(payload, ts, body);
      DecodeComplete(payload, 0, 8, EMPTY, ts);
    }
  }

  /** What every accepted payload must satisfy before any of it is decoded. */
  lemma AcceptedPayloadBounds(payload: seq<Byte>, n: nat)
    requires DecodeFrom(payload, 0, 8, EMPTY, n).Ok?
    ensures n <= 121 * |payload|
    ensures |payload| <= n + (n + 7) / 8
  {
    var ts := DecodeSound(payload, 0, 8, EMPTY, n);
    LengthBounds(payload, ts, DecodeFrom(payload, 0, 8, EMPTY, n).value);
  }

  // ---------- The imperative decoder ----------

  /** The mask byte that selects bit `k`; shifting past bit 7 leaves zero. */
  function Mask(k: nat): nat {
    if k >= 8 then 0 else Pow2(k)
  }

  lemma MaskShift(k: nat)
    requires k < 8
    ensures (2 * Mask(k)) % 256 == Mask(k + 1)
  {
    assert Pow2(3) == 8;
    assert Pow2(5) == 32;
    assert Pow2(7) == 128;
  }

  lemma BitHalves(flags: nat, k: nat)
    requires k >= 4
    ensures Bit(flags, k) == Bit(flags / 16, k - 4)
  {
    assert flags / 2 / 2 / 2 / 2 == flags / 16;
    assert Bit(flags, k) == Bit(flags / 2 / 2, k - 2);
  }

  lemma BitIsMask(flags: nat, k: nat)
    requires k < 8
    ensures (flags / Mask(k)) % 2 == 1 <==> Bit(flags, k)
  {
    if k < 4 {
      BitIsSmallMask(flags, k);
    } else {
      BitHalves(flags, k);
      BitIsSmallMask(flags / 16, k - 4);
      assert Mask(k) == 16 * Mask(k - 4) by { assert Pow2(k) == 4 * Pow2(k - 2) == 16 * Pow2(k - 4); }
      match k
      case 4 => assert flags / 16 / 1 == flags / 16;
      case 5 => assert flags / 16 / 2 == flags / 32;
      case 6 => assert flags / 16 / 4 == flags / 64;
      case _ => assert flags / 16 / 8 == flags / 128;
    }
  }

  lemma BitIsSmallMask(flags: nat, k: nat)
    requires k < 4
    ensures Mask(k) == if k == 0 then 1 else if k == 1 then 2 else if k == 2 then 4 else 8
    ensures (flags / Mask(k)) % 2 == 1 <==> Bit(flags, k)
  {
    match k
    case 0 =>
    case 1 => assert Pow2(1) == 2;
    case 2 => assert Pow2(2) == 4 && flags / 2 / 2 == flags / 4;
    case _ => assert Pow2(3) == 8 && flags / 2 / 2 / 2 == flags / 8;
  }

  /** `flags & mask != 0` for a one-bit mask. */
  method TestMask(flags: Byte, mask: nat, ghost k: nat) returns (isSet: bool)
    requires k < 8 && mask == Mask(k)
    ensures isSet == Bit(flags, k)
  {
    isSet := (flags / mask) % 2 == 1;
    BitIsMask(flags, k);
  }

  ghost predicate Mirrors(dictionary: array<nat>, slots: map<Byte, nat>)
    reads dictionary
  {
    && dictionary.Length == 256
    && forall h: Byte :: dictionary[h] == if h in slots then slots[h] else INVALID_OFFSET
  }

  /** A run that does not reach past the output can be moved as one block. */
  lemma {:induction false} CopiedBlock(out: seq<Byte>, source: nat, count: nat)
    requires source < |out| && source + count <= |out|
    ensures Copied(out, source, count) == out + out[source..source + count]
    decreases count
  {
    if count > 0 {
      CopiedBlock(out, source, count - 1);
    }
  }

  method CopyRun(deVec: array<Byte>, source: nat, position: nat, count: nat)
    requires source < position && position + count <= deVec.Length
    modifies deVec
    ensures deVec[..position + count] == Copied(old(deVec[..position]), source, count)
    ensures deVec[position + count..] == old(deVec[position + count..])
  {
    ghost var out, tail := deVec[..position], deVec[position + count..];
    if source + count <= position {
      CopiedBlock(out, source, count);
      forall i | 0 <= i < count {
        deVec[position + i] := deVec[source + i];
      }
      assert deVec[..position + count] == out + out[source..source + count];
    } else {
      for i := 0 to count
        invariant deVec[..position + i] == Copied(out, source, i)
        invariant deVec[position + count..] == tail
      {
        deVec[position + i] := deVec[source + i];
        assert deVec[..position + i + 1] == deVec[..position + i] + [deVec[source + i]];
      }
    }
  }

  lemma HashNext(slots: map<Byte, nat>, out: seq<Byte>, lo: nat, hi: nat)
    requires lo <= hi < |out| - 1
    ensures HashPairs(slots, out, lo, hi + 1) == HashPairs(slots, out, lo, hi)[Xor(out[hi], out[hi + 1]) := hi]
    ensures HashPairs(slots, out, lo, lo) == slots
  {
    hide Xor;
  }

  method HashRange(
    dictionary: array<nat>, deVec: array<Byte>, lo: nat, hi: nat, ghost slots: map<Byte, nat>, ghost out: seq<Byte>)
    requires dictionary.Length == 256 && Mirrors(dictionary, slots)
    requires |out| <= deVec.Length && deVec[..|out|] == out
    requires lo <= hi < |out|
    modifies dictionary
    ensures Mirrors(dictionary, HashPairs(slots, out, lo, hi))
  {
    assert HashPairs(slots, out, lo, lo) == slots;
    hide Xor, HashPairs;
    for position := lo to hi
      invariant Mirrors(dictionary, HashPairs(slots, out, lo, position))
    {
      assert deVec[position] == out[position] && deVec[position + 1] == out[position + 1];
      HashNext(slots, out, lo, position);
      dictionary[Xor(deVec[position], deVec[position + 1])] := position;
    }
  }

  method Decompress(vec: seq<Byte>, deVec: array<Byte>, startPos: nat) returns (r: Result<(), DecodeError>)
    requires deVec.Length <= ISIZE_MAX
    modifies deVec
    ensures Agrees(r, deVec[..], Decompressed(vec, startPos, deVec.Length))
  {
    if startPos != 4 && startPos != 8 {
      return Err(UnsupportedPrefix);
    }
    if |vec| < startPos {
      return Err(MissingPrefix);
    }
    var total := FromLittleEndian(vec[..startPos]);
    if total < 8 {
      return Err(InvalidLength);
    }
    if total - 8 != deVec.Length {
      return Err(LengthMismatch);
    }
    r := DecompressTokens(vec, deVec, startPos);
  }

  /** The unit that a back-reference's two bytes stand for. */
  lemma BackrefDecodes(p: seq<Byte>, flags: Byte, k: nat, w: Window, n: nat)
    requires k < 8 && WellFormed(w) && |w.out| < n && Bit(flags, k)
    ensures |p| < 2 ==> DecodeFrom(p, flags, k, w, n) == Err(Truncated)
    ensures |p| >= 2 && p[0] !in w.slots ==> DecodeFrom(p, flags, k, w, n) == Err(UnknownHash)
    ensures |p| >= 2 && p[0] in w.slots ==> Emit(w, Backref(p[0], p[1])).Some?
    ensures |p| >= 2 && p[0] in w.slots ==>
      var next := Emit(w, Backref(p[0], p[1])).value;
      && next.out == Copied(w.out, w.slots[p[0]], (p[1] as int) + 2) && next.hashed == |next.out|
      && next.slots == HashPairs(w.slots, next.out, w.hashed, |w.out| + 1)
      && w.slots[p[0]] + 2 <= |w.out| && |next.out| == |w.out| + (p[1] as int) + 2
      && DecodeFrom(p, flags, k, w, n) ==
         if |next.out| > n then Err(OutputOverrun) else DecodeFrom(p[2..], flags, k + 1, next, n)
  {
    hide Xor, HashPairs, Copied;
  }

  /** One back-reference: an error, or the run copied and its first pair hashed. */
  method DecodeBackref(
    vec: seq<Byte>, start: nat, deVec: array<Byte>, dictionary: array<nat>, position: nat, hashPosition: nat,
    ghost flags: Byte, ghost k: nat, ghost w: Window)
    returns (error: Option<DecodeError>, output: nat, ghost next: Window)
    requires start <= |vec| && position < deVec.Length <= ISIZE_MAX && k < 8 && Bit(flags, k)
    requires WellFormed(w) && w.out == deVec[..position] && w.hashed == hashPosition && Mirrors(dictionary, w.slots)
    modifies deVec, dictionary
    ensures error.None? ==>
      && start + 2 <= |vec| && position < output <= deVec.Length
      && WellFormed(next) && next.out == deVec[..output] && next.hashed == output
      && Mirrors(dictionary, next.slots)
      && DecodeFrom(vec[start..], flags, k, w, deVec.Length)
         == DecodeFrom(vec[start + 2..], flags, k + 1, next, deVec.Length)
    ensures error.Some? ==> DecodeFrom(vec[start..], flags, k, w, deVec.Length) == Err(error.value)
  {
    hide Xor, HashPairs, Copied, DecodeFrom, Bit, Emit;
    ghost var p := vec[start..];
    BackrefDecodes(p, flags, k, w, deVec.Length);
    error, output, next := None, position, w;
    if |vec| - start < 2 {
      return Some(Truncated), position, w;
    }
    var hash: Byte := vec[start];
    var extraLength: int := vec[start + 1];
    assert p[0] == hash && p[1] == extraLength && p[2..] == vec[start + 2..];
    var source := dictionary[hash];
    if source == INVALID_OFFSET {
      return Some(UnknownHash), position, w;
    }
    // Every slot names a pair already written, so the decoder's two source checks always pass.
    assert source + 2 <= position;
    output := position + extraLength + 2;
    if output > deVec.Length {
      return Some(OutputOverrun), position, w;
    }
    next := Emit(w, Backref(hash, extraLength)).value;
    CopyRun(deVec, source, position, extraLength + 2);
    HashRange(dictionary, deVec, hashPosition, position + 1, w.slots, next.out);
  }

  lemma LiteralDecodes(p: seq<Byte>, flags: Byte, k: nat, w: Window, n: nat)
    requires k < 8 && WellFormed(w) && |w.out| < n && !Bit(flags, k)
    ensures p == [] ==> DecodeFrom(p, flags, k, w, n) == Err(Truncated)
    ensures p != [] ==> Emit(w, Literal(p[0])).Some?
    ensures p != [] ==>
      var next := Emit(w, Literal(p[0])).value;
      && next.out == w.out + [p[0]] && next.hashed == |w.out|
      && next.slots == HashPairs(w.slots, next.out, w.hashed, |w.out|)
      && DecodeFrom(p, flags, k, w, n) == DecodeFrom(p[1..], flags, k + 1, next, n)
  {
    hide Xor, HashPairs;
  }

  /** One literal: an error, or the byte appended and the pairs before it hashed. */
  method DecodeLiteral(
    vec: seq<Byte>, start: nat, deVec: array<Byte>, dictionary: array<nat>, position: nat, hashPosition: nat,
    ghost flags: Byte, ghost k: nat, ghost w: Window)
    returns (error: Option<DecodeError>, ghost next: Window)
    requires start <= |vec| && position < deVec.Length <= ISIZE_MAX && k < 8 && !Bit(flags, k)
    requires WellFormed(w) && w.out == deVec[..position] && w.hashed == hashPosition && Mirrors(dictionary, w.slots)
    modifies deVec, dictionary
    ensures error.None? ==>
      && start < |vec|
      && WellFormed(next) && next.out == deVec[..position + 1] && next.hashed == position
      && Mirrors(dictionary, next.slots)
      && DecodeFrom(vec[start..], flags, k, w, deVec.Length)
         == DecodeFrom(vec[start + 1..], flags, k + 1, next, deVec.Length)
    ensures error.Some? ==> DecodeFrom(vec[start..], flags, k, w, deVec.Length) == Err(error.value)
  {
    hide Xor, HashPairs, DecodeFrom, Bit, Emit;
    ghost var p := vec[start..];
    LiteralDecodes(p, flags, k, w, deVec.Length);
    if start == |vec| {
      return Some(Truncated), w;
    }
    assert p[0] == vec[start] && p[1..] == vec[start + 1..];
    next := Emit(w, Literal(vec[start])).value;
    deVec[position] := vec[start];
    assert deVec[..position + 1] == next.out;
    HashRange(dictionary, deVec, hashPosition, position, w.slots, next.out);
    error := None;
  }

  /** One literal or back-reference: an error, or the new compressed, output and hash positions. */
  method DecodeUnit(
    vec: seq<Byte>, start: nat, isBackreference: bool, deVec: array<Byte>, dictionary: array<nat>,
    position: nat, hashPosition: nat, ghost flags: Byte, ghost k: nat, ghost w: Window)
    returns (error: Option<DecodeError>, compressed: nat, output: nat, hashed: nat, ghost next: Window)
    requires start <= |vec| && position < deVec.Length <= ISIZE_MAX
    requires k < 8 && isBackreference == Bit(flags, k)
    requires WellFormed(w) && w.out == deVec[..position] && w.hashed == hashPosition && Mirrors(dictionary, w.slots)
    modifies deVec, dictionary
    ensures error.None? ==>
      && start <= compressed <= |vec| && position < output <= deVec.Length
      && WellFormed(next) && next.out == deVec[..output] && next.hashed == hashed
      && Mirrors(dictionary, next.slots)
      && DecodeFrom(vec[start..], flags, k, w, deVec.Length)
         == DecodeFrom(vec[compressed..], flags, k + 1, next, deVec.Length)
    ensures error.Some? ==> DecodeFrom(vec[start..], flags, k, w, deVec.Length) == Err(error.value)
  {
    hide Xor, HashPairs, DecodeFrom, Bit, Emit, Mirrors;
    if isBackreference {
      error, output, next := DecodeBackref(vec, start, deVec, dictionary, position, hashPosition, flags, k, w);
      compressed, hashed := start + 2, output;
    } else {
      error, next := DecodeLiteral(vec, start, deVec, dictionary, position, hashPosition, flags, k, w);
      compressed, output, hashed := start + 1, position + 1, position;
    }
  }

  /** Fetches a flag byte when the mask has run out, and reads the flag the mask selects. */
  method NextFlag(vec: seq<Byte>, start: nat, flags: Byte, mask: nat, ghost k: nat, ghost w: Window, ghost n: nat)
    returns (
      error: Option<DecodeError>, compressedPosition: nat, flags': Byte, mask': nat, isBackreference: bool,
      ghost k': nat)
    requires start <= |vec| && k <= 8 && mask == Mask(k)
    requires WellFormed(w) && |w.out| < n
    ensures error.None? ==>
      && start <= compressedPosition <= |vec| && k' < 8 && mask' == Mask(k') && (2 * mask') % 256 == Mask(k' + 1)
      && isBackreference == Bit(flags', k')
      && DecodeFrom(vec[start..], flags, k, w, n) == DecodeFrom(vec[compressedPosition..], flags', k', w, n)
    ensures error.Some? ==> DecodeFrom(vec[start..], flags, k, w, n) == Err(error.value)
  {
    error, compressedPosition, flags', mask', isBackreference, k' := None, start, flags, mask, false, k;
    if mask == 0 {
      if start == |vec| {
        error := Some(Truncated);
        return;
      }
      assert vec[start + 1..] == vec[start..][1..];
      compressedPosition, flags', mask', k' := start + 1, vec[start], 1, 0;
    }
    isBackreference := TestMask(flags', mask', k');
    MaskShift(k');
  }

  /** A method outcome agrees with the specified one. */
  ghost predicate Agrees(r: Result<(), DecodeError>, output: seq<Byte>, specified: Result<seq<Byte>, DecodeError>) {
    match specified
    case Ok(body) => r.Ok? && output == body
    case Err(error) => r == Err(error)
  }

  method DecompressTokens(vec: seq<Byte>, deVec: array<Byte>, startPos: nat) returns (r: Result<(), DecodeError>)
    requires deVec.Length <= ISIZE_MAX && startPos <= |vec|
    modifies deVec
    ensures Agrees(r, deVec[..], DecodeFrom(vec[startPos..], 0, 8, EMPTY, deVec.Length))
  {
    hide Xor, Emit, DecodeFrom, Bit, Mask;
    var dictionary := new nat[256](_ => INVALID_OFFSET);
    var compressedPosition, outputPosition, hashPosition := startPos, 0, 0;
    var flags: Byte, mask := 0, 0;
    ghost var k, w := 8, EMPTY;
    ghost var specified := DecodeFrom(vec[startPos..], 0, 8, EMPTY, deVec.Length);
    assert mask == Mask(8) by { NoMask(); }
    while outputPosition < deVec.Length
      invariant k <= 8 && mask == Mask(k)
      invariant outputPosition <= deVec.Length && startPos <= compressedPosition <= |vec|
      invariant WellFormed(w) && w.out == deVec[..outputPosition] && hashPosition == w.hashed
      invariant fresh(dictionary) && Mirrors(dictionary, w.slots)
      invariant specified == DecodeFrom(vec[compressedPosition..], flags, k, w, deVec.Length)
      decreases deVec.Length - outputPosition
    {
      var error;
      var isBackreference: bool;
      error, compressedPosition, flags, mask, isBackreference, k :=
        NextFlag(vec, compressedPosition, flags, mask, k, w, deVec.Length);
      if error.Some? {
        return Err(error.value);
      }
      error, compressedPosition, outputPosition, hashPosition, w :=
        DecodeUnit(
          vec, compressedPosition, isBackreference, deVec, dictionary, outputPosition, hashPosition, flags, k, w);
      if error.Some? {
        return Err(error.value);
      }
      mask, k := (2 * mask) % 256, k + 1;
    }
    assert deVec[..] == deVec[..outputPosition];
    DecodeEnds(vec[compressedPosition..], flags, k, w, deVec.Length);
    if compressedPosition != |vec| {
      return Err(TrailingBytes);
    }
    r := Ok(());
  }

  lemma NoMask()
    ensures Mask(8) == 0
  {
  }

  lemma DecodeEnds(p: seq<Byte>, flags: Byte, k: nat, w: Window, n: nat)
    requires k <= 8 && WellFormed(w) && |w.out| == n
    ensures DecodeFrom(p, flags, k, w, n) == if p == [] then Ok(w.out) else Err(TrailingBytes)
  {
  }
}
