/**
 The token format read a second way, without a window: where tokens start, which starts a hash names, and
 what a copied run repeats; and how good the encoder's choice is.
 */
module LzReference {
  import opened Bytes
  import opened LzTokens
  import opened LzEncoder
  import opened ByteLaws
  import LzDecoder

  // ---------- What a window remembers ----------

  /** How many bytes a token stands for. */
  function Length(t: Token): nat {
    match t
    case Literal(_) => 1
    case Backref(_, extra) => (var n: int := extra; n + 2)
  }

  /** Where the tokens start in the output, and where the last one ends. */
  function Starts(ts: seq<Token>): (ps: seq<nat>)
    ensures |ps| == |ts| + 1 && ps[0] == 0
  {
    if ts == [] then [0]
    else
      var before := Starts(ts[..|ts| - 1]);
      before + [before[|ts| - 1] + Length(ts[|ts| - 1])]
  }

  ghost predicate Within(ps: seq<nat>, n: nat) {
    forall i :: 0 <= i < |ps| ==> ps[i] + 1 < n
  }

  /** The latest of the given positions for each pair hash. */
  ghost function Latest(ps: seq<nat>, out: seq<Byte>): map<Byte, nat>
    requires Within(ps, |out|)
  {
    if ps == [] then map[]
    else
      var p := ps[|ps| - 1];
      Latest(ps[..|ps| - 1], out)[Xor(out[p], out[p + 1]) := p]
  }

  /** The starts that have been hashed: all of them, but not yet that of a literal at the very end. */
  function HashedStarts(ts: seq<Token>): (ps: seq<nat>)
    ensures |ps| <= |ts|
  {
    var n := |ts|;
    if n > 0 && ts[n - 1].Literal? then Starts(ts)[..n - 1] else Starts(ts)[..n]
  }

  lemma {:induction false} ExpandAppend(w: Window, ts: seq<Token>, t: Token)
    requires WellFormed(w)
    ensures Expand(w, ts + [t]) ==
      if Expand(w, ts).None? then None else Emit(Expand(w, ts).value, t)
    decreases |ts|
  {
    hide Emit;
    if ts == [] {
      assert ([] + [t])[1..] == [];
      assert Emit(w, t).Some? ==> Expand(Emit(w, t).value, []) == Emit(w, t);
    } else {
      assert (ts + [t])[0] == ts[0] && (ts + [t])[1..] == ts[1..] + [t];
      if Emit(w, ts[0]).Some? {
        ExpandAppend(Emit(w, ts[0]).value, ts[1..], t);
      }
    }
  }

  lemma {:induction false} LatestInLonger(ps: seq<nat>, out: seq<Byte>, longer: seq<Byte>)
    requires out <= longer && Within(ps, |out|)
    ensures Latest(ps, longer) == Latest(ps, out)
  {
    hide Xor;
    if ps != [] {
      LatestInLonger(ps[..|ps| - 1], out, longer);
    }
  }

  lemma LatestNext(ps: seq<nat>, p: nat, out: seq<Byte>)
    requires Within(ps, |out|) && p + 1 < |out|
    ensures Within(ps + [p], |out|) && Latest(ps + [p], out) == Latest(ps, out)[Xor(out[p], out[p + 1]) := p]
  {
    hide Xor;
    assert (ps + [p])[..|ps|] == ps;
  }

  /** How a window stands for the tokens it was reached by. */
  ghost predicate Remembers(ts: seq<Token>, w: Window) {
    && |w.out| == Starts(ts)[|ts|]
    && Within(HashedStarts(ts), |w.out|)
    && w.hashed == (if ts != [] && ts[|ts| - 1].Literal? then |w.out| - 1 else |w.out|)
    && w.slots == Latest(HashedStarts(ts), w.out)
  }

  lemma {:induction false} StartsAppend(ts: seq<Token>, t: Token)
    ensures Starts(ts + [t]) == Starts(ts) + [Starts(ts)[|ts|] + Length(t)]
  {
    assert (ts + [t])[..|ts|] == ts;
  }

  lemma {:induction false} HashedAppend(ts: seq<Token>, t: Token)
    ensures HashedStarts(ts + [t]) == Starts(ts)[..|ts|] + if t.Literal? then [] else [Starts(ts)[|ts|]]
  {
    hide Starts;
    StartsAppend(ts, t);
    var ps := Starts(ts);
    assert ps == ps[..|ts|] + [ps[|ts|]];
    assert (ps + [ps[|ts|] + Length(t)])[..|ts|] == ps[..|ts|];
    assert (ps + [ps[|ts|] + Length(t)])[..|ts| + 1] == ps;
  }

  lemma HashOne(slots: map<Byte, nat>, out: seq<Byte>, lo: nat)
    requires lo + 1 < |out|
    ensures HashPairs(slots, out, lo, lo) == slots
    ensures HashPairs(slots, out, lo, lo + 1) == slots[Xor(out[lo], out[lo + 1]) := lo]
  {
    hide Xor;
  }

  /** Once more output follows, every start so far is hashed. */
  lemma AllStartsHashed(ts: seq<Token>, w: Window, longer: seq<Byte>)
    requires Remembers(ts, w) && w.out < longer
    ensures var ps := Starts(ts)[..|ts|];
      Within(ps, |longer|) && Latest(ps, longer) == HashPairs(w.slots, longer, w.hashed, |w.out|)
  {
    hide Xor, HashPairs, Latest;
    LatestInLonger(HashedStarts(ts), w.out, longer);
    if ts != [] && ts[|ts| - 1].Literal? {
      var before := ts[..|ts| - 1];
      assert before + [ts[|ts| - 1]] == ts;
      StartsAppend(before, ts[|ts| - 1]);
      var p := |w.out| - 1;
      hide Starts;
      assert Starts(ts)[..|ts|] == HashedStarts(ts) + [p];
      LatestNext(HashedStarts(ts), p, longer);
      HashOne(w.slots, longer, p);
    } else {
      NothingToHash(w.slots, longer, |w.out|);
    }
  }

  lemma NothingToHash(slots: map<Byte, nat>, out: seq<Byte>, at: nat)
    ensures HashPairs(slots, out, at, at) == slots
  {
  }

  lemma RemembersNext(ts: seq<Token>, w: Window, t: Token)
    requires WellFormed(w) && Remembers(ts, w) && Emit(w, t).Some?
    ensures Remembers(ts + [t], Emit(w, t).value)
  {
    hide Xor, Latest, Starts, HashedStarts, SlotsNamePairs;
    var next := Emit(w, t).value;
    AllStartsHashed(ts, w, next.out);
    StartsAppend(ts, t);
    HashedAppend(ts, t);
    var ps := Starts(ts)[..|ts|];
    if t.Literal? {
      assert ps + [] == ps;
    } else {
      LatestNext(ps, |w.out|, next.out);
    }
  }

  /**
   In every window that tokens lead to, a hash names the latest token start whose pair has that hash: a run
   that is copied hashes only its first pair, and the pair of a literal at the end waits for its second byte.
   */
  lemma {:induction false} WindowRemembers(ts: seq<Token>)
    requires Expand(EMPTY, ts).Some?
    ensures Remembers(ts, Expand(EMPTY, ts).value)
    decreases |ts|
  {
    hide Xor, Emit, Remembers;
    if ts == [] {
      NothingRemembered();
    } else {
      var before, t := ts[..|ts| - 1], ts[|ts| - 1];
      assert before + [t] == ts;
      ExpandAppend(EMPTY, before, t);
      WindowRemembers(before);
      RemembersNext(before, Expand(EMPTY, before).value, t);
    }
  }

  lemma NothingRemembered()
    ensures Remembers([], EMPTY)
  {
  }

  /** The latest position: none of the later ones has the same hash. */
  lemma {:induction false} LatestIsLast(ps: seq<nat>, out: seq<Byte>, h: Byte, i: nat)
    requires Within(ps, |out|) && i < |ps| && Xor(out[ps[i]], out[ps[i] + 1]) == h
    requires forall j :: i < j < |ps| ==> Xor(out[ps[j]], out[ps[j] + 1]) != h
    ensures h in Latest(ps, out) && Latest(ps, out)[h] == ps[i]
  {
    hide Xor;
    if i < |ps| - 1 {
      LatestIsLast(ps[..|ps| - 1], out, h, i);
    }
  }

  lemma {:induction false} LatestHasHash(ps: seq<nat>, out: seq<Byte>, h: Byte)
    requires Within(ps, |out|) && h in Latest(ps, out)
    ensures exists i :: 0 <= i < |ps| && Xor(out[ps[i]], out[ps[i] + 1]) == h
  {
    hide Xor;
    var n := |ps|;
    if Xor(out[ps[n - 1]], out[ps[n - 1] + 1]) != h {
      LatestHasHash(ps[..n - 1], out, h);
      var i :| 0 <= i < n - 1 && Xor(out[ps[..n - 1][i]], out[ps[..n - 1][i] + 1]) == h;
      assert ps[i] == ps[..n - 1][i];
    }
  }

  // ---------- What a token adds ----------

  /** A copied run repeats what lies at its source, byte by byte, even into itself. */
  lemma {:induction false} CopiedRepeats(out: seq<Byte>, source: nat, count: nat, i: nat)
    requires source < |out| && i < count
    ensures Copied(out, source, count)[|out| + i] == Copied(out, source, count)[source + i]
    decreases count
  {
    if i < count - 1 {
      CopiedRepeats(out, source, count - 1, i);
    }
  }

  /** What one token appends: its byte, or as many bytes as it says, repeating from where its hash points. */
  lemma TokenAppends(w: Window, t: Token)
    requires WellFormed(w) && Emit(w, t).Some?
    ensures var out := Emit(w, t).value.out;
      && |out| == |w.out| + Length(t) && out[..|w.out|] == w.out
      && (t.Literal? ==> out[|w.out|] == t.value)
      && (t.Backref? ==>
            && t.hash in w.slots
            && forall k :: |w.out| <= k < |out| ==> out[k] == out[k - |w.out| + w.slots[t.hash]])
  {
    hide Xor, HashPairs, Copied;
    var out := Emit(w, t).value.out;
    if t.Backref? {
      forall k | |w.out| <= k < |out| ensures out[k] == out[k - |w.out| + w.slots[t.hash]] {
        CopiedRepeats(w.out, w.slots[t.hash], Length(t), k - |w.out|);
      }
    }
  }
}
