/** Text columns: nested char rows checked through one concatenated payload, and NUL-delimited symbol lists. */
module TextColumns {
  import opened Bytes
  import opened KTypes
  import opened Utf8

  // ---------- Rows of a nested char list ----------

  /** Row offsets into a payload of `n` bytes. */
  ghost predicate Offsets(b: seq<nat>, n: nat) {
    && |b| > 0 && b[0] == 0 && b[|b| - 1] == n
    && forall i, j :: 0 <= i <= j < |b| ==> b[i] <= b[j]
  }

  function Row(values: seq<Byte>, b: seq<nat>, i: nat): seq<Byte>
    requires i + 1 < |b| && b[i] <= b[i + 1] <= |values|
  {
    values[b[i]..b[i + 1]]
  }

  /** All rows that the offsets cut out of the payload. */
  ghost function Rows(values: seq<Byte>, b: seq<nat>): (rows: seq<seq<Byte>>)
    requires Offsets(b, |values|)
    ensures |rows| == |b| - 1
  {
    seq(|b| - 1, i requires 0 <= i < |b| - 1 => Row(values, b, i))
  }

  /** `validate_nested_char`: the payload is valid and no row starts inside a code point. */
  predicate NestedCharValid(values: seq<Byte>, b: seq<nat>) {
    && Valid(values)
    && forall i :: 0 <= i < |b| - 1 && b[i] < |values| ==> !Continuation(values[b[i]])
  }

  /** From row `k` on: the rest is valid and split only at boundaries exactly when every row is valid. */
  lemma {:induction false} RowsValidFrom(values: seq<Byte>, b: seq<nat>, k: nat)
    requires Offsets(b, |values|) && k < |b|
    ensures (Valid(values[b[k]..]) && forall i :: k <= i < |b| - 1 && b[i] < |values| ==> !Continuation(values[b[i]]))
      <==> (forall i :: k <= i < |b| - 1 ==> Valid(Row(values, b, i)))
    decreases |b| - k
  {
    var tail := values[b[k]..];
    if k == |b| - 1 {
      assert tail == [];
    } else {
      RowsValidFrom(values, b, k + 1);
      var row, rest := Row(values, b, k), values[b[k + 1]..];
      assert tail == row + rest;
      if forall i :: k + 1 <= i < |b| - 1 ==> Valid(Row(values, b, i)) {
        ValidStartsAtBoundary(rest);
        ValidSplitsAtBoundary(row, rest);
        if Valid(row) && tail != [] {
          ValidStartsAtBoundary(tail);
          assert tail[0] == values[b[k]];
        }
      } else if Valid(tail) && forall i :: k <= i < |b| - 1 && b[i] < |values| ==> !Continuation(values[b[i]]) {
        assert rest != [] ==> rest[0] == values[b[k + 1]];
        ValidSplitsAtBoundary(row, rest);
        assert false;
      }
    }
  }

  /** UTF-8 is self-synchronising: one check of the whole payload and its row starts covers every row. */
  lemma NestedCharValidExactly(values: seq<Byte>, b: seq<nat>)
    requires Offsets(b, |values|)
    ensures NestedCharValid(values, b) <==> forall i :: 0 <= i < |b| - 1 ==> Valid(Row(values, b, i))
  {
    RowsValidFrom(values, b, 0);
    assert values[b[0]..] == values;
  }

  // ---------- NUL-delimited symbols ----------

  /** The `count` symbols a payload spells, if it spells exactly that many. */
  function SplitSymbols(payload: seq<Byte>, count: nat): (r: Option<seq<seq<Byte>>>)
    ensures r.Some? ==> |r.value| == count
    decreases count
  {
    if count == 0 then (if payload == [] then Some([]) else None)
    else
      var nul := FindNul(payload, 0);
      if nul.None? then None
      else
        var rest := SplitSymbols(payload[nul.value + 1..], count - 1);
        if rest.None? then None else Some([payload[..nul.value]] + rest.value)
  }

  function MapLossy(symbols: seq<seq<Byte>>): (r: seq<seq<Byte>>)
    ensures |r| == |symbols|
  {
    seq(|symbols|, i requires 0 <= i < |symbols| => Lossy(symbols[i]))
  }

  /** A NUL is a boundary on both sides, so nothing joins across it. */
  lemma NulSplits(symbol: seq<Byte>, rest: seq<Byte>)
    ensures Lossy(symbol + [0] + rest) == Lossy(symbol) + [0] + Lossy(rest)
    ensures Valid(symbol + [0] + rest) <==> Valid(symbol) && Valid(rest)
  {
    var tail := [0] + rest;
    assert symbol + [0] + rest == symbol + tail;
    LossySplitsAtBoundary(symbol, tail);
    ValidSplitsAtBoundary(symbol, tail);
    assert tail[HeadLength(tail)..] == rest && tail[..HeadLength(tail)] == [0];
    assert Lossy(tail) == [0] + Lossy(rest);
    assert Lossy(symbol) + ([0] + Lossy(rest)) == Lossy(symbol) + [0] + Lossy(rest);
  }

  lemma NulFound(symbol: seq<Byte>, rest: seq<Byte>)
    requires 0 !in symbol
    ensures FindNul(symbol + [0] + rest, 0) == Some(|symbol|)
    ensures (symbol + [0] + rest)[..|symbol|] == symbol && (symbol + [0] + rest)[|symbol| + 1..] == rest
  {
    var s := symbol + [0] + rest;
    assert s[0..|symbol|] == symbol;
    FindNulAt(s, 0, |symbol|);
  }

  lemma NulTerminates(payload: seq<Byte>, i: nat)
    requires FindNul(payload, 0) == Some(i)
    ensures payload == payload[..i] + [0] + payload[i + 1..] && 0 !in payload[..i]
  {
    assert payload[0..i] == payload[..i];
  }

  /**
   Transcoding a symbol payload and then splitting it gives the same symbols, in the same number,
   as splitting it first and transcoding each piece.
   */
  lemma {:induction false} LossyCommutesWithSplit(payload: seq<Byte>, count: nat)
    ensures SplitSymbols(Lossy(payload), count) ==
      match SplitSymbols(payload, count)
      case None => None
      case Some(symbols) => Some(MapLossy(symbols))
    decreases count
  {
    hide Lossy, SplitSymbols, FindNul, MapLossy;
    if count == 0 {
      SplitNothing(payload);
    } else if FindNul(payload, 0).None? {
      SplitUnterminated(payload, count);
    } else {
      var i := FindNul(payload, 0).value;
      var symbol, rest := payload[..i], payload[i + 1..];
      NulTerminates(payload, i);
      NulSplits(symbol, rest);
      LossyKeepsNulFree(symbol);
      SplitCons(symbol, rest, count);
      SplitCons(Lossy(symbol), Lossy(rest), count);
      LossyCommutesWithSplit(rest, count - 1);
      if SplitSymbols(rest, count - 1).Some? {
        MapLossyCons(symbol, SplitSymbols(rest, count - 1).value);
      }
    }
  }

  lemma SplitNothing(payload: seq<Byte>)
    ensures SplitSymbols(payload, 0) == (if payload == [] then Some([]) else None)
    ensures SplitSymbols(Lossy(payload), 0) == SplitSymbols(payload, 0)
    ensures MapLossy([]) == []
  {
    LossyEmpty(payload);
  }

  lemma SplitUnterminated(payload: seq<Byte>, count: nat)
    requires count > 0 && FindNul(payload, 0).None?
    ensures SplitSymbols(payload, count).None? && SplitSymbols(Lossy(payload), count).None?
  {
    hide Lossy;
    LossyKeepsNulFree(payload);
    assert payload[0..] == payload;
    NoNulNoSplit(Lossy(payload));
  }

  lemma SplitCons(symbol: seq<Byte>, rest: seq<Byte>, count: nat)
    requires 0 !in symbol && count > 0
    ensures SplitSymbols(symbol + [0] + rest, count) ==
      match SplitSymbols(rest, count - 1)
      case None => None
      case Some(symbols) => Some([symbol] + symbols)
  {
    hide FindNul;
    NulFound(symbol, rest);
  }

  lemma MapLossyCons(symbol: seq<Byte>, symbols: seq<seq<Byte>>)
    ensures MapLossy([symbol] + symbols) == [Lossy(symbol)] + MapLossy(symbols)
  {
  }

  lemma LossyEmpty(s: seq<Byte>)
    ensures Lossy(s) == [] <==> s == []
  {
    if s != [] {
      assert |TranscodedHead(s)| > 0;
    }
  }

  lemma NoNulNoSplit(s: seq<Byte>)
    requires 0 !in s
    ensures FindNul(s, 0).None?
  {
  }

  /** One validation of the whole payload proves exactly that every symbol is valid. */
  lemma {:induction false} SplitSymbolsValid(payload: seq<Byte>, count: nat)
    requires SplitSymbols(payload, count).Some?
    ensures Valid(payload) <==> forall s <- SplitSymbols(payload, count).value :: Valid(s)
    ensures forall s <- SplitSymbols(payload, count).value :: 0 !in s
    decreases count
  {
    hide Valid, FindNul, SplitSymbols;
    if count > 0 {
      SplitFirst(payload, count);
      var i := FindNul(payload, 0).value;
      var symbol, rest := payload[..i], payload[i + 1..];
      NulSplits(symbol, rest);
      SplitSymbolsValid(rest, count - 1);
      ValidCons(symbol, SplitSymbols(rest, count - 1).value);
    } else {
      SplitNone(payload);
    }
  }

  lemma SplitFirst(payload: seq<Byte>, count: nat)
    requires count > 0 && SplitSymbols(payload, count).Some?
    ensures FindNul(payload, 0).Some?
    ensures var i := FindNul(payload, 0).value;
      && payload == payload[..i] + [0] + payload[i + 1..] && 0 !in payload[..i]
      && SplitSymbols(payload[i + 1..], count - 1).Some?
      && SplitSymbols(payload, count).value == [payload[..i]] + SplitSymbols(payload[i + 1..], count - 1).value
  {
    hide FindNul;
    NulTerminates(payload, FindNul(payload, 0).value);
  }

  lemma SplitNone(payload: seq<Byte>)
    requires SplitSymbols(payload, 0).Some?
    ensures Valid(payload) && SplitSymbols(payload, 0).value == []
  {
  }

  lemma ValidCons(symbol: seq<Byte>, others: seq<seq<Byte>>)
    ensures (forall s <- [symbol] + others :: Valid(s)) <==> Valid(symbol) && forall s <- others :: Valid(s)
    ensures (forall s <- [symbol] + others :: 0 !in s) <==> 0 !in symbol && forall s <- others :: 0 !in s
  {
    hide Valid;
    assert symbol in [symbol] + others && forall s <- others :: s in [symbol] + others;
  }

  /** Symbol by symbol: each decoded on its own, failing if any fails. */
  function DecodeEach(symbols: seq<seq<Byte>>, encoding: Encoding): Option<seq<seq<Byte>>> {
    if exists s :: s in symbols && DecodeText(s, encoding).None? then None
    else Some(seq(|symbols|, i requires 0 <= i < |symbols| =>
      assert symbols[i] in symbols;
      DecodeText(symbols[i], encoding).value))
  }

  /** The decoder's order, all text first, agrees with the natural one, symbol by symbol, under both policies. */
  lemma DecodeThenSplit(payload: seq<Byte>, count: nat, encoding: Encoding)
    requires SplitSymbols(payload, count).Some?
    ensures var text := DecodeText(payload, encoding);
      DecodeEach(SplitSymbols(payload, count).value, encoding)
        == (if text.None? then None else SplitSymbols(text.value, count))
  {
    var symbols := SplitSymbols(payload, count).value;
    SplitSymbolsValid(payload, count);
    LossyCommutesWithSplit(payload, count);
    forall s | s in symbols ensures Lossy(s) == s <==> Valid(s) {
      LossyFixesValid(s);
    }
    hide Lossy, Valid, SplitSymbols;
    if DecodeText(payload, encoding).Some? {
      var each := DecodeEach(symbols, encoding);
      if Valid(payload) {
        assert forall i :: 0 <= i < |symbols| ==> symbols[i] in symbols;
        assert each.value == symbols;
      } else {
        assert forall i :: 0 <= i < |symbols| ==>
          symbols[i] in symbols && DecodeText(symbols[i], encoding).value == Lossy(symbols[i]);
        assert each.value == MapLossy(symbols);
      }
    }
  }
}
