/** The validator accepts exactly the encodings of well-formed trees within the depth limit. */
module QParserProofs {
  import opened Bytes
  import opened KTypes
  import opened QTree
  import opened QParser

  /** `s` stands at `pos`. */
  ghost predicate At(bytes: seq<Byte>, pos: nat, s: seq<Byte>) {
    pos + |s| <= |bytes| && bytes[pos..pos + |s|] == s
  }

  lemma AtConcat(bytes: seq<Byte>, pos: nat, x: seq<Byte>, y: seq<Byte>)
    ensures At(bytes, pos, x + y) <==> At(bytes, pos, x) && At(bytes, pos + |x|, y)
  {
    if pos + |x + y| <= |bytes| {
      var z := bytes[pos..pos + |x + y|];
      assert z == bytes[pos..pos + |x|] + bytes[pos + |x|..pos + |x| + |y|];
      if z == x + y {
        assert z[..|x|] == x && z[|x|..] == y;
      }
    }
  }

  lemma At1(bytes: seq<Byte>, pos: nat, x: Byte)
    ensures At(bytes, pos, [x]) <==> pos < |bytes| && bytes[pos] == x
  {
    if pos < |bytes| {
      assert bytes[pos..pos + 1] == [bytes[pos]];
    }
  }

  lemma At2(bytes: seq<Byte>, pos: nat, x: Byte, y: Byte)
    ensures At(bytes, pos, [x, y]) <==> pos + 1 < |bytes| && bytes[pos] == x && bytes[pos + 1] == y
  {
    if pos + 1 < |bytes| {
      assert bytes[pos..pos + 2] == [bytes[pos], bytes[pos + 1]];
    }
  }

  lemma At3(bytes: seq<Byte>, pos: nat, x: Byte, y: Byte, z: Byte)
    ensures At(bytes, pos, [x, y, z])
      <==> pos + 2 < |bytes| && bytes[pos] == x && bytes[pos + 1] == y && bytes[pos + 2] == z
  {
    if pos + 2 < |bytes| {
      assert bytes[pos..pos + 3] == [bytes[pos], bytes[pos + 1], bytes[pos + 2]];
    }
  }

  // ---------- Leaves ----------

  lemma I32AtExactly(bytes: seq<Byte>, pos: nat, n: nat)
    requires pos <= |bytes|
    ensures I32At(bytes, pos) == Some(n) <==> n <= I32_MAX && At(bytes, pos, LittleEndian(n, 4))
  {
    Pow256Values();
    if I32At(bytes, pos) == Some(n) {
      LittleEndianInverse(bytes[pos..pos + 4]);
    }
    if n <= I32_MAX && At(bytes, pos, LittleEndian(n, 4)) {
      LittleEndianRoundTrip(n, 4);
    }
  }

  lemma I64AtExactly(bytes: seq<Byte>, pos: nat, n: nat)
    ensures (pos + 8 <= |bytes| && FromLittleEndian(bytes[pos..pos + 8]) == n && n <= I64_MAX)
      <==> (n <= I64_MAX && At(bytes, pos, LittleEndian(n, 8)))
  {
    Pow256Values();
    if pos + 8 <= |bytes| {
      LittleEndianInverse(bytes[pos..pos + 8]);
    }
    if n <= I64_MAX {
      LittleEndianRoundTrip(n, 8);
    }
  }

  lemma TypedCountExactly(bytes: seq<Byte>, pos: nat, attr: Byte, wide: bool, n: nat, e: nat)
    requires pos <= |bytes|
    ensures TypedCount(bytes, pos) == Some((attr, wide, n, e))
      <==> (attr <= 4 && n <= CountLimit(wide) && At(bytes, pos, CountHeader(attr, wide, n))
        && e == pos + |CountHeader(attr, wide, n)|)
  {
    hide LittleEndian, FromLittleEndian, I32At, At;
    if attr <= 4 {
      var raw: Byte := if wide then attr + 128 else attr;
      At1(bytes, pos, raw);
      if pos < |bytes| {
        if wide { I64AtExactly(bytes, pos + 1, n); } else { I32AtExactly(bytes, pos + 1, n); }
      }
      AtConcat(bytes, pos, [raw], LittleEndian(n, if wide then 8 else 4));
    }
  }

  lemma NulAtExactly(bytes: seq<Byte>, pos: nat, s: seq<Byte>)
    requires pos <= |bytes|
    ensures (FindNul(bytes, pos) == Some(pos + |s|) && bytes[pos..pos + |s|] == s)
      <==> NulFree(s) && At(bytes, pos, s + [0])
  {
    AtConcat(bytes, pos, s, [0]);
    At1(bytes, pos + |s|, 0);
    if NulFree(s) && At(bytes, pos, s + [0]) {
      FindNulAt(bytes, pos, pos + |s|);
    }
  }

  lemma {:induction false} SymbolsSound(bytes: seq<Byte>, pos: nat, count: nat)
    requires pos <= |bytes| && ParseSymbols(bytes, pos, count).Some?
    ensures var (symbols, e) := ParseSymbols(bytes, pos, count).value;
      && (forall s <- symbols :: NulFree(s))
      && At(bytes, pos, EncodeSymbols(symbols)) && e == pos + |EncodeSymbols(symbols)|
    decreases count
  {
    hide NulFree, At, FindNul;
    if count > 0 {
      var nul := FindNul(bytes, pos).value;
      var first := bytes[pos..nul];
      NulAtExactly(bytes, pos, first);
      SymbolsSound(bytes, nul + 1, count - 1);
      var (rest, e) := ParseSymbols(bytes, nul + 1, count - 1).value;
      assert ParseSymbols(bytes, pos, count) == Some(([first] + rest, e));
      hide ParseSymbols;
      AtConcat(bytes, pos, first + [0], EncodeSymbols(rest));
      EncodeCons(first, rest);
    } else {
      NothingAt(bytes, pos);
    }
  }

  lemma NothingAt(bytes: seq<Byte>, pos: nat)
    requires pos <= |bytes|
    ensures At(bytes, pos, [])
  {
  }

  lemma EncodeCons(first: seq<Byte>, rest: seq<seq<Byte>>)
    ensures EncodeSymbols([first] + rest) == first + [0] + EncodeSymbols(rest)
    ensures (forall s <- [first] + rest :: NulFree(s)) <==> NulFree(first) && forall s <- rest :: NulFree(s)
  {
    hide NulFree;
    var symbols := [first] + rest;
    assert symbols[0] == first && symbols[1..] == rest;
    assert first in symbols && forall s <- rest :: s in symbols;
  }

  lemma {:induction false} SymbolsComplete(bytes: seq<Byte>, pos: nat, symbols: seq<seq<Byte>>)
    requires pos <= |bytes| && forall s <- symbols :: NulFree(s)
    requires At(bytes, pos, EncodeSymbols(symbols))
    ensures ParseSymbols(bytes, pos, |symbols|) == Some((symbols, pos + |EncodeSymbols(symbols)|))
    decreases |symbols|
  {
    hide NulFree, At, FindNul, ParseSymbols;
    if symbols != [] {
      var first, rest := symbols[0], symbols[1..];
      assert EncodeSymbols(symbols) == first + [0] + EncodeSymbols(rest);
      hide EncodeSymbols;
      FirstSymbolAt(bytes, pos, first, rest);
      SymbolsComplete(bytes, pos + |first| + 1, rest);
      FirstSymbolParses(bytes, pos, first, |symbols|);
      assert [first] + rest == symbols;
    } else {
      NoSymbolParses(bytes, pos);
    }
  }

  lemma NoSymbolParses(bytes: seq<Byte>, pos: nat)
    requires pos <= |bytes|
    ensures ParseSymbols(bytes, pos, 0) == Some(([], pos))
  {
  }

  lemma FirstSymbolParses(bytes: seq<Byte>, pos: nat, first: seq<Byte>, count: nat)
    requires count > 0 && pos + |first| + 1 <= |bytes|
    requires FindNul(bytes, pos) == Some(pos + |first|) && bytes[pos..pos + |first|] == first
    requires ParseSymbols(bytes, pos + |first| + 1, count - 1).Some?
    ensures var (rest, e) := ParseSymbols(bytes, pos + |first| + 1, count - 1).value;
      ParseSymbols(bytes, pos, count) == Some(([first] + rest, e))
  {
    hide FindNul;
  }

  lemma FirstSymbolAt(bytes: seq<Byte>, pos: nat, first: seq<Byte>, rest: seq<seq<Byte>>)
    requires NulFree(first) && At(bytes, pos, first + [0] + EncodeSymbols(rest))
    ensures pos + |first| + 1 <= |bytes| && FindNul(bytes, pos) == Some(pos + |first|)
      && bytes[pos..pos + |first|] == first
    ensures At(bytes, pos + |first| + 1, EncodeSymbols(rest))
  {
    AtConcat(bytes, pos, first + [0], EncodeSymbols(rest));
    NulAtExactly(bytes, pos, first);
  }

  // ---------- Soundness: what is parsed is what the tree encodes ----------

  ghost predicate Encodes(bytes: seq<Byte>, pos: nat, depth: nat, t: Tree, e: nat) {
    && WellFormed(t)
    && At(bytes, pos, Encode(t)) && e == pos + |Encode(t)|
    && depth + Depth(t) <= MAX_VALUE_DEPTH
  }

  ghost predicate EncodesAll(bytes: seq<Byte>, pos: nat, depth: nat, items: seq<Tree>, e: nat) {
    && (forall i <- items :: WellFormed(i))
    && At(bytes, pos, EncodeAll(items)) && e == pos + |EncodeAll(items)|
    && (items != [] ==> depth >= 1 && depth - 1 + DepthAll(items) <= MAX_VALUE_DEPTH)
  }

  lemma AtomLayout(bytes: seq<Byte>, pos: nat, t: Tree)
    requires t.Atom? && WellFormed(t)
    ensures At(bytes, pos, Encode(t)) <==>
      (pos < |bytes| && bytes[pos] == 256 - t.kind
        && At(bytes, pos + 1, if t.kind == 11 then t.payload + [0] else t.payload))
    ensures |Encode(t)| == 1 + |t.payload| + (if t.kind == 11 then 1 else 0)
  {
    var tail := if t.kind == 11 then t.payload + [0] else t.payload;
    assert Encode(t) == [256 - t.kind] + tail;
    At1(bytes, pos, 256 - t.kind);
    hide At;
    AtConcat(bytes, pos, [256 - t.kind], tail);
  }

  lemma VectorLayout(bytes: seq<Byte>, pos: nat, t: Tree)
    requires t.Vector? && WellFormed(t)
    ensures var header := CountHeader(t.attr, t.wide, Count(t));
      && |Encode(t)| == 1 + |header| + |t.payload|
      && (At(bytes, pos, Encode(t)) <==>
            (pos < |bytes| && bytes[pos] == t.kind && At(bytes, pos + 1, header)
              && At(bytes, pos + 1 + |header|, t.payload)))
  {
    At1(bytes, pos, t.kind);
    hide At, CountHeader;
    AtParts(bytes, pos, [t.kind], CountHeader(t.attr, t.wide, Count(t)), t.payload);
  }

  lemma SymbolsLayout(bytes: seq<Byte>, pos: nat, t: Tree)
    requires t.Symbols? && WellFormed(t)
    ensures var header := CountHeader(t.attr, t.wide, |t.symbols|);
      && |Encode(t)| == 1 + |header| + |EncodeSymbols(t.symbols)|
      && (At(bytes, pos, Encode(t)) <==>
            (pos < |bytes| && bytes[pos] == 11 && At(bytes, pos + 1, header)
              && At(bytes, pos + 1 + |header|, EncodeSymbols(t.symbols))))
  {
    At1(bytes, pos, 11);
    hide At, CountHeader;
    AtParts(bytes, pos, [11], CountHeader(t.attr, t.wide, |t.symbols|), EncodeSymbols(t.symbols));
  }

  lemma AtomSound(bytes: seq<Byte>, pos: nat, depth: nat)
    requires pos < |bytes| && bytes[pos] >= 237 && depth <= MAX_VALUE_DEPTH
    requires ParseAtom(bytes, pos + 1, 256 - bytes[pos]).Ok?
    ensures var (t, e) := ParseAtom(bytes, pos + 1, 256 - bytes[pos]).value; Encodes(bytes, pos, depth, t, e)
  {
    var (t, e) := ParseAtom(bytes, pos + 1, 256 - bytes[pos]).value;
    AtomLayout(bytes, pos, t);
    hide Encode;
    if t.kind == 11 {
      NulAtExactly(bytes, pos + 1, t.payload);
    }
  }

  lemma VectorSound(bytes: seq<Byte>, pos: nat, depth: nat)
    requires pos < |bytes| && 1 <= bytes[pos] <= 19 && depth <= MAX_VALUE_DEPTH
    requires ParseVector(bytes, pos + 1, bytes[pos]).Ok?
    ensures var (t, e) := ParseVector(bytes, pos + 1, bytes[pos]).value; Encodes(bytes, pos, depth, t, e)
  {
    hide Encode, TypedCount, CountHeader, ParseSymbols;
    var kind := bytes[pos];
    if kind == 11 {
      hide ParseVector;
      SymbolVectorSound(bytes, pos, depth);
    } else {
      hide ParseVector;
      FixedVectorSound(bytes, pos, depth);
    }
  }

  lemma SymbolVectorSound(bytes: seq<Byte>, pos: nat, depth: nat)
    requires pos < |bytes| && bytes[pos] == 11 && depth <= MAX_VALUE_DEPTH
    requires ParseVector(bytes, pos + 1, bytes[pos]).Ok?
    ensures var (t, e) := ParseVector(bytes, pos + 1, bytes[pos]).value; Encodes(bytes, pos, depth, t, e)
  {
    hide Encode, TypedCount, CountHeader, ParseSymbols, At, NulFree;
    var (t, e) := ParseVector(bytes, pos + 1, 11).value;
    var (attr, wide, count, start) := TypedCount(bytes, pos + 1).value;
    TypedCountExactly(bytes, pos + 1, attr, wide, count, start);
    SymbolsSound(bytes, start, count);
    SymbolsLayout(bytes, pos, t);
  }

  lemma FixedVectorSound(bytes: seq<Byte>, pos: nat, depth: nat)
    requires pos < |bytes| && 1 <= bytes[pos] <= 19 && bytes[pos] != 11 && depth <= MAX_VALUE_DEPTH
    requires ParseVector(bytes, pos + 1, bytes[pos]).Ok?
    ensures var (t, e) := ParseVector(bytes, pos + 1, bytes[pos]).value; Encodes(bytes, pos, depth, t, e)
  {
    hide Encode, TypedCount, CountHeader, Count, At, ParseVector, Booleans;
    FixedVectorParsed(bytes, pos);
    var (t, e) := ParseVector(bytes, pos + 1, bytes[pos]).value;
    var (attr, wide, count, start) := TypedCount(bytes, pos + 1).value;
    TypedCountExactly(bytes, pos + 1, attr, wide, count, start);
    CountOfVector(bytes[pos], attr, wide, t.payload, count);
    assert PayloadOf(t.kind, t.payload, Count(t));
    assert WellFormed(t);
    VectorLayout(bytes, pos, t);
  }

  lemma FixedVectorParsed(bytes: seq<Byte>, pos: nat)
    requires pos < |bytes| && 1 <= bytes[pos] <= 19 && bytes[pos] != 11 && ParseVector(bytes, pos + 1, bytes[pos]).Ok?
    ensures TypedCount(bytes, pos + 1).Some?
    ensures var (t, e) := ParseVector(bytes, pos + 1, bytes[pos]).value;
      var (attr, wide, count, start) := TypedCount(bytes, pos + 1).value;
      && t.Vector? && t.kind == bytes[pos] && t.attr == attr && t.wide == wide && PayloadOf(t.kind, t.payload, count)
      && start <= e == start + |t.payload| && At(bytes, start, t.payload)
  {
    hide TypedCount, Booleans;
  }

  lemma LambdaLayout(bytes: seq<Byte>, pos: nat, t: Tree)
    requires t.Lambda? && WellFormed(t)
    ensures var nul := pos + 1 + |t.context|;
      && |Encode(t)| == 8 + |t.context| + |t.source|
      && (At(bytes, pos, Encode(t)) <==>
            (&& pos < |bytes| && bytes[pos] == 100 && At(bytes, pos + 1, t.context + [0])
             && nul + 2 < |bytes| && bytes[nul + 1] == 10 && bytes[nul + 2] == 0
             && At(bytes, nul + 3, LittleEndian(|t.source|, 4)) && At(bytes, nul + 7, t.source)))
  {
    var nul := pos + 1 + |t.context|;
    At1(bytes, pos, 100);
    At3(bytes, nul, 0, 10, 0);
    At1(bytes, nul, 0);
    hide At, LittleEndian;
    LambdaAt(bytes, pos, t.context, LittleEndian(|t.source|, 4), t.source);
    AtConcat(bytes, pos + 1, t.context, [0]);
  }

  lemma LambdaSound(bytes: seq<Byte>, pos: nat, depth: nat)
    requires pos < |bytes| && bytes[pos] == 100
    requires ParseLambda(bytes, pos + 1, depth).Ok?
    ensures var (t, e) := ParseLambda(bytes, pos + 1, depth).value; Encodes(bytes, pos, depth, t, e)
  {
    hide Encode, FindNul, I32At;
    var (t, e) := ParseLambda(bytes, pos + 1, depth).value;
    var nul := FindNul(bytes, pos + 1).value;
    assert At(bytes, nul + 7, t.source);
    NulAtExactly(bytes, pos + 1, t.context);
    I32AtExactly(bytes, nul + 3, |t.source|);
    hide At, NulFree;
    LambdaLayout(bytes, pos, t);
  }

  /** The five parts of an encoded lambda. */
  lemma LambdaAt(bytes: seq<Byte>, pos: nat, context: seq<Byte>, size: seq<Byte>, source: seq<Byte>)
    ensures At(bytes, pos, [100] + context + [0, 10, 0] + size + source)
      <==> (&& At(bytes, pos, [100]) && At(bytes, pos + 1, context) && At(bytes, pos + 1 + |context|, [0, 10, 0])
            && At(bytes, pos + 4 + |context|, size) && At(bytes, pos + 4 + |context| + |size|, source))
  {
    hide At;
    AtConcat(bytes, pos, [100], context);
    AtConcat(bytes, pos, [100] + context, [0, 10, 0]);
    AtConcat(bytes, pos, [100] + context + [0, 10, 0], size);
    AtConcat(bytes, pos, [100] + context + [0, 10, 0] + size, source);
  }

  /** Three parts one after another. */
  lemma AtParts(bytes: seq<Byte>, pos: nat, x: seq<Byte>, y: seq<Byte>, z: seq<Byte>)
    ensures At(bytes, pos, x + y + z) <==> At(bytes, pos, x) && At(bytes, pos + |x|, y) && At(bytes, pos + |x| + |y|, z)
  {
    hide At;
    AtConcat(bytes, pos, x, y);
    AtConcat(bytes, pos, x + y, z);
  }

  lemma TableAt(
    bytes: seq<Byte>, pos: nat, attr: Byte, names: seq<Byte>, listAttr: Byte, size: seq<Byte>, columns: seq<Byte>)
    ensures At(bytes, pos, [98, attr, 99] + names + [0, listAttr] + size + columns)
      <==> (&& At(bytes, pos, [98, attr, 99]) && At(bytes, pos + 3, names)
        && At(bytes, pos + 3 + |names|, [0, listAttr])
            && At(bytes, pos + 5 + |names|, size) && At(bytes, pos + 5 + |names| + |size|, columns))
  {
    hide At;
    AtParts(bytes, pos, [98, attr, 99], names, [0, listAttr]);
    AtParts(bytes, pos, [98, attr, 99] + names + [0, listAttr], size, columns);
  }

  lemma ConsEncodes(bytes: seq<Byte>, pos: nat, depth: nat, first: Tree, p: nat, rest: seq<Tree>, e: nat)
    requires depth >= 1 && Encodes(bytes, pos, depth, first, p) && EncodesAll(bytes, p, depth, rest, e)
    ensures EncodesAll(bytes, pos, depth, [first] + rest, e)
  {
    hide At, WellFormed;
    var items := [first] + rest;
    assert items[0] == first && items[1..] == rest;
    AtConcat(bytes, pos, Encode(first), EncodeAll(rest));
    assert EncodeAll(items) == Encode(first) + EncodeAll(rest);
    assert DepthAll(items) == Max(1 + Depth(first), DepthAll(rest));
  }

  lemma DictEncodes(bytes: seq<Byte>, pos: nat, depth: nat, wire: Byte, keys: Tree, p: nat, values: Tree, e: nat)
    requires (wire == 99 || wire == 127) && At(bytes, pos, [wire]) && DictShapes(keys, values)
    requires Encodes(bytes, pos + 1, depth + 1, keys, p) && Encodes(bytes, p, depth + 1, values, e)
    ensures Encodes(bytes, pos, depth, Dict(wire, keys, values), e)
  {
    hide At, Count;
    var t := Dict(wire, keys, values);
    assert WellFormed(t) && Depth(t) == 1 + Max(Depth(keys), Depth(values));
    assert Encode(t) == [wire] + Encode(keys) + Encode(values);
    hide WellFormed, Encode, Depth;
    AtParts(bytes, pos, [wire], Encode(keys), Encode(values));
  }

  lemma TableEncodes(
    bytes: seq<Byte>, pos: nat, depth: nat, attr: Byte, names: Tree, p: nat, listAttr: Byte, columns: seq<Tree>, e: nat)
    requires attr <= 4 && listAttr <= 4 && depth + 2 <= MAX_VALUE_DEPTH
    requires names.Symbols? && |columns| == |names.symbols| <= I32_MAX
    requires At(bytes, pos, [98, attr, 99]) && Encodes(bytes, pos + 3, depth + 2, names, p)
    requires At(bytes, p, [0, listAttr]) && At(bytes, p + 2, LittleEndian(|columns|, 4))
    requires EncodesAll(bytes, p + 6, depth + 3, columns, e)
    requires columns != [] ==> AllRows(columns, Count(columns[0]))
    ensures Encodes(bytes, pos, depth, Table(attr, names, listAttr, columns), e)
  {
    hide At;
    var t := Table(attr, names, listAttr, columns);
    assert WellFormed(t);
    assert Depth(t) == 2 + DepthAll(columns);
    TableAt(bytes, pos, attr, Encode(names), listAttr, LittleEndian(|columns|, 4), EncodeAll(columns));
    hide WellFormed, Count, LittleEndian;
  }

  lemma {:induction false} AllSound(bytes: seq<Byte>, pos: nat, depth: nat, count: nat)
    requires pos <= |bytes| && depth >= 1 && ParseAll(bytes, pos, depth, count).Ok?
    ensures var (items, e) := ParseAll(bytes, pos, depth, count).value; EncodesAll(bytes, pos, depth, items, e)
    decreases |bytes| - pos, 1 + count
  {
    hide ParseValue, Encodes, EncodesAll, ParseAll;
    AllSplits(bytes, pos, depth, count);
    if count > 0 {
      ValueSound(bytes, pos, depth);
      var (first, p) := ParseValue(bytes, pos, depth).value;
      AllSound(bytes, p, depth, count - 1);
      var (rest, e) := ParseAll(bytes, p, depth, count - 1).value;
      ConsEncodes(bytes, pos, depth, first, p, rest, e);
    } else {
      NothingEncoded(bytes, pos, depth);
    }
  }

  lemma NothingEncoded(bytes: seq<Byte>, pos: nat, depth: nat)
    requires pos <= |bytes|
    ensures EncodesAll(bytes, pos, depth, [], pos)
  {
    NothingAt(bytes, pos);
  }

  lemma AllSplits(bytes: seq<Byte>, pos: nat, depth: nat, count: nat)
    requires pos <= |bytes| && ParseAll(bytes, pos, depth, count).Ok?
    ensures count == 0 ==> ParseAll(bytes, pos, depth, count).value == ([], pos)
    ensures count > 0 ==> ParseValue(bytes, pos, depth).Ok?
    ensures count > 0 ==>
      var (first, p) := ParseValue(bytes, pos, depth).value;
      && ParseAll(bytes, p, depth, count - 1).Ok?
      && (var (rest, e) := ParseAll(bytes, p, depth, count - 1).value;
          ParseAll(bytes, pos, depth, count).value == ([first] + rest, e))
  {
    hide ParseValue;
  }

  lemma ColumnsSplit(bytes: seq<Byte>, pos: nat, depth: nat, count: nat, rows: Option<nat>)
    requires pos <= |bytes| && ParseColumns(bytes, pos, depth, count, rows).Ok?
    ensures count == 0 ==> ParseColumns(bytes, pos, depth, count, rows).value == ([], pos)
    ensures count > 0 ==> ParseValue(bytes, pos, depth).Ok?
    ensures count > 0 ==>
      var (first, p) := ParseValue(bytes, pos, depth).value;
      && Sequence(first) && (rows.Some? ==> rows.value == Count(first))
      && ParseColumns(bytes, p, depth, count - 1, Some(Count(first))).Ok?
      && (var (rest, e) := ParseColumns(bytes, p, depth, count - 1, Some(Count(first))).value;
          ParseColumns(bytes, pos, depth, count, rows).value == ([first] + rest, e))
  {
    hide ParseValue, Count, Sequence;
  }

  lemma ConsRows(first: Tree, rest: seq<Tree>)
    requires Sequence(first) && AllRows(rest, Count(first))
    ensures AllRows([first] + rest, Count(first))
  {
    hide Count, Sequence;
  }

  lemma {:induction false} ColumnsSound(bytes: seq<Byte>, pos: nat, depth: nat, count: nat, rows: Option<nat>)
    requires pos <= |bytes| && depth >= 1 && ParseColumns(bytes, pos, depth, count, rows).Ok?
    ensures var (columns, e) := ParseColumns(bytes, pos, depth, count, rows).value;
      && EncodesAll(bytes, pos, depth, columns, e)
      && (rows.Some? ==> AllRows(columns, rows.value))
      && (columns != [] ==> AllRows(columns, Count(columns[0])))
    decreases |bytes| - pos, 1 + count
  {
    hide ParseValue, Encodes, EncodesAll, Count, ParseColumns, AllRows, Sequence;
    ColumnsSplit(bytes, pos, depth, count, rows);
    if count > 0 {
      ValueSound(bytes, pos, depth);
      var (first, p) := ParseValue(bytes, pos, depth).value;
      ColumnsSound(bytes, p, depth, count - 1, Some(Count(first)));
      var (rest, e) := ParseColumns(bytes, p, depth, count - 1, Some(Count(first))).value;
      ConsEncodes(bytes, pos, depth, first, p, rest, e);
      ConsRows(first, rest);
    } else {
      NothingEncoded(bytes, pos, depth);
      NoRows();
    }
  }

  lemma NoRows()
    ensures forall n :: AllRows([], n)
  {
  }

  lemma {:induction false} GeneralSound(bytes: seq<Byte>, pos: nat, depth: nat)
    requires pos < |bytes| && bytes[pos] == 0 && depth <= MAX_VALUE_DEPTH
    requires ParseGeneral(bytes, pos + 1, depth).Ok?
    ensures var (t, e) := ParseGeneral(bytes, pos + 1, depth).value; Encodes(bytes, pos, depth, t, e)
    decreases |bytes| - (pos + 1), 0
  {
    var attr := bytes[pos + 1];
    var count := I32At(bytes, pos + 2).value;
    I32AtExactly(bytes, pos + 2, count);
    AllSound(bytes, pos + 6, depth + 1, count);
    At2(bytes, pos, 0, attr);
    hide At;
    var (items, e) := ParseAll(bytes, pos + 6, depth + 1, count).value;
    AtParts(bytes, pos, [0, attr], LittleEndian(count, 4), EncodeAll(items));
  }

  lemma CountedEncodes(bytes: seq<Byte>, pos: nat, depth: nat, wire: Byte, items: seq<Tree>, e: nat)
    requires 104 <= wire <= 105 && |items| <= I32_MAX && depth <= MAX_VALUE_DEPTH
    requires At(bytes, pos, [wire]) && At(bytes, pos + 1, LittleEndian(|items|, 4))
    requires EncodesAll(bytes, pos + 5, depth + 1, items, e)
    ensures Encodes(bytes, pos, depth, Counted(wire, items), e)
  {
    hide At, LittleEndian, Encode, EncodeAll, WellFormed, Depth, DepthAll;
    CountedUnfolds(wire, items);
    AtParts(bytes, pos, [wire], LittleEndian(|items|, 4), EncodeAll(items));
  }

  lemma CountedUnfolds(wire: Byte, items: seq<Tree>)
    requires 104 <= wire <= 105 && |items| <= I32_MAX && forall i <- items :: WellFormed(i)
    ensures var t := Counted(wire, items);
      && WellFormed(t) && Depth(t) == DepthAll(items) && (items == [] ==> DepthAll(items) == 0)
      && Encode(t) == [wire] + LittleEndian(|items|, 4) + EncodeAll(items)
  {
    hide LittleEndian, EncodeAll;
  }

  lemma {:induction false} CountedSound(bytes: seq<Byte>, pos: nat, depth: nat)
    requires pos < |bytes| && 104 <= bytes[pos] <= 105 && depth <= MAX_VALUE_DEPTH
    requires ParseCounted(bytes, pos + 1, depth, bytes[pos]).Ok?
    ensures var (t, e) := ParseCounted(bytes, pos + 1, depth, bytes[pos]).value; Encodes(bytes, pos, depth, t, e)
    decreases |bytes| - (pos + 1), 0
  {
    hide LittleEndian, I32At, EncodesAll;
    var count := I32At(bytes, pos + 1).value;
    I32AtExactly(bytes, pos + 1, count);
    AllSound(bytes, pos + 5, depth + 1, count);
    At1(bytes, pos, bytes[pos]);
    var (items, e) := ParseAll(bytes, pos + 5, depth + 1, count).value;
    CountedEncodes(bytes, pos, depth, bytes[pos], items, e);
  }

  lemma {:induction false} DictSound(bytes: seq<Byte>, pos: nat, depth: nat)
    requires pos < |bytes| && (bytes[pos] == 99 || bytes[pos] == 127)
    requires ParseDict(bytes, pos + 1, depth, bytes[pos]).Ok?
    ensures var (t, e) := ParseDict(bytes, pos + 1, depth, bytes[pos]).value; Encodes(bytes, pos, depth, t, e)
    decreases |bytes| - (pos + 1), 1
  {
    var wire := bytes[pos];
    ValueSound(bytes, pos + 1, depth + 1);
    var (keys, p) := ParseValue(bytes, pos + 1, depth + 1).value;
    ValueSound(bytes, p, depth + 1);
    var (values, e) := ParseValue(bytes, p, depth + 1).value;
    At1(bytes, pos, wire);
    hide Encodes, ParseValue, DictShapes;
    DictEncodes(bytes, pos, depth, wire, keys, p, values, e);
  }

  lemma {:induction false} TableSound(bytes: seq<Byte>, pos: nat, depth: nat)
    requires pos < |bytes| && bytes[pos] == 98
    requires ParseTable(bytes, pos + 1, depth).Ok?
    ensures var (t, e) := ParseTable(bytes, pos + 1, depth).value; Encodes(bytes, pos, depth, t, e)
    decreases |bytes| - (pos + 1), 0
  {
    hide Encodes, EncodesAll, AllRows, Count, ParseValue, ParseColumns, LittleEndian, I32At;
    var attr := bytes[pos + 1];
    ValueSound(bytes, pos + 3, depth + 2);
    var (names, p) := ParseValue(bytes, pos + 3, depth + 2).value;
    var listAttr := bytes[p + 1];
    var count := I32At(bytes, p + 2).value;
    I32AtExactly(bytes, p + 2, count);
    ColumnsSound(bytes, p + 6, depth + 3, count, None);
    var (columns, e) := ParseColumns(bytes, p + 6, depth + 3, count, None).value;
    At3(bytes, pos, 98, attr, 99);
    At2(bytes, p, 0, listAttr);
    hide At;
    TableEncodes(bytes, pos, depth, attr, names, p, listAttr, columns, e);
  }

  lemma {:induction false} ValueSound(bytes: seq<Byte>, pos: nat, depth: nat)
    requires pos <= |bytes| && ParseValue(bytes, pos, depth).Ok?
    ensures var (t, e) := ParseValue(bytes, pos, depth).value; Encodes(bytes, pos, depth, t, e)
    decreases |bytes| - pos, 0
  {
    hide Encodes, ParseAtom, ParseVector, ParseLambda, ParseGeneral, ParseTable, ParseDict, ParseCounted, FindNul;
    var wire := bytes[pos];
    if wire >= 237 {
      AtomSound(bytes, pos, depth);
    } else if wire == 0 {
      GeneralSound(bytes, pos, depth);
    } else if wire <= 19 {
      VectorSound(bytes, pos, depth);
    } else if wire == 98 {
      TableSound(bytes, pos, depth);
    } else if wire == 99 || wire == 127 {
      DictSound(bytes, pos, depth);
    } else if wire == 100 {
      LambdaSound(bytes, pos, depth);
    } else if 101 <= wire <= 103 {
      PrimitiveSound(bytes, pos, depth);
    } else if 104 <= wire <= 105 {
      CountedSound(bytes, pos, depth);
    } else {
      ValueSound(bytes, pos + 1, depth + 1);
      var (value, e) := ParseValue(bytes, pos + 1, depth + 1).value;
      DerivedEncodes(bytes, pos, depth, wire, value, e);
    }
  }

  lemma PrimitiveSound(bytes: seq<Byte>, pos: nat, depth: nat)
    requires pos + 1 < |bytes| && KnownPrimitive(bytes[pos], bytes[pos + 1]) && depth <= MAX_VALUE_DEPTH
    ensures Encodes(bytes, pos, depth, Primitive(bytes[pos], bytes[pos + 1]), pos + 2)
  {
    At2(bytes, pos, bytes[pos], bytes[pos + 1]);
  }

  lemma DerivedEncodes(bytes: seq<Byte>, pos: nat, depth: nat, wire: Byte, value: Tree, e: nat)
    requires pos < |bytes| && bytes[pos] == wire && 106 <= wire <= 111
    requires Encodes(bytes, pos + 1, depth + 1, value, e)
    ensures Encodes(bytes, pos, depth, Derived(wire, value), e)
  {
    At1(bytes, pos, wire);
    hide At;
    AtConcat(bytes, pos, [wire], Encode(value));
  }

  // ---------- Completeness: every well-formed tree is parsed back ----------

  lemma AtomComplete(bytes: seq<Byte>, pos: nat, depth: nat, t: Tree, e: nat)
    requires t.Atom? && Encodes(bytes, pos, depth, t, e)
    ensures ParseValue(bytes, pos, depth) == Ok((t, e))
  {
    hide Encode, FindNul;
    AtomLayout(bytes, pos, t);
    if t.kind == 11 {
      NulAtExactly(bytes, pos + 1, t.payload);
    }
    assert ParseAtom(bytes, pos + 1, t.kind) == Ok((t, e));
  }

  lemma VectorComplete(bytes: seq<Byte>, pos: nat, depth: nat, t: Tree, e: nat)
    requires t.Vector? && Encodes(bytes, pos, depth, t, e)
    ensures ParseValue(bytes, pos, depth) == Ok((t, e))
  {
    VectorLayout(bytes, pos, t);
    hide Encode, TypedCount, CountHeader, Count;
    var start := pos + 1 + |CountHeader(t.attr, t.wide, Count(t))|;
    TypedCountExactly(bytes, pos + 1, t.attr, t.wide, Count(t), start);
    assert bytes[start..start + |t.payload|] == t.payload;
    assert t.kind <= 19 && pos < |bytes| && bytes[pos] == t.kind;
    assert ParseVector(bytes, pos + 1, t.kind) == Ok((t, e));
  }

  lemma SymbolListComplete(bytes: seq<Byte>, pos: nat, depth: nat, t: Tree, e: nat)
    requires t.Symbols? && Encodes(bytes, pos, depth, t, e)
    ensures ParseValue(bytes, pos, depth) == Ok((t, e))
  {
    hide Encode, TypedCount, CountHeader, ParseSymbols, NulFree, EncodeSymbols;
    SymbolsLayout(bytes, pos, t);
    var start := pos + 1 + |CountHeader(t.attr, t.wide, |t.symbols|)|;
    TypedCountExactly(bytes, pos + 1, t.attr, t.wide, |t.symbols|, start);
    hide At, ParseAtom, ParseGeneral, ParseTable, ParseDict, ParseLambda, ParseCounted, FindNul;
    SymbolsComplete(bytes, start, t.symbols);
    assert ParseVector(bytes, pos + 1, 11) == Ok((t, e));
  }

  lemma LambdaComplete(bytes: seq<Byte>, pos: nat, depth: nat, t: Tree, e: nat)
    requires t.Lambda? && Encodes(bytes, pos, depth, t, e)
    ensures ParseValue(bytes, pos, depth) == Ok((t, e))
  {
    hide Encode, FindNul, I32At, LittleEndian;
    LambdaLayout(bytes, pos, t);
    var nul := pos + 1 + |t.context|;
    NulAtExactly(bytes, pos + 1, t.context);
    I32AtExactly(bytes, nul + 3, |t.source|);
    assert bytes[nul + 7..nul + 7 + |t.source|] == t.source && nul + 7 + |t.source| == e <= |bytes|;
    hide At, NulFree;
    assert ParseLambda(bytes, pos + 1, depth) == Ok((t, e));
  }

  lemma {:induction false} AllComplete(bytes: seq<Byte>, pos: nat, depth: nat, items: seq<Tree>, e: nat)
    requires EncodesAll(bytes, pos, depth, items, e)
    ensures ParseAll(bytes, pos, depth, |items|) == Ok((items, e))
    decreases items, 0
  {
    hide Encodes, EncodesAll, Encode, WellFormed, ParseValue, ParseAll;
    if items == [] {
      NothingParses(bytes, pos, depth, e);
    } else {
      var first, rest := items[0], items[1..];
      UnconsEncodes(bytes, pos, depth, items, e);
      var p := pos + |Encode(first)|;
      ValueComplete(bytes, pos, depth, first, p);
      AllComplete(bytes, p, depth, rest, e);
      FirstParses(bytes, pos, depth, first, p, rest, e);
      assert [first] + rest == items;
    }
  }

  lemma NothingParses(bytes: seq<Byte>, pos: nat, depth: nat, e: nat)
    requires EncodesAll(bytes, pos, depth, [], e)
    ensures pos == e <= |bytes| && ParseAll(bytes, pos, depth, 0) == Ok(([], e))
    ensures forall rows :: ParseColumns(bytes, pos, depth, 0, rows) == Ok(([], e))
  {
  }

  lemma FirstParses(bytes: seq<Byte>, pos: nat, depth: nat, first: Tree, p: nat, rest: seq<Tree>, e: nat)
    requires pos < p <= |bytes| && ParseValue(bytes, pos, depth) == Ok((first, p))
    requires ParseAll(bytes, p, depth, |rest|) == Ok((rest, e))
    ensures ParseAll(bytes, pos, depth, |rest| + 1) == Ok(([first] + rest, e))
  {
    hide ParseValue;
  }

  lemma UnconsEncodes(bytes: seq<Byte>, pos: nat, depth: nat, items: seq<Tree>, e: nat)
    requires EncodesAll(bytes, pos, depth, items, e) && items != []
    ensures WellFormed(items[0]) && pos + |Encode(items[0])| <= |bytes|
    ensures Encodes(bytes, pos, depth, items[0], pos + |Encode(items[0])|)
    ensures EncodesAll(bytes, pos + |Encode(items[0])|, depth, items[1..], e)
  {
    assert EncodeAll(items) == Encode(items[0]) + EncodeAll(items[1..]);
    assert DepthAll(items) == Max(1 + Depth(items[0]), DepthAll(items[1..]));
    AtConcat(bytes, pos, Encode(items[0]), EncodeAll(items[1..]));
    hide EncodeAll, Encode, DepthAll, Depth, WellFormed;
  }

  lemma UnconsRows(columns: seq<Tree>)
    requires columns != [] && AllRows(columns, Count(columns[0]))
    ensures Sequence(columns[0])
    ensures columns[1..] != [] ==>
      Count(columns[1..][0]) == Count(columns[0]) && AllRows(columns[1..], Count(columns[1..][0]))
  {
    hide Count;
    if columns[1..] != [] { assert columns[1] in columns; }
  }

  lemma {:induction false} ColumnsComplete(
    bytes: seq<Byte>, pos: nat, depth: nat, columns: seq<Tree>, e: nat, rows: Option<nat>)
    requires EncodesAll(bytes, pos, depth, columns, e)
    requires columns != [] ==> AllRows(columns, Count(columns[0])) && (rows.Some? ==> rows.value == Count(columns[0]))
    ensures ParseColumns(bytes, pos, depth, |columns|, rows) == Ok((columns, e))
    decreases columns, 0
  {
    hide Encodes, EncodesAll, Encode, Count, AllRows, Sequence, WellFormed, ParseValue, ParseColumns;
    if columns == [] {
      NothingParses(bytes, pos, depth, e);
    } else {
      var first, rest := columns[0], columns[1..];
      UnconsEncodes(bytes, pos, depth, columns, e);
      UnconsRows(columns);
      var p := pos + |Encode(first)|;
      ValueComplete(bytes, pos, depth, first, p);
      ColumnsComplete(bytes, p, depth, rest, e, Some(Count(first)));
      FirstColumnParses(bytes, pos, depth, first, p, rest, e, rows);
      assert [first] + rest == columns;
    }
  }

  lemma FirstColumnParses(
    bytes: seq<Byte>, pos: nat, depth: nat, first: Tree, p: nat, rest: seq<Tree>, e: nat, rows: Option<nat>)
    requires pos < p <= |bytes| && ParseValue(bytes, pos, depth) == Ok((first, p)) && Sequence(first)
    requires rows.Some? ==> rows.value == Count(first)
    requires ParseColumns(bytes, p, depth, |rest|, Some(Count(first))) == Ok((rest, e))
    ensures ParseColumns(bytes, pos, depth, |rest| + 1, rows) == Ok(([first] + rest, e))
  {
    hide ParseValue, Count, Sequence;
  }

  lemma {:induction false} GeneralComplete(bytes: seq<Byte>, pos: nat, depth: nat, t: Tree, e: nat)
    requires t.General? && Encodes(bytes, pos, depth, t, e)
    ensures ParseValue(bytes, pos, depth) == Ok((t, e))
    decreases t, 0
  {
    var n := |t.items|;
    AtParts(bytes, pos, [0, t.attr], LittleEndian(n, 4), EncodeAll(t.items));
    At2(bytes, pos, 0, t.attr);
    I32AtExactly(bytes, pos + 2, n);
    assert EncodesAll(bytes, pos + 6, depth + 1, t.items, e);
    hide Encodes, EncodesAll, Encode, At, I32At, LittleEndian;
    AllComplete(bytes, pos + 6, depth + 1, t.items, e);
    hide ParseAll;
    // Every value takes at least two bytes, so the count guard lets the list through.
    assert n <= (|bytes| - (pos + 6)) / 2;
    assert ParseGeneral(bytes, pos + 1, depth) == Ok((t, e));
  }

  lemma {:induction false} CountedComplete(bytes: seq<Byte>, pos: nat, depth: nat, t: Tree, e: nat)
    requires t.Counted? && Encodes(bytes, pos, depth, t, e)
    ensures ParseValue(bytes, pos, depth) == Ok((t, e))
    decreases t, 0
  {
    var n := |t.items|;
    AtParts(bytes, pos, [t.wire], LittleEndian(n, 4), EncodeAll(t.items));
    At1(bytes, pos, t.wire);
    I32AtExactly(bytes, pos + 1, n);
    assert EncodesAll(bytes, pos + 5, depth + 1, t.items, e);
    hide Encodes, EncodesAll, Encode, At, I32At, LittleEndian;
    AllComplete(bytes, pos + 5, depth + 1, t.items, e);
    hide ParseAll;
    assert n <= (|bytes| - (pos + 5)) / 2;
    assert ParseCounted(bytes, pos + 1, depth, t.wire) == Ok((t, e));
  }

  lemma {:induction false} DictComplete(bytes: seq<Byte>, pos: nat, depth: nat, t: Tree, e: nat)
    requires t.Dict? && Encodes(bytes, pos, depth, t, e)
    ensures ParseValue(bytes, pos, depth) == Ok((t, e))
    decreases t, 0
  {
    hide Encodes, DictShapes, WellFormed;
    var p := DictParts(bytes, pos, depth, t, e);
    ValueComplete(bytes, pos + 1, depth + 1, t.keys, p);
    ValueComplete(bytes, p, depth + 1, t.values, e);
    assert ParseDict(bytes, pos + 1, depth, t.wire) == Ok((t, e));
  }

  lemma DictParts(bytes: seq<Byte>, pos: nat, depth: nat, t: Tree, e: nat) returns (p: nat)
    requires t.Dict? && Encodes(bytes, pos, depth, t, e)
    ensures pos < p <= |bytes| && bytes[pos] == t.wire && (t.wire == 99 || t.wire == 127) && depth <= MAX_VALUE_DEPTH
    ensures Encodes(bytes, pos + 1, depth + 1, t.keys, p) && Encodes(bytes, p, depth + 1, t.values, e)
    ensures DictShapes(t.keys, t.values)
  {
    p := pos + 1 + |Encode(t.keys)|;
    assert Encode(t) == [t.wire] + Encode(t.keys) + Encode(t.values);
    assert Depth(t) == 1 + Max(Depth(t.keys), Depth(t.values));
    hide Count, Encode, At, Depth, Sequence;
    At1(bytes, pos, t.wire);
    AtParts(bytes, pos, [t.wire], Encode(t.keys), Encode(t.values));
  }

  lemma {:induction false} TableComplete(bytes: seq<Byte>, pos: nat, depth: nat, t: Tree, e: nat)
    requires t.Table? && Encodes(bytes, pos, depth, t, e)
    ensures ParseValue(bytes, pos, depth) == Ok((t, e))
    decreases t, 0
  {
    hide Encodes, EncodesAll, I32At, AllRows, Count, ParseTable, ParseColumns, WellFormed;
    hide ParseAtom, ParseVector, KnownPrimitive, FindNul;
    var p := TableParts(bytes, pos, depth, t, e);
    ValueComplete(bytes, pos + 3, depth + 2, t.names, p);
    ColumnsComplete(bytes, p + 6, depth + 3, t.columns, e, None);
    TableParses(bytes, pos + 1, depth, t, p, e);
  }

  lemma TableParses(bytes: seq<Byte>, pos: nat, depth: nat, t: Tree, p: nat, e: nat)
    requires t.Table? && t.attr <= 4 && t.listAttr <= 4 && t.names.Symbols? && |t.names.symbols| == |t.columns|
    requires depth + 2 <= MAX_VALUE_DEPTH
    // Every column takes at least six bytes, so the column guard lets the table through.
    requires pos + 2 < p && p + 6 + 6 * |t.columns| <= |bytes|
    requires bytes[pos] == t.attr && bytes[pos + 1] == 99 && bytes[p] == 0 && bytes[p + 1] == t.listAttr
    requires I32At(bytes, p + 2) == Some(|t.columns|)
    requires ParseValue(bytes, pos + 2, depth + 2) == Ok((t.names, p))
    requires ParseColumns(bytes, p + 6, depth + 3, |t.columns|, None) == Ok((t.columns, e))
    ensures ParseTable(bytes, pos, depth) == Ok((t, e))
  {
    hide ParseValue, ParseColumns, I32At;
  }

  lemma TableParts(bytes: seq<Byte>, pos: nat, depth: nat, t: Tree, e: nat) returns (p: nat)
    requires t.Table? && Encodes(bytes, pos, depth, t, e)
    ensures t.attr <= 4 && t.listAttr <= 4 && t.names.Symbols? && |t.names.symbols| == |t.columns|
      && depth + 2 <= MAX_VALUE_DEPTH
    ensures t.columns != [] ==> AllRows(t.columns, Count(t.columns[0]))
    ensures pos + 3 < p && p + 6 + 6 * |t.columns| <= |bytes|
    ensures bytes[pos] == 98 && bytes[pos + 1] == t.attr && bytes[pos + 2] == 99 && bytes[p] == 0
      && bytes[p + 1] == t.listAttr
    ensures I32At(bytes, p + 2) == Some(|t.columns|)
    ensures Encodes(bytes, pos + 3, depth + 2, t.names, p) && EncodesAll(bytes, p + 6, depth + 3, t.columns, e)
  {
    hide Encode, Count, LittleEndian, EncodeAll, WellFormed, Depth, DepthAll, AllRows, I32At, At;
    TableUnfolds(t);
    var n := |t.columns|;
    p := pos + 3 + |Encode(t.names)|;
    TableHeaders(bytes, pos, t.attr, Encode(t.names), t.listAttr, n, EncodeAll(t.columns));
  }

  lemma TableUnfolds(t: Tree)
    requires t.Table? && WellFormed(t)
    ensures t.attr <= 4 && t.listAttr <= 4 && t.names.Symbols? && |t.names.symbols| == |t.columns| <= I32_MAX
    ensures t.columns != [] ==> AllRows(t.columns, Count(t.columns[0]))
    ensures WellFormed(t.names) && (forall c <- t.columns :: WellFormed(c)) && |EncodeAll(t.columns)| >= 6 * |t.columns|
    ensures Encode(t) == [98, t.attr, 99] + Encode(t.names) + [0, t.listAttr] + LittleEndian(|t.columns|, 4)
      + EncodeAll(t.columns)
    ensures Depth(t) == 2 + DepthAll(t.columns) && Depth(t.names) == 0
  {
    hide LittleEndian, DepthAll;
  }

  /** The fixed bytes of a table and its three variable parts. */
  lemma TableHeaders(
    bytes: seq<Byte>, pos: nat, attr: Byte, names: seq<Byte>, listAttr: Byte, n: nat, columns: seq<Byte>)
    requires n <= I32_MAX
    requires At(bytes, pos, [98, attr, 99] + names + [0, listAttr] + LittleEndian(n, 4) + columns)
    ensures var p := pos + 3 + |names|;
      && p + 6 + |columns| <= |bytes|
      && bytes[pos] == 98 && bytes[pos + 1] == attr && bytes[pos + 2] == 99
      && bytes[p] == 0 && bytes[p + 1] == listAttr && I32At(bytes, p + 2) == Some(n)
      && At(bytes, pos + 3, names) && At(bytes, p + 6, columns)
  {
    var p := pos + 3 + |names|;
    hide LittleEndian, I32At;
    TableAt(bytes, pos, attr, names, listAttr, LittleEndian(n, 4), columns);
    At3(bytes, pos, 98, attr, 99);
    At2(bytes, p, 0, listAttr);
    assert At(bytes, p + 2, LittleEndian(n, 4));
    I32AtExactly(bytes, p + 2, n);
  }

  lemma {:induction false} ValueComplete(bytes: seq<Byte>, pos: nat, depth: nat, t: Tree, e: nat)
    requires Encodes(bytes, pos, depth, t, e)
    ensures ParseValue(bytes, pos, depth) == Ok((t, e))
    decreases t, 1
  {
    hide Encodes, ParseValue;
    match t
    case Atom(_, _) => AtomComplete(bytes, pos, depth, t, e);
    case Vector(_, _, _, _) => VectorComplete(bytes, pos, depth, t, e);
    case Symbols(_, _, _) => SymbolListComplete(bytes, pos, depth, t, e);
    case General(_, _) => GeneralComplete(bytes, pos, depth, t, e);
    case Dict(_, _, _) => DictComplete(bytes, pos, depth, t, e);
    case Table(_, _, _, _) => TableComplete(bytes, pos, depth, t, e);
    case Lambda(_, _) => LambdaComplete(bytes, pos, depth, t, e);
    case Counted(_, _) => CountedComplete(bytes, pos, depth, t, e);
    case Primitive(_, _) => PrimitiveComplete(bytes, pos, depth, t, e);
    case Derived(_, value) =>
      DerivedPart(bytes, pos, depth, t, e);
      ValueComplete(bytes, pos + 1, depth + 1, value, e);
      DerivedParses(bytes, pos, depth, t, e);
  }

  lemma PrimitiveComplete(bytes: seq<Byte>, pos: nat, depth: nat, t: Tree, e: nat)
    requires t.Primitive? && Encodes(bytes, pos, depth, t, e)
    ensures ParseValue(bytes, pos, depth) == Ok((t, e))
  {
    At2(bytes, pos, t.wire, t.opcode);
    hide At, ParseAtom, ParseVector, ParseGeneral, ParseTable, ParseDict, ParseLambda, ParseCounted, FindNul;
  }

  lemma DerivedPart(bytes: seq<Byte>, pos: nat, depth: nat, t: Tree, e: nat)
    requires t.Derived? && Encodes(bytes, pos, depth, t, e)
    ensures pos < |bytes| && bytes[pos] == t.wire && 106 <= t.wire <= 111 && depth < MAX_VALUE_DEPTH
    ensures Encodes(bytes, pos + 1, depth + 1, t.value, e)
  {
    AtConcat(bytes, pos, [t.wire], Encode(t.value));
    At1(bytes, pos, t.wire);
    hide At;
  }

  lemma DerivedParses(bytes: seq<Byte>, pos: nat, depth: nat, t: Tree, e: nat)
    requires t.Derived? && pos < |bytes| && bytes[pos] == t.wire && 106 <= t.wire <= 111 && depth < MAX_VALUE_DEPTH
    requires ParseValue(bytes, pos + 1, depth + 1) == Ok((t.value, e))
    ensures ParseValue(bytes, pos, depth) == Ok((t, e))
  {
    hide ParseAtom, ParseVector, ParseGeneral, ParseTable, ParseDict, ParseLambda, ParseCounted, FindNul;
  }

  // ---------- The validator ----------

  lemma WholeAt(bytes: seq<Byte>, s: seq<Byte>)
    ensures At(bytes, 0, s) && |s| == |bytes| <==> s == bytes
  {
    if |s| == |bytes| { assert bytes[0..|s|] == bytes; }
  }

  /**
   `validate` accepts a body as the tree `t` exactly when the body is `t`'s encoding and `t` is well formed
   and shallow enough.
   */
  lemma ValidatesExactlyEncodings(bytes: seq<Byte>, t: Tree)
    ensures Validate(bytes) == Ok(t) <==> WellFormed(t) && Depth(t) <= MAX_VALUE_DEPTH && Encode(t) == bytes
  {
    if Validate(bytes) == Ok(t) {
      ValueSound(bytes, 0, 0);
      WholeAt(bytes, Encode(t));
    }
    if WellFormed(t) && Depth(t) <= MAX_VALUE_DEPTH && Encode(t) == bytes {
      WholeAt(bytes, Encode(t));
      ValueComplete(bytes, 0, 0, t, |bytes|);
    }
  }

  /** No body is the encoding of two trees. */
  lemma EncodingIsInjective(t: Tree, u: Tree)
    requires WellFormed(t) && WellFormed(u) && Depth(t) <= MAX_VALUE_DEPTH && Depth(u) <= MAX_VALUE_DEPTH
    requires Encode(t) == Encode(u)
    ensures t == u
  {
    ValidatesExactlyEncodings(Encode(t), t);
    ValidatesExactlyEncodings(Encode(t), u);
  }
}
