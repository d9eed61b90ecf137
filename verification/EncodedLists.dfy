/**
 The native scanner and decoders against the encoding of q values: a list found in encoded form ends where
 its encoding ends, and its children and columns are those of the value.
 */
module EncodedLists {
  import opened Bytes
  import opened KTypes
  import opened ListScanner
  import opened QTree
  import opened QParserProofs
  import opened ByteLaws
  import N = NestedDecoder
  import S = SeriesDecoder
  import T = TextColumns
  import P = Pipeline

  /** A typed list with an ordinary 32-bit count. */
  predicate Flat(t: Tree) {
    (t.Vector? || t.Symbols?) && !t.wide
  }

  /** The type byte a list starts with. */
  function Kind(t: Tree): Byte {
    match t
    case Vector(kind, _, _, _) => kind
    case Symbols(_, _, _) => 11
    case _ => 0
  }

  /** What a nested list of this element type may contain: lists of that type and empty general lists. */
  predicate ChildOf(t: Tree, kind: Byte) {
    (Flat(t) && Kind(t) == kind) || (t.General? && t.items == [])
  }

  /** The lists the native decoder understands: flat ones and lists of flat lists of one type. */
  predicate NativeList(t: Tree) {
    Flat(t) || (t.General? && (t.items == [] || OneType(t.items)))
  }

  predicate OneType(items: seq<Tree>)
    requires items != []
  {
    Flat(items[0]) && NestableType(Kind(items[0])) && forall i <- items :: ChildOf(i, Kind(items[0]))
  }

  /** The payload bytes of a list, after its type, attribute and count. */
  function PayloadBytes(t: Tree): seq<Byte> {
    match t
    case Vector(_, _, _, payload) => payload
    case Symbols(_, _, symbols) => EncodeSymbols(symbols)
    case _ => []
  }

  // ---------- One list ----------

  lemma CountAt(bytes: seq<Byte>, pos: nat, attr: Byte, n: nat)
    requires n <= I32_MAX && At(bytes, pos, [attr] + LittleEndian(n, 4))
    ensures pos + 5 <= |bytes| && ListLength(bytes, pos) == Ok(n)
  {
    AtConcat(bytes, pos, [attr], LittleEndian(n, 4));
    Pow256Values();
    LittleEndianRoundTrip(n, 4);
  }

  lemma {:induction false} SymbolsEndAt(bytes: seq<Byte>, pos: nat, symbols: seq<seq<Byte>>)
    requires pos <= |bytes| && (forall s <- symbols :: NulFree(s)) && At(bytes, pos, EncodeSymbols(symbols))
    ensures SymbolsEnd(bytes, pos, |symbols|) == Ok(pos + |EncodeSymbols(symbols)|)
    decreases |symbols|
  {
    hide NulFree, At, FindNul;
    if symbols != [] {
      var first, rest := symbols[0], symbols[1..];
      FirstSymbolAt(bytes, pos, first, rest);
      SymbolsEndAt(bytes, pos + |first| + 1, rest);
    }
  }

  /** Type, count and payload of a flat list, and where its payload ends. */
  lemma FlatAt(bytes: seq<Byte>, pos: nat, t: Tree)
    requires WellFormed(t) && Flat(t) && At(bytes, pos, Encode(t))
    ensures pos + 6 <= |bytes| && bytes[pos] == Kind(t) && ListLength(bytes, pos + 1) == Ok(Count(t))
    ensures pos + |Encode(t)| == pos + 6 + |PayloadBytes(t)| && At(bytes, pos + 6, PayloadBytes(t))
    ensures t.Vector? ==> Width(t.kind) > 0 && |PayloadBytes(t)| == Count(t) * Width(t.kind)
    ensures t.Symbols? ==> SymbolsEnd(bytes, pos + 6, Count(t)) == Ok(pos + |Encode(t)|)
  {
    hide Encode, ListLength, SymbolsEnd, LittleEndian, EncodeSymbols;
    if t.Vector? {
      VectorLayout(bytes, pos, t);
    } else {
      SymbolsLayout(bytes, pos, t);
      SymbolsEndAt(bytes, pos + 6, t.symbols);
    }
    CountAt(bytes, pos + 1, t.attr, Count(t));
  }

  lemma GeneralAt(bytes: seq<Byte>, pos: nat, t: Tree)
    requires t.General? && WellFormed(t) && At(bytes, pos, Encode(t))
    ensures pos + 6 <= |bytes| && bytes[pos] == 0 && ListLength(bytes, pos + 1) == Ok(|t.items|)
    ensures At(bytes, pos + 6, EncodeAll(t.items)) && |Encode(t)| == 6 + |EncodeAll(t.items)|
  {
    var header := [t.attr] + LittleEndian(|t.items|, 4);
    assert [0, t.attr] + LittleEndian(|t.items|, 4) == [0] + header;
    assert Encode(t) == [0] + header + EncodeAll(t.items);
    hide Encode, EncodeAll, LittleEndian, ListLength;
    AtParts(bytes, pos, [0], header, EncodeAll(t.items));
    At1(bytes, pos, 0);
    CountAt(bytes, pos + 1, t.attr, |t.items|);
  }

  // ---------- Nested lists ----------

  lemma ChildAt(bytes: seq<Byte>, pos: nat, t: Tree, expected: Option<Byte>, kind: Byte)
    requires WellFormed(t) && ChildOf(t, kind) && NestableType(kind) && At(bytes, pos, Encode(t))
    requires expected == Some(kind) || (expected == None && Flat(t))
    ensures pos <= |bytes| && ChildEnd(bytes, pos, expected) == Ok((pos + |Encode(t)|, kind))
    ensures ListLength(bytes, pos + 1) == Ok(Count(t)) && bytes[pos + 6..pos + |Encode(t)|] == PayloadBytes(t)
  {
    hide Encode, ListLength, SymbolsEnd, EncodeSymbols, WellFormed;
    if Flat(t) {
      FlatAt(bytes, pos, t);
    } else {
      GeneralAt(bytes, pos, t);
      NoItems();
    }
  }

  lemma NoItems()
    ensures EncodeAll([]) == []
  {
  }

  lemma ItemsCons(items: seq<Tree>)
    requires items != [] && forall i <- items :: WellFormed(i)
    ensures WellFormed(items[0]) && forall i <- items[1..] :: WellFormed(i)
    ensures EncodeAll(items) == Encode(items[0]) + EncodeAll(items[1..])
  {
    hide Encode, WellFormed;
  }

  lemma {:induction false} ChildrenAt(bytes: seq<Byte>, pos: nat, items: seq<Tree>, expected: Option<Byte>, kind: Byte)
    requires pos <= |bytes| && (forall i <- items :: WellFormed(i)) && (forall i <- items :: ChildOf(i, kind))
    requires NestableType(kind) && At(bytes, pos, EncodeAll(items))
    requires expected == Some(kind) || (expected == None && (items == [] || Flat(items[0])))
    ensures ChildrenEnd(bytes, pos, |items|, expected) == Ok(pos + |EncodeAll(items)|)
    decreases |items|
  {
    hide Encode, EncodeAll, WellFormed, ChildEnd, At, ChildOf;
    if items == [] {
      NoItems();
    } else {
      var first, rest := items[0], items[1..];
      ItemsCons(items);
      AtConcat(bytes, pos, Encode(first), EncodeAll(rest));
      ChildAt(bytes, pos, first, expected, kind);
      ChildrenAt(bytes, pos + |Encode(first)|, rest, Some(kind), kind);
    }
  }

  /** The children the decoder sees are the items of the list, with their counts and payloads. */
  lemma {:induction false} ChildrenAreItems(bytes: seq<Byte>, pos: nat, items: seq<Tree>, kind: Byte, k: nat)
    requires pos <= |bytes| && (forall i <- items :: WellFormed(i)) && (forall i <- items :: ChildOf(i, kind))
    requires NestableType(kind) && At(bytes, pos, EncodeAll(items)) && k < |items|
    ensures ChildrenEnd(bytes, pos, |items|, Some(kind)).Ok?
    ensures N.Children(bytes, pos, |items|, kind)[k] == N.Child(Count(items[k]), PayloadBytes(items[k]))
    decreases |items|
  {
    hide Encode, EncodeAll, WellFormed, ChildEnd, At, ChildOf, PayloadBytes, ListLength;
    ChildrenAt(bytes, pos, items, Some(kind), kind);
    var first, rest := items[0], items[1..];
    ItemsCons(items);
    AtConcat(bytes, pos, Encode(first), EncodeAll(rest));
    ChildAt(bytes, pos, first, Some(kind), kind);
    if k > 0 {
      ChildrenAreItems(bytes, pos + |Encode(first)|, rest, kind, k - 1);
    }
  }

  // ---------- Any native list ----------

  /** The scanner finds a native list to end exactly where its encoding does, whatever surrounds it. */
  lemma ScannerFindsEncodedEnd(bytes: seq<Byte>, pos: nat, t: Tree)
    requires WellFormed(t) && NativeList(t) && At(bytes, pos, Encode(t))
    ensures pos < |bytes| && bytes[pos] == Kind(t)
    ensures ListEnd(bytes, pos + 1, Kind(t)) == Ok(pos + |Encode(t)|)
  {
    hide Encode, ListLength, SymbolsEnd, ChildrenEnd, EncodeSymbols, At, EncodeAll;
    InBounds(bytes, pos, Encode(t));
    if Flat(t) {
      hide WellFormed;
      FlatAt(bytes, pos, t);
    } else {
      GeneralAt(bytes, pos, t);
      if t.items == [] {
        NoItems();
        NoChildren(bytes, pos + 6);
      } else {
        InBounds(bytes, pos + 6, EncodeAll(t.items));
        ChildrenAt(bytes, pos + 6, t.items, None, Kind(t.items[0]));
      }
    }
  }

  /** On its own, without its type byte, an encoded native list is exactly one list of its count. */
  lemma EncodedListIsList(t: Tree)
    requires WellFormed(t) && NativeList(t)
    ensures var slice := Encode(t)[1..];
      && |slice| >= 5 && ListEnd(slice, 0, Kind(t)) == Ok(|slice|) && ListLength(slice, 0) == Ok(Count(t))
      && (Flat(t) ==> slice[5..] == PayloadBytes(t))
  {
    hide Encode, ListLength, ListEnd, NativeList, WellFormed, PayloadBytes;
    var bytes := Encode(t);
    WholeAt(bytes, bytes);
    ScannerFindsEncodedEnd(bytes, 0, t);
    N.DelimitedSliceIsList(bytes, 1, Kind(t));
    assert bytes[1..|bytes|] == bytes[1..];
    N.ListLengthInSlice(bytes, 1, |bytes|, 1);
    if Flat(t) {
      FlatAt(bytes, 0, t);
      InBounds(bytes, 6, PayloadBytes(t));
      assert bytes[1..][5..] == bytes[6..];
    } else {
      GeneralIsNative(t);
      GeneralAt(bytes, 0, t);
    }
  }

  lemma GeneralIsNative(t: Tree)
    requires NativeList(t) && !Flat(t)
    ensures t.General?
  {
  }

  lemma InBounds(bytes: seq<Byte>, pos: nat, s: seq<Byte>)
    requires At(bytes, pos, s)
    ensures pos + |s| <= |bytes| && bytes[pos..pos + |s|] == s
  {
  }

  lemma NoChildren(bytes: seq<Byte>, pos: nat)
    requires pos <= |bytes|
    ensures ChildrenEnd(bytes, pos, 0, None) == Ok(pos)
  {
  }

  /** A payload of symbols splits into exactly those symbols. */
  lemma {:induction false} SplitsEncodedSymbols(symbols: seq<seq<Byte>>)
    requires forall s <- symbols :: NulFree(s)
    ensures T.SplitSymbols(EncodeSymbols(symbols), |symbols|) == Some(symbols)
  {
    hide T.SplitSymbols;
    if symbols == [] {
      T.SplitNothing([]);
    } else {
      assert symbols[0] in symbols;
      SplitsEncodedSymbols(symbols[1..]);
      T.SplitCons(symbols[0], EncodeSymbols(symbols[1..]), |symbols|);
      assert [symbols[0]] + symbols[1..] == symbols;
    }
  }

  /** And whatever splits is the encoding of its symbols. */
  lemma {:induction false} SplitIsEncoded(payload: seq<Byte>, count: nat)
    requires T.SplitSymbols(payload, count).Some?
    ensures EncodeSymbols(T.SplitSymbols(payload, count).value) == payload
    decreases count
  {
    hide T.SplitSymbols, FindNul;
    if count == 0 {
      T.SplitNothing(payload);
    } else {
      T.SplitFirst(payload, count);
      var i := FindNul(payload, 0).value;
      var rest := T.SplitSymbols(payload[i + 1..], count - 1).value;
      SplitIsEncoded(payload[i + 1..], count - 1);
      assert ([payload[..i]] + rest)[1..] == rest;
    }
  }

  // ---------- What the scanner accepts ----------

  /** The count field of a list header, as a number. */
  function CountField(bytes: seq<Byte>, pos: nat): int
    requires pos + 5 <= |bytes|
  {
    FourDigits(bytes[pos + 1], bytes[pos + 2], bytes[pos + 3], bytes[pos + 4])
  }

  lemma CountFieldExactly(bytes: seq<Byte>, pos: nat)
    requires pos + 5 <= |bytes|
    ensures ListLength(bytes, pos).Ok? <==> CountField(bytes, pos) < 0x8000_0000
    ensures ListLength(bytes, pos).Ok? ==> ListLength(bytes, pos).value == CountField(bytes, pos)
  {
    FourBytes(bytes[pos + 1..pos + 5]);
  }

  /** A fixed-width list ends somewhere exactly when its count is not negative and its elements are there. */
  lemma FixedListEndExactly(bytes: seq<Byte>, start: nat, kType: Byte, end: nat)
    requires Width(kType) > 0
    ensures ListEnd(bytes, start, kType) == Ok(end) <==>
      && start + 5 <= |bytes| && CountField(bytes, start) < 0x8000_0000
      && end == start + 5 + CountField(bytes, start) * Width(kType) && end <= |bytes|
  {
    hide Width;
    if start + 5 <= |bytes| {
      CountFieldExactly(bytes, start);
    }
    assert kType != 0 && kType != 11 by { WidthlessTypes(); }
  }

  lemma WidthlessTypes()
    ensures Width(0) == 0 && Width(11) == 0 && Width(3) == 0
  {
  }

  /** What the scanner takes for symbols is the encoding of that many symbols. */
  lemma ScannedSymbolsAreEncoded(bytes: seq<Byte>, pos: nat, count: nat)
    requires pos <= |bytes| && SymbolsEnd(bytes, pos, count).Ok?
    ensures var slice := bytes[pos..SymbolsEnd(bytes, pos, count).value];
      && T.SplitSymbols(slice, count).Some?
      && EncodeSymbols(T.SplitSymbols(slice, count).value) == slice
  {
    hide SymbolsEnd, T.SplitSymbols;
    var end := SymbolsEnd(bytes, pos, count).value;
    N.SymbolsEndInSlice(bytes, pos, end, pos, count);
    S.SymbolsEndSplits(bytes[pos..end], 0, count);
    assert bytes[pos..end][0..] == bytes[pos..end];
    SplitIsEncoded(bytes[pos..end], count);
  }

  /** A child has the list's type and all its elements, or is an empty general list. */
  lemma ChildEndExactly(bytes: seq<Byte>, pos: nat, kind: Byte, end: nat)
    requires pos + 6 <= |bytes| && NestableType(kind)
    ensures ChildEnd(bytes, pos, Some(kind)) == Ok((end, kind)) <==>
      && CountField(bytes, pos + 1) < 0x8000_0000
      && (|| (bytes[pos] == 0 && CountField(bytes, pos + 1) == 0 && end == pos + 6)
          || (bytes[pos] == kind == 11 && SymbolsEnd(bytes, pos + 6, CountField(bytes, pos + 1)) == Ok(end))
          || (bytes[pos] == kind != 11 && end == pos + 6 + CountField(bytes, pos + 1) * Width(kind) && end <= |bytes|))
  {
    hide Width, ListLength, SymbolsEnd;
    CountFieldExactly(bytes, pos + 1);
  }

  /** The first child must be of a nestable type. */
  lemma FirstChildMustNest(bytes: seq<Byte>, start: nat, end: nat)
    requires ListEnd(bytes, start, 0) == Ok(end) && CountField(bytes, start) != 0
    ensures start + 11 <= end && NestableType(bytes[start + 5])
  {
    CountFieldExactly(bytes, start);
    hide ListLength;
  }

  // ---------- Tables ----------

  /** Slice `i` holds column `i`: its type, and its encoding after the type byte. */
  ghost predicate SlicesHold(body: seq<Byte>, slices: seq<P.Slice>, columns: seq<Tree>)
    requires forall c <- columns :: WellFormed(c)
  {
    && |slices| == |columns|
    && forall i :: 0 <= i < |columns| ==>
        && slices[i].start <= slices[i].end <= |body|
        && slices[i].kType == Kind(columns[i])
        && columns[i] in columns && body[slices[i].start..slices[i].end] == Encode(columns[i])[1..]
  }

  lemma {:induction false} ColumnsAt(body: seq<Byte>, pos: nat, columns: seq<Tree>)
    requires pos <= |body| && (forall c <- columns :: WellFormed(c)) && (forall c <- columns :: NativeList(c))
    requires At(body, pos, EncodeAll(columns))
    ensures P.Columns(body, pos, |columns|).Some?
    ensures P.Columns(body, pos, |columns|).value.1 == pos + |EncodeAll(columns)|
    ensures SlicesHold(body, P.Columns(body, pos, |columns|).value.0, columns)
    decreases |columns|
  {
    hide Encode, EncodeAll, WellFormed, NativeList, At, ListEnd, SlicesHold, Kind, P.Columns;
    if columns == [] {
      NoItems();
      NoColumns(body, pos);
    } else {
      var first, rest := columns[0], columns[1..];
      ItemsCons(columns);
      AtConcat(body, pos, Encode(first), EncodeAll(rest));
      ScannerFindsEncodedEnd(body, pos, first);
      InBounds(body, pos, Encode(first));
      var end := pos + |Encode(first)|;
      ColumnsAt(body, end, rest);
      assert body[pos + 1..end] == body[pos..end][1..];
      var slices := P.Columns(body, end, |rest|).value.0;
      FirstColumn(body, pos, |columns|, end);
      ConsHolds(body, P.Slice(Kind(first), pos + 1, end), slices, columns);
    }
  }

  lemma NoColumns(body: seq<Byte>, pos: nat)
    ensures P.Columns(body, pos, 0) == Some(([], pos)) && SlicesHold(body, [], [])
  {
  }

  lemma FirstColumn(body: seq<Byte>, pos: nat, count: nat, end: nat)
    requires count > 0 && pos < |body| && ListEnd(body, pos + 1, body[pos]) == Ok(end)
    requires P.Columns(body, end, count - 1).Some?
    ensures var (slices, last) := P.Columns(body, end, count - 1).value;
      P.Columns(body, pos, count) == Some(([P.Slice(body[pos], pos + 1, end)] + slices, last))
  {
    hide ListEnd;
  }

  lemma ConsHolds(body: seq<Byte>, slice: P.Slice, slices: seq<P.Slice>, columns: seq<Tree>)
    requires columns != [] && (forall c <- columns :: WellFormed(c)) && (forall c <- columns[1..] :: WellFormed(c))
    requires SlicesHold(body, slices, columns[1..])
    requires slice.start <= slice.end <= |body| && slice.kType == Kind(columns[0])
    requires columns[0] in columns && body[slice.start..slice.end] == Encode(columns[0])[1..]
    ensures SlicesHold(body, [slice] + slices, columns)
  {
    hide Encode, WellFormed, Kind;
    var all := [slice] + slices;
    forall i | 0 <= i < |columns|
      ensures && all[i].start <= all[i].end <= |body|
              && all[i].kType == Kind(columns[i])
              && columns[i] in columns && body[all[i].start..all[i].end] == Encode(columns[i])[1..]
    {
      if i > 0 {
        assert all[i] == slices[i - 1] && columns[i] == columns[1..][i - 1];
      }
    }
  }

  /**
   The plan of an encoded table: provided its names decode, the names it has and, in order, exactly the
   slices of its columns.
   */
  lemma EncodedTablePlan<Name, Column>(d: P.Decoders<Name, Column>, t: Tree, names: seq<Name>)
    requires t.Table? && WellFormed(t) && Flat(t.names) && forall c <- t.columns :: NativeList(c)
    requires d.names(Encode(t.names)[1..]) == Some(names) && |names| == |t.columns|
    ensures var plan := P.TablePlan(d, Encode(t));
      plan.Some? && plan.value.names == names && SlicesHold(Encode(t), plan.value.slices, t.columns)
  {
    hide Encode, P.Columns, WellFormed, NativeList, ListEnd, SlicesHold;
    TableEnds(t);
    var p := 3 + |Encode(t.names)|;
    var slices := P.Columns(Encode(t), p + 6, |t.columns|).value.0;
    assert [] + slices == slices;
  }

  /** Where the names and the columns of an encoded table lie. */
  lemma TableEnds(t: Tree)
    requires t.Table? && WellFormed(t) && Flat(t.names) && forall c <- t.columns :: NativeList(c)
    ensures WellFormed(t.names) && forall c <- t.columns :: WellFormed(c)
    ensures var body, p := Encode(t), 3 + |Encode(t.names)|;
      && p + 6 <= |body| && ListEnd(body, 4, 11) == Ok(p) && body[4..p] == Encode(t.names)[1..]
      && P.Columns(body, p + 6, |t.columns|).Some?
      && P.Columns(body, p + 6, |t.columns|).value.1 == |body|
      && SlicesHold(body, P.Columns(body, p + 6, |t.columns|).value.0, t.columns)
  {
    hide Encode, EncodeAll, LittleEndian, NativeList, ListEnd, P.Columns, WellFormed, SlicesHold, Kind;
    var body, n := Encode(t), |t.columns|;
    TableIsWritten(t);
    TablePartsLie(body, t.attr, Encode(t.names), t.listAttr, n, EncodeAll(t.columns));
    hide At;
    var p := 3 + |Encode(t.names)|;
    FlatIsNative(t.names);
    ScannerFindsEncodedEnd(body, 3, t.names);
    InBounds(body, 3, Encode(t.names));
    assert body[4..p] == body[3..p][1..];
    ColumnsAt(body, p + 6, t.columns);
  }

  lemma TableIsWritten(t: Tree)
    requires t.Table? && WellFormed(t)
    ensures WellFormed(t.names) && Kind(t.names) == 11 && |t.columns| <= I32_MAX
    ensures forall c <- t.columns :: WellFormed(c)
    ensures Encode(t) == [98, t.attr, 99] + Encode(t.names) + [0, t.listAttr] + LittleEndian(|t.columns|, 4)
      + EncodeAll(t.columns)
  {
    hide Encode, EncodeAll, LittleEndian, WellFormed;
    TableUnfolds(t);
  }

  lemma TablePartsLie(body: seq<Byte>, attr: Byte, names: seq<Byte>, listAttr: Byte, n: nat, columns: seq<Byte>)
    requires n <= I32_MAX && body == [98, attr, 99] + names + [0, listAttr] + LittleEndian(n, 4) + columns
    ensures At(body, 3, names) && At(body, 9 + |names|, columns) && |body| == 9 + |names| + |columns|
  {
    hide LittleEndian;
    WholeAt(body, body);
    TableHeaders(body, 0, attr, names, listAttr, n, columns);
  }

  lemma FlatIsNative(t: Tree)
    requires Flat(t)
    ensures NativeList(t)
  {
  }

  // ---------- What a table is made of ----------

  /**
   A sequentially decoded table: its names are the planned ones and column `i` is what slice `i` decodes to.
   There is none exactly when there is no plan or some column does not decode.
   */
  lemma TableIsItsColumns<Name, Column>(d: P.Decoders<Name, Column>, body: seq<Byte>)
    ensures forall s <- PlannedSlices(d, body) :: s.start <= s.end <= |body|
    ensures P.SequentialTable(d, body).Some? ==>
      var table, slices := P.SequentialTable(d, body).value, PlannedSlices(d, body);
      && P.TablePlan(d, body).Some? && table.names == P.TablePlan(d, body).value.names
      && |table.columns| == |slices|
      && forall i :: 0 <= i < |slices| ==>
          && slices[i] in slices
          && d.column(slices[i].kType, body[slices[i].start..slices[i].end]) == Some(table.columns[i])
    ensures P.SequentialTable(d, body).None? <==>
      || P.TablePlan(d, body).None?
      || exists s :: s in PlannedSlices(d, body) && d.column(s.kType, body[s.start..s.end]).None?
  {
    hide P.TablePlan;
    P.PlanInBounds(d, body);
    var plan := P.TablePlan(d, body);
    if plan.Some? {
      var slices := plan.value.slices;
      var columns := P.DecodeSlices(d, body, slices);
      if P.SequentialTable(d, body).None? {
        var i :| 0 <= i < |columns| && columns[i].None?;
        assert slices[i] in slices;
      } else {
        forall s | s in slices ensures d.column(s.kType, body[s.start..s.end]).Some? {
          var i :| 0 <= i < |slices| && slices[i] == s;
          assert columns[i].Some?;
        }
      }
    }
  }

  function PlannedSlices<Name, Column>(d: P.Decoders<Name, Column>, body: seq<Byte>): seq<P.Slice> {
    var plan := P.TablePlan(d, body);
    if plan.None? then [] else plan.value.slices
  }
}
