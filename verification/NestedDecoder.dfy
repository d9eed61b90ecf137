/** Decoding of nested lists: what the decoder does with a slice the scanner has delimited. */
module NestedDecoder {
  import opened Bytes
  import opened KTypes
  import opened ListScanner
  import opened Utf8
  import T = TextColumns

  // ---------- A delimited slice is a list of its own ----------

  lemma SliceOfSlice(body: seq<Byte>, start: nat, end: nat, i: nat, j: nat)
    requires start <= i <= j <= end <= |body|
    ensures body[start..end][i - start..j - start] == body[i..j]
  {
    var inner, outer := body[start..end][i - start..j - start], body[i..j];
    assert |inner| == |outer|;
    forall k | 0 <= k < |outer| ensures inner[k] == outer[k] {
      assert inner[k] == body[start..end][i - start + k] == body[i + k];
    }
  }

  lemma FindNulInSlice(body: seq<Byte>, start: nat, end: nat, pos: nat)
    requires start <= pos <= end <= |body|
    requires FindNul(body, pos).Some? && FindNul(body, pos).value < end
    ensures FindNul(body[start..end], pos - start) == Some(FindNul(body, pos).value - start)
  {
    var i := FindNul(body, pos).value;
    SliceOfSlice(body, start, end, pos, i);
    FindNulAt(body[start..end], pos - start, i - start);
  }

  lemma {:induction false} SymbolsEndInSlice(body: seq<Byte>, start: nat, end: nat, pos: nat, count: nat)
    requires start <= pos <= end <= |body|
    requires SymbolsEnd(body, pos, count).Ok? && SymbolsEnd(body, pos, count).value <= end
    ensures SymbolsEnd(body[start..end], pos - start, count) == Ok(SymbolsEnd(body, pos, count).value - start)
    decreases count
  {
    hide FindNul;
    if count > 0 {
      var nul := FindNul(body, pos).value;
      FindNulInSlice(body, start, end, pos);
      SymbolsEndInSlice(body, start, end, nul + 1, count - 1);
    }
  }

  lemma ListLengthInSlice(body: seq<Byte>, start: nat, end: nat, pos: nat)
    requires start <= pos && pos + 5 <= end <= |body|
    ensures ListLength(body[start..end], pos - start) == ListLength(body, pos)
  {
    SliceOfSlice(body, start, end, pos + 1, pos + 5);
    assert pos - start + 1 == pos + 1 - start && pos - start + 5 == pos + 5 - start;
  }

  lemma ChildEndInSlice(body: seq<Byte>, start: nat, end: nat, pos: nat, expected: Option<Byte>)
    requires start <= pos <= end <= |body|
    requires ChildEnd(body, pos, expected).Ok? && ChildEnd(body, pos, expected).value.0 <= end
    ensures ChildEnd(body[start..end], pos - start, expected)
      == Ok((ChildEnd(body, pos, expected).value.0 - start, ChildEnd(body, pos, expected).value.1))
  {
    hide ListLength, FindNul, SymbolsEnd, ChildType, Width;
    assert body[start..end][pos - start] == body[pos];
    ListLengthInSlice(body, start, end, pos + 1);
    if body[pos] == 11 {
      SymbolsEndInSlice(body, start, end, pos + 6, ListLength(body, pos + 1).value);
    }
  }

  lemma {:induction false} ChildrenEndInSlice(
    body: seq<Byte>, start: nat, end: nat, pos: nat, rows: nat, expected: Option<Byte>)
    requires start <= pos <= end <= |body|
    requires ChildrenEnd(body, pos, rows, expected).Ok? && ChildrenEnd(body, pos, rows, expected).value <= end
    ensures ChildrenEnd(body[start..end], pos - start, rows, expected)
      == Ok(ChildrenEnd(body, pos, rows, expected).value - start)
    decreases rows
  {
    hide ChildEnd;
    if rows > 0 {
      var (next, child) := ChildEnd(body, pos, expected).value;
      ChildEndInSlice(body, start, end, pos, expected);
      ChildrenEndInSlice(body, start, end, next, rows - 1, Some(child));
    }
  }

  /** The slice the scanner hands to a decoder is exactly one list. */
  lemma DelimitedSliceIsList(body: seq<Byte>, start: nat, kType: Byte)
    requires ListEnd(body, start, kType).Ok?
    ensures var end := ListEnd(body, start, kType).value;
      ListEnd(body[start..end], 0, kType) == Ok(end - start)
  {
    hide ListLength;
    var end := ListEnd(body, start, kType).value;
    ListLengthInSlice(body, start, end, start);
    var count := ListLength(body, start).value;
    if kType == 0 {
      ChildrenEndInSlice(body, start, end, start + 5, count, None);
    } else if kType == 11 {
      SymbolsEndInSlice(body, start, end, start + 5, count);
    }
  }

  // ---------- The children of a nested list ----------

  datatype Child = Child(count: nat, payload: seq<Byte>)

  function Children(vec: seq<Byte>, pos: nat, rows: nat, kType: Byte): (cs: seq<Child>)
    requires pos <= |vec| && ChildrenEnd(vec, pos, rows, Some(kType)).Ok?
    ensures |cs| == rows
    decreases rows
  {
    if rows == 0 then []
    else
      var (next, _) := ChildEnd(vec, pos, Some(kType)).value;
      [Child(ListLength(vec, pos + 1).value, vec[pos + 6..next])] + Children(vec, next, rows - 1, kType)
  }

  function Payloads(cs: seq<Child>): seq<Byte> {
    if cs == [] then [] else Payloads(cs[..|cs| - 1]) + cs[|cs| - 1].payload
  }

  function Total(cs: seq<Child>): nat {
    if cs == [] then 0 else Total(cs[..|cs| - 1]) + cs[|cs| - 1].count
  }

  /** Cumulative child counts, starting at zero. */
  function OffsetsOf(cs: seq<Child>): (b: seq<nat>)
    ensures |b| == |cs| + 1 && b[0] == 0 && b[|cs|] == Total(cs)
  {
    if cs == [] then [0] else OffsetsOf(cs[..|cs| - 1]) + [Total(cs)]
  }

  /** `Structural` stands for every truncation, trailing-byte and element-type error; the others are about values. */
  datatype NestedError = Structural | TooManyChildren | BadText | ViewLimit | TranscodeLimit

  /** Row offsets, with the concatenated payloads or, for symbol children, the decoded symbols. */
  datatype NestedList = NestedList(kType: Byte, offsets: seq<nat>, values: seq<Byte>, texts: seq<seq<Byte>>)

  /** The first child fixes the element type. */
  lemma FirstChildFixesType(vec: seq<Byte>, pos: nat, rows: nat)
    requires pos <= |vec| && rows > 0
    ensures pos == |vec| || !NestableType(vec[pos]) ==> ChildrenEnd(vec, pos, rows, None).Err?
    ensures pos < |vec| && NestableType(vec[pos]) ==>
      ChildrenEnd(vec, pos, rows, None) == ChildrenEnd(vec, pos, rows, Some(vec[pos]))
  {
  }

  /** Every child after the first keeps the type. */
  lemma ChildKeepsType(vec: seq<Byte>, pos: nat, kType: Byte)
    requires pos <= |vec| && ChildEnd(vec, pos, Some(kType)).Ok?
    ensures ChildEnd(vec, pos, Some(kType)).value.1 == kType && ListLength(vec, pos + 1).Ok?
  {
  }

  /** Headers and payloads fill the list exactly. */
  lemma {:induction false} ChildrenFill(vec: seq<Byte>, pos: nat, rows: nat, kType: Byte, done: seq<Child>)
    requires pos <= |vec| && ChildrenEnd(vec, pos, rows, Some(kType)).Ok?
    ensures |Payloads(done + Children(vec, pos, rows, kType))| + 6 * rows
      == |Payloads(done)| + ChildrenEnd(vec, pos, rows, Some(kType)).value - pos
    decreases rows
  {
    hide ChildEnd;
    if rows == 0 {
      assert done + [] == done;
    } else {
      var (next, child) := ChildEnd(vec, pos, Some(kType)).value;
      ChildKeepsType(vec, pos, kType);
      var first := Child(ListLength(vec, pos + 1).value, vec[pos + 6..next]);
      var rest := Children(vec, next, rows - 1, kType);
      ChildrenFill(vec, next, rows - 1, kType, done + [first]);
      assert done + ([first] + rest) == (done + [first]) + rest;
      PayloadsAppend(done, first);
    }
  }

  lemma PayloadsAppend(done: seq<Child>, c: Child)
    ensures Payloads(done + [c]) == Payloads(done) + c.payload
    ensures Total(done + [c]) == Total(done) + c.count
    ensures OffsetsOf(done + [c]) == OffsetsOf(done) + [Total(done) + c.count]
  {
    assert (done + [c])[..|done|] == done;
  }

  // ---------- Symbol children ----------

  lemma {:induction false} SplitAppend(p: seq<Byte>, n: nat, symbol: seq<Byte>)
    requires T.SplitSymbols(p, n).Some? && 0 !in symbol
    ensures T.SplitSymbols(p + symbol + [0], n + 1) == Some(T.SplitSymbols(p, n).value + [symbol])
    decreases n
  {
    if n == 0 {
      T.SplitCons(symbol, [], 1);
      assert p + symbol + [0] == symbol + [0] + [];
      assert [symbol] + [] == [] + [symbol];
    } else {
      var i := FindNul(p, 0).value;
      var first, rest := p[..i], p[i + 1..];
      T.NulTerminates(p, i);
      hide FindNul, T.SplitSymbols;
      T.SplitCons(first, rest, n);
      SplitAppend(rest, n - 1, symbol);
      T.SplitCons(first, rest + symbol + [0], n + 1);
      Regroup(first, rest, symbol);
      RegroupSymbols(first, T.SplitSymbols(rest, n - 1).value, symbol);
    }
  }

  lemma Regroup(first: seq<Byte>, rest: seq<Byte>, symbol: seq<Byte>)
    ensures (first + [0] + rest) + symbol + [0] == first + [0] + (rest + symbol + [0])
  {
  }

  lemma RegroupSymbols(first: seq<Byte>, rest: seq<seq<Byte>>, symbol: seq<Byte>)
    ensures [first] + (rest + [symbol]) == ([first] + rest) + [symbol]
  {
  }

  /** Each of the symbols, decoded. */
  ghost predicate DecodedTexts(symbols: seq<seq<Byte>>, texts: seq<seq<Byte>>, encoding: Encoding) {
    && |texts| == |symbols|
    && forall i :: 0 <= i < |texts| ==> DecodeText(symbols[i], encoding) == Some(texts[i])
  }

  /** A symbol that cannot be decoded under the policy. */
  ghost predicate Undecodable(vec: seq<Byte>, encoding: Encoding) {
    encoding.Strict? && exists i, j :: 0 <= i <= j < |vec| && vec[j] == 0 && 0 !in vec[i..j] && !Valid(vec[i..j])
  }

  method TakeTexts(vec: seq<Byte>, start: nat, count: nat, encoding: Encoding)
    returns (r: Result<(seq<seq<Byte>>, nat), NestedError>)
    requires start <= |vec|
    ensures r.Ok? ==>
      var (texts, end) := r.value;
      && SymbolsEnd(vec, start, count) == Ok(end)
      && T.SplitSymbols(vec[start..end], count).Some?
      && DecodedTexts(T.SplitSymbols(vec[start..end], count).value, texts, encoding)
    ensures r.Err? ==>
      if r.error.Structural? then SymbolsEnd(vec, start, count).Err? else r.error.BadText? && Undecodable(vec, encoding)
  {
    hide FindNul, T.SplitSymbols, DecodedTexts, DecodeText, Undecodable;
    var pos, texts := start, [];
    ghost var symbols: seq<seq<Byte>> := [];
    NoTexts(vec, start, encoding);
    for i := 0 to count
      invariant start <= pos <= |vec|
      invariant SymbolsEnd(vec, start, count) == SymbolsEnd(vec, pos, count - i)
      invariant T.SplitSymbols(vec[start..pos], i) == Some(symbols)
      invariant DecodedTexts(symbols, texts, encoding)
    {
      var nul := FindNul(vec, pos);
      if nul.None? {
        return Err(Structural);
      }
      var symbol := vec[pos..nul.value];
      var text := DecodeText(symbol, encoding);
      if text.None? {
        UndecodableAt(vec, pos, nul.value, encoding);
        return Err(BadText);
      }
      TextsNext(vec, start, pos, nul.value, i, symbols, texts, text.value, encoding);
      symbols, texts, pos := symbols + [symbol], texts + [text.value], nul.value + 1;
    }
    r := Ok((texts, pos));
  }

  lemma NoTexts(vec: seq<Byte>, start: nat, encoding: Encoding)
    requires start <= |vec|
    ensures vec[start..start] == [] && T.SplitSymbols(vec[start..start], 0) == Some([])
      && DecodedTexts([], [], encoding)
  {
  }

  lemma UndecodableAt(vec: seq<Byte>, i: nat, j: nat, encoding: Encoding)
    requires i <= j < |vec| && vec[j] == 0 && 0 !in vec[i..j] && DecodeText(vec[i..j], encoding).None?
    ensures Undecodable(vec, encoding)
  {
  }

  lemma TextsNext(
    vec: seq<Byte>, start: nat, pos: nat, nul: nat, n: nat, symbols: seq<seq<Byte>>, texts: seq<seq<Byte>>,
    text: seq<Byte>, encoding: Encoding)
    requires start <= pos <= nul < |vec| && vec[nul] == 0 && 0 !in vec[pos..nul]
    requires T.SplitSymbols(vec[start..pos], n) == Some(symbols) && DecodedTexts(symbols, texts, encoding)
    requires DecodeText(vec[pos..nul], encoding) == Some(text)
    ensures T.SplitSymbols(vec[start..nul + 1], n + 1) == Some(symbols + [vec[pos..nul]])
    ensures DecodedTexts(symbols + [vec[pos..nul]], texts + [text], encoding)
  {
    hide T.SplitSymbols, DecodeText;
    SplitAppend(vec[start..pos], n, vec[pos..nul]);
    assert vec[start..nul + 1] == vec[start..pos] + vec[pos..nul] + [0];
  }

  // ---------- The decoder ----------

  /** The symbols of all children, in order. */
  ghost function AllSymbols(cs: seq<Child>): seq<seq<Byte>> {
    if cs == [] then []
    else
      var c := cs[|cs| - 1];
      var symbols := T.SplitSymbols(c.payload, c.count);
      AllSymbols(cs[..|cs| - 1]) + if symbols.None? then [] else symbols.value
  }

  /** What a list of children decodes to. */
  ghost predicate Decodes(cs: seq<Child>, n: NestedList, encoding: Encoding) {
    && n.offsets == OffsetsOf(cs) && Total(cs) <= I32_MAX
    && (if n.kType == 11 then DecodedTexts(AllSymbols(cs), n.texts, encoding) else n.values == Payloads(cs))
  }

  lemma DecodesNext(cs: seq<Child>, n: NestedList, encoding: Encoding, c: Child, texts: seq<seq<Byte>>)
    requires Decodes(cs, n, encoding) && Total(cs) + c.count <= I32_MAX
    requires n.kType == 11 ==>
      && T.SplitSymbols(c.payload, c.count).Some?
      && DecodedTexts(T.SplitSymbols(c.payload, c.count).value, texts, encoding)
    ensures var offsets := n.offsets + [Total(cs) + c.count];
      Decodes(cs + [c], n.(offsets := offsets, values := n.values + c.payload, texts := n.texts + texts), encoding)
  {
    hide T.SplitSymbols, DecodedTexts, AllSymbols, Payloads, OffsetsOf, Total;
    PayloadsAppend(cs, c);
    if n.kType == 11 {
      AllSymbolsAppend(cs, c);
      TextsConcat(AllSymbols(cs), n.texts, T.SplitSymbols(c.payload, c.count).value, texts, encoding);
    }
  }

  lemma AllSymbolsAppend(cs: seq<Child>, c: Child)
    requires T.SplitSymbols(c.payload, c.count).Some?
    ensures AllSymbols(cs + [c]) == AllSymbols(cs) + T.SplitSymbols(c.payload, c.count).value
  {
    hide T.SplitSymbols;
    assert (cs + [c])[..|cs|] == cs;
  }

  lemma TextsConcat(s1: seq<seq<Byte>>, t1: seq<seq<Byte>>, s2: seq<seq<Byte>>, t2: seq<seq<Byte>>, encoding: Encoding)
    requires DecodedTexts(s1, t1, encoding) && DecodedTexts(s2, t2, encoding)
    ensures DecodedTexts(s1 + s2, t1 + t2, encoding)
  {
    hide DecodeText;
  }

  /** One child: its count, payload and texts, and the position after it. `room` is what the offsets can still hold. */
  method DecodeChild(vec: seq<Byte>, pos: nat, kType: Byte, encoding: Encoding, room: nat)
    returns (r: Result<(Child, seq<seq<Byte>>, nat), NestedError>)
    requires pos <= |vec| && NestableType(kType)
    ensures r.Ok? ==>
      var (c, texts, next) := r.value;
      && ChildEnd(vec, pos, Some(kType)) == Ok((next, kType)) && c.count <= room
      && c == Child(ListLength(vec, pos + 1).value, vec[pos + 6..next])
      && (kType == 11 ==>
            && T.SplitSymbols(c.payload, c.count).Some?
            && DecodedTexts(T.SplitSymbols(c.payload, c.count).value, texts, encoding))
    ensures r.Err? ==>
      match r.error
      case Structural => ChildEnd(vec, pos, Some(kType)).Err?
      case TooManyChildren => pos + 6 <= |vec| && ListLength(vec, pos + 1).Ok? && ListLength(vec, pos + 1).value > room
      case BadText => kType == 11 && Undecodable(vec, encoding)
      case _ => false
  {
    hide FindNul, T.SplitSymbols, ListLength;
    if pos + 6 > |vec| {
      return Err(Structural);
    }
    var current := vec[pos];
    var count := ListLength(vec, pos + 1);
    if count.Err? || (current == 0 && count.value != 0) || (current != 0 && current != kType) {
      return Err(Structural);
    }
    if count.value > room {
      return Err(TooManyChildren);
    }
    if current == 0 {
      EmptyChild(vec, pos + 6);
      return Ok((Child(0, []), [], pos + 6));
    }
    if kType == 11 {
      var texts := TakeTexts(vec, pos + 6, count.value, encoding);
      if texts.Err? {
        return Err(texts.error);
      }
      return Ok((Child(count.value, vec[pos + 6..texts.value.1]), texts.value.0, texts.value.1));
    }
    var end := pos + 6 + count.value * Width(kType);
    if end > |vec| {
      return Err(Structural);
    }
    r := Ok((Child(count.value, vec[pos + 6..end]), [], end));
  }

  lemma EmptyChild(vec: seq<Byte>, pos: nat)
    requires pos <= |vec|
    ensures vec[pos..pos] == [] && T.SplitSymbols([], 0) == Some([])
  {
  }

  /** Children already decoded, in front of those still to come. */
  ghost predicate Continues(vec: seq<Byte>, start: nat, rows: nat, kType: Byte, done: seq<Child>, pos: nat) {
    && start <= |vec| && pos <= |vec| && |done| <= rows
    && ChildrenEnd(vec, start, rows, Some(kType)) == ChildrenEnd(vec, pos, rows - |done|, Some(kType))
    && (ChildrenEnd(vec, start, rows, Some(kType)).Ok? ==>
          Children(vec, start, rows, kType) == done + Children(vec, pos, rows - |done|, kType))
  }

  lemma ContinuesNext(
    vec: seq<Byte>, start: nat, rows: nat, kType: Byte, done: seq<Child>, pos: nat, c: Child, next: nat)
    requires Continues(vec, start, rows, kType, done, pos) && |done| < rows
    requires ChildEnd(vec, pos, Some(kType)) == Ok((next, kType)) && ListLength(vec, pos + 1).Ok?
    requires c == Child(ListLength(vec, pos + 1).value, vec[pos + 6..next])
    ensures Continues(vec, start, rows, kType, done + [c], next)
  {
    hide ChildEnd, ListLength;
    if ChildrenEnd(vec, start, rows, Some(kType)).Ok? {
      var rest := Children(vec, next, rows - |done| - 1, kType);
      assert done + ([c] + rest) == (done + [c]) + rest;
    }
  }

  lemma {:induction false} TotalMonotone(cs: seq<Child>, more: seq<Child>)
    ensures Total(cs) <= Total(cs + more)
    decreases |more|
  {
    if more == [] {
      assert cs + more == cs;
    } else {
      var m := more[..|more| - 1];
      assert cs + more == (cs + m) + [more[|more| - 1]];
      PayloadsAppend(cs + m, more[|more| - 1]);
      TotalMonotone(cs, m);
    }
  }

  /** An overflow on the way is an overflow of the whole. */
  lemma OverflowOfWhole(vec: seq<Byte>, start: nat, rows: nat, kType: Byte, done: seq<Child>, pos: nat)
    requires Continues(vec, start, rows, kType, done, pos) && |done| < rows
    requires pos + 6 <= |vec| && ListLength(vec, pos + 1).Ok?
    requires Total(done) + ListLength(vec, pos + 1).value > I32_MAX
    ensures ChildrenEnd(vec, start, rows, Some(kType)).Ok? ==> Total(Children(vec, start, rows, kType)) > I32_MAX
  {
    hide ChildEnd, ListLength;
    if ChildrenEnd(vec, start, rows, Some(kType)).Ok? {
      var (next, _) := ChildEnd(vec, pos, Some(kType)).value;
      ChildKeepsType(vec, pos, kType);
      var c := Child(ListLength(vec, pos + 1).value, vec[pos + 6..next]);
      ContinuesNext(vec, start, rows, kType, done, pos, c, next);
      PayloadsAppend(done, c);
      TotalMonotone(done + [c], Children(vec, next, rows - |done| - 1, kType));
    }
  }

  /** The row loop of `deserialize_nested_array`, from the first child on. */
  method DecodeRows(vec: seq<Byte>, start: nat, rows: nat, kType: Byte, encoding: Encoding)
    returns (r: Result<(NestedList, nat), NestedError>)
    requires start <= |vec| && NestableType(kType)
    ensures r.Ok? ==>
      && ChildrenEnd(vec, start, rows, Some(kType)) == Ok(r.value.1)
      && r.value.0.kType == kType && Decodes(Children(vec, start, rows, kType), r.value.0, encoding)
    ensures r.Err? ==>
      match r.error
      case Structural => ChildrenEnd(vec, start, rows, Some(kType)).Err?
      case TooManyChildren =>
        ChildrenEnd(vec, start, rows, Some(kType)).Ok? ==> Total(Children(vec, start, rows, kType)) > I32_MAX
      case BadText => kType == 11 && Undecodable(vec, encoding)
      case _ => false
  {
    hide ChildEnd, ListLength, Continues, Decodes, Undecodable, T.SplitSymbols, DecodedTexts;
    var pos: nat := start;
    var n := NestedList(kType, [0], [], []);
    ghost var done: seq<Child> := [];
    RowsStart(vec, start, rows, kType, n, encoding);
    for i := 0 to rows
      invariant pos <= |vec| && |done| == i && n.kType == kType
      invariant Continues(vec, start, rows, kType, done, pos)
      invariant Decodes(done, n, encoding) && |n.offsets| > 0 && n.offsets[|n.offsets| - 1] == Total(done) <= I32_MAX
    {
      var last := n.offsets[|n.offsets| - 1];
      var child := DecodeChild(vec, pos, kType, encoding, I32_MAX - last);
      if child.Err? {
        ChildFails(vec, start, rows, kType, done, pos);
        if child.error == TooManyChildren {
          OverflowOfWhole(vec, start, rows, kType, done, pos);
        }
        return Err(child.error);
      }
      var (c, texts, next) := child.value;
      ChildKeepsType(vec, pos, kType);
      ContinuesNext(vec, start, rows, kType, done, pos, c, next);
      PayloadsAppend(done, c);
      DecodesNext(done, n, encoding, c, texts);
      n := n.(offsets := n.offsets + [last + c.count], values := n.values + c.payload, texts := n.texts + texts);
      done, pos := done + [c], next;
    }
    RowsDone(vec, start, rows, kType, done, pos);
    r := Ok((n, pos));
  }

  lemma RowsStart(vec: seq<Byte>, start: nat, rows: nat, kType: Byte, n: NestedList, encoding: Encoding)
    requires start <= |vec| && n == NestedList(kType, [0], [], [])
    ensures Continues(vec, start, rows, kType, [], start) && Decodes([], n, encoding) && Total([]) == 0
  {
    if ChildrenEnd(vec, start, rows, Some(kType)).Ok? {
      var cs := Children(vec, start, rows, kType);
      assert [] + cs == cs;
    }
  }

  lemma RowsDone(vec: seq<Byte>, start: nat, rows: nat, kType: Byte, done: seq<Child>, pos: nat)
    requires Continues(vec, start, rows, kType, done, pos) && |done| == rows
    ensures ChildrenEnd(vec, start, rows, Some(kType)) == Ok(pos) && Children(vec, start, rows, kType) == done
  {
    assert done + [] == done;
  }

  lemma ChildFails(vec: seq<Byte>, start: nat, rows: nat, kType: Byte, done: seq<Child>, pos: nat)
    requires Continues(vec, start, rows, kType, done, pos) && |done| < rows
    ensures ChildEnd(vec, pos, Some(kType)).Err? ==> ChildrenEnd(vec, start, rows, Some(kType)).Err?
  {
  }

  lemma FillsCapacity(vec: seq<Byte>, rows: nat, kType: Byte, list: NestedList, encoding: Encoding)
    requires 5 <= |vec| && ChildrenEnd(vec, 5, rows, Some(kType)) == Ok(|vec|) && kType != 11
    requires list.kType == kType && Decodes(Children(vec, 5, rows, kType), list, encoding)
    ensures |list.values| == |vec| - 5 - 6 * rows
  {
    var cs := Children(vec, 5, rows, kType);
    ChildrenFill(vec, 5, rows, kType, []);
    assert [] + cs == cs;
  }
}
