/**
 `deserialize_series`: decoding a slice as one list of a given type, for use as a value or as a table
 column, and the proof that a slice delimited by the scanner is never refused for its structure.
 */
module SeriesDecoder {
  import opened Bytes
  import opened KTypes
  import opened ListScanner
  import opened Utf8
  import opened NestedDecoder
  import opened CharRows
  import I = Interner
  import T = TextColumns

  // ---------- Nested lists ----------

  datatype Nested = NoRows | Lists(list: NestedList) | Texts(rows: seq<seq<Byte>>)

  /** What a nonempty nested list with these children decodes to. */
  ghost predicate NestedContent(vec: seq<Byte>, rows: nat, n: Nested, filled: nat, encoding: Encoding)
    requires 5 < |vec| && ChildrenEnd(vec, 5, rows, Some(vec[5])).Ok?
  {
    var cs := Children(vec, 5, rows, vec[5]);
    && (vec[5] != 11 ==> filled == |vec| - 5 - 6 * rows)
    && (if vec[5] == 10 then
          n.Texts? && TextsOf(PayloadRows(cs), n.rows, encoding) && forall error :: !Refused(cs, encoding, error)
        else
          n.Lists? && n.list.kType == vec[5] && Decodes(cs, n.list, encoding)
          && (vec[5] != 11 ==> |n.list.values| == filled))
  }

  /** Why a well-formed nested list is refused: never for its structure. */
  ghost predicate NestedRefusal(vec: seq<Byte>, rows: nat, error: NestedError, encoding: Encoding)
    requires 5 < |vec| && ChildrenEnd(vec, 5, rows, Some(vec[5])).Ok?
  {
    var cs := Children(vec, 5, rows, vec[5]);
    if vec[5] == 10 then Refused(cs, encoding, error)
    else match error
      case TooManyChildren => Total(cs) > I32_MAX
      case BadText => vec[5] == 11 && Undecodable(vec, encoding)
      case _ => false
  }

  /** A vector that is exactly one nonempty nested list. */
  ghost predicate NonemptyNested(vec: seq<Byte>) {
    && ListEnd(vec, 0, 0) == Ok(|vec|) && ListLength(vec, 0).value > 0
    && 5 < |vec| && NestableType(vec[5]) && ChildrenEnd(vec, 5, ListLength(vec, 0).value, Some(vec[5])) == Ok(|vec|)
  }

  lemma NestedParts(vec: seq<Byte>, rows: nat)
    requires 5 <= |vec| && ListLength(vec, 0) == Ok(rows) && rows > 0
    ensures NonemptyNested(vec) <==> ListEnd(vec, 0, 0) == Ok(|vec|)
    ensures 5 < |vec| && NestableType(vec[5]) && ChildrenEnd(vec, 5, rows, Some(vec[5])) == Ok(|vec|)
      <==> NonemptyNested(vec)
  {
    hide ListLength, ChildrenEnd;
    FirstChildFixesType(vec, 5, rows);
  }

  /**
   `deserialize_nested_array`, up to the typed conversion of fixed-width payloads. Success means that
   the vector is exactly one list and the payload fills exactly the capacity reserved for it; a vector
   that is exactly one list is refused only for the stated reasons.
   */
  method DecodeNested(vec: seq<Byte>, encoding: Encoding) returns (r: Result<Nested, NestedError>, filled: nat)
    ensures r.Ok? ==> ListEnd(vec, 0, 0) == Ok(|vec|)
    ensures r.Ok? && ListLength(vec, 0).value == 0 ==> r.value == NoRows
    ensures r.Ok? && ListLength(vec, 0).value > 0 ==>
      NonemptyNested(vec) && NestedContent(vec, ListLength(vec, 0).value, r.value, filled, encoding)
    ensures r.Err? && ListEnd(vec, 0, 0) == Ok(|vec|) ==>
      NonemptyNested(vec) && NestedRefusal(vec, ListLength(vec, 0).value, r.error, encoding)
  {
    hide ChildrenEnd, Decodes, Undecodable, Refused, TextsOf, NonemptyNested;
    filled := 0;
    if |vec| < 5 {
      return Err(Structural), 0;
    }
    var length := ListLength(vec, 0);
    hide ListLength;
    if length.Err? {
      return Err(Structural), 0;
    }
    var rows := length.value;
    if rows == 0 {
      EmptyNested(vec);
      if |vec| != 5 {
        return Err(Structural), 0;
      }
      return Ok(NoRows), 0;
    }
    NestedParts(vec, rows);
    if |vec| == 5 || !NestableType(vec[5]) {
      return Err(Structural), 0;
    }
    if vec[5] != 11 && 6 * rows > |vec| - 5 {
      return Err(Structural), 0;
    }
    if vec[5] == 10 {
      var texts;
      texts, filled := DecodeCharList(vec, rows, |vec| - 5 - 6 * rows, encoding);
      return if texts.Err? then Err(texts.error) else Ok(Texts(texts.value)), filled;
    }
    var decoded := DecodeRows(vec, 5, rows, vec[5], encoding);
    if decoded.Err? {
      return Err(decoded.error), 0;
    }
    var (list, end) := decoded.value;
    filled := |list.values|;
    if end != |vec| {
      return Err(Structural), filled;
    }
    if vec[5] != 11 {
      FillsCapacity(vec, rows, vec[5], list, encoding);
    }
    r := Ok(Lists(list));
  }

  lemma EmptyNested(vec: seq<Byte>)
    requires 5 <= |vec| && ListLength(vec, 0) == Ok(0)
    ensures ListEnd(vec, 0, 0) == Ok(5)
  {
  }

  // ---------- Symbol lists ----------

  /** Symbols end with the vector exactly when what follows spells that many symbols. */
  lemma {:induction false} SymbolsEndSplits(vec: seq<Byte>, pos: nat, count: nat)
    requires pos <= |vec|
    ensures SymbolsEnd(vec, pos, count) == Ok(|vec|) <==> T.SplitSymbols(vec[pos..], count).Some?
    decreases count
  {
    hide FindNul, T.SplitSymbols;
    if count == 0 {
      SplitOfNothing(vec[pos..]);
    } else {
      var nul := FindNul(vec, pos);
      if nul.None? {
        I.NoSymbol(vec[pos..], count);
      } else {
        SplitAtNul(vec, pos, nul.value, count);
        SymbolsEndSplits(vec, nul.value + 1, count - 1);
      }
    }
  }

  lemma SplitOfNothing(s: seq<Byte>)
    ensures T.SplitSymbols(s, 0).Some? <==> s == []
  {
  }

  lemma SplitAtNul(vec: seq<Byte>, pos: nat, nul: nat, count: nat)
    requires pos <= nul < |vec| && vec[nul] == 0 && 0 !in vec[pos..nul] && count > 0
    ensures T.SplitSymbols(vec[pos..], count).Some? <==> T.SplitSymbols(vec[nul + 1..], count - 1).Some?
  {
    hide T.SplitSymbols;
    I.CutAtNul(vec, pos, nul);
    T.SplitCons(vec[pos..nul], vec[nul + 1..], count);
  }

  /** Decoding the text first loses no terminator and adds none. */
  lemma DecodedTextSplits(payload: seq<Byte>, count: nat, encoding: Encoding)
    requires DecodeText(payload, encoding).Some?
    ensures T.SplitSymbols(DecodeText(payload, encoding).value, count).Some? <==> T.SplitSymbols(payload, count).Some?
  {
    hide T.SplitSymbols, Lossy, Valid;
    T.LossyCommutesWithSplit(payload, count);
  }

  /**
   A symbol list the scanner delimits always splits into exactly its declared number of symbols, also
   after its text has been decoded, under both policies.
   */
  lemma DelimitedSymbolsSplit(body: seq<Byte>, start: nat, encoding: Encoding)
    requires ListEnd(body, start, 11).Ok?
    ensures var end, count := ListEnd(body, start, 11).value, ListLength(body, start).value;
      var payload := body[start + 5..end];
      && T.SplitSymbols(payload, count).Some?
      && (DecodeText(payload, encoding).Some? ==> T.SplitSymbols(DecodeText(payload, encoding).value, count).Some?)
  {
    hide T.SplitSymbols, DecodeText, ListLength, SymbolsEnd;
    var end, count := ListEnd(body, start, 11).value, ListLength(body, start).value;
    var payload := body[start + 5..end];
    SymbolsEndInSlice(body, start + 5, end, start + 5, count);
    SymbolsEndSplits(payload, 0, count);
    assert payload[0..] == payload;
    if DecodeText(payload, encoding).Some? {
      DecodedTextSplits(payload, count, encoding);
    }
  }

  /** The payload of a delimited fixed-width list is its declared number of elements. */
  lemma DelimitedPayloadFits(body: seq<Byte>, start: nat, kType: Byte)
    requires ListEnd(body, start, kType).Ok? && kType != 0 && kType != 11
    ensures Width(kType) > 0
    ensures ListEnd(body, start, kType).value - (start + 5) == ListLength(body, start).value * Width(kType)
  {
  }

  datatype SymbolList = Categories(ids: seq<nat>) | Strings(values: seq<Byte>, offsets: seq<nat>)

  /** The symbols of the payload, each decoded on its own. */
  ghost function SymbolTexts(payload: seq<Byte>, count: nat, encoding: Encoding): Option<seq<seq<Byte>>> {
    var symbols := T.SplitSymbols(payload, count);
    if symbols.None? then None else T.DecodeEach(symbols.value, encoding)
  }

  ghost predicate SymbolContent(
    payload: seq<Byte>, count: nat, asColumn: bool, encoding: Encoding, list: SymbolList, ids: map<I.Symbol, nat>)
  {
    var texts := SymbolTexts(payload, count, encoding);
    && texts.Some?
    && (if asColumn then list.Categories? && I.Resolved(texts.value, list.ids, ids)
        else
          && list.Strings? && T.Offsets(list.offsets, |list.values|)
          && T.Rows(list.values, list.offsets) == texts.value)
  }

  /** The splitting loop of a symbol list that is not a column. */
  method SplitStrings(text: seq<Byte>, count: nat) returns (r: Option<(seq<Byte>, seq<nat>)>)
    ensures r.Some? <==> T.SplitSymbols(text, count).Some?
    ensures r.Some? ==>
      && T.Offsets(r.value.1, |r.value.0|)
      && T.Rows(r.value.0, r.value.1) == T.SplitSymbols(text, count).value
  {
    hide FindNul, T.SplitSymbols, T.Offsets, T.Rows, I.Joined;
    var values: seq<Byte>, offsets: seq<nat>, cursor: nat := [], [0], 0;
    ghost var done: seq<seq<Byte>> := [];
    assert text[0..] == text;
    I.Started(T.SplitSymbols(text, count), map[]);
    NoStrings();
    for i := 0 to count
      invariant cursor <= |text| && T.Offsets(offsets, |values|) && T.Rows(values, offsets) == done
      invariant T.SplitSymbols(text, count) == I.Joined(done, T.SplitSymbols(text[cursor..], count - i))
    {
      var terminator := FindNul(text, cursor);
      I.NextSymbol(text, cursor, count - i, done);
      if terminator.None? {
        return None;
      }
      var symbol := text[cursor..terminator.value];
      StringAppended(values, offsets, symbol);
      values := values + symbol;
      offsets, done, cursor := offsets + [|values|], done + [symbol], terminator.value + 1;
    }
    I.Finished(done, text, cursor);
    r := if cursor == |text| then Some((values, offsets)) else None;
  }

  lemma NoStrings()
    ensures T.Offsets([0], 0) && T.Rows([], [0]) == []
  {
  }

  lemma StringAppended(values: seq<Byte>, offsets: seq<nat>, symbol: seq<Byte>)
    requires T.Offsets(offsets, |values|)
    ensures var b := offsets + [|values + symbol|];
      T.Offsets(b, |values + symbol|) && T.Rows(values + symbol, b) == T.Rows(values, offsets) + [symbol]
  {
    RowAppended(values, offsets, symbol, 0);
    var b := offsets + [|values| + |symbol|];
    forall i | 0 <= i < |offsets|
      ensures T.Rows(values + symbol, b)[i] == (T.Rows(values, offsets) + [symbol])[i]
    {
      RowAppended(values, offsets, symbol, i);
    }
  }

  datatype SeriesError =
    | Unsupported | Malformed | InvalidText | BadValue | MappingFull | NestedFails(error: NestedError)

  /** The symbol branch: the whole text is decoded once, then split, into ids for a column. */
  method DecodeSymbols(
    payload: seq<Byte>, count: nat, asColumn: bool, encoding: Encoding, mapping: I.Mapping, others: seq<seq<I.Symbol>>)
    returns (r: Result<SymbolList, SeriesError>)
    requires mapping.Valid()
    modifies mapping
    ensures mapping.Valid()
    ensures r.Ok? ==> SymbolContent(payload, count, asColumn, encoding, r.value, mapping.ids)
    ensures r.Err? && T.SplitSymbols(payload, count).Some? ==>
      match r.error
      case InvalidText => encoding.Strict? && exists s :: s in T.SplitSymbols(payload, count).value && !Valid(s)
      case MappingFull => asColumn && |mapping.ids| >= mapping.limit
      case _ => false
  {
    hide T.SplitSymbols, Valid, Lossy, T.DecodeEach, T.Offsets, T.Rows;
    var text := DecodeText(payload, encoding);
    if text.None? {
      if T.SplitSymbols(payload, count).Some? {
        T.SplitSymbolsValid(payload, count);
      }
      return Err(InvalidText);
    }
    DecodedTextSplits(payload, count, encoding);
    if T.SplitSymbols(payload, count).Some? {
      T.DecodeThenSplit(payload, count, encoding);
    }
    if asColumn {
      var ids, asked := I.DecodeSymbolColumn(text.value, count, mapping, others);
      return match ids
        case Ok(ids) => Ok(Categories(ids))
        case Err(Malformed) => Err(SeriesError.Malformed)
        case Err(MappingFull) => Err(SeriesError.MappingFull);
    }
    var strings := SplitStrings(text.value, count);
    r := if strings.None? then Err(Malformed) else Ok(Strings(strings.value.0, strings.value.1));
  }

  // ---------- Char columns ----------

  /** A char column has one byte per row. */
  ghost function ByteRows(payload: seq<Byte>): (rows: seq<seq<Byte>>)
    ensures |rows| == |payload|
  {
    seq(|payload|, i requires 0 <= i < |payload| => [payload[i]])
  }

  predicate IsAscii(payload: seq<Byte>) {
    forall b <- payload :: b < 0x80
  }

  /** On its own a byte is text exactly when it is ASCII, and is replaced otherwise. */
  lemma ByteText(b: Byte, encoding: Encoding)
    ensures b < 0x80 ==> DecodeText([b], encoding) == Some([b])
    ensures b >= 0x80 ==> DecodeText([b], encoding) == if encoding.Strict? then None else Some(REPLACEMENT)
  {
    var s := [b];
    assert HeadLength(s) == 1 && s[1..] == [] && s[..1] == s;
    assert Valid(s) <==> b < 0x80;
    assert Lossy(s) == TranscodedHead(s) + Lossy([]) == TranscodedHead(s);
  }

  /** The char-column branch: each row is its byte's text, and strict decoding refuses any non-ASCII byte. */
  method DecodeCharColumn(payload: seq<Byte>, encoding: Encoding) returns (r: Result<seq<seq<Byte>>, SeriesError>)
    ensures r.Ok? ==> TextsOf(ByteRows(payload), r.value, encoding)
    ensures r.Err? <==> encoding.Strict? && exists i :: 0 <= i < |payload| && payload[i] >= 0x80
    ensures r.Err? ==> r.error == InvalidText
  {
    hide DecodeText;
    if !IsAscii(payload) && encoding.Strict? {
      var b :| b in payload && b >= 0x80;
      return Err(InvalidText);
    }
    var rows: seq<seq<Byte>> := [];
    for i := 0 to |payload|
      invariant |rows| == i
      invariant forall k :: 0 <= k < i ==> DecodeText([payload[k]], encoding) == Some(rows[k])
    {
      ByteText(payload[i], encoding);
      assert payload[i] in payload;
      rows := rows + [if payload[i] < 0x80 then [payload[i]] else REPLACEMENT];
    }
    r := Ok(rows);
  }

  // ---------- A whole list ----------

  datatype Series =
    | Empty(kType: Byte)
    | CharVector(bytes: seq<Byte>)
    | CharColumn(rows: seq<seq<Byte>>)
    | NestedRows(nested: Nested)
    | SymbolRows(symbols: SymbolList)
    | Fixed(kType: Byte, payload: seq<Byte>)

  /** Types that become a series; the scanner also delimits months, which do not. */
  predicate Supported(kType: Byte) {
    kType <= 19 && kType != 3 && kType != 13
  }

  /** Value-level checks of a fixed-width payload: booleans here, the other types by `convert`. */
  predicate Converts(kType: Byte, payload: seq<Byte>, convert: (Byte, seq<Byte>) -> bool) {
    if kType == 1 then forall b <- payload :: b <= 1 else convert(kType, payload)
  }

  /** What a nonempty list decodes to. */
  ghost predicate SeriesContent(
    vec: seq<Byte>, count: nat, kType: Byte, asColumn: bool, encoding: Encoding,
    convert: (Byte, seq<Byte>) -> bool, ids: map<I.Symbol, nat>, series: Series)
    requires |vec| >= 5
  {
    var payload := vec[5..];
    if kType == 0 then
      series.NestedRows? && NonemptyNested(vec)
      && exists filled :: NestedContent(vec, ListLength(vec, 0).value, series.nested, filled, encoding)
    else if kType == 10 && asColumn then series.CharColumn? && TextsOf(ByteRows(payload), series.rows, encoding)
    else if kType == 10 then series == CharVector(payload)
    else if kType == 11 then
      series.SymbolRows? && SymbolContent(payload, count, asColumn, encoding, series.symbols, ids)
    else series == Fixed(kType, payload) && Converts(kType, payload, convert)
  }

  /** Why a well-formed list is refused: for its type or its values, never for its structure. */
  ghost predicate SeriesRefusal(
    vec: seq<Byte>, count: nat, kType: Byte, asColumn: bool, encoding: Encoding,
    convert: (Byte, seq<Byte>) -> bool, mapping: I.Mapping, error: SeriesError)
    requires |vec| >= 5
    reads mapping
  {
    var payload := vec[5..];
    match error
    case Malformed => false
    case Unsupported => kType == 13
    case InvalidText =>
      && encoding.Strict?
      && (if kType == 11 then
            var symbols := T.SplitSymbols(payload, count);
            symbols.Some? && exists s :: s in symbols.value && !Valid(s)
          else kType == 10 && asColumn && exists i :: 0 <= i < |payload| && payload[i] >= 0x80)
    case BadValue => Width(kType) > 0 && !Converts(kType, payload, convert)
    case MappingFull => kType == 11 && asColumn && |mapping.ids| >= mapping.limit
    case NestedFails(e) =>
      && kType == 0 && NonemptyNested(vec)
      && NestedRefusal(vec, ListLength(vec, 0).value, e, encoding)
  }

  /**
   `deserialize_series`. Success means that the vector is exactly one list of a supported type. A vector
   that is exactly one list, as every slice the scanner delimits is, meets no truncation and no
   trailing-byte error: it is refused only for its type or its values.
   */
  method DecodeSeries(
    vec: seq<Byte>, kType: Byte, asColumn: bool, encoding: Encoding,
    convert: (Byte, seq<Byte>) -> bool, mapping: I.Mapping, others: seq<seq<I.Symbol>>)
    returns (r: Result<Series, SeriesError>)
    requires mapping.Valid()
    modifies mapping
    ensures mapping.Valid()
    ensures r.Ok? ==> Supported(kType) && ListEnd(vec, 0, kType) == Ok(|vec|)
    ensures r.Ok? && kType == 1 ==> forall b <- vec[5..] :: b == 0 || b == 1
    ensures r.Ok? && ListLength(vec, 0).value == 0 ==>
      r.value == if kType == 10 && !asColumn then CharVector([]) else Empty(kType)
    ensures r.Ok? && ListLength(vec, 0).value > 0 ==>
      SeriesContent(vec, ListLength(vec, 0).value, kType, asColumn, encoding, convert, mapping.ids, r.value)
    ensures r.Err? && ListEnd(vec, 0, kType) == Ok(|vec|) ==>
      SeriesRefusal(vec, ListLength(vec, 0).value, kType, asColumn, encoding, convert, mapping, r.error)
  {
    if kType >= 20 {
      return Err(Unsupported);
    }
    if |vec| < 5 {
      return Err(Malformed);
    }
    var length := ListLength(vec, 0);
    hide ListLength, ChildrenEnd, SymbolsEnd;
    if length.Err? {
      return Err(Malformed);
    }
    var count := length.value;
    if count == 0 {
      EmptyList(vec, kType);
      if |vec| != 5 {
        return Err(Malformed);
      }
      if kType == 10 && !asColumn {
        return Ok(CharVector([]));
      }
      return if Supported(kType) then Ok(Empty(kType)) else Err(Unsupported);
    }
    var payload := vec[5..];
    if kType != 0 && kType != 11 && |payload| != count * Width(kType) {
      return Err(Malformed);
    }
    if kType == 0 {
      var nested, filled := DecodeNested(vec, encoding);
      return if nested.Err? then Err(NestedFails(nested.error)) else Ok(NestedRows(nested.value));
    }
    if kType == 11 {
      SymbolsEndSplits(vec, 5, count);
      var symbols := DecodeSymbols(payload, count, asColumn, encoding, mapping, others);
      return if symbols.Err? then Err(symbols.error) else Ok(SymbolRows(symbols.value));
    }
    if kType == 10 {
      if !asColumn {
        return Ok(CharVector(payload));
      }
      var rows := DecodeCharColumn(payload, encoding);
      return if rows.Err? then Err(rows.error) else Ok(CharColumn(rows.value));
    }
    if !Supported(kType) {
      return Err(Unsupported);
    }
    r := if Converts(kType, payload, convert) then Ok(Fixed(kType, payload)) else Err(BadValue);
  }

  lemma EmptyList(vec: seq<Byte>, kType: Byte)
    requires 5 <= |vec| && ListLength(vec, 0) == Ok(0)
    ensures ScannableType(kType) ==> ListEnd(vec, 0, kType) == Ok(5)
  {
  }

  /** The decoding of a table column: the scanner delimits it and the decoder takes the slice. */
  method DecodeDelimited(
    body: seq<Byte>, start: nat, kType: Byte, encoding: Encoding,
    convert: (Byte, seq<Byte>) -> bool, mapping: I.Mapping, others: seq<seq<I.Symbol>>)
    returns (r: Result<Series, SeriesError>)
    requires mapping.Valid() && ListEnd(body, start, kType).Ok?
    modifies mapping
    ensures mapping.Valid()
    ensures r.Err? ==>
      && r.error != Malformed && r.error != NestedFails(Structural)
      && (r.error == Unsupported ==> kType == 13)
  {
    hide SymbolsEnd, ChildrenEnd, SeriesContent;
    var end := ListEnd(body, start, kType).value;
    DelimitedSliceIsList(body, start, kType);
    r := DecodeSeries(body[start..end], kType, true, encoding, convert, mapping, others);
  }
}
