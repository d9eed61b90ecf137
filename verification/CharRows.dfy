/**
 Nested char lists: the one-pass fast path, and the general path it falls back to, which validates the
 concatenated rows at once and, if that fails, reports an error or transcodes row by row.
 */
module CharRows {
  import opened Bytes
  import opened KTypes
  import opened ListScanner
  import opened Utf8
  import opened NestedDecoder
  import T = TextColumns

  // ---------- Rows and their concatenation ----------

  /** Char children: a count is a byte count, so offsets cut the payload back into rows. */
  ghost predicate CharChildren(cs: seq<Child>) {
    forall c <- cs :: c.count == |c.payload|
  }

  lemma {:induction false} ChildrenAreChars(vec: seq<Byte>, pos: nat, rows: nat)
    requires pos <= |vec| && ChildrenEnd(vec, pos, rows, Some(10)).Ok?
    ensures CharChildren(Children(vec, pos, rows, 10))
    decreases rows
  {
    if rows > 0 {
      ChildKeepsType(vec, pos, 10);
      ChildrenAreChars(vec, ChildEnd(vec, pos, Some(10)).value.0, rows - 1);
    }
  }

  /** Appending a payload and its end offset keeps the rows before it and adds it as the last row. */
  lemma RowAppended(values: seq<Byte>, b: seq<nat>, payload: seq<Byte>, i: nat)
    requires T.Offsets(b, |values|) && i < |b|
    ensures T.Offsets(b + [|values| + |payload|], |values + payload|)
    ensures T.Row(values + payload, b + [|values| + |payload|], i)
      == if i + 1 < |b| then T.Row(values, b, i) else payload
  {
    var values', b' := values + payload, b + [|values| + |payload|];
    if i + 1 < |b| {
      assert b'[i] == b[i] && b'[i + 1] == b[i + 1];
      assert values'[b[i]..b[i + 1]] == values[b[i]..b[i + 1]];
    } else {
      assert values'[|values|..] == payload;
    }
  }

  lemma {:induction false} OffsetsCutPayloads(cs: seq<Child>)
    requires CharChildren(cs)
    ensures T.Offsets(OffsetsOf(cs), |Payloads(cs)|) && |Payloads(cs)| == Total(cs)
  {
    if cs != [] {
      var init, c := cs[..|cs| - 1], cs[|cs| - 1];
      assert c in cs && forall d <- init :: d in cs;
      OffsetsCutPayloads(init);
      RowAppended(Payloads(init), OffsetsOf(init), c.payload, 0);
    }
  }

  lemma {:induction false} RowIsPayload(cs: seq<Child>, i: nat)
    requires CharChildren(cs) && i < |cs| && T.Offsets(OffsetsOf(cs), |Payloads(cs)|)
    ensures T.Row(Payloads(cs), OffsetsOf(cs), i) == cs[i].payload
  {
    var init, c := cs[..|cs| - 1], cs[|cs| - 1];
    assert c in cs && forall d <- init :: d in cs;
    OffsetsCutPayloads(init);
    RowAppended(Payloads(init), OffsetsOf(init), c.payload, i);
    if i < |init| {
      RowIsPayload(init, i);
    }
  }

  /** Some row of the list is not valid UTF-8. */
  ghost predicate HasInvalidRow(cs: seq<Child>) {
    exists c :: c in cs && !Valid(c.payload)
  }

  /** One validation of the concatenated rows tells exactly whether some row is invalid. */
  lemma InvalidRowExactly(cs: seq<Child>)
    requires CharChildren(cs)
    ensures T.NestedCharValid(Payloads(cs), OffsetsOf(cs)) <==> !HasInvalidRow(cs)
  {
    hide Valid;
    OffsetsCutPayloads(cs);
    var values, b := Payloads(cs), OffsetsOf(cs);
    T.NestedCharValidExactly(values, b);
    if HasInvalidRow(cs) {
      var c :| c in cs && !Valid(c.payload);
      var i :| 0 <= i < |cs| && cs[i] == c;
      RowIsPayload(cs, i);
    } else {
      forall i | 0 <= i < |b| - 1 ensures Valid(T.Row(values, b, i)) {
        RowIsPayload(cs, i);
        assert cs[i] in cs;
      }
    }
  }

  ghost function PayloadRows(cs: seq<Child>): (rows: seq<seq<Byte>>)
    ensures |rows| == |cs|
  {
    seq(|cs|, i requires 0 <= i < |cs| => cs[i].payload)
  }

  lemma RowsArePayloads(cs: seq<Child>)
    requires CharChildren(cs)
    ensures T.Offsets(OffsetsOf(cs), |Payloads(cs)|)
    ensures T.Rows(Payloads(cs), OffsetsOf(cs)) == PayloadRows(cs)
  {
    OffsetsCutPayloads(cs);
    var rows := T.Rows(Payloads(cs), OffsetsOf(cs));
    assert |rows| == |cs|;
    forall i | 0 <= i < |cs| ensures rows[i] == cs[i].payload {
      RowIsPayload(cs, i);
    }
  }

  // ---------- The fast path ----------

  /** A row starts beyond what a view can address, and every row up to it is valid. */
  ghost predicate ViewOverflow(cs: seq<Child>) {
    exists k :: 0 <= k < |cs| && AllValid(cs[..k + 1]) && |Payloads(cs[..k])| > U32_MAX
  }

  ghost predicate AllValid(cs: seq<Child>) {
    forall c :: c in cs ==> Valid(c.payload)
  }

  lemma OverflowGrows(cs: seq<Child>, more: seq<Child>)
    requires ViewOverflow(cs)
    ensures ViewOverflow(cs + more)
  {
    hide Valid, Payloads;
    var k :| 0 <= k < |cs| && AllValid(cs[..k + 1]) && |Payloads(cs[..k])| > U32_MAX;
    assert (cs + more)[..k + 1] == cs[..k + 1] && (cs + more)[..k] == cs[..k];
  }

  lemma RowOverflows(done: seq<Child>, c: Child)
    requires AllValid(done + [c]) && |Payloads(done)| > U32_MAX
    ensures ViewOverflow(done + [c])
  {
    hide Valid, Payloads;
    var cs, k := done + [c], |done|;
    assert cs[..k + 1] == cs && cs[..k] == done;
  }

  lemma NoOverflowAtRow(done: seq<Child>, c: Child)
    requires !ViewOverflow(done) && |Payloads(done)| <= U32_MAX
    ensures !ViewOverflow(done + [c])
  {
    hide Valid, Payloads;
    var cs := done + [c];
    forall k | 0 <= k < |cs| ensures !(AllValid(cs[..k + 1]) && |Payloads(cs[..k])| > U32_MAX) {
      if k < |done| {
        assert cs[..k + 1] == done[..k + 1] && cs[..k] == done[..k];
      } else {
        assert cs[..k] == done;
      }
    }
  }

  /** After an invalid row there is nothing left that could overflow first. */
  lemma NoOverflowAfterInvalid(done: seq<Child>, c: Child, rest: seq<Child>)
    requires !ViewOverflow(done) && !Valid(c.payload)
    ensures !ViewOverflow(done + [c] + rest)
  {
    hide Valid, Payloads;
    var cs := done + [c] + rest;
    forall k | 0 <= k < |cs| ensures !(AllValid(cs[..k + 1]) && |Payloads(cs[..k])| > U32_MAX) {
      if k < |done| {
        assert cs[..k + 1] == done[..k + 1] && cs[..k] == done[..k];
      } else {
        assert cs[..k + 1][|done|] == c && c in cs[..k + 1];
      }
    }
  }

  /** How the fast path ends on a list of these children. */
  ghost predicate FastOutcome(cs: seq<Child>, r: Result<Option<seq<seq<Byte>>>, NestedError>) {
    match r
    case Ok(None) => HasInvalidRow(cs) && !ViewOverflow(cs)
    case Ok(Some(views)) => !HasInvalidRow(cs) && !ViewOverflow(cs) && views == PayloadRows(cs)
    case Err(error) => error == ViewLimit && ViewOverflow(cs)
  }

  /**
   `decode_char_rows`: the rows, or `None` at the first row that is not valid UTF-8. On a well-formed
   list it fails only when a row starts beyond the view limit; the rows fill the payload exactly.
   */
  method DecodeCharRows(vec: seq<Byte>, start: nat, rows: nat)
    returns (r: Result<Option<seq<seq<Byte>>>, NestedError>, filled: nat)
    requires start <= |vec|
    ensures ChildrenEnd(vec, start, rows, Some(10)) == Ok(|vec|) ==> FastOutcome(Children(vec, start, rows, 10), r)
    ensures ChildrenEnd(vec, start, rows, Some(10)) != Ok(|vec|) ==> r.Err? || r.value.None?
    ensures r.Ok? && r.value.Some? ==> filled == |vec| - start - 6 * rows
  {
    hide ChildEnd, ListLength, Continues, Valid, ViewOverflow, Children, Payloads, HasInvalidRow, FastOutcome;
    var pos: nat := start;
    var views: seq<seq<Byte>> := [];
    filled := 0;
    ghost var done: seq<Child> := [];
    CharsStart(vec, start, rows);
    for i := 0 to rows
      invariant pos <= |vec| && |done| == i && filled == |Payloads(done)|
      invariant Continues(vec, start, rows, 10, done, pos)
      invariant AllValid(done) && !ViewOverflow(done) && views == PayloadRows(done)
    {
      var child := DecodeChild(vec, pos, 10, Strict, I32_MAX);
      if child.Err? {
        ChildFails(vec, start, rows, 10, done, pos);
        return Err(child.error), filled;
      }
      var (c, _, next) := child.value;
      ChildKeepsType(vec, pos, 10);
      ContinuesNext(vec, start, rows, 10, done, pos, c, next);
      if !Valid(c.payload) {
        GivesUp(vec, start, rows, done, c, next);
        return Ok(None), filled;
      }
      if filled > U32_MAX {
        Overflows(vec, start, rows, done, c, next);
        return Err(ViewLimit), filled;
      }
      NoOverflowAtRow(done, c);
      PayloadsAppend(done, c);
      views, filled := views + [c.payload], filled + |c.payload|;
      done, pos := done + [c], next;
    }
    RowsDone(vec, start, rows, 10, done, pos);
    if pos != |vec| {
      return Err(Structural), filled;
    }
    CharsDone(vec, start, rows, done, views);
    r := Ok(Some(views));
  }

  lemma CharsStart(vec: seq<Byte>, start: nat, rows: nat)
    requires start <= |vec|
    ensures Continues(vec, start, rows, 10, [], start)
    ensures Payloads([]) == [] && AllValid([]) && !ViewOverflow([]) && PayloadRows([]) == []
  {
    RowsStart(vec, start, rows, 10, NestedList(10, [0], [], []), Strict);
  }

  lemma GivesUp(vec: seq<Byte>, start: nat, rows: nat, done: seq<Child>, c: Child, next: nat)
    requires Continues(vec, start, rows, 10, done + [c], next) && !ViewOverflow(done) && !Valid(c.payload)
    ensures ChildrenEnd(vec, start, rows, Some(10)).Ok? ==> FastOutcome(Children(vec, start, rows, 10), Ok(None))
  {
    hide Valid, ViewOverflow, Children, Payloads;
    if ChildrenEnd(vec, start, rows, Some(10)).Ok? {
      var rest := Children(vec, next, rows - |done| - 1, 10);
      NoOverflowAfterInvalid(done, c, rest);
      assert c in done + [c] + rest;
    }
  }

  lemma Overflows(vec: seq<Byte>, start: nat, rows: nat, done: seq<Child>, c: Child, next: nat)
    requires Continues(vec, start, rows, 10, done + [c], next)
    requires AllValid(done) && Valid(c.payload) && |Payloads(done)| > U32_MAX
    ensures ChildrenEnd(vec, start, rows, Some(10)).Ok? ==> FastOutcome(Children(vec, start, rows, 10), Err(ViewLimit))
  {
    hide Valid, ViewOverflow, Children, Payloads;
    if ChildrenEnd(vec, start, rows, Some(10)).Ok? {
      RowOverflows(done, c);
      OverflowGrows(done + [c], Children(vec, next, rows - |done| - 1, 10));
    }
  }

  lemma CharsDone(vec: seq<Byte>, start: nat, rows: nat, done: seq<Child>, views: seq<seq<Byte>>)
    requires start <= |vec| && ChildrenEnd(vec, start, rows, Some(10)) == Ok(|vec|)
    requires Children(vec, start, rows, 10) == done
    requires AllValid(done) && !ViewOverflow(done) && views == PayloadRows(done)
    ensures FastOutcome(done, Ok(Some(views))) && |Payloads(done)| == |vec| - start - 6 * rows
  {
    hide Valid, ViewOverflow, Children;
    ChildrenFill(vec, start, rows, 10, []);
    assert [] + done == done;
  }

  // ---------- The general path ----------

  /** The length of all rows once transcoded. */
  function TranscodedLength(rows: seq<seq<Byte>>): nat {
    if rows == [] then 0
    else TranscodedLength(rows[..|rows| - 1]) + |DecodeText(rows[|rows| - 1], Lossily).value|
  }

  lemma {:induction false} TranscodedLengthGrows(rows: seq<seq<Byte>>, n: nat)
    requires n <= |rows|
    ensures TranscodedLength(rows[..n]) <= TranscodedLength(rows)
    decreases |rows|
  {
    if n < |rows| {
      var init := rows[..|rows| - 1];
      TranscodedLengthGrows(init, n);
      assert init[..n] == rows[..n];
    } else {
      assert rows[..n] == rows;
    }
  }

  ghost predicate TextsOf(rows: seq<seq<Byte>>, texts: seq<seq<Byte>>, encoding: Encoding) {
    && |texts| == |rows|
    && forall i :: 0 <= i < |rows| ==> DecodeText(rows[i], encoding) == Some(texts[i])
  }

  /**
   `transcode_nested_char_lossy`: each row transcoded on its own, unless the result outgrows the 32-bit
   offsets.
   */
  method TranscodeRows(values: seq<Byte>, b: seq<nat>) returns (r: Option<(seq<Byte>, seq<nat>)>)
    requires T.Offsets(b, |values|)
    ensures r.Some? <==> TranscodedLength(T.Rows(values, b)) <= I32_MAX
    ensures r.Some? ==>
      && T.Offsets(r.value.1, |r.value.0|)
      && TextsOf(T.Rows(values, b), T.Rows(r.value.0, r.value.1), Lossily)
  {
    hide DecodeText, T.Offsets, T.Rows, TextsOf, TranscodedLength;
    var transcoded: seq<Byte>, offsets: seq<nat> := [], [0];
    ghost var rows := T.Rows(values, b);
    TranscodeStart(rows);
    for i := 0 to |b| - 1
      invariant |offsets| == i + 1 && T.Offsets(offsets, |transcoded|)
      invariant |transcoded| == TranscodedLength(rows[..i]) <= I32_MAX
      invariant TextsOf(rows[..i], T.Rows(transcoded, offsets), Lossily)
    {
      RowOf(values, b, i);
      var row := T.Row(values, b, i);
      var text := DecodeText(row, Lossily).value;
      TranscodeNext(rows, i, transcoded, offsets, text);
      transcoded := transcoded + text;
      if |transcoded| > I32_MAX {
        TranscodedLengthGrows(rows, i + 1);
        return None;
      }
      offsets := offsets + [|transcoded|];
    }
    assert rows[..|rows|] == rows;
    r := Some((transcoded, offsets));
  }

  lemma RowOf(values: seq<Byte>, b: seq<nat>, i: nat)
    requires T.Offsets(b, |values|) && i < |b| - 1
    ensures b[i] <= b[i + 1] <= |values| && T.Rows(values, b)[i] == T.Row(values, b, i)
  {
  }

  lemma TranscodeStart(rows: seq<seq<Byte>>)
    ensures rows[..0] == [] && TranscodedLength([]) == 0
    ensures T.Offsets([0], 0) && TextsOf([], T.Rows([], [0]), Lossily)
  {
  }

  lemma TranscodeNext(rows: seq<seq<Byte>>, i: nat, transcoded: seq<Byte>, offsets: seq<nat>, text: seq<Byte>)
    requires i < |rows| && |offsets| == i + 1 && T.Offsets(offsets, |transcoded|)
    requires |transcoded| == TranscodedLength(rows[..i]) && DecodeText(rows[i], Lossily) == Some(text)
    requires TextsOf(rows[..i], T.Rows(transcoded, offsets), Lossily)
    ensures TranscodedLength(rows[..i + 1]) == |transcoded + text|
    ensures var b := offsets + [|transcoded + text|];
      && T.Offsets(b, |transcoded + text|)
      && TextsOf(rows[..i + 1], T.Rows(transcoded + text, b), Lossily)
  {
    hide DecodeText;
    assert rows[..i + 1][..i] == rows[..i] && rows[..i + 1][i] == rows[i];
    RowAppended(transcoded, offsets, text, 0);
    var b := offsets + [|transcoded| + |text|];
    forall j | 0 <= j <= i
      ensures T.Rows(transcoded + text, b)[j] == if j < i then T.Rows(transcoded, offsets)[j] else text
    {
      RowAppended(transcoded, offsets, text, j);
    }
  }

  /** The views over a payload: its rows. */
  method Views(values: seq<Byte>, b: seq<nat>) returns (views: seq<seq<Byte>>)
    requires T.Offsets(b, |values|)
    ensures views == T.Rows(values, b)
  {
    views := [];
    for i := 0 to |b| - 1
      invariant |views| == i && forall k :: 0 <= k < i ==> views[k] == T.Rows(values, b)[k]
    {
      views := views + [values[b[i]..b[i + 1]]];
    }
  }

  /**
   The end of the general path on a char list: rows that validate as a whole are kept, otherwise
   decoding fails or transcodes. Every row returned is the row's own text under the policy.
   */
  method FinishChars(
    values: seq<Byte>, b: seq<nat>, encoding: Encoding)
    returns (r: Result<seq<seq<Byte>>, NestedError>)
    requires T.Offsets(b, |values|)
    ensures r.Ok? ==> TextsOf(T.Rows(values, b), r.value, encoding)
    ensures r.Ok? ==>
      T.NestedCharValid(values, b) || (encoding.Lossily? && TranscodedLength(T.Rows(values, b)) <= I32_MAX)
    ensures r.Err? ==> !T.NestedCharValid(values, b)
    ensures r.Err? ==> r.error == if encoding.Strict? then BadText else TranscodeLimit
    ensures r.Err? && encoding.Lossily? ==> TranscodedLength(T.Rows(values, b)) > I32_MAX
  {
    T.NestedCharValidExactly(values, b);
    hide Valid, T.NestedCharValid, TranscodedLength;
    if T.NestedCharValid(values, b) {
      var views := Views(values, b);
      return Ok(views);
    }
    if encoding.Strict? {
      return Err(BadText);
    }
    var transcoded := TranscodeRows(values, b);
    if transcoded.None? {
      return Err(TranscodeLimit);
    }
    var views := Views(transcoded.value.0, transcoded.value.1);
    r := Ok(views);
  }

  /**
   The fast path gives up on a char list exactly when the general path's one-pass validation of the
   same list fails, so the fallback always has an error to report or text to transcode.
   */
  lemma FastPathAgreesWithGeneralPath(cs: seq<Child>, list: NestedList, encoding: Encoding)
    requires CharChildren(cs) && list.kType == 10 && Decodes(cs, list, encoding)
    ensures T.Offsets(list.offsets, |list.values|) && T.Rows(list.values, list.offsets) == PayloadRows(cs)
    ensures T.NestedCharValid(list.values, list.offsets) <==> !HasInvalidRow(cs)
  {
    hide T.NestedCharValid, HasInvalidRow;
    RowsArePayloads(cs);
    InvalidRowExactly(cs);
  }

  /** Why a well-formed char list is refused. */
  ghost predicate Refused(cs: seq<Child>, encoding: Encoding, error: NestedError) {
    match error
    case Structural => false
    case ViewLimit => ViewOverflow(cs)
    case TooManyChildren => !ViewOverflow(cs) && HasInvalidRow(cs) && Total(cs) > I32_MAX
    case BadText => !ViewOverflow(cs) && HasInvalidRow(cs) && Total(cs) <= I32_MAX && encoding.Strict?
    case TranscodeLimit =>
      && !ViewOverflow(cs) && HasInvalidRow(cs) && Total(cs) <= I32_MAX
      && encoding.Lossily? && TranscodedLength(PayloadRows(cs)) > I32_MAX
  }

  /**
   The char branch of `deserialize_nested_array`: the fast path first, and the general path only where
   it gives up. A well-formed list gives each row's text under the policy, or the error that names the
   one reason it is refused for.
   */
  method DecodeCharList(vec: seq<Byte>, rows: nat, payloadCapacity: nat, encoding: Encoding)
    returns (r: Result<seq<seq<Byte>>, NestedError>, filled: nat)
    requires 5 <= |vec| && payloadCapacity == |vec| - 5 - 6 * rows
    ensures r.Ok? ==> filled == payloadCapacity
    ensures r.Ok? ==>
      && ChildrenEnd(vec, 5, rows, Some(10)) == Ok(|vec|)
      && TextsOf(PayloadRows(Children(vec, 5, rows, 10)), r.value, encoding)
      && forall error :: !Refused(Children(vec, 5, rows, 10), encoding, error)
    ensures r.Err? && ChildrenEnd(vec, 5, rows, Some(10)) == Ok(|vec|) ==>
      Refused(Children(vec, 5, rows, 10), encoding, r.error)
  {
    hide ChildEnd, Children, Decodes, HasInvalidRow, ViewOverflow, TranscodedLength, T.NestedCharValid, DecodeText;
    var fast;
    fast, filled := DecodeCharRows(vec, 5, rows);
    if fast.Err? {
      return Err(fast.error), filled;
    }
    if fast.value.Some? {
      FastTexts(Children(vec, 5, rows, 10), fast.value.value, encoding);
      return Ok(fast.value.value), filled;
    }
    var decoded := DecodeRows(vec, 5, rows, 10, encoding);
    if decoded.Err? {
      return Err(decoded.error), 0;
    }
    var (list, end) := decoded.value;
    filled := |list.values|;
    if end != |vec| {
      return Err(Structural), filled;
    }
    ghost var cs := Children(vec, 5, rows, 10);
    ChildrenAreChars(vec, 5, rows);
    FastPathAgreesWithGeneralPath(cs, list, encoding);
    assert !T.NestedCharValid(list.values, list.offsets);
    TotalFits(cs, list, encoding);
    FillsCapacity(vec, rows, 10, list, encoding);
    r := FinishChars(list.values, list.offsets, encoding);
  }

  lemma TotalFits(cs: seq<Child>, list: NestedList, encoding: Encoding)
    requires Decodes(cs, list, encoding)
    ensures Total(cs) <= I32_MAX
  {
  }

  lemma FastTexts(cs: seq<Child>, views: seq<seq<Byte>>, encoding: Encoding)
    requires !HasInvalidRow(cs) && views == PayloadRows(cs)
    ensures TextsOf(PayloadRows(cs), views, encoding)
  {
    hide Valid;
    forall i | 0 <= i < |cs| ensures DecodeText(views[i], encoding) == Some(views[i]) {
      assert cs[i] in cs;
    }
  }
}
