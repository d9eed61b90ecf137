/**
 The end of a q list inside a frame body, and the resumable scan that finds it while the body is
 still arriving.
 */
module ListScanner {
  import opened Bytes
  import opened KTypes

  // ---------- Where a list ends, read off the whole body ----------

  function SymbolsEnd(body: seq<Byte>, pos: nat, count: nat): (r: Result<nat, ListError>)
    requires pos <= |body|
    ensures r.Ok? ==> pos + count <= r.value <= |body|
    decreases count
  {
    if count == 0 then Ok(pos)
    else
      var nul := FindNul(body, pos);
      if nul.None? then Err(Unterminated) else SymbolsEnd(body, nul.value + 1, count - 1)
  }

  /** The element type a child fixes or must respect. */
  function ChildType(kType: Byte, expected: Option<Byte>): (r: Result<Byte, ListError>)
    ensures r.Ok? && (expected.Some? ==> NestableType(expected.value)) ==>
      NestableType(r.value) && (kType == 0 || kType == r.value)
  {
    match expected
    case None => if NestableType(kType) then Ok(kType) else Err(UnsupportedNested(kType))
    case Some(child) => if kType != child && kType != 0 then Err(MixedNested(child, kType)) else Ok(child)
  }

  /** The end of one child of a nested list, starting at its type byte, and the element type from then on. */
  function ChildEnd(body: seq<Byte>, pos: nat, expected: Option<Byte>): (r: Result<(nat, Byte), ListError>)
    requires pos <= |body|
    ensures r.Ok? ==> pos + 6 <= r.value.0 <= |body|
  {
    if pos + 6 > |body| then Err(HeaderOverrun)
    else
      var child := ChildType(body[pos], expected);
      if child.Err? then Err(child.error)
      else
        var count := ListLength(body, pos + 1);
        if count.Err? then Err(count.error)
        else if body[pos] == 0 then
          if count.value != 0 then Err(MixedNested(child.value, 0)) else Ok((pos + 6, child.value))
        else if body[pos] == 11 then
          var end := SymbolsEnd(body, pos + 6, count.value);
          if end.Err? then Err(end.error) else Ok((end.value, child.value))
        else
          var end := pos + 6 + count.value * Width(body[pos]);
          if end > |body| then Err(PayloadOverrun) else Ok((end, child.value))
  }

  function ChildrenEnd(body: seq<Byte>, pos: nat, rows: nat, expected: Option<Byte>): (r: Result<nat, ListError>)
    requires pos <= |body|
    ensures r.Ok? ==> pos + 6 * rows <= r.value <= |body|
    decreases rows
  {
    if rows == 0 then Ok(pos)
    else
      var child := ChildEnd(body, pos, expected);
      if child.Err? then Err(child.error)
      else ChildrenEnd(body, child.value.0, rows - 1, Some(child.value.1))
  }

  predicate ScannableType(kType: Byte) {
    kType == 0 || kType == 11 || Width(kType) > 0
  }

  /** The end of the list of type `kType` whose attribute byte is at `start`. */
  function ListEnd(body: seq<Byte>, start: nat, kType: Byte): (r: Result<nat, ListError>)
    ensures r.Ok? ==> start + 5 <= r.value <= |body|
  {
    if !ScannableType(kType) then Err(UnsupportedList(kType))
    else if start + 5 > |body| then Err(HeaderOverrun)
    else
      var count := ListLength(body, start);
      if count.Err? then Err(count.error)
      else if kType == 0 then ChildrenEnd(body, start + 5, count.value, None)
      else if kType == 11 then SymbolsEnd(body, start + 5, count.value)
      else
        var end := start + 5 + count.value * Width(kType);
        if end > |body| then Err(PayloadOverrun) else Ok(end)
  }

  // ---------- The resumable scan ----------

  datatype Outcome = Complete(end: nat) | Incomplete

  datatype Scan = Scan(kType: Byte, pos: nat, rowsLeft: Option<nat>, childType: Option<Byte>, childSymbolsLeft: nat)

  function Start(kType: Byte, start: nat): (r: Result<Scan, ListError>)
    ensures r.Ok? <==> ScannableType(kType)
  {
    if ScannableType(kType) then Ok(Scan(kType, start, None, None, 0)) else Err(UnsupportedList(kType))
  }

  /** What the rest of the scan will find once the whole body has arrived. */
  function Remaining(s: Scan, body: seq<Byte>): (r: Result<nat, ListError>)
    requires Resumable(s, |body|, |body|)
    ensures r.Ok? ==> s.pos <= r.value <= |body|
  {
    if s.rowsLeft.None? then ListEnd(body, s.pos, s.kType)
    else if s.kType == 11 then SymbolsEnd(body, s.pos, s.rowsLeft.value)
    else if s.kType == 0 then
      if s.childSymbolsLeft > 0 then
        var end := SymbolsEnd(body, s.pos, s.childSymbolsLeft);
        if end.Err? then end else ChildrenEnd(body, end.value, s.rowsLeft.value - 1, s.childType)
      else ChildrenEnd(body, s.pos, s.rowsLeft.value, s.childType)
    else Ok(s.pos)
  }

  /** A scan that has looked at no more than the first `seen` of `total` bytes. */
  ghost predicate Resumable(s: Scan, seen: nat, total: nat) {
    && ScannableType(s.kType)
    && (s.rowsLeft.None? ==> s.childSymbolsLeft == 0 && s.childType.None?)
    && (s.rowsLeft.Some? ==> s.pos <= total)
    && (s.rowsLeft.Some? && s.kType == 11 ==> s.pos <= seen)
    && (s.childSymbolsLeft > 0 ==>
          s.kType == 0 && s.rowsLeft.Some? && s.rowsLeft.value > 0 && s.pos <= seen && s.childType == Some(11))
    && (s.childType.Some? ==> NestableType(s.childType.value))
  }

  /** One call of the scan on a prefix: its outcome and the state it leaves behind. */
  datatype Progress = Progress(outcome: Result<Outcome, ListError>, scan: Scan)

  datatype SymbolProgress = SymbolProgress(outcome: Result<Outcome, ListError>, pos: nat, left: nat)

  function ScanSymbols(received: seq<Byte>, total: nat, pos: nat, left: nat): (r: SymbolProgress)
    requires pos <= |received|
    ensures pos <= r.pos <= |received|
    decreases left
  {
    if left == 0 then SymbolProgress(Ok(Complete(pos)), pos, 0)
    else
      var nul := FindNul(received, pos);
      if nul.Some? then ScanSymbols(received, total, nul.value + 1, left - 1)
      else if |received| < total then SymbolProgress(Ok(Incomplete), pos, left)
      else SymbolProgress(Err(Unterminated), pos, left)
  }

  lemma {:induction false} ScanSymbolsResumes(received: seq<Byte>, body: seq<Byte>, pos: nat, left: nat)
    requires received <= body && pos <= |received|
    ensures var r := ScanSymbols(received, |body|, pos, left);
      match r.outcome
      case Err(error) => SymbolsEnd(body, pos, left) == Err(error)
      case Ok(Complete(end)) => SymbolsEnd(body, pos, left) == Ok(end) && end == r.pos && r.left == 0
      case Ok(Incomplete) =>
        |received| < |body| && r.left > 0 && SymbolsEnd(body, r.pos, r.left) == SymbolsEnd(body, pos, left)
    decreases left
  {
    hide FindNul;
    if left > 0 {
      var nul := FindNul(received, pos);
      if nul.Some? {
        FindNulInPrefix(received, body, pos);
        ScanSymbolsResumes(received, body, nul.value + 1, left - 1);
      } else if |received| == |body| {
        assert received == body;
      }
    }
  }

  /** The state after a child header has been read at `s.pos`, or the error it raises. */
  function EnterChild(s: Scan, received: seq<Byte>, total: nat): (r: Result<Scan, ListError>)
    requires Resumable(s, |received|, total) && |received| <= total
    requires s.kType == 0 && s.rowsLeft.Some? && s.rowsLeft.value > 0 && s.childSymbolsLeft == 0
    requires s.pos + 6 <= |received|
    ensures r.Ok? ==>
      Resumable(r.value, |received|, total) && r.value.kType == 0 && r.value.rowsLeft.Some? && s.pos <= r.value.pos
    ensures r.Ok? ==>
      r.value.rowsLeft == (if r.value.childSymbolsLeft > 0 then s.rowsLeft else Some(s.rowsLeft.value - 1))
  {
    var kType := received[s.pos];
    var child := ChildType(kType, s.childType);
    if child.Err? then Err(child.error)
    else
      var count := ListLength(received, s.pos + 1);
      if count.Err? then Err(count.error)
      else
        var next := s.(pos := s.pos + 6, childType := Some(child.value), rowsLeft := Some(s.rowsLeft.value - 1));
        if kType == 0 then (if count.value != 0 then Err(MixedNested(child.value, 0)) else Ok(next))
        else if kType == 11 then
          Ok(if count.value == 0 then next else next.(rowsLeft := s.rowsLeft, childSymbolsLeft := count.value))
        else
          var end := s.pos + 6 + count.value * Width(kType);
          if end > total then Err(PayloadOverrun) else Ok(next.(pos := end))
  }

  function AdvanceNested(s: Scan, received: seq<Byte>, total: nat): (r: Progress)
    requires Resumable(s, |received|, total) && |received| <= total
    requires s.kType == 0 && s.rowsLeft.Some?
    decreases s.rowsLeft.value, if s.childSymbolsLeft > 0 then 0 else 1
  {
    var rows := s.rowsLeft.value;
    if rows == 0 then
      Progress(Ok(if s.pos <= |received| then Complete(s.pos) else Incomplete), s)
    else if s.childSymbolsLeft > 0 then
      var symbols := ScanSymbols(received, total, s.pos, s.childSymbolsLeft);
      var next := s.(pos := symbols.pos, childSymbolsLeft := symbols.left);
      if symbols.outcome != Ok(Complete(symbols.pos)) || symbols.left > 0 then Progress(symbols.outcome, next)
      else AdvanceNested(next.(rowsLeft := Some(rows - 1)), received, total)
    else if s.pos + 6 > |received| then
      Progress(if s.pos + 6 > total then Err(HeaderOverrun) else Ok(Incomplete), s)
    else
      var next := EnterChild(s, received, total);
      if next.Err? then Progress(Err(next.error), s)
      else if next.value.pos > |received| then Progress(Ok(Incomplete), next.value)
      else AdvanceNested(next.value, received, total)
  }

  /** `ListScan::advance`, as a function of the state and the prefix received so far. */
  function Advance(s: Scan, received: seq<Byte>, total: nat): (r: Progress)
    requires Resumable(s, |received|, total) && |received| <= total
  {
    if s.rowsLeft.None? && s.pos + 5 > |received| then
      Progress(if s.pos + 5 > total then Err(HeaderOverrun) else Ok(Incomplete), s)
    else
      var entered := if s.rowsLeft.Some? then Ok(s) else EnterList(s, received, total);
      if entered.Err? then Progress(Err(entered.error), s)
      else
        var list := entered.value;
        if list.kType == 11 then
          var symbols := ScanSymbols(received, total, list.pos, list.rowsLeft.value);
          Progress(symbols.outcome, list.(pos := symbols.pos, rowsLeft := Some(symbols.left)))
        else if list.kType == 0 then AdvanceNested(list, received, total)
        else Progress(Ok(if list.pos <= |received| then Complete(list.pos) else Incomplete), list)
  }

  /** The state after the list header has been read at `s.pos`. */
  function EnterList(s: Scan, received: seq<Byte>, total: nat): (r: Result<Scan, ListError>)
    requires Resumable(s, |received|, total) && |received| <= total
    requires s.rowsLeft.None? && s.pos + 5 <= |received|
    ensures r.Ok? ==> Resumable(r.value, |received|, total) && r.value.rowsLeft.Some? && r.value.kType == s.kType
  {
    var count := ListLength(received, s.pos);
    if count.Err? then Err(count.error)
    else if s.kType == 0 || s.kType == 11 then Ok(s.(pos := s.pos + 5, rowsLeft := Some(count.value)))
    else
      var end := s.pos + 5 + count.value * Width(s.kType);
      if end > total then Err(PayloadOverrun) else Ok(s.(pos := end, rowsLeft := Some(0)))
  }

  // ---------- Resuming never changes the answer ----------

  /** What one call on a prefix of `body` tells about the scan of all of it. */
  ghost predicate Foretells(s: Scan, received: seq<Byte>, body: seq<Byte>, p: Progress)
    requires Resumable(s, |body|, |body|)
  {
    match p.outcome
    case Err(error) => Remaining(s, body) == Err(error)
    case Ok(Complete(end)) => Remaining(s, body) == Ok(end) && end <= |received|
    case Ok(Incomplete) =>
      && |received| < |body|
      && Resumable(p.scan, |received|, |body|) && s.pos <= p.scan.pos
      && Remaining(p.scan, body) == Remaining(s, body)
  }

  lemma EnterChildForetells(s: Scan, received: seq<Byte>, body: seq<Byte>)
    requires received <= body && Resumable(s, |received|, |body|)
    requires s.kType == 0 && s.rowsLeft.Some? && s.rowsLeft.value > 0 && s.childSymbolsLeft == 0
    requires s.pos + 6 <= |received|
    ensures var next := EnterChild(s, received, |body|);
      match next
      case Err(error) => Remaining(s, body) == Err(error)
      case Ok(scan) => Remaining(scan, body) == Remaining(s, body)
  {
    hide ListLength, FindNul, Width;
    ListLengthInPrefix(received, body, s.pos + 1);
  }

  lemma NoRoomForHeader(s: Scan, body: seq<Byte>)
    requires Resumable(s, |body|, |body|)
    requires s.kType == 0 && s.rowsLeft.Some? && s.rowsLeft.value > 0 && s.childSymbolsLeft == 0
    requires s.pos + 6 > |body|
    ensures Remaining(s, body) == Err(HeaderOverrun)
  {
  }

  /** Symbols of the current child, scanned as far as the prefix goes. */
  lemma ChildSymbolsForetell(s: Scan, received: seq<Byte>, body: seq<Byte>)
    requires received <= body && Resumable(s, |received|, |body|)
    requires s.kType == 0 && s.childSymbolsLeft > 0
    ensures var symbols := ScanSymbols(received, |body|, s.pos, s.childSymbolsLeft);
      var next := s.(pos := symbols.pos, childSymbolsLeft := symbols.left);
      match symbols.outcome
      case Err(error) => Remaining(s, body) == Err(error)
      case Ok(Incomplete) => Foretells(s, received, body, Progress(Ok(Incomplete), next)) && symbols.left > 0
      case Ok(Complete(end)) =>
        && end == symbols.pos && symbols.left == 0
        && Remaining(next.(rowsLeft := Some(s.rowsLeft.value - 1)), body) == Remaining(s, body)
  {
    hide ScanSymbols, SymbolsEnd, ChildrenEnd, FindNul, ScannableType, NestableType;
    ScanSymbolsResumes(received, body, s.pos, s.childSymbolsLeft);
    var symbols := ScanSymbols(received, |body|, s.pos, s.childSymbolsLeft);
    var next := s.(pos := symbols.pos, childSymbolsLeft := symbols.left);
    match symbols.outcome
    case Err(error) =>
    case Ok(Incomplete) =>
      assert Resumable(next, |received|, |body|);
      assert Remaining(next, body) == Remaining(s, body);
    case Ok(Complete(end)) =>
      var done := next.(rowsLeft := Some(s.rowsLeft.value - 1));
      assert Remaining(done, body) == ChildrenEnd(body, end, s.rowsLeft.value - 1, s.childType);
  }

  lemma {:induction false} AdvanceNestedForetells(s: Scan, received: seq<Byte>, body: seq<Byte>)
    requires received <= body && Resumable(s, |received|, |body|)
    requires s.kType == 0 && s.rowsLeft.Some?
    ensures Foretells(s, received, body, AdvanceNested(s, received, |body|))
    decreases s.rowsLeft.value, if s.childSymbolsLeft > 0 then 0 else 1
  {
    hide EnterChild, ScanSymbols, SymbolsEnd, ChildEnd, FindNul;
    var rows := s.rowsLeft.value;
    if rows == 0 {
    } else if s.childSymbolsLeft > 0 {
      ChildSymbolsForetell(s, received, body);
      var symbols := ScanSymbols(received, |body|, s.pos, s.childSymbolsLeft);
      if symbols.outcome == Ok(Complete(symbols.pos)) && symbols.left == 0 {
        var next := s.(pos := symbols.pos, childSymbolsLeft := 0, rowsLeft := Some(rows - 1));
        AdvanceNestedForetells(next, received, body);
      }
    } else if s.pos + 6 > |received| {
      if s.pos + 6 > |body| {
        NoRoomForHeader(s, body);
      }
    } else {
      EnterChildForetells(s, received, body);
      var next := EnterChild(s, received, |body|);
      if next.Ok? && next.value.pos <= |received| {
        AdvanceNestedForetells(next.value, received, body);
      }
    }
  }

  /** Every call on every prefix foretells the scan of the whole body. */
  lemma AdvanceForetells(s: Scan, received: seq<Byte>, body: seq<Byte>)
    requires received <= body && Resumable(s, |received|, |body|)
    ensures Foretells(s, received, body, Advance(s, received, |body|))
  {
    if s.rowsLeft.None? && s.pos + 5 > |received| {
    } else {
      if s.rowsLeft.None? {
        ListLengthInPrefix(received, body, s.pos);
      }
      var entered := if s.rowsLeft.Some? then Ok(s) else EnterList(s, received, |body|);
      if entered.Ok? {
        var list := entered.value;
        assert Remaining(list, body) == Remaining(s, body);
        if list.kType == 11 {
          ScanSymbolsResumes(received, body, list.pos, list.rowsLeft.value);
        } else if list.kType == 0 {
          AdvanceNestedForetells(list, received, body);
        }
      }
    }
  }

  /** The scan of a body that is all there: `calculate_array_end_index`. */
  lemma OneShotIsListEnd(body: seq<Byte>, start: nat, kType: Byte)
    requires ScannableType(kType)
    ensures Advance(Start(kType, start).value, body, |body|).outcome ==
      match ListEnd(body, start, kType)
      case Ok(end) => Ok(Complete(end))
      case Err(error) => Err(error)
  {
    AdvanceForetells(Start(kType, start).value, body, body);
  }

  // ---------- Chains of prefixes ----------

  ghost predicate Growing(cuts: seq<nat>, limit: nat) {
    && (forall i :: 0 <= i < |cuts| ==> cuts[i] <= limit)
    && (forall i, j :: 0 <= i < j < |cuts| ==> cuts[i] <= cuts[j])
  }

  /** Calls the scan on one prefix after another until it leaves `Incomplete`. */
  ghost function Resume(s: Scan, body: seq<Byte>, cuts: seq<nat>): Result<Outcome, ListError>
    requires Growing(cuts, |body|)
    requires Resumable(s, if cuts == [] then |body| else cuts[0], |body|)
    decreases |cuts|
  {
    if cuts == [] then Ok(Incomplete)
    else
      var p := Advance(s, body[..cuts[0]], |body|);
      AdvanceForetells(s, body[..cuts[0]], body);
      if p.outcome != Ok(Incomplete) then p.outcome
      else
        assert forall i :: 0 <= i < |cuts[1..]| ==> cuts[1..][i] == cuts[i + 1];
        Resume(p.scan, body, cuts[1..])
  }

  lemma {:induction false} ResumeForetells(s: Scan, body: seq<Byte>, cuts: seq<nat>)
    requires Growing(cuts, |body|)
    requires Resumable(s, if cuts == [] then |body| else cuts[0], |body|)
    ensures match Resume(s, body, cuts)
      case Err(error) => Remaining(s, body) == Err(error)
      case Ok(Complete(end)) => Remaining(s, body) == Ok(end) && cuts != [] && end <= cuts[|cuts| - 1]
      case Ok(Incomplete) => cuts == [] || cuts[|cuts| - 1] < |body|
    decreases |cuts|
  {
    if cuts != [] {
      var p := Advance(s, body[..cuts[0]], |body|);
      AdvanceForetells(s, body[..cuts[0]], body);
      if p.outcome == Ok(Incomplete) {
        var rest := cuts[1..];
        assert forall i :: 0 <= i < |rest| ==> rest[i] == cuts[i + 1];
        ResumeForetells(p.scan, body, rest);
        if rest != [] { assert rest[|rest| - 1] == cuts[|cuts| - 1]; }
      }
    }
  }

  /**
   For every body and every growing chain of prefixes: whatever the resumed scan reports is what
   the one-shot scan of the whole body reports, never an end beyond the prefix it has seen, and it
   cannot stay `Incomplete` once the last prefix is the whole body.
   */
  lemma ResumedScanAgrees(body: seq<Byte>, start: nat, kType: Byte, cuts: seq<nat>)
    requires ScannableType(kType) && Growing(cuts, |body|)
    ensures var s := Start(kType, start).value;
      && var resumed := Resume(s, body, cuts);
      && (resumed != Ok(Incomplete) ==> resumed == Advance(s, body, |body|).outcome)
      && (resumed.Ok? && resumed.value.Complete? ==> cuts != [] && resumed.value.end <= cuts[|cuts| - 1])
      && (cuts != [] && cuts[|cuts| - 1] == |body| ==> resumed != Ok(Incomplete))
  {
    hide Advance, Resume, ListEnd;
    ResumeForetells(Start(kType, start).value, body, cuts);
    OneShotIsListEnd(body, start, kType);
  }
}
