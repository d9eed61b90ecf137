/**
 The pipelined table receiver as a step system: a reader that writes and then publishes chunks of
 the frame, a scanner that walks the table as far as the published prefix allows, and one decode task
 per finished column, interleaved in every possible way.
 */
module Pipeline {
  import opened Bytes
  import opened KTypes
  import opened ListScanner

  const TABLE_PREAMBLE := 4
  const COLUMN_LIST_HEADER := 6

  /** Value decoding, which the structure of the table does not depend on. */
  datatype Decoders<!Name, !Column> = Decoders(
    names: seq<Byte> -> Option<seq<Name>>,
    column: (Byte, seq<Byte>) -> Option<Column>)

  /** A column of type `kType` occupying `body[start..end]`. */
  datatype Slice = Slice(kType: Byte, start: nat, end: nat)

  // ---------- The sequential decode of a whole body ----------

  /** The columns from `pos` on, and where the last one ends. */
  function Columns(body: seq<Byte>, pos: nat, count: nat): (r: Option<(seq<Slice>, nat)>)
    ensures r.Some? ==> |r.value.0| == count
    ensures r.Some? ==> forall s <- r.value.0 :: s.start <= s.end <= |body|
    decreases count
  {
    if count == 0 then Some(([], pos))
    else if pos >= |body| then None
    else
      var end := ListEnd(body, pos + 1, body[pos]);
      if end.Err? then None
      else
        var rest := Columns(body, end.value, count - 1);
        if rest.None? then None
        else Some(([Slice(body[pos], pos + 1, end.value)] + rest.value.0, rest.value.1))
  }

  datatype Plan<Name> = Plan(names: seq<Name>, slices: seq<Slice>)

  /** The plan that the rest of the table completes, given the names and the columns found so far. */
  function PlanFrom<Name>(body: seq<Byte>, names: seq<Name>, done: seq<Slice>, pos: nat): Option<Plan<Name>>
    requires |done| <= |names|
  {
    var rest := Columns(body, pos, |names| - |done|);
    if rest.None? || rest.value.1 != |body| then None else Some(Plan(names, done + rest.value.0))
  }

  function PlanAfterNames<Name, Column>(
    d: Decoders<Name, Column>, body: seq<Byte>, end: Result<nat, ListError>): Option<Plan<Name>>
    requires end.Ok? ==> TABLE_PREAMBLE <= end.value <= |body|
  {
    if end.Err? then None
    else
      var names := d.names(body[TABLE_PREAMBLE..end.value]);
      if names.None? then None else PlanFrom(body, names.value, [], end.value + COLUMN_LIST_HEADER)
  }

  /** The structure of a table body: its names and column slices, if it is well formed and exactly consumed. */
  function TablePlan<Name, Column>(d: Decoders<Name, Column>, body: seq<Byte>): Option<Plan<Name>> {
    PlanAfterNames(d, body, ListEnd(body, TABLE_PREAMBLE, 11))
  }

  function DecodeSlices<Name, Column>(
    d: Decoders<Name, Column>, body: seq<Byte>, slices: seq<Slice>): (r: seq<Option<Column>>)
    requires forall s <- slices :: s.start <= s.end <= |body|
    ensures |r| == |slices|
    ensures forall i :: 0 <= i < |r| ==> r[i] == d.column(slices[i].kType, body[slices[i].start..slices[i].end])
  {
    seq(|slices|, i requires 0 <= i < |slices| =>
      assert slices[i] in slices;
      d.column(slices[i].kType, body[slices[i].start..slices[i].end]))
  }

  datatype Table<Name, Column> = Table(names: seq<Name>, columns: seq<Column>)

  /** A table out of its decoded columns, if every one of them decoded. */
  function Assemble<Name, Column>(names: seq<Name>, columns: seq<Option<Column>>): Option<Table<Name, Column>> {
    if exists i :: 0 <= i < |columns| && columns[i].None? then None
    else Some(Table(names, seq(|columns|, i requires 0 <= i < |columns| => columns[i].value)))
  }

  lemma PlanInBounds<Name, Column>(d: Decoders<Name, Column>, body: seq<Byte>)
    ensures TablePlan(d, body).Some? ==> forall s <- TablePlan(d, body).value.slices :: s.start <= s.end <= |body|
  {
  }

  /** The table branch of the sequential decoder, applied to a complete body. */
  function SequentialTable<Name, Column>(d: Decoders<Name, Column>, body: seq<Byte>): Option<Table<Name, Column>> {
    PlanInBounds(d, body);
    var plan := TablePlan(d, body);
    if plan.None? then None else Assemble(plan.value.names, DecodeSlices(d, body, plan.value.slices))
  }

  // ---------- The concurrent receiver ----------

  datatype Reader = Idle | Wrote(count: nat) | Stopped

  /** What the scanner does with the prefix it is waiting for. */
  datatype Goal =
    | ScanNames(scan: Scan)
    | ScanColumn(kType: Byte, start: nat, scan: Scan)
    | TakeNames(end: nat)
    | TakeType(pos: nat)
    | Spawn(slice: Slice)
    | Trailer(pos: nat)

  /** `Advancing` is about to scan the first `count` bytes; `Waiting` is blocked until `needed` have arrived. */
  datatype Scanner = Advancing(goal: Goal, count: nat) | Waiting(goal: Goal, needed: nat) | Finished | Errored

  datatype Task<Column> = Pending | Decoded(column: Option<Column>)

  datatype State<Name, Column> = State(
    buffer: seq<Byte>, received: nat, failed: bool, reader: Reader,
    scanner: Scanner, names: seq<Name>, slices: seq<Slice>, tasks: seq<Task<Column>>)

  ghost predicate Init<Name, Column>(body: seq<Byte>, s: State<Name, Column>) {
    && |s.buffer| == |body| && s.received <= |body| && s.buffer[..s.received] == body[..s.received]
    && !s.failed && s.reader == Idle
    && s.scanner == Waiting(ScanNames(Scan(11, TABLE_PREAMBLE, None, None, 0)), 0)
    && s.names == [] && s.slices == [] && s.tasks == []
  }

  /** A read fills some bytes past the published length; anything further on may be scribbled over. */
  ghost predicate ReadChunk<Name, Column>(body: seq<Byte>, s: State<Name, Column>, s': State<Name, Column>) {
    && s.reader == Idle && s.received < |body| == |s.buffer|
    && s'.reader.Wrote? && 0 < s'.reader.count <= |body| - s.received
    && |s'.buffer| == |s.buffer|
    && s'.buffer[..s.received] == s.buffer[..s.received]
    && s'.buffer[s.received..s.received + s'.reader.count] == body[s.received..s.received + s'.reader.count]
    && s' == s.(buffer := s'.buffer, reader := s'.reader)
  }

  ghost predicate Publish<Name, Column>(s: State<Name, Column>, s': State<Name, Column>) {
    s.reader.Wrote? && s' == s.(received := s.received + s.reader.count, reader := Idle)
  }

  ghost predicate ReadFail<Name, Column>(body: seq<Byte>, s: State<Name, Column>, s': State<Name, Column>) {
    s.reader == Idle && s.received < |body| && s' == s.(failed := true, reader := Stopped)
  }

  /** States the scanner and decode tasks can step from: every scan is resumable and every slice in bounds. */
  ghost predicate Typed<Name, Column>(body: seq<Byte>, s: State<Name, Column>) {
    && |s.buffer| == |body| && s.received <= |body|
    && |s.slices| == |s.tasks|
    && (forall slice <- s.slices :: slice.start <= slice.end <= |body|)
    && match s.scanner
       case Advancing(goal, count) =>
         && count <= s.received && (goal.ScanNames? || goal.ScanColumn?)
         && TypedGoal(|body|, goal, count)
       case Waiting(goal, needed) => TypedGoal(|body|, goal, needed)
       case _ => true
  }

  ghost predicate TypedGoal(total: nat, goal: Goal, seen: nat) {
    match goal
    case ScanNames(scan) => seen <= total && Resumable(scan, seen, total) && scan.pos >= TABLE_PREAMBLE
    case ScanColumn(kType, start, scan) => seen <= total && Resumable(scan, seen, total) && start <= scan.pos
    case TakeNames(end) => TABLE_PREAMBLE <= end == seen <= total
    case TakeType(pos) => seen == pos + 1
    case Spawn(slice) => slice.start <= slice.end == seen <= total
    case Trailer(pos) => seen == total
  }

  ghost predicate ScannerEnabled<Name, Column>(total: nat, s: State<Name, Column>) {
    s.scanner.Advancing?
      || (s.scanner.Waiting? && (s.scanner.needed > total || s.failed || s.scanner.needed <= s.received))
  }

  function NextColumn(total: nat, names: nat, index: nat, pos: nat): Scanner {
    if index < names then Waiting(TakeType(pos), pos + 1) else Waiting(Trailer(pos), total)
  }

  /** What the scanner does with the outcome of one call of the scan. */
  function AfterScan(goal: Goal, count: nat, progress: Progress): Scanner
    requires goal.ScanNames? || goal.ScanColumn?
  {
    match progress.outcome
    case Err(_) => Errored
    case Ok(Incomplete) => Waiting(goal.(scan := progress.scan), count + 1)
    case Ok(Complete(end)) =>
      if goal.ScanNames? then Waiting(TakeNames(end), end)
      else Waiting(Spawn(Slice(goal.kType, goal.start, end)), end)
  }

  /** One step of the scanner: a call of the scan, or what it does once a wait is over. */
  ghost function ScannerStep<Name, Column>(
    d: Decoders<Name, Column>, body: seq<Byte>, s: State<Name, Column>): State<Name, Column>
    requires Typed(body, s) && ScannerEnabled(|body|, s)
  {
    var total := |s.buffer|;
    match s.scanner
    case Advancing(goal, count) => s.(scanner := AfterScan(goal, count, Advance(goal.scan, s.buffer[..count], total)))
    case Waiting(goal, needed) =>
      if needed > total || s.failed then s.(scanner := Errored)
      else (
        match goal
        case ScanNames(_) => s.(scanner := Advancing(goal, s.received))
        case ScanColumn(_, _, _) => s.(scanner := Advancing(goal, s.received))
        case TakeNames(end) =>
          var names := d.names(s.buffer[TABLE_PREAMBLE..end]);
          if names.None? then s.(scanner := Errored)
          else s.(names := names.value, scanner := NextColumn(total, |names.value|, 0, end + COLUMN_LIST_HEADER))
        case TakeType(pos) =>
          var kType := s.buffer[pos];
          var scan := Start(kType, pos + 1);
          if scan.Err? then s.(scanner := Errored)
          else s.(scanner := Waiting(ScanColumn(kType, pos + 1, scan.value), 0))
        case Spawn(slice) =>
          s.(slices := s.slices + [slice], tasks := s.tasks + [Pending],
             scanner := NextColumn(total, |s.names|, |s.slices| + 1, slice.end))
        case Trailer(pos) => s.(scanner := if pos == total then Finished else Errored))
    case _ => s
  }

  ghost function DecodeStep<Name, Column>(
    d: Decoders<Name, Column>, body: seq<Byte>, s: State<Name, Column>, i: nat): State<Name, Column>
    requires Typed(body, s) && i < |s.tasks|
  {
    var slice := s.slices[i];
    s.(tasks := s.tasks[i := Decoded(d.column(slice.kType, s.buffer[slice.start..slice.end]))])
  }

  ghost predicate Next<Name(!new), Column(!new)>(
    d: Decoders<Name, Column>, body: seq<Byte>, s: State<Name, Column>, s': State<Name, Column>)
  {
    && Typed(body, s)
    && (|| ReadChunk(body, s, s')
        || Publish(s, s')
        || ReadFail(body, s, s')
        || (ScannerEnabled(|body|, s) && s' == ScannerStep(d, body, s))
        || (exists i :: 0 <= i < |s.tasks| && s.tasks[i].Pending? && s' == DecodeStep(d, body, s, i)))
  }

  // ---------- The invariant ----------

  /** What the scanner will have found once the whole body is in place. */
  ghost function Future<Name, Column>(
    d: Decoders<Name, Column>, body: seq<Byte>, s: State<Name, Column>): Option<Plan<Name>>
    requires Typed(body, s) && (s.scanner.Advancing? || s.scanner.Waiting?)
    requires Counted(s)
  {
    match s.scanner.goal
    case ScanNames(scan) => PlanAfterNames(d, body, Remaining(scan, body))
    case ScanColumn(kType, start, scan) =>
      var end := Remaining(scan, body);
      if end.Err? then None else PlanFrom(body, s.names, s.slices + [Slice(kType, start, end.value)], end.value)
    case TakeNames(end) => PlanAfterNames(d, body, Ok(end))
    case TakeType(pos) => PlanFrom(body, s.names, s.slices, pos)
    case Spawn(slice) => PlanFrom(body, s.names, s.slices + [slice], slice.end)
    case Trailer(pos) => PlanFrom(body, s.names, s.slices, pos)
  }

  /** How many columns have been found, by phase. */
  ghost predicate Counted<Name, Column>(s: State<Name, Column>) {
    (s.scanner.Advancing? || s.scanner.Waiting?) ==>
      match s.scanner.goal
      case ScanNames(_) => s.slices == []
      case TakeNames(_) => s.slices == []
      case Trailer(_) => |s.slices| == |s.names|
      case _ => |s.slices| < |s.names|
  }

  ghost predicate ReaderInv<Name, Column>(body: seq<Byte>, s: State<Name, Column>) {
    && |s.buffer| == |body| && s.received <= |body|
    && s.buffer[..s.received] == body[..s.received]
    && (s.failed <==> s.reader == Stopped)
    && (s.reader.Wrote? ==>
          && 0 < s.reader.count <= |body| - s.received
          && s.buffer[s.received..s.received + s.reader.count] == body[s.received..s.received + s.reader.count])
  }

  ghost predicate TasksInv<Name, Column>(d: Decoders<Name, Column>, body: seq<Byte>, s: State<Name, Column>) {
    && |s.tasks| == |s.slices|
    && forall i :: 0 <= i < |s.slices| ==>
        var slice := s.slices[i];
        && slice.start <= slice.end <= s.received <= |body|
        && (s.tasks[i].Decoded? ==> s.tasks[i].column == d.column(slice.kType, body[slice.start..slice.end]))
  }

  ghost predicate ScannerInv<Name, Column>(d: Decoders<Name, Column>, body: seq<Byte>, s: State<Name, Column>)
    requires Typed(body, s)
  {
    && Counted(s)
    && match s.scanner
       case Finished => TablePlan(d, body) == Some(Plan(s.names, s.slices))
       case Errored => s.failed || TablePlan(d, body).None?
       case _ => Future(d, body, s) == TablePlan(d, body)
  }

  ghost predicate Inv<Name, Column>(d: Decoders<Name, Column>, body: seq<Byte>, s: State<Name, Column>) {
    ReaderInv(body, s) && TasksInv(d, body, s) && Typed(body, s) && ScannerInv(d, body, s)
  }

  lemma InitInv<Name, Column>(d: Decoders<Name, Column>, body: seq<Byte>, s: State<Name, Column>)
    requires Init(body, s)
    ensures Inv(d, body, s)
  {
  }

  /** Reading and publishing change no byte below the published length and keep the invariant. */
  lemma ReaderKeepsInv<Name, Column>(
    d: Decoders<Name, Column>, body: seq<Byte>, s: State<Name, Column>, s': State<Name, Column>)
    requires Inv(d, body, s)
    requires ReadChunk(body, s, s') || Publish(s, s') || ReadFail(body, s, s')
    ensures Inv(d, body, s')
    ensures s.received <= s'.received && s'.buffer[..s.received] == s.buffer[..s.received]
  {
    hide Future, TablePlan, Resumable, TypedGoal;
    if Publish(s, s') {
      assert s'.buffer[..s'.received] == s.buffer[..s.received] + s.buffer[s.received..s'.received];
      assert body[..s'.received] == body[..s.received] + body[s.received..s'.received];
    }
    assert Typed(body, s');
    SameFuture(d, body, s, s');
  }

  lemma SameFuture<Name, Column>(
    d: Decoders<Name, Column>, body: seq<Byte>, s: State<Name, Column>, s': State<Name, Column>)
    requires Typed(body, s) && Typed(body, s') && Counted(s)
    requires s'.scanner == s.scanner && s'.slices == s.slices && s'.names == s.names
    ensures Counted(s') && (s.scanner.Advancing? || s.scanner.Waiting? ==> Future(d, body, s') == Future(d, body, s))
  {
    hide PlanFrom, PlanAfterNames, Remaining, Resumable;
  }

  /** Sequences that agree on a prefix agree on every slice of it. */
  lemma SlicesAgree(a: seq<Byte>, b: seq<Byte>, n: nat, i: nat, j: nat)
    requires n <= |a| && n <= |b| && a[..n] == b[..n] && i <= j <= n
    ensures a[i..j] == b[i..j]
  {
    assert a[i..j] == a[..n][i..j];
    assert b[i..j] == b[..n][i..j];
  }

  lemma DecodeKeepsInv<Name, Column>(d: Decoders<Name, Column>, body: seq<Byte>, s: State<Name, Column>, i: nat)
    requires Inv(d, body, s) && i < |s.tasks| && s.tasks[i].Pending?
    ensures Inv(d, body, DecodeStep(d, body, s, i))
  {
    SlicesAgree(s.buffer, body, s.received, s.slices[i].start, s.slices[i].end);
  }

  lemma PlanOfError<Name, Column>(d: Decoders<Name, Column>, body: seq<Byte>)
    ensures forall error :: PlanAfterNames(d, body, Err(error)).None?
  {
  }

  lemma ResumableLater(scan: Scan, seen: nat, later: nat, total: nat)
    requires Resumable(scan, seen, total) && seen <= later <= total
    ensures Resumable(scan, later, total) && Resumable(scan, total, total)
  {
  }

  /** A scan of the published prefix foretells the scan of the whole body. */
  lemma AdvancingKeepsInv<Name, Column>(d: Decoders<Name, Column>, body: seq<Byte>, s: State<Name, Column>)
    requires Inv(d, body, s) && s.scanner.Advancing?
    ensures Inv(d, body, ScannerStep(d, body, s))
  {
    var goal, count := s.scanner.goal, s.scanner.count;
    SlicesAgree(s.buffer, body, s.received, 0, count);
    AdvanceForetells(goal.scan, body[..count], body);
    hide Advance;
    AfterScanKeepsInv(d, body, s, Advance(goal.scan, body[..count], |body|));
  }

  lemma AfterScanKeepsInv<Name, Column>(
    d: Decoders<Name, Column>, body: seq<Byte>, s: State<Name, Column>, progress: Progress)
    requires Inv(d, body, s) && s.scanner.Advancing?
    requires Foretells(s.scanner.goal.scan, body[..s.scanner.count], body, progress)
    ensures Inv(d, body, s.(scanner := AfterScan(s.scanner.goal, s.scanner.count, progress)))
  {
    hide Remaining, PlanFrom, PlanAfterNames, TablePlan;
    var goal, count := s.scanner.goal, s.scanner.count;
    var s' := s.(scanner := AfterScan(goal, count, progress));
    match progress.outcome
    case Err(_) =>
      assert Future(d, body, s).None? by { PlanOfError(d, body); }
    case Ok(Incomplete) =>
      ResumableLater(progress.scan, count, count + 1, |body|);
    case Ok(Complete(end)) =>
  }

  /** The type byte at `pos` starts the next column. */
  lemma ColumnsUnfold<Name>(body: seq<Byte>, names: seq<Name>, done: seq<Slice>, pos: nat)
    requires |done| < |names|
    ensures PlanFrom(body, names, done, pos) ==
      if pos >= |body| then None
      else
        var end := ListEnd(body, pos + 1, body[pos]);
        if end.Err? then None else PlanFrom(body, names, done + [Slice(body[pos], pos + 1, end.value)], end.value)
  {
    hide ListEnd;
    if pos < |body| {
      var end := ListEnd(body, pos + 1, body[pos]);
      if end.Ok? {
        var slice := Slice(body[pos], pos + 1, end.value);
        var rest := Columns(body, end.value, |names| - |done| - 1);
        if rest.Some? {
          assert done + ([slice] + rest.value.0) == (done + [slice]) + rest.value.0;
        }
      }
    }
  }

  lemma TakeNamesKeepsInv<Name, Column>(d: Decoders<Name, Column>, body: seq<Byte>, s: State<Name, Column>)
    requires Inv(d, body, s) && s.scanner.Waiting? && s.scanner.goal.TakeNames? && ScannerEnabled(|body|, s)
    ensures Inv(d, body, ScannerStep(d, body, s))
  {
    hide Columns;
    if !s.failed {
      SlicesAgree(s.buffer, body, s.received, TABLE_PREAMBLE, s.scanner.goal.end);
    }
  }

  lemma FreshScan(body: seq<Byte>, kType: Byte, start: nat, seen: nat)
    ensures match Start(kType, start)
      case Err(error) => ListEnd(body, start, kType) == Err(error)
      case Ok(scan) =>
        && scan.pos == start
        && Resumable(scan, seen, |body|) && Resumable(scan, |body|, |body|)
        && Remaining(scan, body) == ListEnd(body, start, kType)
  {
  }

  lemma TakeTypeKeepsInv<Name, Column>(d: Decoders<Name, Column>, body: seq<Byte>, s: State<Name, Column>)
    requires Inv(d, body, s) && s.scanner.Waiting? && s.scanner.goal.TakeType? && ScannerEnabled(|body|, s)
    ensures Inv(d, body, ScannerStep(d, body, s))
  {
    hide PlanFrom, PlanAfterNames, TablePlan, ListEnd, Start, Remaining, Resumable, TasksInv;
    var pos := s.scanner.goal.pos;
    ColumnsUnfold(body, s.names, s.slices, pos);
    if !s.failed && s.scanner.needed <= |body| {
      assert s.buffer[pos] == s.buffer[..s.received][pos] == body[..s.received][pos];
      FreshScan(body, body[pos], pos + 1, 0);
    }
    var s' := ScannerStep(d, body, s);
    OnlyScannerChanged(d, body, s, s');
    assert Typed(body, s');
  }

  lemma OnlyScannerChanged<Name, Column>(
    d: Decoders<Name, Column>, body: seq<Byte>, s: State<Name, Column>, s': State<Name, Column>)
    requires ReaderInv(body, s) && TasksInv(d, body, s)
    requires s' == s.(scanner := s'.scanner)
    ensures ReaderInv(body, s') && TasksInv(d, body, s')
  {
  }

  lemma SpawnKeepsInv<Name, Column>(d: Decoders<Name, Column>, body: seq<Byte>, s: State<Name, Column>)
    requires Inv(d, body, s) && s.scanner.Waiting? && s.scanner.goal.Spawn? && ScannerEnabled(|body|, s)
    ensures Inv(d, body, ScannerStep(d, body, s))
  {
    hide Columns, TablePlan;
    var s' := ScannerStep(d, body, s);
    if !s.failed {
      assert forall i :: 0 <= i < |s.slices| ==> s'.slices[i] == s.slices[i] && s'.tasks[i] == s.tasks[i];
    }
  }

  lemma TrailerKeepsInv<Name, Column>(d: Decoders<Name, Column>, body: seq<Byte>, s: State<Name, Column>)
    requires Inv(d, body, s) && s.scanner.Waiting? && s.scanner.goal.Trailer? && ScannerEnabled(|body|, s)
    ensures Inv(d, body, ScannerStep(d, body, s))
  {
    hide TablePlan;
    assert s.slices + [] == s.slices;
  }

  lemma ScannerKeepsInv<Name, Column>(d: Decoders<Name, Column>, body: seq<Byte>, s: State<Name, Column>)
    requires Inv(d, body, s) && ScannerEnabled(|body|, s)
    ensures Inv(d, body, ScannerStep(d, body, s))
  {
    hide Columns, TablePlan, PlanFrom, Remaining, Advance;
    if s.scanner.Advancing? {
      AdvancingKeepsInv(d, body, s);
    } else {
      match s.scanner.goal
      case ScanNames(_) =>
      case ScanColumn(_, _, _) =>
      case TakeNames(_) => TakeNamesKeepsInv(d, body, s);
      case TakeType(_) => TakeTypeKeepsInv(d, body, s);
      case Spawn(_) => SpawnKeepsInv(d, body, s);
      case Trailer(_) => TrailerKeepsInv(d, body, s);
    }
  }

  /** Every step of every participant keeps the invariant, and no published byte ever changes. */
  lemma NextKeepsInv<Name(!new), Column(!new)>(
    d: Decoders<Name, Column>, body: seq<Byte>, s: State<Name, Column>, s': State<Name, Column>)
    requires Inv(d, body, s) && Next(d, body, s, s')
    ensures Inv(d, body, s')
    ensures s.received <= s'.received && s'.buffer[..s.received] == s.buffer[..s.received]
  {
    hide Inv;
    if ReadChunk(body, s, s') || Publish(s, s') || ReadFail(body, s, s') {
      ReaderKeepsInv(d, body, s, s');
    } else if ScannerEnabled(|body|, s) && s' == ScannerStep(d, body, s) {
      ScannerKeepsInv(d, body, s);
    } else {
      var i :| 0 <= i < |s.tasks| && s.tasks[i].Pending? && s' == DecodeStep(d, body, s, i);
      DecodeKeepsInv(d, body, s, i);
    }
  }

  // ---------- Whole runs ----------

  ghost predicate IsRun<Name(!new), Column(!new)>(
    d: Decoders<Name, Column>, body: seq<Byte>, run: seq<State<Name, Column>>)
  {
    && run != []
    && Init(body, run[0])
    && forall i :: 0 <= i < |run| - 1 ==> Next(d, body, run[i], run[i + 1])
  }

  lemma {:induction false} RunKeepsInv<Name(!new), Column(!new)>(
    d: Decoders<Name, Column>, body: seq<Byte>, run: seq<State<Name, Column>>, i: nat)
    requires IsRun(d, body, run) && i < |run|
    ensures Inv(d, body, run[i])
  {
    hide Inv, Next, Init;
    if i == 0 {
      InitInv(d, body, run[0]);
    } else {
      RunKeepsInv(d, body, run, i - 1);
      assert Next(d, body, run[i - 1], run[i - 1 + 1]);
      NextKeepsInv(d, body, run[i - 1], run[i]);
    }
  }

  ghost predicate ReaderDone<Name, Column>(body: seq<Byte>, s: State<Name, Column>) {
    s.reader == Stopped || (s.reader == Idle && s.received == |body|)
  }

  /** Everything has ended: the reader, the scanner and every decode task. */
  ghost predicate Ended<Name, Column>(body: seq<Byte>, s: State<Name, Column>) {
    && ReaderDone(body, s)
    && (s.scanner.Finished? || s.scanner.Errored?)
    && forall i :: 0 <= i < |s.tasks| ==> s.tasks[i].Decoded?
  }

  /** A scanner waiting for bytes that can no longer arrive is always let go. */
  lemma ScannerNeverStranded<Name, Column>(d: Decoders<Name, Column>, body: seq<Byte>, s: State<Name, Column>)
    requires Inv(d, body, s) && ReaderDone(body, s)
    ensures s.scanner.Finished? || s.scanner.Errored? || ScannerEnabled(|body|, s)
  {
  }

  /** No state short of the end is stuck, even if the stream never fails. */
  lemma NoStateIsStuck<Name(!new), Column(!new)>(d: Decoders<Name, Column>, body: seq<Byte>, s: State<Name, Column>)
    requires Inv(d, body, s) && !Ended(body, s)
    ensures exists s' :: Next(d, body, s, s') && s'.failed == s.failed
  {
    if s.reader.Wrote? {
      var s' := s.(received := s.received + s.reader.count, reader := Idle);
      assert Publish(s, s') && Next(d, body, s, s');
    } else if !ReaderDone(body, s) {
      var s' := s.(buffer := s.buffer[s.received := body[s.received]], reader := Wrote(1));
      assert ReadChunk(body, s, s') && Next(d, body, s, s');
    } else if ScannerEnabled(|body|, s) {
      assert Next(d, body, s, ScannerStep(d, body, s));
    } else {
      ScannerNeverStranded(d, body, s);
      var i :| 0 <= i < |s.tasks| && !s.tasks[i].Decoded?;
      assert Next(d, body, s, DecodeStep(d, body, s, i));
    }
  }

  // A measure every step decreases, so that every run is finite.

  ghost function ReaderRank<Name, Column>(s: State<Name, Column>): int {
    match s.reader
    case Idle => 2 * (|s.buffer| - s.received) + 1
    case Wrote(_) => 2 * (|s.buffer| - s.received)
    case Stopped => 0
  }

  ghost function PhaseRank<Name, Column>(s: State<Name, Column>): nat {
    match s.scanner
    case Advancing(goal, _) => if goal.ScanNames? then 2 else 1
    case Waiting(goal, _) => if goal.ScanNames? || goal.TakeNames? then 2 else 1
    case _ => 0
  }

  ghost function GoalRank(total: nat, scanner: Scanner): int {
    match scanner
    case Advancing(_, count) => 2 * (total - count) + 3
    case Waiting(goal, needed) =>
      if goal.ScanNames? || goal.ScanColumn? then 2 * (total - needed) + 4
      else if goal.TakeType? then 2 * total + 5
      else 1
    case _ => 0
  }

  ghost function PendingTasks<Column>(tasks: seq<Task<Column>>): nat {
    if tasks == [] then 0 else (if tasks[0].Pending? then 1 else 0) + PendingTasks(tasks[1..])
  }

  lemma {:induction false} DecodingLessPending<Column>(tasks: seq<Task<Column>>, i: nat, column: Option<Column>)
    requires i < |tasks| && tasks[i].Pending?
    ensures PendingTasks(tasks[i := Decoded(column)]) == PendingTasks(tasks) - 1
  {
    if i > 0 {
      DecodingLessPending(tasks[1..], i - 1, column);
      assert tasks[i := Decoded(column)][1..] == tasks[1..][i - 1 := Decoded(column)];
    } else {
      assert tasks[0 := Decoded(column)][1..] == tasks[1..];
    }
  }

  lemma ScannerStepLowersRank<Name, Column>(d: Decoders<Name, Column>, body: seq<Byte>, s: State<Name, Column>)
    requires Inv(d, body, s) && ScannerEnabled(|body|, s)
    ensures var s' := ScannerStep(d, body, s);
      (PhaseRank(s), |s.names| - |s.slices|, GoalRank(|body|, s.scanner)
       decreases to
       PhaseRank(s'), |s'.names| - |s'.slices|, GoalRank(|body|, s'.scanner))
  {
    hide Future, TablePlan, ReaderInv, TasksInv, ScannerInv;
    if s.scanner.Advancing? {
      ReadAgreement(d, body, s);
      hide Inv;
      AdvancingLowersRank(d, body, s);
    } else {
      assert Counted(s) by { ScannerCounted(d, body, s); }
      hide Inv;
      WaitingLowersRank(d, body, s);
    }
  }

  lemma ScannerCounted<Name, Column>(d: Decoders<Name, Column>, body: seq<Byte>, s: State<Name, Column>)
    requires Inv(d, body, s)
    ensures Counted(s)
  {
    hide Future, TablePlan;
  }

  lemma ReadAgreement<Name, Column>(d: Decoders<Name, Column>, body: seq<Byte>, s: State<Name, Column>)
    requires Inv(d, body, s) && s.scanner.Advancing?
    ensures s.scanner.count <= |body| && s.buffer[..s.scanner.count] == body[..s.scanner.count]
  {
    hide Future, TablePlan;
    SlicesAgree(s.buffer, body, s.received, 0, s.scanner.count);
  }

  lemma AdvancingLowersRank<Name, Column>(d: Decoders<Name, Column>, body: seq<Byte>, s: State<Name, Column>)
    requires Typed(body, s) && s.scanner.Advancing?
    requires s.scanner.count <= |body| && s.buffer[..s.scanner.count] == body[..s.scanner.count]
    ensures var s' := ScannerStep(d, body, s);
      && s'.names == s.names && s'.slices == s.slices
      && (PhaseRank(s), GoalRank(|body|, s.scanner) decreases to PhaseRank(s'), GoalRank(|body|, s'.scanner))
  {
    var goal, count := s.scanner.goal, s.scanner.count;
    AdvanceForetells(goal.scan, body[..count], body);
    hide Advance, Resumable, Remaining;
  }

  lemma WaitingLowersRank<Name, Column>(d: Decoders<Name, Column>, body: seq<Byte>, s: State<Name, Column>)
    requires Typed(body, s) && Counted(s) && s.scanner.Waiting? && ScannerEnabled(|body|, s)
    ensures var s' := ScannerStep(d, body, s);
      (PhaseRank(s), |s.names| - |s.slices|, GoalRank(|body|, s.scanner)
       decreases to
       PhaseRank(s'), |s'.names| - |s'.slices|, GoalRank(|body|, s'.scanner))
  {
    hide Advance, Resumable, Start;
  }

  /** Every step lowers a well-founded measure: no schedule and no chunking runs for ever. */
  lemma EveryRunIsFinite<Name(!new), Column(!new)>(
    d: Decoders<Name, Column>, body: seq<Byte>, s: State<Name, Column>, s': State<Name, Column>)
    requires Inv(d, body, s) && Next(d, body, s, s')
    ensures (ReaderRank(s), PhaseRank(s), |s.names| - |s.slices|, GoalRank(|body|, s.scanner), PendingTasks(s.tasks)
      decreases to
      ReaderRank(s'), PhaseRank(s'), |s'.names| - |s'.slices|, GoalRank(|body|, s'.scanner), PendingTasks(s'.tasks))
  {
    if ReadChunk(body, s, s') || Publish(s, s') || ReadFail(body, s, s') {
    } else if ScannerEnabled(|body|, s) && s' == ScannerStep(d, body, s) {
      ScannerStepLowersRank(d, body, s);
    } else {
      var i :| 0 <= i < |s.tasks| && s.tasks[i].Pending? && s' == DecodeStep(d, body, s, i);
      DecodingLessPending(s.tasks, i, s'.tasks[i].column);
    }
  }

  /** What the receiver returns once everything has ended. */
  ghost function ReceivedTable<Name, Column>(body: seq<Byte>, s: State<Name, Column>): Option<Table<Name, Column>>
    requires Ended(body, s)
  {
    if s.scanner.Errored? then None
    else Assemble(s.names, seq(|s.tasks|, i requires 0 <= i < |s.tasks| => s.tasks[i].column))
  }

  /**
   Refinement: however reads are chunked and steps interleaved, a fully delivered frame ends with
   exactly the table, or exactly the failure, of the sequential decode of its body.
   */
  lemma PipelineRefinesSequential<Name(!new), Column(!new)>(
    d: Decoders<Name, Column>, body: seq<Byte>, run: seq<State<Name, Column>>)
    requires IsRun(d, body, run)
    requires var last := run[|run| - 1]; Ended(body, last) && !last.failed
    ensures ReceivedTable(body, run[|run| - 1]) == SequentialTable(d, body)
    ensures run[|run| - 1].scanner.Finished? ==>
      TablePlan(d, body) == Some(Plan(run[|run| - 1].names, run[|run| - 1].slices))
  {
    var s := run[|run| - 1];
    RunKeepsInv(d, body, run, |run| - 1);
    hide TablePlan;
    PlanInBounds(d, body);
    if s.scanner.Finished? {
      var columns := seq(|s.tasks|, i requires 0 <= i < |s.tasks| => s.tasks[i].column);
      assert columns == DecodeSlices(d, body, s.slices);
    }
  }
}
