/** The scanner object: the same scan as a struct whose fields are updated in place. */
module ListScan {
  import opened Bytes
  import opened KTypes
  import L = ListScanner

  /** Advances past `left` NUL-terminated symbols as far as `received` allows. */
  method ScanSymbols(received: seq<Byte>, total: nat, pos: nat, left: nat)
    returns (outcome: Result<L.Outcome, ListError>, pos': nat, left': nat)
    requires pos <= |received|
    ensures L.SymbolProgress(outcome, pos', left') == L.ScanSymbols(received, total, pos, left)
  {
    pos', left' := pos, left;
    while left' > 0
      invariant pos' <= |received|
      invariant L.ScanSymbols(received, total, pos', left') == L.ScanSymbols(received, total, pos, left)
    {
      var nul := FindNul(received, pos');
      match nul
      case Some(terminator) => pos', left' := terminator + 1, left' - 1;
      case None =>
        outcome := if |received| < total then Ok(L.Incomplete) else Err(Unterminated);
        return;
    }
    outcome := Ok(L.Complete(pos'));
  }

  class Scanner {
    var kType: Byte
    var pos: nat
    var rowsLeft: Option<nat>
    var childType: Option<Byte>
    var childSymbolsLeft: nat

    ghost function State(): L.Scan
      reads this
    {
      L.Scan(kType, pos, rowsLeft, childType, childSymbolsLeft)
    }

    constructor (kType: Byte, start: nat)
      requires L.ScannableType(kType)
      ensures L.Start(kType, start) == Ok(State())
    {
      this.kType, this.pos := kType, start;
      rowsLeft, childType, childSymbolsLeft := None, None, 0;
    }

    method Advance(received: seq<Byte>, total: nat) returns (outcome: Result<L.Outcome, ListError>)
      requires |received| <= total && L.Resumable(State(), |received|, total)
      modifies this
      ensures outcome == L.Advance(old(State()), received, total).outcome
      ensures outcome.Ok? ==> State() == L.Advance(old(State()), received, total).scan
    {
      if rowsLeft.None? {
        if pos + 5 > |received| {
          return if pos + 5 > total then Err(HeaderOverrun) else Ok(L.Incomplete);
        }
        var rows := ListLength(received, pos);
        if rows.Err? {
          return Err(rows.error);
        }
        pos := pos + 5;
        if kType == 0 || kType == 11 {
          rowsLeft := Some(rows.value);
        } else {
          pos := pos + rows.value * Width(kType);
          if pos > total {
            return Err(PayloadOverrun);
          }
          rowsLeft := Some(0);
        }
      }
      if kType == 11 {
        var left;
        outcome, pos, left := ScanSymbols(received, total, pos, rowsLeft.value);
        rowsLeft := Some(left);
      } else if kType == 0 {
        outcome := AdvanceNested(received, total);
      } else {
        outcome := Ok(if pos <= |received| then L.Complete(pos) else L.Incomplete);
      }
    }

    method AdvanceNested(received: seq<Byte>, total: nat) returns (outcome: Result<L.Outcome, ListError>)
      requires |received| <= total && L.Resumable(State(), |received|, total)
      requires kType == 0 && rowsLeft.Some?
      modifies this
      ensures outcome == L.AdvanceNested(old(State()), received, total).outcome
      ensures outcome.Ok? ==> State() == L.AdvanceNested(old(State()), received, total).scan
    {
      while rowsLeft.value > 0
        invariant L.Resumable(State(), |received|, total) && kType == 0 && rowsLeft.Some?
        invariant L.AdvanceNested(old(State()), received, total) == L.AdvanceNested(State(), received, total)
        decreases rowsLeft.value, if childSymbolsLeft > 0 then 0 else 1
      {
        if childSymbolsLeft > 0 {
          ghost var before := State();
          var symbols;
          symbols, pos, childSymbolsLeft := ScanSymbols(received, total, pos, childSymbolsLeft);
          SymbolsCompleteOrNot(received, total, before.pos, before.childSymbolsLeft);
          if symbols.Err? || symbols.value.Incomplete? {
            return symbols;
          }
          rowsLeft := Some(rowsLeft.value - 1);
        } else {
          if pos + 6 > |received| {
            return if pos + 6 > total then Err(HeaderOverrun) else Ok(L.Incomplete);
          }
          var error := EnterChild(received, total);
          if error.Some? {
            return Err(error.value);
          }
          if pos > |received| {
            return Ok(L.Incomplete);
          }
        }
      }
      outcome := Ok(if pos <= |received| then L.Complete(pos) else L.Incomplete);
    }

    /** Reads one child header and moves past a fixed-width payload. */
    method EnterChild(received: seq<Byte>, total: nat) returns (error: Option<ListError>)
      requires |received| <= total && L.Resumable(State(), |received|, total)
      requires kType == 0 && rowsLeft.Some? && rowsLeft.value > 0 && childSymbolsLeft == 0
      requires pos + 6 <= |received|
      modifies this
      ensures error.Some? ==> L.EnterChild(old(State()), received, total) == Err(error.value)
      ensures error.None? ==> L.EnterChild(old(State()), received, total) == Ok(State())
    {
      var current := received[pos];
      var child: Byte;
      if childType.Some? {
        child := childType.value;
      } else {
        if !NestableType(current) {
          return Some(UnsupportedNested(current));
        }
        childType := Some(current);
        child := current;
      }
      if current != child && current != 0 {
        return Some(MixedNested(child, current));
      }
      pos := pos + 1;
      var count := ListLength(received, pos);
      if count.Err? {
        return Some(count.error);
      }
      pos := pos + 5;
      if current == 0 {
        if count.value != 0 {
          return Some(MixedNested(child, current));
        }
        rowsLeft := Some(rowsLeft.value - 1);
      } else if current == 11 {
        if count.value == 0 {
          rowsLeft := Some(rowsLeft.value - 1);
        } else {
          childSymbolsLeft := count.value;
        }
      } else {
        var end := pos + count.value * Width(current);
        if end > total {
          return Some(PayloadOverrun);
        }
        pos := end;
        rowsLeft := Some(rowsLeft.value - 1);
      }
      error := None;
    }
  }

  lemma {:induction false} SymbolsCompleteOrNot(received: seq<Byte>, total: nat, pos: nat, left: nat)
    requires pos <= |received|
    ensures var r := L.ScanSymbols(received, total, pos, left);
      (r.outcome == Ok(L.Complete(r.pos)) && r.left == 0) || r.outcome == Ok(L.Incomplete) || r.outcome.Err?
    decreases left
  {
    if left > 0 {
      var nul := FindNul(received, pos);
      if nul.Some? {
        SymbolsCompleteOrNot(received, total, nul.value + 1, left - 1);
      }
    }
  }
}
