/** The recursive-descent parser as the object the source has: a cursor and a running maximum depth. */
module QValidator {
  import opened Bytes
  import opened KTypes
  import opened QTree
  import P = QParser
  import Proofs = QParserProofs

  datatype Shape =
    | AtomShape | SequenceShape(elementType: Option<Byte>) | DictionaryShape(keyedTable: bool)
    | TableShape | FunctionShape

  /** What the parser reports of a value, without keeping its tree. */
  datatype Parsed = Parsed(typeCode: int, len: nat, shape: Shape)

  function ShapeOf(t: Tree): Shape {
    match t
    case Atom(_, _) => AtomShape
    case Vector(kind, _, _, _) => SequenceShape(Some(kind))
    case Symbols(_, _, _) => SequenceShape(Some(11))
    case General(_, _) => SequenceShape(None)
    case Dict(_, keys, _) => DictionaryShape(keys.Table?)
    case Table(_, _, _, _) => TableShape
    case _ => FunctionShape
  }

  function Summary(t: Tree): Parsed {
    Parsed(TypeCode(t), Count(t), ShapeOf(t))
  }

  type Outcome = Result<Parsed, P.QError>

  /** Items already parsed, put in front of what is parsed next. */
  function Prepend(done: seq<Tree>, rest: P.ParseMany): P.ParseMany {
    match rest
    case Ok((items, e)) => Ok((done + items, e))
    case Err(error) => Err(error)
  }

  lemma PrependNothing(rest: P.ParseMany)
    ensures Prepend([], rest) == rest
  {
    if rest.Ok? { assert [] + rest.value.0 == rest.value.0; }
  }

  lemma PrependAll(done: seq<Tree>, e: nat)
    ensures Prepend(done, Ok(([], e))) == Ok((done, e))
  {
    assert done + [] == done;
  }

  lemma PrependErrs(done: seq<Tree>, rest: P.ParseMany)
    ensures rest.Err? ==> Prepend(done, rest) == rest
  {
  }

  /** The outcome, the cursor and the running depth are those of the specified parse. */
  ghost predicate Follows(parse: P.Parse, depth: nat, maxBefore: nat, r: Outcome, position: nat, maxDepth: nat) {
    match parse
    case Ok((t, e)) => r == Ok(Summary(t)) && position == e && maxDepth == Max(maxBefore, depth + Depth(t))
    case Err(error) => r == Err(error)
  }

  class Parser {
    const bytes: seq<Byte>
    var position: nat
    var maxDepth: nat

    constructor (bytes: seq<Byte>)
      ensures this.bytes == bytes && position == 0 && maxDepth == 0
    {
      this.bytes, position, maxDepth := bytes, 0, 0;
    }

    method ParseValue(depth: nat) returns (r: Outcome)
      requires position <= |bytes|
      modifies this
      ensures Follows(P.ParseValue(bytes, old(position), depth), depth, old(maxDepth), r, position, maxDepth)
      decreases |bytes| - position, 1
    {
      if depth > MAX_VALUE_DEPTH {
        return Err(P.Malformed);
      }
      maxDepth := Max(maxDepth, depth);
      if position == |bytes| {
        return Err(P.Malformed);
      }
      var wire := bytes[position];
      position := position + 1;
      if wire >= 237 {
        r := ParseAtom(256 - wire);
      } else if wire <= 19 && wire > 0 {
        r := ParseTypedList(wire);
      } else if wire == 100 {
        r := ParseLambda(depth);
      } else if 101 <= wire <= 103 {
        if position == |bytes| || !KnownPrimitive(wire, bytes[position]) {
          return Err(P.Malformed);
        }
        position := position + 1;
        r := Ok(Parsed(wire, 1, FunctionShape));
      } else if wire == 128 {
        var nul := FindNul(bytes, position);
        r := if nul.None? then Err(P.Malformed) else Err(P.Server(bytes[position..nul.value]));
      } else {
        r := ParseNested(wire, depth);
      }
    }

    method ParseAtom(kind: Byte) returns (r: Outcome)
      requires position <= |bytes| && 1 <= kind <= 19
      modifies this
      ensures Follows(P.ParseAtom(bytes, old(position), kind), 0, old(maxDepth), r, position, maxDepth)
    {
      if kind == 3 {
        return Err(P.Malformed);
      }
      if kind == 11 {
        var nul := FindNul(bytes, position);
        if nul.None? {
          return Err(P.Malformed);
        }
        position := nul.value + 1;
      } else {
        var end := position + Width(kind);
        if end > |bytes| || (kind == 1 && !Booleans(bytes[position..end])) {
          return Err(P.Malformed);
        }
        position := end;
      }
      var k: int := kind;
      r := Ok(Parsed(-k, 1, AtomShape));
    }

    method ParseTypedList(kind: Byte) returns (r: Outcome)
      requires position <= |bytes| && 1 <= kind <= 19
      modifies this
      ensures Follows(P.ParseVector(bytes, old(position), kind), 0, old(maxDepth), r, position, maxDepth)
    {
      hide P.TypedCount, P.ParseSymbols, Booleans;
      var header := P.TypedCount(bytes, position);
      if kind == 3 || header.None? {
        return Err(P.Malformed);
      }
      var count := header.value.2;
      var start := header.value.3;
      position := start;
      if kind == 11 {
        var ok := SkipSymbols(count);
        if !ok {
          return Err(P.Malformed);
        }
      } else {
        var end := start + count * Width(kind);
        if end > |bytes| || (kind == 1 && !Booleans(bytes[start..end])) {
          return Err(P.Malformed);
        }
        position := end;
        CountOfVector(kind, header.value.0, header.value.1, bytes[start..end], count);
      }
      r := Ok(Parsed(kind, count, SequenceShape(Some(kind))));
    }

    /** Moves past `count` NUL-terminated symbols. */
    method SkipSymbols(count: nat) returns (ok: bool)
      requires position <= |bytes|
      modifies this`position
      ensures match P.ParseSymbols(bytes, old(position), count)
        case None => !ok
        case Some((_, e)) => ok && position == e
    {
      hide FindNul;
      for i := 0 to count
        invariant position <= |bytes|
        invariant match P.ParseSymbols(bytes, old(position), count)
          case None => P.ParseSymbols(bytes, position, count - i).None?
          case Some((_, e)) =>
            && P.ParseSymbols(bytes, position, count - i).Some?
            && P.ParseSymbols(bytes, position, count - i).value.1 == e
      {
        var nul := FindNul(bytes, position);
        if nul.None? {
          return false;
        }
        position := nul.value + 1;
      }
      ok := true;
    }

    method ParseLambda(depth: nat) returns (r: Outcome)
      requires position <= |bytes| && depth <= MAX_VALUE_DEPTH && maxDepth >= depth
      modifies this
      ensures Follows(P.ParseLambda(bytes, old(position), depth), depth, old(maxDepth), r, position, maxDepth)
    {
      var nul := FindNul(bytes, position);
      if nul.None? || depth + 1 > MAX_VALUE_DEPTH {
        return Err(P.Malformed);
      }
      maxDepth := Max(maxDepth, depth + 1);
      position := nul.value + 1;
      if position + 2 > |bytes| || bytes[position] != 10 || bytes[position + 1] != 0 {
        return Err(P.Malformed);
      }
      var count := P.I32At(bytes, position + 2);
      if count.None? || position + 6 + count.value > |bytes| {
        return Err(P.Malformed);
      }
      position := position + 6 + count.value;
      r := Ok(Parsed(100, 1, FunctionShape));
    }
 
    /** Values that contain values. */
    method ParseNested(wire: Byte, depth: nat) returns (r: Outcome)
      requires 0 < position <= |bytes| && bytes[position - 1] == wire && depth <= MAX_VALUE_DEPTH && maxDepth >= depth
      requires !(wire >= 237 || 1 <= wire <= 19 || 100 <= wire <= 103 || wire == 128)
      modifies this
      ensures Follows(P.ParseValue(bytes, old(position) - 1, depth), depth, old(maxDepth), r, position, maxDepth)
      decreases |bytes| - position, 3
    {
      if wire == 0 {
        r := ParseGeneralList(depth);
      } else if wire == 98 {
        r := ParseTable(depth);
      } else if wire == 99 || wire == 127 {
        r := ParseDictionary(wire, depth);
      } else if 104 <= wire <= 105 {
        r := ParseCountedFunction(wire, depth);
      } else if 106 <= wire <= 111 {
        r := ParseValue(depth + 1);
        r := if r.Err? then r else Ok(Parsed(wire, 1, FunctionShape));
      } else {
        r := Err(P.Malformed);
      }
    }

    /** `count` values in a row. */
    method ParseItems(count: nat, depth: nat) returns (error: Option<P.QError>)
      requires position <= |bytes| && depth >= 1 && maxDepth >= depth - 1
      modifies this
      ensures match P.ParseAll(bytes, old(position), depth, count)
        case Ok((items, e)) =>
          && error.None? && position == e
          && maxDepth == Max(old(maxDepth), depth - 1 + DepthAll(items))
        case Err(e) => error == Some(e)
      decreases |bytes| - position, 2
    {
      hide P.ParseValue, Prepend, Depth, Summary;
      ghost var start, done: seq<Tree> := position, [];
      PrependNothing(P.ParseAll(bytes, start, depth, count));
      for i := 0 to count
        invariant start <= position <= |bytes| && |done| == i
        invariant P.ParseAll(bytes, start, depth, count) == Prepend(done, P.ParseAll(bytes, position, depth, count - i))
        invariant maxDepth == Max(old(maxDepth), depth - 1 + DepthAll(done))
      {
        ghost var at := position;
        var value := ParseValue(depth);
        if value.Err? {
          PrependErrs(done, P.ParseAll(bytes, at, depth, count - i));
          return Some(value.error);
        }
        ghost var t := P.ParseValue(bytes, at, depth).value.0;
        NextItem(bytes, at, depth, count - i, done);
        DepthAllAppend(done, t);
        done := done + [t];
      }
      PrependAll(done, position);
      error := None;
    }

    method ParseGeneralList(depth: nat) returns (r: Outcome)
      requires position <= |bytes| && depth <= MAX_VALUE_DEPTH && maxDepth >= depth
      modifies this
      ensures Follows(P.ParseGeneral(bytes, old(position), depth), depth, old(maxDepth), r, position, maxDepth)
      decreases |bytes| - position, 2
    {
      if position == |bytes| || bytes[position] > 4 {
        return Err(P.Malformed);
      }
      var count := P.I32At(bytes, position + 1);
      if count.None? || count.value > (|bytes| - (position + 5)) / 2 {
        return Err(P.Malformed);
      }
      position := position + 5;
      var error := ParseItems(count.value, depth + 1);
      r := if error.Some? then Err(error.value) else Ok(Parsed(0, count.value, SequenceShape(None)));
    }

    method ParseCountedFunction(wire: Byte, depth: nat) returns (r: Outcome)
      requires position <= |bytes| && depth <= MAX_VALUE_DEPTH && maxDepth >= depth
      modifies this
      ensures Follows(P.ParseCounted(bytes, old(position), depth, wire), depth, old(maxDepth), r, position, maxDepth)
      decreases |bytes| - position, 2
    {
      var count := P.I32At(bytes, position);
      if count.None? || count.value > (|bytes| - (position + 4)) / 2 {
        return Err(P.Malformed);
      }
      position := position + 4;
      var error := ParseItems(count.value, depth + 1);
      r := if error.Some? then Err(error.value) else Ok(Parsed(wire, 1, FunctionShape));
    }

    method ParseDictionary(wire: Byte, depth: nat) returns (r: Outcome)
      requires position <= |bytes| && depth <= MAX_VALUE_DEPTH && maxDepth >= depth
      modifies this
      ensures Follows(P.ParseDict(bytes, old(position), depth, wire), depth, old(maxDepth), r, position, maxDepth)
      decreases |bytes| - position, 2
    {
      hide P.ParseValue;
      var keys := ParseValue(depth + 1);
      if keys.Err? {
        return keys;
      }
      var values := ParseValue(depth + 1);
      if values.Err? {
        return values;
      }
      var keyed := keys.value.shape == TableShape && values.value.shape == TableShape;
      if keyed {
        if keys.value.len != values.value.len {
          return Err(P.Malformed);
        }
      } else if keys.value.shape == TableShape || values.value.shape == TableShape {
        return Err(P.Malformed);
      } else if !keys.value.shape.SequenceShape? || !values.value.shape.SequenceShape?
        || keys.value.len != values.value.len {
        return Err(P.Malformed);
      }
      r := Ok(Parsed(wire, keys.value.len, DictionaryShape(keyed)));
    }

    /** The columns of a table: lists that all have the row count of the first. */
    method ParseColumns(count: nat, depth: nat) returns (error: Option<P.QError>, rowCount: Option<nat>)
      requires position <= |bytes| && depth >= 1 && maxDepth >= depth - 1
      modifies this
      ensures match P.ParseColumns(bytes, old(position), depth, count, None)
        case Ok((columns, e)) =>
          && error.None? && position == e && maxDepth == Max(old(maxDepth), depth - 1 + DepthAll(columns))
          && rowCount == (if columns == [] then None else Some(Count(columns[0])))
        case Err(e) => error == Some(e)
      decreases |bytes| - position, 2
    {
      hide P.ParseValue, Prepend, Depth, Count;
      ghost var start, done: seq<Tree> := position, [];
      rowCount := None;
      PrependNothing(P.ParseColumns(bytes, start, depth, count, None));
      for i := 0 to count
        invariant start <= position <= |bytes| && |done| == i
        invariant rowCount == if done == [] then None else Some(Count(done[0]))
        invariant P.ParseColumns(bytes, start, depth, count, None)
          == Prepend(done, P.ParseColumns(bytes, position, depth, count - i, rowCount))
        invariant maxDepth == Max(old(maxDepth), depth - 1 + DepthAll(done))
      {
        ghost var at := position;
        var column := ParseValue(depth);
        PrependErrs(done, P.ParseColumns(bytes, at, depth, count - i, rowCount));
        if column.Err? {
          return Some(column.error), rowCount;
        }
        if !column.value.shape.SequenceShape? || (rowCount.Some? && rowCount.value != column.value.len) {
          return Some(P.Malformed), rowCount;
        }
        ghost var t := P.ParseValue(bytes, at, depth).value.0;
        NextColumn(bytes, at, depth, count - i, rowCount, done);
        DepthAllAppend(done, t);
        done := done + [t];
        rowCount := Some(column.value.len);
      }
      PrependAll(done, position);
      error := None;
    }

    method ParseTable(depth: nat) returns (r: Outcome)
      requires position <= |bytes| && depth <= MAX_VALUE_DEPTH && maxDepth >= depth
      modifies this
      ensures Follows(P.ParseTable(bytes, old(position), depth), depth, old(maxDepth), r, position, maxDepth)
      decreases |bytes| - position, 2
    {
      hide P.ParseValue, P.ParseColumns, P.I32At;
      if position == |bytes| || bytes[position] > 4 || depth + 1 > MAX_VALUE_DEPTH {
        return Err(P.Malformed);
      }
      maxDepth := Max(maxDepth, depth + 1);
      if position + 1 == |bytes| || bytes[position + 1] != 99 {
        return Err(P.Malformed);
      }
      position := position + 2;
      ghost var at := position;
      var names := ParseValue(depth + 2);
      if names.Err? {
        return names;
      }
      NamesAreSymbols(bytes, at, depth + 2);
      if names.value.shape != SequenceShape(Some(11)) || depth + 2 > MAX_VALUE_DEPTH {
        return Err(P.Malformed);
      }
      maxDepth := Max(maxDepth, depth + 2);
      if position == |bytes| || bytes[position] != 0 || position + 1 == |bytes| || bytes[position + 1] > 4 {
        return Err(P.Malformed);
      }
      var count := P.I32At(bytes, position + 2);
      if count.None? || names.value.len != count.value || count.value > (|bytes| - (position + 6)) / 6 {
        return Err(P.Malformed);
      }
      position := position + 6;
      var error, rowCount := ParseColumns(count.value, depth + 3);
      r := if error.Some? then Err(error.value)
           else Ok(Parsed(98, if rowCount.Some? then rowCount.value else 0, TableShape));
    }
  }

  /** Only symbol lists report the symbol element type. */
  lemma NamesAreSymbols(bytes: seq<Byte>, at: nat, depth: nat)
    requires at <= |bytes| && P.ParseValue(bytes, at, depth).Ok?
    ensures var t := P.ParseValue(bytes, at, depth).value.0;
      (ShapeOf(t) == SequenceShape(Some(11)) <==> t.Symbols?) && (t.Symbols? ==> Depth(t) == 0)
  {
    Proofs.ValueSound(bytes, at, depth);
  }

  lemma NextItem(bytes: seq<Byte>, at: nat, depth: nat, left: nat, done: seq<Tree>)
    requires at <= |bytes| && left > 0 && P.ParseValue(bytes, at, depth).Ok?
    ensures var (t, p) := P.ParseValue(bytes, at, depth).value;
      Prepend(done, P.ParseAll(bytes, at, depth, left)) == Prepend(done + [t], P.ParseAll(bytes, p, depth, left - 1))
  {
    hide P.ParseValue;
    var (t, p) := P.ParseValue(bytes, at, depth).value;
    var rest := P.ParseAll(bytes, p, depth, left - 1);
    if rest.Ok? {
      assert done + ([t] + rest.value.0) == (done + [t]) + rest.value.0;
    }
  }

  lemma NextColumn(bytes: seq<Byte>, at: nat, depth: nat, left: nat, rows: Option<nat>, done: seq<Tree>)
    requires at <= |bytes| && left > 0 && P.ParseValue(bytes, at, depth).Ok?
    requires var t := P.ParseValue(bytes, at, depth).value.0; Sequence(t) && (rows.Some? ==> rows.value == Count(t))
    ensures var (t, p) := P.ParseValue(bytes, at, depth).value;
      Prepend(done, P.ParseColumns(bytes, at, depth, left, rows))
      == Prepend(done + [t], P.ParseColumns(bytes, p, depth, left - 1, Some(Count(t))))
  {
    hide P.ParseValue;
    var (t, p) := P.ParseValue(bytes, at, depth).value;
    var rest := P.ParseColumns(bytes, p, depth, left - 1, Some(Count(t)));
    if rest.Ok? {
      assert done + ([t] + rest.value.0) == (done + [t]) + rest.value.0;
    }
  }

  /** `validate`: the metadata of a body that is exactly one value. */
  method Validate(bytes: seq<Byte>) returns (r: Result<Metadata, P.QError>)
    ensures match P.Validate(bytes)
      case Ok(t) => r == Ok(Meta(t))
      case Err(error) => r == Err(error)
  {
    var parser := new Parser(bytes);
    var value := parser.ParseValue(0);
    if value.Err? {
      return Err(value.error);
    }
    if parser.position != |bytes| {
      return Err(P.Malformed);
    }
    r := Ok(Metadata(value.value.typeCode, value.value.len,
      value.value.shape == TableShape || value.value.shape == DictionaryShape(true), parser.maxDepth));
  }
}
