/** The lossless validator: what it accepts, proved to be exactly the encodings of well-formed trees. */
module QParser {
  import opened Bytes
  import opened KTypes
  import opened QTree

  datatype QError = Malformed | Server(message: seq<Byte>)

  /** A tree and the position after it. */
  type Parse = Result<(Tree, nat), QError>
  type ParseMany = Result<(seq<Tree>, nat), QError>

  function I32At(bytes: seq<Byte>, pos: nat): (r: Option<nat>)
    requires pos <= |bytes|
    ensures r.Some? ==> pos + 4 <= |bytes| && r.value <= I32_MAX
  {
    if pos + 4 > |bytes| then None
    else
      var raw := FromLittleEndian(bytes[pos..pos + 4]);
      if raw > I32_MAX then None else Some(raw)
  }

  /** Attribute, width and count of a typed list, and the position after them. */
  function TypedCount(bytes: seq<Byte>, pos: nat): (r: Option<(Byte, bool, nat, nat)>)
    requires pos <= |bytes|
    ensures r.Some? ==> r.value.0 <= 4 && r.value.2 <= CountLimit(r.value.1) && pos < r.value.3 <= |bytes|
  {
    if pos == |bytes| || bytes[pos] % 128 > 4 then None
    else if bytes[pos] < 128 then
      var count := I32At(bytes, pos + 1);
      if count.None? then None else Some((bytes[pos], false, count.value, pos + 5))
    else if pos + 9 > |bytes| then None
    else
      var raw := FromLittleEndian(bytes[pos + 1..pos + 9]);
      if raw > I64_MAX then None else Some((bytes[pos] - 128, true, raw, pos + 9))
  }

  function ParseAtom(bytes: seq<Byte>, pos: nat, kind: Byte): (r: Parse)
    requires pos <= |bytes| && 1 <= kind <= 19
    ensures r.Ok? ==> pos < r.value.1 <= |bytes|
  {
    if kind == 3 then Err(Malformed)
    else if kind == 11 then
      var nul := FindNul(bytes, pos);
      if nul.None? then Err(Malformed) else Ok((Atom(11, bytes[pos..nul.value]), nul.value + 1))
    else
      var end := pos + Width(kind);
      if end > |bytes| || (kind == 1 && !Booleans(bytes[pos..end])) then Err(Malformed)
      else Ok((Atom(kind, bytes[pos..end]), end))
  }

  function ParseSymbols(bytes: seq<Byte>, pos: nat, count: nat): (r: Option<(seq<seq<Byte>>, nat)>)
    requires pos <= |bytes|
    ensures r.Some? ==> |r.value.0| == count && pos <= r.value.1 <= |bytes|
    decreases count
  {
    if count == 0 then Some(([], pos))
    else
      var nul := FindNul(bytes, pos);
      if nul.None? then None
      else
        var rest := ParseSymbols(bytes, nul.value + 1, count - 1);
        if rest.None? then None else Some(([bytes[pos..nul.value]] + rest.value.0, rest.value.1))
  }

  function ParseVector(bytes: seq<Byte>, pos: nat, kind: Byte): (r: Parse)
    requires pos <= |bytes| && 1 <= kind <= 19
    ensures r.Ok? ==> pos < r.value.1 <= |bytes|
  {
    var header := TypedCount(bytes, pos);
    if kind == 3 || header.None? then Err(Malformed)
    else
      var (attr, wide, count, start) := header.value;
      if kind == 11 then
        var symbols := ParseSymbols(bytes, start, count);
        if symbols.None? then Err(Malformed) else Ok((Symbols(attr, wide, symbols.value.0), symbols.value.1))
      else
        var end := start + count * Width(kind);
        if end > |bytes| || (kind == 1 && !Booleans(bytes[start..end])) then Err(Malformed)
        else Ok((Vector(kind, attr, wide, bytes[start..end]), end))
  }

  function ParseLambda(bytes: seq<Byte>, pos: nat, depth: nat): (r: Parse)
    requires pos <= |bytes|
    ensures r.Ok? ==> pos < r.value.1 <= |bytes|
  {
    var nul := FindNul(bytes, pos);
    if nul.None? || depth + 1 > MAX_VALUE_DEPTH || nul.value + 3 > |bytes| then Err(Malformed)
    else if bytes[nul.value + 1] != 10 || bytes[nul.value + 2] != 0 then Err(Malformed)
    else
      var count := I32At(bytes, nul.value + 3);
      if count.None? || nul.value + 7 + count.value > |bytes| then Err(Malformed)
      else
        var start := nul.value + 7;
        Ok((Lambda(bytes[pos..nul.value], bytes[start..start + count.value]), start + count.value))
  }

  /** One value at `pos`, `depth` levels down. */
  function ParseValue(bytes: seq<Byte>, pos: nat, depth: nat): (r: Parse)
    requires pos <= |bytes|
    ensures r.Ok? ==> pos < r.value.1 <= |bytes|
    decreases |bytes| - pos, 0
  {
    if depth > MAX_VALUE_DEPTH || pos == |bytes| then Err(Malformed)
    else
      var wire := bytes[pos];
      if wire >= 237 then ParseAtom(bytes, pos + 1, 256 - wire)
      else if wire == 0 then ParseGeneral(bytes, pos + 1, depth)
      else if wire <= 19 then ParseVector(bytes, pos + 1, wire)
      else if wire == 98 then ParseTable(bytes, pos + 1, depth)
      else if wire == 99 || wire == 127 then ParseDict(bytes, pos + 1, depth, wire)
      else if wire == 100 then ParseLambda(bytes, pos + 1, depth)
      else if 101 <= wire <= 103 then
        if pos + 1 == |bytes| || !KnownPrimitive(wire, bytes[pos + 1]) then Err(Malformed)
        else Ok((Primitive(wire, bytes[pos + 1]), pos + 2))
      else if 104 <= wire <= 105 then ParseCounted(bytes, pos + 1, depth, wire)
      else if 106 <= wire <= 111 then
        var value := ParseValue(bytes, pos + 1, depth + 1);
        if value.Err? then Err(value.error) else Ok((Derived(wire, value.value.0), value.value.1))
      else if wire == 128 then
        var nul := FindNul(bytes, pos + 1);
        if nul.None? then Err(Malformed) else Err(Server(bytes[pos + 1..nul.value]))
      else Err(Malformed)
  }

  /** `count` values one after another. */
  function ParseAll(bytes: seq<Byte>, pos: nat, depth: nat, count: nat): (r: ParseMany)
    requires pos <= |bytes|
    ensures r.Ok? ==> |r.value.0| == count && pos <= r.value.1 <= |bytes|
    decreases |bytes| - pos, 1 + count
  {
    if count == 0 then Ok(([], pos))
    else
      var first := ParseValue(bytes, pos, depth);
      if first.Err? then Err(first.error)
      else
        var rest := ParseAll(bytes, first.value.1, depth, count - 1);
        if rest.Err? then Err(rest.error) else Ok(([first.value.0] + rest.value.0, rest.value.1))
  }

  function ParseGeneral(bytes: seq<Byte>, pos: nat, depth: nat): (r: Parse)
    requires pos <= |bytes|
    ensures r.Ok? ==> pos < r.value.1 <= |bytes|
    decreases |bytes| - pos, 0
  {
    if pos == |bytes| || bytes[pos] > 4 then Err(Malformed)
    else
      var count := I32At(bytes, pos + 1);
      if count.None? || count.value > (|bytes| - (pos + 5)) / 2 then Err(Malformed)
      else
        var items := ParseAll(bytes, pos + 5, depth + 1, count.value);
        if items.Err? then Err(items.error) else Ok((General(bytes[pos], items.value.0), items.value.1))
  }

  function ParseCounted(bytes: seq<Byte>, pos: nat, depth: nat, wire: Byte): (r: Parse)
    requires pos <= |bytes|
    ensures r.Ok? ==> pos < r.value.1 <= |bytes|
    decreases |bytes| - pos, 0
  {
    var count := I32At(bytes, pos);
    if count.None? || count.value > (|bytes| - (pos + 4)) / 2 then Err(Malformed)
    else
      var items := ParseAll(bytes, pos + 4, depth + 1, count.value);
      if items.Err? then Err(items.error) else Ok((Counted(wire, items.value.0), items.value.1))
  }

  /** The shapes and counts a dictionary may combine. */
  predicate DictShapes(keys: Tree, values: Tree) {
    if keys.Table? && values.Table? then Count(keys) == Count(values)
    else if keys.Table? || values.Table? then false
    else Sequence(keys) && Sequence(values) && Count(keys) == Count(values)
  }

  function ParseDict(bytes: seq<Byte>, pos: nat, depth: nat, wire: Byte): (r: Parse)
    requires pos <= |bytes|
    ensures r.Ok? ==> pos < r.value.1 <= |bytes|
    decreases |bytes| - pos, 1
  {
    var keys := ParseValue(bytes, pos, depth + 1);
    if keys.Err? then Err(keys.error)
    else
      var values := ParseValue(bytes, keys.value.1, depth + 1);
      if values.Err? then Err(values.error)
      else if !DictShapes(keys.value.0, values.value.0) then Err(Malformed)
      else Ok((Dict(wire, keys.value.0, values.value.0), values.value.1))
  }

  /** Columns one after another, each a list with the row count of the first. */
  function ParseColumns(bytes: seq<Byte>, pos: nat, depth: nat, count: nat, rows: Option<nat>): (r: ParseMany)
    requires pos <= |bytes|
    ensures r.Ok? ==> |r.value.0| == count && pos <= r.value.1 <= |bytes|
    decreases |bytes| - pos, 1 + count
  {
    if count == 0 then Ok(([], pos))
    else
      var first := ParseValue(bytes, pos, depth);
      if first.Err? then Err(first.error)
      else if !Sequence(first.value.0) || (rows.Some? && rows.value != Count(first.value.0)) then Err(Malformed)
      else
        var rest := ParseColumns(bytes, first.value.1, depth, count - 1, Some(Count(first.value.0)));
        if rest.Err? then Err(rest.error) else Ok(([first.value.0] + rest.value.0, rest.value.1))
  }

  function ParseTable(bytes: seq<Byte>, pos: nat, depth: nat): (r: Parse)
    requires pos <= |bytes|
    ensures r.Ok? ==> pos < r.value.1 <= |bytes|
    decreases |bytes| - pos, 0
  {
    if pos == |bytes| || bytes[pos] > 4 then Err(Malformed)
    else if depth + 1 > MAX_VALUE_DEPTH || pos + 1 == |bytes| || bytes[pos + 1] != 99 then Err(Malformed)
    else
      var names := ParseValue(bytes, pos + 2, depth + 2);
      if names.Err? then Err(names.error)
      else if !names.value.0.Symbols? then Err(Malformed)
      else
        var p := names.value.1;
        if depth + 2 > MAX_VALUE_DEPTH || p == |bytes| || bytes[p] != 0 then Err(Malformed)
        else if p + 1 == |bytes| || bytes[p + 1] > 4 then Err(Malformed)
        else
          var count := I32At(bytes, p + 2);
          if count.None? || |names.value.0.symbols| != count.value then Err(Malformed)
          else if count.value > (|bytes| - (p + 6)) / 6 then Err(Malformed)
          else
            var columns := ParseColumns(bytes, p + 6, depth + 3, count.value, None);
            if columns.Err? then Err(columns.error)
            else Ok((Table(bytes[pos], names.value.0, bytes[p + 1], columns.value.0), columns.value.1))
  }

  /** `validate`: one value that is the whole body. */
  function Validate(bytes: seq<Byte>): Result<Tree, QError> {
    var value := ParseValue(bytes, 0, 0);
    if value.Err? then Err(value.error)
    else if value.value.1 != |bytes| then Err(Malformed)
    else Ok(value.value.0)
  }
}
