/** q values as trees: what is well formed, how it is encoded, and the metadata it has. */
module QTree {
  import opened Bytes
  import opened KTypes

  const I64_MAX := 0x7FFF_FFFF_FFFF_FFFF

  datatype Tree =
    | Atom(kind: Byte, payload: seq<Byte>)
    | Vector(kind: Byte, attr: Byte, wide: bool, payload: seq<Byte>)
    | Symbols(attr: Byte, wide: bool, symbols: seq<seq<Byte>>)
    | General(attr: Byte, items: seq<Tree>)
    | Dict(wire: Byte, keys: Tree, values: Tree)
    | Table(attr: Byte, names: Tree, listAttr: Byte, columns: seq<Tree>)
    | Lambda(context: seq<Byte>, source: seq<Byte>)
    | Primitive(wire: Byte, opcode: Byte)
    | Counted(wire: Byte, items: seq<Tree>)
    | Derived(wire: Byte, value: Tree)

  predicate ValueKind(kind: Byte) {
    1 <= kind <= 19 && kind != 3
  }

  /** The primitives with a known name (`QOperator::from_wire`), by operator table length. */
  predicate NamedPrimitive(wire: Byte, opcode: Byte) {
    || (wire == 101 && 1 <= opcode < 42)
    || (wire == 102 && opcode < 34)
    || (wire == 103 && opcode < 3)
  }

  predicate KnownPrimitive(wire: Byte, opcode: Byte) {
    (wire == 101 && (opcode == 0 || opcode == 255)) || NamedPrimitive(wire, opcode)
  }

  predicate Booleans(payload: seq<Byte>) {
    forall b <- payload :: b <= 1
  }

  /** A fixed-width payload of its kind; boolean bytes are 0 or 1. */
  predicate PayloadOf(kind: Byte, payload: seq<Byte>, count: nat) {
    && ValueKind(kind) && kind != 11
    && |payload| == count * Width(kind)
    && (kind == 1 ==> Booleans(payload))
  }

  function CountLimit(wide: bool): nat {
    if wide then I64_MAX else I32_MAX
  }

  predicate Sequence(t: Tree) {
    t.Vector? || t.Symbols? || t.General?
  }

  /** The logical count: elements of a list, keys of a dictionary, rows of a table, one otherwise. */
  function Count(t: Tree): nat
  {
    match t
    case Vector(kind, _, _, payload) => if Width(kind) == 0 then 0 else |payload| / Width(kind)
    case Symbols(_, _, symbols) => |symbols|
    case General(_, items) => |items|
    case Dict(_, keys, _) => Count(keys)
    case Table(_, _, _, columns) => if columns == [] then 0 else Count(columns[0])
    case _ => 1
  }

  lemma CountOfVector(kind: Byte, attr: Byte, wide: bool, payload: seq<Byte>, count: nat)
    requires ValueKind(kind) && kind != 11 && |payload| == count * Width(kind)
    ensures Count(Vector(kind, attr, wide, payload)) == count
  {
    var w := Width(kind);
    assert w == 1 || w == 2 || w == 4 || w == 8 || w == 16;
    if w == 2 { assert (count * 2) / 2 == count; }
    if w == 4 { assert (count * 4) / 4 == count; }
    if w == 8 { assert (count * 8) / 8 == count; }
    if w == 16 { assert (count * 16) / 16 == count; }
  }

  predicate AllRows(columns: seq<Tree>, rows: nat) {
    forall c <- columns :: Sequence(c) && Count(c) == rows
  }

  predicate NulFree(s: seq<Byte>) {
    0 !in s
  }

  predicate WellFormed(t: Tree)
  {
    match t
    case Atom(kind, payload) => if kind == 11 then NulFree(payload) else PayloadOf(kind, payload, 1)
    case Vector(kind, attr, wide, payload) =>
      attr <= 4 && PayloadOf(kind, payload, Count(t)) && Count(t) <= CountLimit(wide)
    case Symbols(attr, wide, symbols) =>
      attr <= 4 && |symbols| <= CountLimit(wide) && forall s <- symbols :: NulFree(s)
    case General(attr, items) =>
      attr <= 4 && |items| <= I32_MAX && forall i <- items :: WellFormed(i)
    case Dict(wire, keys, values) =>
      && (wire == 99 || wire == 127) && WellFormed(keys) && WellFormed(values)
      && Count(keys) == Count(values)
      && ((keys.Table? && values.Table?) || (Sequence(keys) && Sequence(values)))
    case Table(attr, names, listAttr, columns) =>
      && attr <= 4 && listAttr <= 4
      && names.Symbols? && WellFormed(names)
      && |columns| == |names.symbols| <= I32_MAX
      && AllRows(columns, Count(t))
      && forall c <- columns :: WellFormed(c)
    case Lambda(context, source) => NulFree(context) && |source| <= I32_MAX
    case Primitive(wire, opcode) => KnownPrimitive(wire, opcode)
    case Counted(wire, items) => 104 <= wire <= 105 && |items| <= I32_MAX && forall i <- items :: WellFormed(i)
    case Derived(wire, value) => 106 <= wire <= 111 && WellFormed(value)
  }

  // ---------- Depth ----------

  function Max(a: nat, b: nat): nat {
    if a < b then b else a
  }

  /** How many levels below a value its deepest part lies. */
  function Depth(t: Tree): nat
    decreases t
  {
    match t
    case General(_, items) => DepthAll(items)
    case Dict(_, keys, values) => 1 + Max(Depth(keys), Depth(values))
    case Table(_, _, _, columns) => 2 + DepthAll(columns)
    case Lambda(_, _) => 1
    case Counted(_, items) => DepthAll(items)
    case Derived(_, value) => 1 + Depth(value)
    case _ => 0
  }

  /** The depth of a list of values: one more than its deepest element, or none when empty. */
  function DepthAll(items: seq<Tree>): nat
    decreases items
  {
    if items == [] then 0 else Max(1 + Depth(items[0]), DepthAll(items[1..]))
  }

  // ---------- Encoding ----------

  function CountHeader(attr: Byte, wide: bool, count: nat): (s: seq<Byte>)
    requires attr <= 4
    ensures |s| == if wide then 9 else 5
  {
    if wide then [attr + 128] + LittleEndian(count, 8) else [attr] + LittleEndian(count, 4)
  }

  function EncodeSymbols(symbols: seq<seq<Byte>>): (s: seq<Byte>)
    ensures |s| >= |symbols|
  {
    if symbols == [] then [] else symbols[0] + [0] + EncodeSymbols(symbols[1..])
  }

  function Encode(t: Tree): (s: seq<Byte>)
    requires WellFormed(t)
    ensures |s| >= 2
    ensures Sequence(t) ==> |s| >= 6
    decreases t
  {
    match t
    case Atom(kind, payload) => [256 - kind] + payload + (if kind == 11 then [0] else [])
    case Vector(kind, attr, wide, payload) => [kind] + CountHeader(attr, wide, Count(t)) + payload
    case Symbols(attr, wide, symbols) => [11] + CountHeader(attr, wide, |symbols|) + EncodeSymbols(symbols)
    case General(attr, items) => [0, attr] + LittleEndian(|items|, 4) + EncodeAll(items)
    case Dict(wire, keys, values) => [wire] + Encode(keys) + Encode(values)
    case Table(attr, names, listAttr, columns) =>
      [98, attr, 99] + Encode(names) + [0, listAttr] + LittleEndian(|columns|, 4) + EncodeAll(columns)
    case Lambda(context, source) => [100] + context + [0, 10, 0] + LittleEndian(|source|, 4) + source
    case Primitive(wire, opcode) => [wire, opcode]
    case Counted(wire, items) => [wire] + LittleEndian(|items|, 4) + EncodeAll(items)
    case Derived(wire, value) => [wire] + Encode(value)
  }

  function EncodeAll(items: seq<Tree>): (s: seq<Byte>)
    requires forall i <- items :: WellFormed(i)
    ensures |s| >= 2 * |items|
    ensures (forall i <- items :: Sequence(i)) ==> |s| >= 6 * |items|
    decreases items
  {
    if items == [] then [] else Encode(items[0]) + EncodeAll(items[1..])
  }

  // ---------- Metadata ----------

  /** q's signed type code. */
  function TypeCode(t: Tree): int {
    match t
    case Atom(kind, _) => (var k: int := kind; -k)
    case Vector(kind, _, _, _) => kind
    case Symbols(_, _, _) => 11
    case General(_, _) => 0
    case Dict(wire, _, _) => wire
    case Table(_, _, _, _) => 98
    case Lambda(_, _) => 100
    case Primitive(wire, _) => wire
    case Counted(wire, _) => wire
    case Derived(wire, _) => wire
  }

  predicate IsTable(t: Tree) {
    t.Table? || (t.Dict? && t.keys.Table?)
  }

  datatype Metadata = Metadata(typeCode: int, len: nat, isTable: bool, maxDepth: nat)

  function Meta(t: Tree): Metadata {
    Metadata(TypeCode(t), Count(t), IsTable(t), Depth(t))
  }

  // ---------- Depth of growing lists ----------

  lemma {:induction false} DepthAllAppend(items: seq<Tree>, t: Tree)
    ensures DepthAll(items + [t]) == Max(DepthAll(items), 1 + Depth(t))
  {
    if items == [] {
      assert (items + [t])[1..] == [];
    } else {
      assert (items + [t])[1..] == items[1..] + [t];
      DepthAllAppend(items[1..], t);
    }
  }
}
