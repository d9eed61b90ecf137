/** What the reported metadata means, in terms of the bytes of a value and of its parts. */
module QLaws {
  import opened Bytes
  import opened KTypes
  import opened QTree
  import P = QParser
  import Proofs = QParserProofs

  // ---------- Types and shapes ----------

  /** A byte as a signed number. */
  function Signed(b: Byte): int {
    if b < 128 then b else (var n: int := b; n - 256)
  }

  /** The type code is the first byte on the wire, read as a signed number. */
  lemma TypeCodeIsFirstByte(t: Tree)
    requires WellFormed(t)
    ensures TypeCode(t) == Signed(Encode(t)[0])
  {
  }

  /** A table is a value that starts as one, or a dictionary whose keys do. */
  lemma TableFlagIsInBytes(t: Tree)
    requires WellFormed(t)
    ensures IsTable(t) <==>
      Encode(t)[0] == 98 || ((Encode(t)[0] == 99 || Encode(t)[0] == 127) && Encode(t)[1] == 98)
  {
    if t.Dict? {
      TypeCodeIsFirstByte(t.keys);
      assert Encode(t)[1] == Encode(t.keys)[0];
    }
  }

  /** Everything that is no list, dictionary or table counts as one. */
  lemma LengthsByKind(t: Tree)
    requires WellFormed(t)
    ensures t.Atom? || t.Lambda? || t.Primitive? || t.Counted? || t.Derived? ==> Count(t) == 1
    ensures t.Vector? ==> Count(t) * Width(t.kind) == |t.payload|
    ensures t.Symbols? ==> Count(t) == |t.symbols|
    ensures t.General? ==> Count(t) == |t.items|
    ensures t.Dict? ==> Count(t) == Count(t.keys) == Count(t.values)
    ensures t.Table? ==> forall c <- t.columns :: Count(c) == Count(t)
    ensures t.Table? && t.columns == [] ==> Count(t) == 0
  {
  }

  /** The element widths of the wire format, by type code; the rest have none. */
  lemma WidthTable(k: Byte)
    ensures Width(k) ==
      if k < 20 then [0, 1, 16, 0, 1, 2, 4, 8, 4, 8, 1, 0, 8, 4, 4, 8, 8, 4, 4, 4][k] else 0
    ensures ValueKind(k) <==> k == 11 || Width(k) > 0
    ensures NestableType(k) <==> k in {1, 4, 5, 6, 7, 8, 9, 10, 11, 12}
  {
  }

  // ---------- Depth ----------

  /** The values one level down; a table stands one level above the dictionary it is written as. */
  function Parts(t: Tree): seq<Tree> {
    match t
    case General(_, items) => items
    case Counted(_, items) => items
    case Dict(_, keys, values) => [keys, values]
    case Derived(_, value) => [value]
    case Table(_, names, listAttr, columns) => [Dict(99, names, General(listAttr, columns))]
    case Lambda(_, source) => [Vector(10, 0, false, source)]
    case _ => []
  }

  lemma {:induction false} DepthAllIsDeepest(items: seq<Tree>)
    ensures forall i :: 0 <= i < |items| ==> Depth(items[i]) < DepthAll(items)
    ensures items != [] ==> exists i :: 0 <= i < |items| && DepthAll(items) == 1 + Depth(items[i])
    ensures items == [] ==> DepthAll(items) == 0
  {
    hide Depth;
    if items != [] {
      var rest := items[1..];
      DepthAllIsDeepest(rest);
      forall i | 0 <= i < |items| ensures Depth(items[i]) < DepthAll(items) {
        if i > 0 { assert items[i] == rest[i - 1]; }
      }
      if DepthAll(items) == 1 + Depth(items[0]) {
      } else {
        var i :| 0 <= i < |rest| && DepthAll(rest) == 1 + Depth(rest[i]);
        assert items[i + 1] == rest[i];
      }
    }
  }

  /** The depth of a value is the length of the longest way down through its parts. */
  lemma DepthIsLongestWay(t: Tree)
    requires WellFormed(t)
    ensures forall i :: 0 <= i < |Parts(t)| ==> Depth(Parts(t)[i]) < Depth(t)
    ensures Parts(t) != [] ==> exists i :: 0 <= i < |Parts(t)| && Depth(t) == 1 + Depth(Parts(t)[i])
    ensures Parts(t) == [] ==> Depth(t) == 0
  {
    match t
    case General(_, items) => DepthAllIsDeepest(items);
    case Counted(_, items) => DepthAllIsDeepest(items);
    case Dict(_, keys, values) =>
      var i := if Depth(keys) < Depth(values) then 1 else 0;
      assert Depth(t) == 1 + Depth(Parts(t)[i]);
    case Table(_, names, listAttr, columns) =>
      assert Depth(t) == 1 + Depth(Parts(t)[0]);
    case Derived(_, value) => assert Depth(t) == 1 + Depth(Parts(t)[0]);
    case Lambda(_, source) => assert Depth(t) == 1 + Depth(Parts(t)[0]);
    case _ =>
  }

  /** A table is written as the dictionary from its names to the list of its columns, behind two bytes. */
  lemma TableIsFlippedDictionary(t: Tree)
    requires t.Table? && WellFormed(t)
    ensures WellFormed(Parts(t)[0])
    ensures Encode(t) == [98, t.attr] + Encode(Parts(t)[0])
  {
    FlippedIsWellFormed(t);
    var list := General(t.listAttr, t.columns);
    assert Encode(list) == [0, t.listAttr] + LittleEndian(|t.columns|, 4) + EncodeAll(t.columns);
    assert Encode(Parts(t)[0]) == [99] + Encode(t.names) + Encode(list);
    assert Encode(t)
      == [98, t.attr, 99] + Encode(t.names) + [0, t.listAttr] + LittleEndian(|t.columns|, 4) + EncodeAll(t.columns);
    hide Encode, EncodeAll, LittleEndian, WellFormed;
    Regroup(t.attr, Encode(t.names), t.listAttr, LittleEndian(|t.columns|, 4), EncodeAll(t.columns));
  }

  lemma FlippedIsWellFormed(t: Tree)
    requires t.Table? && WellFormed(t)
    ensures WellFormed(General(t.listAttr, t.columns)) && WellFormed(Parts(t)[0])
  {
    var list := General(t.listAttr, t.columns);
    assert WellFormed(list) && Count(t.names) == Count(list);
  }

  lemma Regroup(attr: Byte, names: seq<Byte>, listAttr: Byte, size: seq<Byte>, columns: seq<Byte>)
    ensures [98, attr, 99] + names + [0, listAttr] + size + columns
      == [98, attr] + ([99] + names + ([0, listAttr] + size + columns))
  {
  }

  // ---------- What the validator accepts and reports ----------

  /** Legal fields: attributes are at most 4, booleans are bits, counts fit their header. */
  lemma AcceptedFieldsAreLegal(bytes: seq<Byte>, t: Tree)
    requires P.Validate(bytes) == Ok(t)
    ensures (t.Vector? || t.Atom?) && t.kind == 1 ==> forall b <- t.payload :: b == 0 || b == 1
    ensures t.Vector? || t.Symbols? || t.General? || t.Table? ==> t.attr in {0, 1, 2, 3, 4}
    ensures (t.Vector? || t.Symbols?) && !t.wide ==> Count(t) < 0x8000_0000
    ensures Depth(t) <= 64
  {
    Proofs.ValidatesExactlyEncodings(bytes, t);
  }

  /** A body that carries a server error is reported as that error. */
  lemma ServerErrorIsReported(message: seq<Byte>, rest: seq<Byte>)
    requires NulFree(message)
    ensures P.Validate([128] + message + [0] + rest) == Err(P.Server(message))
  {
    var bytes := [128] + message + [0] + rest;
    assert bytes[1..1 + |message|] == message;
    FindNulAt(bytes, 1, 1 + |message|);
    hide FindNul;
  }
}
