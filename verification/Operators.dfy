/** q's primitive operators by name: the tables behind the opcodes a value may carry. */
module Operators {
  import opened Bytes
  import opened QTree

  type Name = string

  const UNARY: seq<Name> := [
    "", "+:", "-:", "*:", "%:", "&:", "|:", "^:", "=:", "<:", ">:", "$:", ",:", "#:", "_:", "~:",
    "!:", "?:", "@:", ".:", "0::", "1::", "2::", "avg", "last", "sum", "prd", "min", "max", "exit",
    "getenv", "abs", "sqrt", "log", "exp", "sin", "asin", "cos", "acos", "tan", "atan", "enlist"]

  const BINARY: seq<Name> := [
    ":", "+", "-", "*", "%", "&", "|", "^", "=", "<", ">", "$", ",", "#", "_", "~", "!", "?", "@",
    ".", "0:", "1:", "2:", "in", "within", "like", "bin", "ss", "insert", "wsum", "wavg", "div",
    "xexp", "setenv"]

  const TERNARY: seq<Name> := ["'", "/", "\\"]

  function Primitives(wire: Byte): seq<Name> {
    if wire == 101 then UNARY else if wire == 102 then BINARY else if wire == 103 then TERNARY else []
  }

  /** `from_wire`: the name of an opcode, if it has one. */
  function FromWire(wire: Byte, opcode: Byte): Option<Name> {
    var names := Primitives(wire);
    if opcode < |names| && names[opcode] != "" then Some(names[opcode]) else None
  }

  /** The first place of a name in a table. */
  function Position(names: seq<Name>, name: Name): (r: Option<nat>)
    ensures r.Some? ==> r.value < |names| && names[r.value] == name && name !in names[..r.value]
    ensures r.None? ==> name !in names
  {
    if names == [] then None
    else if names[0] == name then Some(0)
    else
      var rest := Position(names[1..], name);
      assert rest.Some? ==> names[..rest.value + 1] == [names[0]] + names[1..][..rest.value];
      if rest.None? then None else Some(rest.value + 1)
  }

  /** `QOperator::new`: the first table that has the name, and its place there. */
  function New(name: Name): (r: Option<(Byte, Byte)>) {
    if name == "" then None
    else if Position(UNARY, name).Some? then Some((101, Position(UNARY, name).value))
    else if Position(BINARY, name).Some? then Some((102, Position(BINARY, name).value))
    else if Position(TERNARY, name).Some? then Some((103, Position(TERNARY, name).value))
    else None
  }

  /** An operator written by name is read back under that name, and every nonempty name in a table is known. */
  lemma NamesReadBack(name: Name)
    ensures New(name).Some? ==> FromWire(New(name).value.0, New(name).value.1) == Some(name)
    ensures New(name).Some? <==> name != "" && (name in UNARY || name in BINARY || name in TERNARY)
  {
  }

  /** The validator takes an opcode exactly when it has a name, is the null, or is the unfilled argument. */
  lemma KnownPrimitivesAreNamed(wire: Byte, opcode: Byte)
    ensures KnownPrimitive(wire, opcode) <==>
      FromWire(wire, opcode).Some? || (wire == 101 && (opcode == 0 || opcode == 255))
  {
    NoOtherNameIsEmpty(opcode);
  }

  lemma NoOtherNameIsEmpty(i: nat)
    ensures 0 < i < |UNARY| ==> UNARY[i] != ""
    ensures i < |BINARY| ==> BINARY[i] != ""
    ensures i < |TERNARY| ==> TERNARY[i] != ""
  {
  }
}
