/** Lossless q values and their constructors, which always build what the validator accepts. */
module QValues {
  import opened Bytes
  import opened KTypes
  import opened QTree
  import P = QParser
  import Proofs = QParserProofs
  import V = QValidator

  datatype QValue = QValue(bytes: seq<Byte>, meta: Metadata)

  datatype BuildError =
    | OverLength | TooDeep | BadKind | BadPayload | ShapeMismatch | CountMismatch | Rejected(error: P.QError)

  /** A value whose metadata is that of the tree its bytes encode. */
  ghost predicate Valid(q: QValue) {
    P.Validate(q.bytes).Ok? && q.meta == Meta(P.Validate(q.bytes).value)
  }

  ghost function TreeOf(q: QValue): (t: Tree)
    requires Valid(q)
    ensures WellFormed(t) && Depth(t) <= MAX_VALUE_DEPTH && Encode(t) == q.bytes && Meta(t) == q.meta
  {
    Proofs.ValidatesExactlyEncodings(q.bytes, P.Validate(q.bytes).value);
    P.Validate(q.bytes).value
  }

  /** `from_bytes` and `from_owned_bytes`: exactly the encodings of well-formed trees become values. */
  method FromBytes(bytes: seq<Byte>) returns (r: Result<QValue, BuildError>)
    ensures r.Ok? <==> exists t :: WellFormed(t) && Depth(t) <= MAX_VALUE_DEPTH && Encode(t) == bytes
    ensures r.Ok? ==> Valid(r.value) && r.value.bytes == bytes
    ensures r.Err? ==> r.error.Rejected? && P.Validate(bytes) == Err(r.error.error)
  {
    var meta := V.Validate(bytes);
    if P.Validate(bytes).Ok? {
      Proofs.ValidatesExactlyEncodings(bytes, P.Validate(bytes).value);
    } else {
      forall t | WellFormed(t) && Depth(t) <= MAX_VALUE_DEPTH && Encode(t) == bytes ensures false {
        Proofs.ValidatesExactlyEncodings(bytes, t);
      }
    }
    r := if meta.Ok? then Ok(QValue(bytes, meta.value)) else Err(Rejected(meta.error));
  }

  // ---------- Atoms ----------

  /** The payloads an atom of this kind may have; a symbol carries exactly one NUL, at its end. */
  predicate AtomPayload(kind: Byte, payload: seq<Byte>) {
    if kind == 11 then |payload| > 0 && payload[|payload| - 1] == 0 && 0 !in payload[..|payload| - 1]
    else |payload| == Width(kind) && (kind == 1 ==> payload[0] <= 1)
  }

  method AtomOf(kind: Byte, payload: seq<Byte>) returns (r: Result<QValue, BuildError>)
    ensures r.Ok? <==> ValueKind(kind) && AtomPayload(kind, payload)
    ensures r.Err? ==> r.error == if ValueKind(kind) then BadPayload else BadKind
    ensures r.Ok? ==>
      && Valid(r.value) && r.value.bytes == [256 - kind] + payload
      && r.value.meta == Metadata(0 - kind, 1, false, 0)
      && TreeOf(r.value) == Atom(kind, if kind == 11 then payload[..|payload| - 1] else payload)
  {
    if !ValueKind(kind) {
      return Err(BadKind);
    }
    if !AtomPayload(kind, payload) {
      return Err(BadPayload);
    }
    ghost var t := Atom(kind, if kind == 11 then payload[..|payload| - 1] else payload);
    var bytes := [256 - kind] + payload;
    assert Encode(t) == bytes by {
      if kind == 11 { assert payload[..|payload| - 1] + [0] == payload; }
    }
    r := Adopt(bytes, t);
  }

  /** Validation of assembled bytes, which cannot fail when they encode a well-formed, shallow tree. */
  method Adopt(bytes: seq<Byte>, ghost t: Tree) returns (r: Result<QValue, BuildError>)
    requires WellFormed(t) && Depth(t) <= MAX_VALUE_DEPTH && Encode(t) == bytes
    ensures r == Ok(QValue(bytes, Meta(t))) && Valid(r.value) && TreeOf(r.value) == t
  {
    r := FromBytes(bytes);
    Proofs.ValidatesExactlyEncodings(bytes, t);
  }

  // ---------- General lists ----------

  function Concatenated(values: seq<QValue>): seq<Byte> {
    if values == [] then [] else values[0].bytes + Concatenated(values[1..])
  }

  lemma {:induction false} ConcatenatedAppend(values: seq<QValue>, v: QValue)
    ensures Concatenated(values + [v]) == Concatenated(values) + v.bytes
  {
    if values == [] {
      assert (values + [v])[1..] == [];
    } else {
      assert (values + [v])[1..] == values[1..] + [v];
      ConcatenatedAppend(values[1..], v);
    }
  }

  /** One level above the deepest element; an empty list has no levels below it. */
  function ListDepth(values: seq<QValue>): nat {
    if values == [] then 0 else Max(1 + values[0].meta.maxDepth, ListDepth(values[1..]))
  }

  ghost function Trees(values: seq<QValue>): (ts: seq<Tree>)
    requires forall v <- values :: Valid(v)
    ensures |ts| == |values| && forall i :: 0 <= i < |ts| ==> values[i] in values && ts[i] == TreeOf(values[i])
  {
    seq(|values|, i requires 0 <= i < |values| => assert values[i] in values; TreeOf(values[i]))
  }

  lemma {:induction false} TreesEncodeValues(values: seq<QValue>)
    requires forall v <- values :: Valid(v)
    ensures forall t <- Trees(values) :: WellFormed(t)
    ensures EncodeAll(Trees(values)) == Concatenated(values)
    ensures DepthAll(Trees(values)) == ListDepth(values)
  {
    hide Valid, WellFormed, TreeOf, Trees, Encode, Depth;
    if values != [] {
      var first, rest := values[0], values[1..];
      assert first in values && forall v <- rest :: v in values;
      TreesEncodeValues(rest);
      var ts := Trees(rest);
      TreesCons(values);
      ConsEncoded(TreeOf(first), ts);
      assert Concatenated(values) == first.bytes + Concatenated(rest);
      assert ListDepth(values) == Max(1 + first.meta.maxDepth, ListDepth(rest));
    }
  }

  lemma TreesCons(values: seq<QValue>)
    requires values != [] && forall v <- values :: Valid(v)
    ensures Valid(values[0]) && (forall v <- values[1..] :: Valid(v))
    ensures Trees(values) == [TreeOf(values[0])] + Trees(values[1..])
  {
    hide Valid, TreeOf;
    assert values[0] in values && forall v <- values[1..] :: v in values;
  }

  lemma ConsEncoded(t: Tree, ts: seq<Tree>)
    requires WellFormed(t) && forall u <- ts :: WellFormed(u)
    ensures EncodeAll([t] + ts) == Encode(t) + EncodeAll(ts)
    ensures DepthAll([t] + ts) == Max(1 + Depth(t), DepthAll(ts))
  {
    hide Encode, Depth, WellFormed;
    assert ([t] + ts)[1..] == ts;
  }

  lemma {:induction false} ListDepthBound(values: seq<QValue>)
    ensures ListDepth(values) <= MAX_VALUE_DEPTH <==> forall v <- values :: v.meta.maxDepth < MAX_VALUE_DEPTH
  {
    if values != [] {
      var first, rest := values[0], values[1..];
      ListDepthBound(rest);
      assert values == [first] + rest;
      if forall v <- values :: v.meta.maxDepth < MAX_VALUE_DEPTH {
        assert first in values;
        assert forall v <- rest :: v in values;
      } else {
        var v :| v in values && v.meta.maxDepth >= MAX_VALUE_DEPTH;
        assert v == first || v in rest;
      }
    }
  }

  /** Appends the bodies of the elements, in order. */
  method AppendAll(header: seq<Byte>, values: seq<QValue>) returns (bytes: seq<Byte>)
    ensures bytes == header + Concatenated(values)
  {
    bytes := header;
    for i := 0 to |values|
      invariant bytes == header + Concatenated(values[..i])
    {
      ConcatenatedAppend(values[..i], values[i]);
      assert values[..i + 1] == values[..i] + [values[i]];
      bytes := bytes + values[i].bytes;
    }
    assert values[..|values|] == values;
  }

  method ListOf(values: seq<QValue>) returns (r: Result<QValue, BuildError>)
    requires forall v <- values :: Valid(v)
    ensures r.Ok? <==> |values| <= I32_MAX && forall v <- values :: v.meta.maxDepth < MAX_VALUE_DEPTH
    ensures r.Err? ==> r.error == if |values| > I32_MAX then OverLength else TooDeep
    ensures r.Ok? ==>
      && Valid(r.value) && TreeOf(r.value) == General(0, Trees(values))
      && r.value.meta == Metadata(0, |values|, false, ListDepth(values))
  {
    if |values| > I32_MAX {
      return Err(OverLength);
    }
    if exists v :: v in values && v.meta.maxDepth >= MAX_VALUE_DEPTH {
      return Err(TooDeep);
    }
    hide Valid, Trees, ListDepth, LittleEndian;
    var bytes := AppendAll([0, 0] + LittleEndian(|values|, 4), values);
    TreesEncodeValues(values);
    ListDepthBound(values);
    r := Adopt(bytes, General(0, Trees(values)));
  }

  // ---------- Dictionaries ----------

  predicate SequenceTypeCode(typeCode: int) {
    0 <= typeCode <= 19 && typeCode != 3
  }

  /** The type code tells tables and lists apart from everything else. */
  lemma TypeCodeTellsShape(t: Tree)
    requires WellFormed(t)
    ensures SequenceTypeCode(TypeCode(t)) <==> Sequence(t)
    ensures TypeCode(t) == 98 <==> t.Table?
  {
  }

  predicate Pairable(keys: Metadata, values: Metadata) {
    || (keys.typeCode == 98 && values.typeCode == 98)
    || (SequenceTypeCode(keys.typeCode) && SequenceTypeCode(values.typeCode))
  }

  /** Which condition a refused dictionary breaks first. */
  function DictionaryError(keys: Metadata, values: Metadata): BuildError {
    if !Pairable(keys, values) then ShapeMismatch
    else if keys.len != values.len then CountMismatch
    else TooDeep
  }

  method DictionaryOf(keys: QValue, values: QValue) returns (r: Result<QValue, BuildError>)
    requires Valid(keys) && Valid(values)
    ensures r.Ok? <==>
      && Pairable(keys.meta, values.meta) && keys.meta.len == values.meta.len
      && keys.meta.maxDepth < MAX_VALUE_DEPTH && values.meta.maxDepth < MAX_VALUE_DEPTH
    ensures r.Err? ==> r.error == DictionaryError(keys.meta, values.meta)
    ensures r.Ok? ==>
      && Valid(r.value) && r.value.bytes == [99] + keys.bytes + values.bytes
      && TreeOf(r.value) == Dict(99, TreeOf(keys), TreeOf(values))
      && r.value.meta
         == Metadata(99, keys.meta.len, keys.meta.typeCode == 98, 1 + Max(keys.meta.maxDepth, values.meta.maxDepth))
  {
    TypeCodeTellsShape(TreeOf(keys));
    TypeCodeTellsShape(TreeOf(values));
    var keyedTable := keys.meta.typeCode == 98 && values.meta.typeCode == 98;
    if (keys.meta.typeCode == 98 || values.meta.typeCode == 98) && !keyedTable {
      return Err(ShapeMismatch);
    }
    if !keyedTable && (!SequenceTypeCode(keys.meta.typeCode) || !SequenceTypeCode(values.meta.typeCode)) {
      return Err(ShapeMismatch);
    }
    if keys.meta.len != values.meta.len {
      return Err(CountMismatch);
    }
    if keys.meta.maxDepth >= MAX_VALUE_DEPTH || values.meta.maxDepth >= MAX_VALUE_DEPTH {
      return Err(TooDeep);
    }
    r := Adopt([99] + keys.bytes + values.bytes, Dict(99, TreeOf(keys), TreeOf(values)));
  }
}
