/** q type codes: element widths and the list-header format shared by the scanner and the decoders. */
module KTypes {
  import opened Bytes

  const MAX_VALUE_DEPTH := 64

  /** `K_TYPE_SIZE`: bytes per element, 0 for general lists, symbols and the reserved type 3. */
  function Width(kType: Byte): nat {
    if kType == 1 || kType == 4 || kType == 10 then 1
    else if kType == 5 then 2
    else if kType == 6 || kType == 8 || kType == 13 || kType == 14 || 17 <= kType <= 19 then 4
    else if kType == 7 || kType == 9 || kType == 12 || kType == 15 || kType == 16 then 8
    else if kType == 2 then 16
    else 0
  }

  /** Element types a nested list may have. */
  predicate NestableType(kType: Byte) {
    kType == 1 || 4 <= kType <= 12
  }

  datatype ListError =
    | UnsupportedList(kType: Byte) | UnsupportedNested(kType: Byte) | MixedNested(expected: Byte, actual: Byte)
    | HeaderOverrun | NegativeLength | PayloadOverrun | Unterminated

  /** The count in a list header whose attribute byte is at `pos`. */
  function ListLength(bytes: seq<Byte>, pos: nat): (r: Result<nat, ListError>)
    requires pos + 5 <= |bytes|
    ensures r.Ok? ==> r.value <= I32_MAX
  {
    var raw := FromLittleEndian(bytes[pos + 1..pos + 5]);
    if raw > I32_MAX then Err(NegativeLength) else Ok(raw)
  }

  /** The first NUL at or after `pos`. */
  function FindNul(bytes: seq<Byte>, pos: nat): (r: Option<nat>)
    requires pos <= |bytes|
    ensures r.Some? ==> pos <= r.value < |bytes| && bytes[r.value] == 0 && 0 !in bytes[pos..r.value]
    ensures r.None? ==> 0 !in bytes[pos..]
    decreases |bytes| - pos
  {
    if pos == |bytes| then None
    else if bytes[pos] == 0 then Some(pos)
    else
      var rest := FindNul(bytes, pos + 1);
      assert bytes[pos..] == [bytes[pos]] + bytes[pos + 1..];
      assert rest.Some? ==> bytes[pos..rest.value] == [bytes[pos]] + bytes[pos + 1..rest.value];
      rest
  }

  /** The first NUL is the one with none before it. */
  lemma {:induction false} FindNulAt(bytes: seq<Byte>, pos: nat, k: nat)
    requires pos <= k < |bytes| && bytes[k] == 0 && 0 !in bytes[pos..k]
    ensures FindNul(bytes, pos) == Some(k)
    decreases k - pos
  {
    if pos < k {
      assert bytes[pos..k] == [bytes[pos]] + bytes[pos + 1..k];
      FindNulAt(bytes, pos + 1, k);
    }
  }

  /** A terminator found in a prefix is the terminator. */
  lemma {:induction false} FindNulInPrefix(prefix: seq<Byte>, bytes: seq<Byte>, pos: nat)
    requires prefix <= bytes && pos <= |prefix| && FindNul(prefix, pos).Some?
    ensures FindNul(bytes, pos) == FindNul(prefix, pos)
    decreases |prefix| - pos
  {
    if prefix[pos] != 0 {
      FindNulInPrefix(prefix, bytes, pos + 1);
    }
  }

  lemma ListLengthInPrefix(prefix: seq<Byte>, bytes: seq<Byte>, pos: nat)
    requires prefix <= bytes && pos + 5 <= |prefix|
    ensures ListLength(bytes, pos) == ListLength(prefix, pos)
  {
    assert bytes[pos + 1..pos + 5] == prefix[pos + 1..pos + 5];
  }
}
