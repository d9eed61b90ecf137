/** The per-column symbol interner: three private caches in front of the shared category mapping. */
module Interner {
  import opened Bytes
  import opened KTypes
  import T = TextColumns

  type Symbol = seq<Byte>

  /** The shared mapping: ids are handed out in order, up to a limit, and never change. */
  class Mapping {
    const limit: nat
    var ids: map<Symbol, nat>

    ghost predicate Valid()
      reads this
    {
      && (forall s <- ids :: ids[s] < |ids|)
      && (forall s, t :: s in ids && t in ids && ids[s] == ids[t] ==> s == t)
    }

    constructor (limit: nat)
      ensures Valid() && ids == map[] && this.limit == limit
    {
      this.limit, ids := limit, map[];
    }

    /** A new symbol no longer finds an id. */
    ghost predicate Refuses(symbol: Symbol)
      reads this
    {
      symbol !in ids && |ids| >= limit
    }

    /** `insert_cat`: the id of a symbol, assigned on its first insertion unless the mapping is full. */
    method Insert(symbol: Symbol) returns (id: Option<nat>)
      requires Valid()
      modifies this
      ensures Valid()
      ensures id.None? <==> old(Refuses(symbol))
      ensures id.Some? ==> symbol in ids && ids[symbol] == id.value
      ensures symbol in old(ids) || id.None? ==> ids == old(ids)
      ensures symbol !in old(ids) && id.Some? ==> ids == old(ids)[symbol := |old(ids)|]
    {
      if symbol in ids {
        return Some(ids[symbol]);
      }
      if |ids| >= limit {
        return None;
      }
      id := Some(|ids|);
      ghost var before := ids;
      ids := ids[symbol := |ids|];
      assert ids.Keys == before.Keys + {symbol};
    }

    /** Insertions by other columns and threads, in any order. */
    method InsertAll(symbols: seq<Symbol>)
      requires Valid()
      modifies this
      ensures Valid() && Extends(old(ids), ids)
    {
      for i := 0 to |symbols|
        invariant Valid() && Extends(old(ids), ids)
      {
        var _ := Insert(symbols[i]);
      }
    }
  }

  ghost predicate Extends(old_: map<Symbol, nat>, new_: map<Symbol, nat>) {
    forall s <- old_ :: s in new_ && new_[s] == old_[s]
  }

  function Padded(symbol: Symbol): (s: Symbol)
    requires |symbol| <= 8
    ensures |s| == 8
  {
    symbol + seq(8 - |symbol|, _ => 0)
  }

  /** A symbol of at most eight bytes packed little-endian into one word, padded with zeros. */
  function Word(symbol: Symbol): nat
    requires |symbol| <= 8
  {
    FromLittleEndian(Padded(symbol))
  }

  lemma PaddingTellsLength(s: Symbol)
    requires |s| <= 8 && 0 !in s
    ensures FindNul(Padded(s), 0) == if |s| < 8 then Some(|s|) else None
    ensures Padded(s)[..|s|] == s
  {
    var p := Padded(s);
    if |s| < 8 {
      assert p[0..|s|] == s;
      FindNulAt(p, 0, |s|);
    } else {
      assert p == s && p[0..] == s;
    }
  }

  /** Zero padding cannot collide with a shorter symbol, because symbols contain no NUL. */
  lemma WordsAreDistinct(s: Symbol, t: Symbol)
    requires |s| <= 8 && |t| <= 8 && 0 !in s && 0 !in t && Word(s) == Word(t)
    ensures s == t
  {
    LittleEndianInverse(Padded(s));
    LittleEndianInverse(Padded(t));
    PaddingTellsLength(s);
    PaddingTellsLength(t);
  }

  /** The caches hold exactly the asked symbols, each once, under its shared id. */
  ghost predicate Coherent(asked: seq<Symbol>, ids: map<Symbol, nat>, short: map<nat, nat>, long: map<Symbol, nat>) {
    && Distinct(asked)
    && (forall s <- asked :: 0 !in s && s in ids)
    && (forall s <- asked :: |s| <= 8 ==> Word(s) in short && short[Word(s)] == ids[s])
    && (forall s <- asked :: |s| > 8 ==> s in long && long[s] == ids[s])
    && (forall w <- short :: exists s :: s in asked && |s| <= 8 && Word(s) == w)
    && (forall s <- long :: s in asked)
  }

  ghost predicate Distinct(asked: seq<Symbol>) {
    forall i, j :: 0 <= i < j < |asked| ==> asked[i] != asked[j]
  }

  /** A cached word belongs to the symbol itself. */
  lemma CachedWord(
    asked: seq<Symbol>, ids: map<Symbol, nat>, short: map<nat, nat>, long: map<Symbol, nat>, symbol: Symbol)
    requires Coherent(asked, ids, short, long) && 0 !in symbol && |symbol| <= 8
    ensures Word(symbol) in short <==> symbol in asked
    ensures symbol in asked ==> symbol in ids && short[Word(symbol)] == ids[symbol]
  {
    hide Word;
    if Word(symbol) in short {
      var s :| s in asked && |s| <= 8 && Word(s) == Word(symbol);
      WordsAreDistinct(s, symbol);
    }
  }

  lemma CachedLong(
    asked: seq<Symbol>, ids: map<Symbol, nat>, short: map<nat, nat>, long: map<Symbol, nat>, symbol: Symbol)
    requires Coherent(asked, ids, short, long) && |symbol| > 8
    ensures symbol in long <==> symbol in asked
    ensures symbol in asked ==> symbol in ids && long[symbol] == ids[symbol]
  {
  }

  lemma NewShort(
    asked: seq<Symbol>, ids: map<Symbol, nat>, ids': map<Symbol, nat>, short: map<nat, nat>, long: map<Symbol, nat>,
    symbol: Symbol)
    requires Coherent(asked, ids, short, long) && Extends(ids, ids')
    requires 0 !in symbol && |symbol| <= 8 && symbol !in asked && symbol in ids'
    ensures Coherent(asked + [symbol], ids', short[Word(symbol) := ids'[symbol]], long)
  {
    hide Word;
    var asked', short' := asked + [symbol], short[Word(symbol) := ids'[symbol]];
    forall s | s in asked && |s| <= 8 ensures Word(s) != Word(symbol) {
      if Word(s) == Word(symbol) { WordsAreDistinct(s, symbol); }
    }
    forall w | w in short' ensures exists s :: s in asked' && |s| <= 8 && Word(s) == w {
      if w == Word(symbol) {
        assert symbol in asked';
      } else {
        var s :| s in asked && |s| <= 8 && Word(s) == w;
        assert s in asked';
      }
    }
  }

  lemma NewLong(
    asked: seq<Symbol>, ids: map<Symbol, nat>, ids': map<Symbol, nat>, short: map<nat, nat>, long: map<Symbol, nat>,
    symbol: Symbol)
    requires Coherent(asked, ids, short, long) && Extends(ids, ids')
    requires 0 !in symbol && |symbol| > 8 && symbol !in asked && symbol in ids'
    ensures Coherent(asked + [symbol], ids', short, long[symbol := ids'[symbol]])
  {
    hide Word;
    var asked' := asked + [symbol];
    forall w | w in short ensures exists s :: s in asked' && |s| <= 8 && Word(s) == w {
      var s :| s in asked && |s| <= 8 && Word(s) == w;
      assert s in asked';
    }
  }

  /** The caches stay right while others add to the mapping. */
  lemma CoherentLater(
    asked: seq<Symbol>, ids: map<Symbol, nat>, ids': map<Symbol, nat>, short: map<nat, nat>, long: map<Symbol, nat>)
    requires Coherent(asked, ids, short, long) && Extends(ids, ids')
    ensures Coherent(asked, ids', short, long)
  {
  }

  class SymbolInterner {
    const mapping: Mapping
    var last: Option<(Symbol, nat)>
    var short: map<nat, nat>
    var long: map<Symbol, nat>
    /** The symbols the shared mapping has been asked for, in order. */
    ghost var asked: seq<Symbol>

    ghost predicate Valid()
      reads this, mapping
    {
      && mapping.Valid()
      && Coherent(asked, mapping.ids, short, long)
      && (last.Some? ==>
            last.value.0 in asked && last.value.0 in mapping.ids && mapping.ids[last.value.0] == last.value.1)
    }

    constructor (mapping: Mapping)
      requires mapping.Valid()
      ensures this.mapping == mapping && Valid() && asked == []
    {
      this.mapping := mapping;
      last, short, long, asked := None, map[], map[], [];
    }

    /** The cached id of a symbol, from the previous row, the word-keyed map or the byte-keyed map. */
    method Cached(symbol: Symbol) returns (id: Option<nat>)
      requires Valid() && 0 !in symbol
      ensures id.Some? <==> symbol in asked
      ensures id.Some? ==> symbol in mapping.ids && id.value == mapping.ids[symbol]
    {
      hide Coherent, Word;
      if last.Some? && last.value.0 == symbol {
        return Some(last.value.1);
      }
      if |symbol| <= 8 {
        CachedWord(asked, mapping.ids, short, long, symbol);
        id := if Word(symbol) in short then Some(short[Word(symbol)]) else None;
      } else {
        CachedLong(asked, mapping.ids, short, long, symbol);
        id := if symbol in long then Some(long[symbol]) else None;
      }
    }

    /** Asks the shared mapping and remembers its answer. */
    method Ask(symbol: Symbol) returns (id: Option<nat>)
      requires Valid() && 0 !in symbol && symbol !in asked
      modifies this, mapping
      ensures Valid() && Extends(old(mapping.ids), mapping.ids) && last == old(last)
      ensures id.Some? ==> symbol in mapping.ids && id.value == mapping.ids[symbol] && asked == old(asked) + [symbol]
      ensures id.None? ==> mapping.Refuses(symbol) && asked == old(asked)
    {
      hide Coherent, Word, Mapping.Valid;
      ghost var ids := mapping.ids;
      id := mapping.Insert(symbol);
      if id.None? {
        return;
      }
      if |symbol| <= 8 {
        NewShort(asked, ids, mapping.ids, short, long, symbol);
        short := short[Word(symbol) := id.value];
      } else {
        NewLong(asked, ids, mapping.ids, short, long, symbol);
        long := long[symbol := id.value];
      }
      asked := asked + [symbol];
    }

    /** `category`: the shared id of a symbol, asked for only if it is in none of the caches. */
    method Category(symbol: Symbol) returns (id: Option<nat>)
      requires Valid() && 0 !in symbol
      modifies this, mapping
      ensures Valid() && Extends(old(mapping.ids), mapping.ids)
      ensures id.Some? ==> symbol in mapping.ids && id.value == mapping.ids[symbol]
      ensures id.Some? ==> asked == if symbol in old(asked) then old(asked) else old(asked) + [symbol]
      ensures id.None? ==> mapping.Refuses(symbol) && asked == old(asked) && symbol !in asked
    {
      hide Coherent;
      id := Cached(symbol);
      if id.None? {
        id := Ask(symbol);
      }
      if id.Some? {
        last := Some((symbol, id.value));
      }
    }
  }

  lemma ExtendsTransitive(a: map<Symbol, nat>, b: map<Symbol, nat>, c: map<Symbol, nat>)
    requires Extends(a, b) && Extends(b, c)
    ensures Extends(a, c)
  {
  }

  /** One row: whatever other columns insert first, then the row's own symbol. */
  method ResolveRow(interner: SymbolInterner, symbol: Symbol, others: seq<Symbol>) returns (id: Option<nat>)
    requires interner.Valid() && 0 !in symbol
    modifies interner, interner.mapping
    ensures interner.Valid() && Extends(old(interner.mapping.ids), interner.mapping.ids)
    ensures id.Some? ==>
      && symbol in interner.mapping.ids && id.value == interner.mapping.ids[symbol]
      && interner.asked == if symbol in old(interner.asked) then old(interner.asked) else old(interner.asked) + [symbol]
    ensures id.None? ==>
      interner.mapping.Refuses(symbol) && interner.asked == old(interner.asked) && symbol !in interner.asked
  {
    hide Coherent;
    ghost var ids := interner.mapping.ids;
    interner.mapping.InsertAll(others);
    ghost var ids' := interner.mapping.ids;
    CoherentLater(interner.asked, ids, ids', interner.short, interner.long);
    id := interner.Category(symbol);
    ExtendsTransitive(ids, ids', interner.mapping.ids);
  }

  datatype ColumnError = Malformed | MappingFull

  /**
   `decode_symbol_column`: the ids of a validated payload's symbols. `others[i]` are insertions by
   other columns before row `i`, whatever they are. It fails when the payload does not spell exactly
   `length` symbols or when the mapping refuses one; `asked` are the symbols the mapping was asked for.
   */
  method DecodeSymbolColumn(payload: seq<Byte>, length: nat, mapping: Mapping, others: seq<seq<Symbol>>)
    returns (r: Result<seq<nat>, ColumnError>, ghost asked: seq<Symbol>)
    requires mapping.Valid()
    modifies mapping
    ensures mapping.Valid() && Extends(old(mapping.ids), mapping.ids) && Distinct(asked)
    ensures r.Ok? ==>
      && T.SplitSymbols(payload, length).Some?
      && Resolved(T.SplitSymbols(payload, length).value, r.value, mapping.ids)
      && SameMembers(asked, T.SplitSymbols(payload, length).value)
    ensures r == Err(Malformed) ==> T.SplitSymbols(payload, length).None?
    ensures r == Err(MappingFull) ==> exists s :: s in asked && mapping.Refuses(s)
  {
    hide Extends, Resolved, SameMembers, Distinct, T.SplitSymbols, FindNul, Joined, Coherent;
    hide Mapping.Valid, SymbolInterner.Valid;
    var interner := new SymbolInterner(mapping);
    var categories: seq<nat> := [];
    var cursor: nat := 0;
    ghost var done: seq<Symbol> := [];
    assert payload[0..] == payload;
    Started(T.SplitSymbols(payload, length), mapping.ids);
    for i := 0 to length
      invariant cursor <= |payload| && |categories| == i
      invariant fresh(interner) && interner.mapping == mapping && interner.Valid()
      invariant Extends(old(mapping.ids), mapping.ids)
      invariant Resolved(done, categories, mapping.ids) && SameMembers(interner.asked, done)
      invariant T.SplitSymbols(payload, length) == Joined(done, T.SplitSymbols(payload[cursor..], length - i))
    {
      var terminator := FindNul(payload, cursor);
      NextSymbol(payload, cursor, length - i, done);
      if terminator.None? {
        AskedOnce(interner);
        return Err(Malformed), interner.asked;
      }
      var symbol := payload[cursor..terminator.value];
      ghost var ids, before := mapping.ids, interner.asked;
      var id := ResolveRow(interner, symbol, if i < |others| then others[i] else []);
      ExtendsTransitive(old(mapping.ids), ids, mapping.ids);
      if id.None? {
        AskedOnce(interner);
        AskedLast(interner.asked, symbol);
        return Err(MappingFull), interner.asked + [symbol];
      }
      ResolvedNext(done, categories, ids, mapping.ids, symbol, id.value);
      MembersNext(before, done, symbol);
      categories, done, cursor := categories + [id.value], done + [symbol], terminator.value + 1;
    }
    asked := interner.asked;
    Finished(done, payload, cursor);
    AskedOnce(interner);
    r := if cursor == |payload| then Ok(categories) else Err(Malformed);
  }

  lemma AskedLast(asked: seq<Symbol>, symbol: Symbol)
    requires Distinct(asked) && symbol !in asked
    ensures Distinct(asked + [symbol]) && symbol in asked + [symbol]
  {
  }

  lemma AskedOnce(interner: SymbolInterner)
    requires interner.Valid()
    ensures Distinct(interner.asked) && interner.mapping.Valid()
  {
  }

  /** Each symbol's recorded id is its id in the mapping. */
  ghost predicate Resolved(symbols: seq<Symbol>, categories: seq<nat>, ids: map<Symbol, nat>) {
    && |symbols| == |categories|
    && forall i :: 0 <= i < |symbols| ==> symbols[i] in ids && categories[i] == ids[symbols[i]]
  }

  lemma ResolvedNext(
    symbols: seq<Symbol>, categories: seq<nat>, ids: map<Symbol, nat>, ids': map<Symbol, nat>, symbol: Symbol, id: nat)
    requires Resolved(symbols, categories, ids) && Extends(ids, ids') && symbol in ids' && ids'[symbol] == id
    ensures Resolved(symbols + [symbol], categories + [id], ids')
  {
  }

  ghost predicate SameMembers(a: seq<Symbol>, b: seq<Symbol>) {
    forall s :: s in a <==> s in b
  }

  lemma MembersNext(asked: seq<Symbol>, done: seq<Symbol>, symbol: Symbol)
    requires SameMembers(asked, done)
    ensures SameMembers(if symbol in asked then asked else asked + [symbol], done + [symbol])
  {
  }

  lemma Started(split: Option<seq<Symbol>>, ids: map<Symbol, nat>)
    ensures Joined([], split) == split
    ensures Extends(ids, ids) && Resolved([], [], ids) && SameMembers([], [])
  {
    if split.Some? { assert [] + split.value == split.value; }
  }

  ghost function Joined(done: seq<Symbol>, rest: Option<seq<Symbol>>): Option<seq<Symbol>> {
    if rest.None? then None else Some(done + rest.value)
  }

  /** One more symbol off the front of the rest. */
  lemma NextSymbol(payload: seq<Byte>, cursor: nat, left: nat, done: seq<Symbol>)
    requires cursor <= |payload| && left > 0
    ensures var nul := FindNul(payload, cursor);
      Joined(done, T.SplitSymbols(payload[cursor..], left)) ==
      if nul.None? then None
      else Joined(done + [payload[cursor..nul.value]], T.SplitSymbols(payload[nul.value + 1..], left - 1))
    ensures FindNul(payload, cursor).Some? ==> 0 !in payload[cursor..FindNul(payload, cursor).value]
  {
    hide FindNul, T.SplitSymbols;
    var nul := FindNul(payload, cursor);
    if nul.None? {
      NoSymbol(payload[cursor..], left);
    } else {
      hide Joined;
      SymbolFound(payload, cursor, nul.value, left, done);
    }
  }

  lemma SymbolFound(payload: seq<Byte>, cursor: nat, i: nat, left: nat, done: seq<Symbol>)
    requires cursor <= i < |payload| && payload[i] == 0 && 0 !in payload[cursor..i] && left > 0
    ensures Joined(done, T.SplitSymbols(payload[cursor..], left))
      == Joined(done + [payload[cursor..i]], T.SplitSymbols(payload[i + 1..], left - 1))
  {
    hide T.SplitSymbols, Joined;
    CutAtNul(payload, cursor, i);
    T.SplitCons(payload[cursor..i], payload[i + 1..], left);
    JoinedNext(done, payload[cursor..i], T.SplitSymbols(payload[i + 1..], left - 1));
  }

  lemma JoinedNext(done: seq<Symbol>, symbol: Symbol, rest: Option<seq<Symbol>>)
    ensures Joined(done, if rest.None? then None else Some([symbol] + rest.value)) == Joined(done + [symbol], rest)
  {
    if rest.Some? {
      assert done + ([symbol] + rest.value) == (done + [symbol]) + rest.value;
    }
  }

  lemma NoSymbol(tail: seq<Byte>, left: nat)
    requires left > 0 && 0 !in tail
    ensures T.SplitSymbols(tail, left).None?
  {
    T.NoNulNoSplit(tail);
  }

  lemma CutAtNul(payload: seq<Byte>, cursor: nat, i: nat)
    requires cursor <= i < |payload| && payload[i] == 0
    ensures payload[cursor..] == payload[cursor..i] + [0] + payload[i + 1..]
  {
  }

  lemma Finished(done: seq<Symbol>, payload: seq<Byte>, cursor: nat)
    requires cursor <= |payload|
    ensures Joined(done, T.SplitSymbols(payload[cursor..], 0)) == if cursor == |payload| then Some(done) else None
  {
    assert done + [] == done;
  }
}
