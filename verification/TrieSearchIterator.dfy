/** TSearchIterator: walking down a trie key part by key part. */
module TrieSearchIterator {
  import opened Wrappers
  import opened Bytes
  import opened Packers
  import opened TrieTree
  import opened TrieCodec
  import opened TrieMap
  import opened TrieReader
  import opened TrieRoundTrip
  import opened TrieCanonical
  import opened TrieHistory
  import opened TrieSearch
  import opened TrieTails

  /** DataPos and ValuePos, absent where the original has null. */
  datatype Cursor = Cursor(dataPos: Option<nat>, valuePos: Option<nat>)

  /** What Advance over a whole key comes to: true, false, or a read through null. */
  datatype Reach = Fault | Lost | Reached(cursor: Cursor)

  /** Only the first symbol is guarded against a null position. */
  function ReachFrom(s: Schema, data: seq<byte>, p: nat, key: seq<seq<byte>>): Reach
    requires key != [] && forall k | 0 <= k < |key| :: key[k] != []
    decreases |key|
  {
    match AdvanceFrom(s, data, p, key[0])
    case Failed => Lost
    case Advanced(value, next) =>
      if |key| == 1 then Reached(Cursor(next, value))
      else if next.None? then Fault
      else ReachFrom(s, data, next.value, key[1..])
  }

  function AdvanceKey(s: Schema, w: nat, data: seq<byte>, c: Cursor, key: seq<nat>): Reach
    requires w > 0
  {
    if c.dataPos.None? || c.dataPos.value >= |data| then Lost
    else if key == [] then Reached(c)
    else ReachFrom(s, data, c.dataPos.value, SymbolBytes(w, key))
  }

  /** What GetValue gives: a value, true with a read through null, or false. */
  datatype Got = Value(value: Value) | NullRead | NoValue

  function GetValueOf(s: Schema, trie: CompactTrie, c: Cursor): Got {
    if c.valuePos.Some? then Value(Unpack(s, trie.data, c.valuePos.value))
    else if trie.emptyValue.Some? then NullRead
    else NoValue
  }

  class TSearchIterator {
    const packer: Schema
    const width: nat
    const trie: CompactTrie
    var cursor: Cursor

    constructor (packer: Schema, width: nat, trie: CompactTrie)
      ensures this.packer == packer && this.width == width && this.trie == trie
      ensures cursor == Cursor(Some(trie.start), None)
    {
      this.packer, this.width, this.trie := packer, width, trie;
      cursor := Cursor(Some(trie.start), None);
    }

    /** Advance over the symbols of a key; `Fault` leaves nothing to go on with. */
    method Advance(key: seq<nat>) returns (r: Reach)
      requires width > 0
      modifies this
      ensures r == AdvanceKey(packer, width, trie.data, old(cursor), key)
      ensures r.Reached? ==> cursor == r.cursor
    {
      hide AdvanceFrom;
      if cursor.dataPos.None? || cursor.dataPos.value >= |trie.data| {
        return Lost;
      }
      if key == [] {
        return Reached(cursor);
      }
      var symbols, pos: nat := SymbolBytes(width, key), cursor.dataPos.value;
      for i := 0 to |key|
        invariant i < |key|
        invariant ReachFrom(packer, trie.data, pos, symbols[i..]) == AdvanceKey(packer, width, trie.data, old(cursor), key)
      {
        assert symbols[i..][1..] == symbols[i + 1..];
        var ok, value, next := TrieReader.Advance(packer, trie.data, pos, symbols[i]);
        if !ok {
          return Lost;
        }
        cursor := Cursor(next, value);
        if i == |key| - 1 {
          return Reached(cursor);
        }
        if next.None? {
          return Fault;
        }
        pos := next.value;
      }
      r := Lost;
    }

    method GetValue() returns (r: Got)
      ensures r == GetValueOf(packer, trie, cursor)
    {
      if cursor.valuePos.Some? {
        return Value(Unpack(packer, trie.data, cursor.valuePos.value));
      }
      r := if trie.emptyValue.Some? then NullRead else NoValue;
    }
  }

  // ---- against the tree ----

  /** The cursor stands in the saved bytes where the key `a` leads in the tree. */
  ghost predicate Stands(s: Schema, data: seq<byte>, t: Tree, a: seq<byte>, c: Cursor) {
    && GoesOnAt(s, data, t, a, c)
    && var u := Walk(t, a).value;
       && (c.valuePos.Some? <==> a != [] && u.IsFinal())
       && (c.valuePos.Some? ==> HoldsAt(s, data, c.valuePos.value, u.payload.value))
  }

  /** What is read on from there. */
  ghost predicate GoesOnAt(s: Schema, data: seq<byte>, t: Tree, a: seq<byte>, c: Cursor) {
    && WellFormed(t) && Walk(t, a).Some?
    && var u := Walk(t, a).value;
       if u.IsLast() then c.dataPos.None? || c.dataPos.value >= |data|
       else c.dataPos.Some? && Reads(s, data, c.dataPos.value, u)
  }

  /** Within `key`, before its end, is a node that nothing follows. */
  ghost predicate EndsWithin(t: Tree, key: seq<seq<byte>>)
    requires WellFormed(t)
  {
    exists k | 0 < k < |key| :: EndsAt(t, Flat(key[..k]))
  }

  ghost predicate EndsAt(t: Tree, bytes: seq<byte>)
    requires WellFormed(t)
  {
    Walk(t, bytes).Some? && Walk(t, bytes).value.IsLast()
  }

  ghost predicate ReachAgrees(s: Schema, data: seq<byte>, t: Tree, key: seq<seq<byte>>, r: Reach)
    requires WellFormed(t)
  {
    && (r.Fault? <==> EndsWithin(t, key))
    && (r.Reached? <==> Walk(t, Flat(key)).Some?)
    && (r.Reached? ==> Stands(s, data, t, Flat(key), r.cursor))
  }

  lemma EndsBelow(t: Tree, u: Tree, key: seq<seq<byte>>)
    requires WellFormed(t) && key != [] && Walk(t, key[0]) == Some(u) && WellFormed(u)
    ensures EndsWithin(t, key) <==> (|key| > 1 && u.IsLast()) || EndsWithin(u, key[1..])
    ensures Walk(t, Flat(key)) == Walk(u, Flat(key[1..]))
  {
    hide Walk;
    forall k | 0 < k <= |key| ensures Walk(t, Flat(key[..k])) == Walk(u, Flat(key[1..][..k - 1])) {
      assert key[..k][1..] == key[1..][..k - 1];
      WalkAppend(t, key[0], Flat(key[1..][..k - 1]));
    }
    assert key[..|key|] == key && key[1..][..|key| - 1] == key[1..];
    WalkNowhere(u);
    if EndsWithin(t, key) {
      var k :| 0 < k < |key| && EndsAt(t, Flat(key[..k]));
      assert k > 1 ==> EndsAt(u, Flat(key[1..][..k - 1]));
      assert k == 1 ==> key[1..][..0] == [];
    }
    if |key| > 1 && u.IsLast() {
      assert key[1..][..0] == [];
      assert EndsAt(t, Flat(key[..1]));
    }
    if EndsWithin(u, key[1..]) {
      var k :| 0 < k < |key[1..]| && EndsAt(u, Flat(key[1..][..k]));
      assert EndsAt(t, Flat(key[..k + 1]));
    }
  }

  lemma WalkNowhere(u: Tree)
    requires WellFormed(u)
    ensures Walk(u, Flat([])) == Some(u)
  {
  }

  lemma NoneEndsWithin(t: Tree, key: seq<seq<byte>>)
    requires WellFormed(t) && key != [] && Walk(t, key[0]) == None
    ensures !EndsWithin(t, key) && Walk(t, Flat(key)) == None
  {
    hide Walk;
    forall k | 0 < k <= |key| ensures Walk(t, Flat(key[..k])) == None {
      assert key[..k][0] == key[0];
      WalkAppend(t, key[0], Flat(key[..k][1..]));
    }
    assert key[..|key|] == key;
  }

  lemma {:induction false} ReachWalks(s: Schema, data: seq<byte>, p: nat, t: Tree, key: seq<seq<byte>>)
    requires Reads(s, data, p, t)
    requires key != [] && forall k | 0 <= k < |key| :: key[k] != []
    ensures WellFormed(t) && ReachAgrees(s, data, t, key, ReachFrom(s, data, p, key))
    decreases |key|
  {
    hide Reads, AdvanceFrom, SubtreeBytes, HoldsAt, Walk, WellFormed, Flat, EndsWithin;
    ReadsWellFormed(s, data, p, t);
    AdvanceWalks(s, data, p, t, key[0]);
    if Walk(t, key[0]).None? {
      NoneEndsWithin(t, key);
    } else {
      var u := Walk(t, key[0]).value;
      WalkIsWellFormed(t, key[0]);
      EndsBelow(t, u, key);
      if |key| == 1 {
        OneSymbol(t, key);
      } else {
        LastEnds(u, key[1..]);
        if !u.IsLast() {
          ReachWalks(s, data, AdvanceFrom(s, data, p, key[0]).next.value, u, key[1..]);
          StandsAbove(s, data, t, u, key, ReachFrom(s, data, p, key));
        }
      }
    }
  }

  lemma WalkIsWellFormed(t: Tree, key: seq<byte>)
    requires WellFormed(t) && key != [] && Walk(t, key).Some?
    ensures WellFormed(Walk(t, key).value)
  {
    WalkIsProper(t, key);
  }

  lemma OneSymbol(t: Tree, key: seq<seq<byte>>)
    requires |key| == 1 && WellFormed(t) && key[0] != []
    ensures Flat(key) == key[0] != [] && !EndsWithin(t, key)
  {
    assert key[0] + Flat(key[1..]) == key[0];
  }

  lemma LastEnds(u: Tree, key: seq<seq<byte>>)
    requires WellFormed(u) && key != [] && key[0] != []
    ensures Flat(key) != []
    ensures u.IsLast() ==> Walk(u, Flat(key)) == None
  {
    assert Flat(key) == key[0] + Flat(key[1..]);
    if u.IsLast() {
      NothingBelow(u, Flat(key));
    }
  }

  lemma StandsAbove(s: Schema, data: seq<byte>, t: Tree, u: Tree, key: seq<seq<byte>>, r: Reach)
    requires WellFormed(t) && WellFormed(u) && |key| > 1 && !u.IsLast() && Flat(key[1..]) != []
    requires Walk(t, Flat(key)) == Walk(u, Flat(key[1..]))
    requires ReachAgrees(s, data, u, key[1..], r)
    ensures r.Reached? ==> Stands(s, data, t, Flat(key), r.cursor)
  {
    hide Walk, WellFormed, HoldsAt, Reads, EndsWithin;
    assert Flat(key) == key[0] + Flat(key[1..]);
  }

  // ---- against the additions ----

  /** A key that was added, and none behind it. */
  ghost predicate LeafKey(w: nat, adds: seq<Addition>, p: seq<nat>) {
    LastAdded(w, adds, p).Some? && !More(w, adds, p)
  }

  lemma LeafIsLast(s: Schema, w: nat, adds: seq<Addition>, t: Tree, p: seq<nat>)
    requires IsBuilt(s, w, adds, t) && p != [] && IsAnyKey(w, p)
    ensures EndsAt(t, KeyBytes(w, p)) <==> LeafKey(w, adds, p)
  {
    hide KeyBytes, Walk, WellFormed, Tight, Packed, SubtreeBytes, Find, Log, LastValue, LastAdded, More, GoesOn, Proper, Continues;
    var bytes := KeyBytes(w, p);
    HeldIsAdded(s, w, adds, t, p, [], 0);
    MoreIsBeyond(s, w, adds, p);
    ContinuesIsAdded(s, w, adds, t, bytes);
    FindBehind(t, bytes, []);
    assert bytes + [] == bytes;
    if Walk(t, bytes).Some? {
      var u := Walk(t, bytes).value;
      WalkIsProper(t, bytes);
      FindHere(u);
      ContinuesHere(u);
      ContinuesBehind(t, u, bytes);
      LastIsFinal(u);
    }
  }

  lemma FindHere(u: Tree)
    ensures Find(u, []) == u.payload
  {
  }

  lemma LastIsFinal(u: Tree)
    requires Proper(u)
    ensures u.IsLast() ==> u.IsFinal()
  {
  }

  /** Before the end of `key`, behind `a`, comes such a key. */
  ghost predicate LeafWithin(w: nat, adds: seq<Addition>, a: seq<nat>, key: seq<nat>) {
    exists k | 0 < k < |key| :: LeafKey(w, adds, a + key[..k])
  }

  /** From where the key `a` leads, Advance over more symbols reads through null exactly if before
      their end comes a key that was added and has none behind it; else it tells whether some key
      that was added begins with all of them. */
  lemma CursorAdvances(s: Schema, w: nat, adds: seq<Addition>, t: Tree, a: seq<nat>, c: Cursor, key: seq<nat>)
    requires IsBuilt(s, w, adds, t) && IsAnyKey(w, a) && IsAnyKey(w, key) && key != []
    requires GoesOnAt(s, SubtreeBytes(t.sub), t, Flat(SymbolBytes(w, a)), c)
    ensures var data := SubtreeBytes(t.sub);
      var r := AdvanceKey(s, w, data, c, key);
      && (r.Fault? <==> LeafWithin(w, adds, a, key))
      && (r.Reached? <==> BeginsSome(w, adds, a + key))
      && (r.Reached? ==> Stands(s, data, t, Flat(SymbolBytes(w, a + key)), r.cursor))
  {
    hide Flat, SymbolBytes, Walk, WellFormed, IsBuilt, SubtreeBytes, BeginsSome, LeafWithin, HoldsAt, Reads, EndsWithin, ReachFrom;
    var data, from, symbols := SubtreeBytes(t.sub), Flat(SymbolBytes(w, a)), SymbolBytes(w, key);
    var u := Walk(t, from).value;
    WalkAppend(t, from, []);
    EndsInKeys(s, w, adds, t, u, a, key);
    AllOfKey(s, w, adds, t, u, a, key);
    if u.IsLast() {
      NoneBehind(u, symbols);
    } else {
      ReachWalks(s, data, c.dataPos.value, u, symbols);
      ReadsInside(s, data, c.dataPos.value, u);
      if AdvanceKey(s, w, data, c, key).Reached? {
        FlatAppend(w, a, key);
        FlatSome(w, key);
        StandsFrom(s, data, t, u, from, Flat(symbols), AdvanceKey(s, w, data, c, key).cursor);
      }
    }
  }

  /** Part of a key, walked from where `a` leads. */
  lemma PartWalks(s: Schema, w: nat, adds: seq<Addition>, t: Tree, u: Tree, a: seq<nat>, key: seq<nat>, k: nat)
    requires IsBuilt(s, w, adds, t) && IsAnyKey(w, a) && IsAnyKey(w, key) && 0 < k <= |key| && WellFormed(u)
    requires Walk(t, Flat(SymbolBytes(w, a))) == Some(u)
    ensures Walk(u, Flat(SymbolBytes(w, key)[..k])) == Walk(t, KeyBytes(w, a + key[..k]))
    ensures EndsAt(u, Flat(SymbolBytes(w, key)[..k])) <==> LeafKey(w, adds, a + key[..k])
  {
    hide Flat, SymbolBytes, Walk, WellFormed, Tight, Packed, SubtreeBytes, Find, Log, LastValue, LeafKey;
    SymbolsOfPart(w, key, k);
    FlatAppend(w, a, key[..k]);
    WalkAppend(t, Flat(SymbolBytes(w, a)), Flat(SymbolBytes(w, key[..k])));
    LeafIsLast(s, w, adds, t, a + key[..k]);
  }

  lemma AllOfKey(s: Schema, w: nat, adds: seq<Addition>, t: Tree, u: Tree, a: seq<nat>, key: seq<nat>)
    requires IsBuilt(s, w, adds, t) && IsAnyKey(w, a) && IsAnyKey(w, key) && key != [] && WellFormed(u)
    requires Walk(t, Flat(SymbolBytes(w, a))) == Some(u)
    ensures Walk(u, Flat(SymbolBytes(w, key))).Some? <==> BeginsSome(w, adds, a + key)
  {
    hide Flat, SymbolBytes, Walk, WellFormed, IsBuilt, BeginsSome, KeyBytes, LeafKey;
    BuiltShape(s, w, adds, t);
    PartWalks(s, w, adds, t, u, a, key, |key|);
    assert SymbolBytes(w, key)[..|key|] == SymbolBytes(w, key) && key[..|key|] == key;
    LeadsSomewhere(s, w, adds, t, a + key);
  }

  lemma BuiltShape(s: Schema, w: nat, adds: seq<Addition>, t: Tree)
    requires IsBuilt(s, w, adds, t)
    ensures w > 0 && WellFormed(t)
  {
  }

  lemma ReadsInside(s: Schema, data: seq<byte>, p: nat, t: Tree)
    requires Reads(s, data, p, t)
    ensures p < |data|
  {
    SomeBytes(t);
  }

  lemma SymbolsOfPart(w: nat, key: seq<nat>, k: nat)
    requires k <= |key|
    ensures SymbolBytes(w, key)[..k] == SymbolBytes(w, key[..k])
  {
  }

  lemma EndsInKeys(s: Schema, w: nat, adds: seq<Addition>, t: Tree, u: Tree, a: seq<nat>, key: seq<nat>)
    requires IsBuilt(s, w, adds, t) && IsAnyKey(w, a) && IsAnyKey(w, key) && WellFormed(u)
    requires Walk(t, Flat(SymbolBytes(w, a))) == Some(u)
    ensures EndsWithin(u, SymbolBytes(w, key)) <==> LeafWithin(w, adds, a, key)
  {
    hide Flat, SymbolBytes, WellFormed, EndsAt, LeafKey, IsBuilt, Walk;
    BuiltShape(s, w, adds, t);
    forall k | 0 < k < |key|
      ensures EndsAt(u, Flat(SymbolBytes(w, key)[..k])) <==> LeafKey(w, adds, a + key[..k])
    {
      PartWalks(s, w, adds, t, u, a, key, k);
    }
  }

  lemma NoneBehind(u: Tree, key: seq<seq<byte>>)
    requires WellFormed(u) && u.IsLast() && key != [] && forall k | 0 <= k < |key| :: key[k] != []
    ensures !EndsWithin(u, key) && Walk(u, Flat(key)) == None
  {
    hide Walk;
    forall k | 0 < k <= |key| ensures Walk(u, Flat(key[..k])) == None {
      assert key[..k][0] == key[0] && Flat(key[..k]) == key[0] + Flat(key[..k][1..]);
      NothingBelow(u, Flat(key[..k]));
    }
    assert key[..|key|] == key;
  }

  lemma StandsFrom(s: Schema, data: seq<byte>, t: Tree, u: Tree, a: seq<byte>, b: seq<byte>, c: Cursor)
    requires WellFormed(t) && Walk(t, a) == Some(u) && Stands(s, data, u, b, c) && b != []
    ensures Stands(s, data, t, a + b, c)
  {
    hide Walk, WellFormed;
    WalkAppend(t, a, b);
  }

  /** GetValue of an iterator over tails of `a` that has gone on by `b` is right exactly if `a` itself
      was not added, or the iterator has moved to a key that was added. For the whole trie `a` is
      the empty key. */
  lemma CursorValue(s: Schema, w: nat, adds: seq<Addition>, t: Tree, a: seq<nat>, trie: CompactTrie, b: seq<nat>, c: Cursor)
    requires IsBuilt(s, w, adds, t) && IsAnyKey(w, a) && IsAnyKey(w, b) && TailOf(s, w, t, SubtreeBytes(t.sub), a, trie)
    requires if b == [] then c.valuePos == None else Stands(s, SubtreeBytes(t.sub), t, Flat(SymbolBytes(w, a + b)), c)
    ensures var g := GetValueOf(s, trie, c);
      (match LastAdded(w, adds, a + b) case None => g == NoValue case Some(v) => g == Value(v))
      <==> LastAdded(w, adds, a) == None || (b != [] && LastAdded(w, adds, a + b).Some?)
  {
    hide Flat, SymbolBytes, Walk, WellFormed, Tight, Packed, SubtreeBytes, Find, Log, LastValue, LastAdded, HoldsAt, Reads, EmptyValue,
         Unpack, GoesOnAt;
    var data := SubtreeBytes(t.sub);
    TailValue(s, w, adds, t, a, trie);
    if b != [] {
      var bytes := Flat(SymbolBytes(w, a + b));
      FlatSome(w, a + b);
      FindBehind(t, bytes, []);
      assert bytes + [] == bytes;
      StandsSomewhere(s, data, t, bytes, c);
      FindHere(Walk(t, bytes).value);
      HeldIsAdded(s, w, adds, t, a + b, data, if c.valuePos.Some? then c.valuePos.value else 0);
    } else {
      assert a + b == a;
    }
  }

  lemma StandsSomewhere(s: Schema, data: seq<byte>, t: Tree, bytes: seq<byte>, c: Cursor)
    requires Stands(s, data, t, bytes, c)
    ensures WellFormed(t) && Walk(t, bytes).Some?
  {
  }

  /** The empty key's value of tails of `a` is that of `a`. */
  lemma TailValue(s: Schema, w: nat, adds: seq<Addition>, t: Tree, a: seq<nat>, trie: CompactTrie)
    requires IsBuilt(s, w, adds, t) && IsAnyKey(w, a) && TailOf(s, w, t, SubtreeBytes(t.sub), a, trie)
    ensures trie.data == SubtreeBytes(t.sub)
    ensures LastAdded(w, adds, a) == None <==> trie.emptyValue == None
  {
    hide Flat, SymbolBytes, Walk, WellFormed, Tight, Packed, SubtreeBytes, Find, Log, LastValue, LastAdded, HoldsAt, Reads, EmptyValue;
    var data := SubtreeBytes(t.sub);
    HeldIsAdded(s, w, adds, t, a, data, 0);
    if a == [] {
      EmptyValueHolds(s, t);
      EmptyBytes(w);
    } else {
      var bytes := Flat(SymbolBytes(w, a));
      FindBehind(t, bytes, []);
      assert bytes + [] == bytes;
      FindHere(Walk(t, bytes).value);
    }
  }

  /** A new iterator goes on from where its trie does, the whole one or tails. */
  lemma StartGoesOn(s: Schema, w: nat, t: Tree, data: seq<byte>, a: seq<nat>, trie: CompactTrie)
    requires TailOf(s, w, t, data, a, trie)
    ensures GoesOnAt(s, data, t, Flat(SymbolBytes(w, a)), Cursor(Some(trie.start), None))
  {
  }
}
