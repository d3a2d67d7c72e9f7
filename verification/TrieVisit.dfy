/** Going through a saved trie from Begin to End, and to the smallest key not below another. */
module TrieVisit {
  import opened Wrappers
  import opened Bytes
  import opened Packers
  import opened TrieTree
  import opened TrieCodec
  import opened TrieMap
  import opened TrieReader
  import opened TrieRoundTrip
  import opened TrieCanonical
  import opened TrieHistory
  import opened TrieSearch
  import opened TrieForks
  import opened TrieOrder
  import opened TrieBounds
  import opened TrieItems
  import opened TrieIterator

  /** The saved bytes of the tree that the additions left, and their forks. */
  ghost predicate IsSaved(s: Schema, w: nat, adds: seq<Addition>, t: Tree, data: seq<byte>, f: Forks) {
    && IsBuilt(s, w, adds, t) && data == SubtreeBytes(t.sub) && ForksOf(s, data, f)
    && (f.Nil? <==> t.IsLast()) && (!t.IsLast() ==> Reads(s, data, 0, t))
  }

  /** A key of one zero byte comes first, and is the empty key that Init has found. */
  lemma SavedFits(s: Schema, w: nat, adds: seq<Addition>, t: Tree, data: seq<byte>, f: Forks)
    requires IsSaved(s, w, adds, t, data, f)
    ensures Fits(s, data, EmptyValue(data), f) && w > 0
    ensures EmptyValue(data).Some? ==> Items(f) != [] && Items(f)[0] == Item([0], EmptyValue(data).value)
  {
    hide SubtreeBytes, Holds, Searchable, Items, EmptyValue, FindItem, IsBuilt, Reads, Less;
    BuiltWidth(s, w, adds, t);
    ItemsAscend(f, -1, 256);
    if Items(f) != [] {
      ItemsFound(f, -1, 256, Items(f)[0].key, Items(f)[0].pos);
    }
    if EmptyValue(data).Some? {
      var pos := EmptyValue(data).value;
      ItemsFound(f, -1, 256, [0], pos);
      var k :| 0 <= k < |Items(f)| && Items(f)[k] == Item([0], pos);
      LeastIsFirst(Items(f)[0].key, Items(f)[k].key);
    }
  }

  lemma BuiltWidth(s: Schema, w: nat, adds: seq<Addition>, t: Tree)
    requires IsBuilt(s, w, adds, t)
    ensures w > 0
  {
  }

  // ---- from Begin to End ----

  /** All keys that were added, once each, in ascending order of their bytes, with their last
      values. */
  ghost predicate Visited(w: nat, adds: seq<Addition>, keys: seq<seq<nat>>, values: seq<Value>)
    requires w > 0
  {
    && |keys| == |values|
    && (forall k | 0 <= k < |keys| :: IsAnyKey(w, keys[k]) && LastAdded(w, adds, keys[k]) == Some(values[k]))
    && (forall i, j | 0 <= i < j < |keys| :: Less(KeyBytes(w, keys[i]), KeyBytes(w, keys[j])))
    && (forall key | IsAnyKey(w, key) && LastAdded(w, adds, key).Some? :: Among(w, keys, key))
  }

  ghost predicate Among(w: nat, keys: seq<seq<nat>>, key: seq<nat>) {
    exists k | 0 <= k < |keys| :: SameKey(w, keys[k], key)
  }

  /** What the iterator shows on the `k`-th key. */
  ghost predicate Shows(s: Schema, w: nat, data: seq<byte>, item: Item, key: seq<nat>, value: Value)
    requires w > 0
  {
    key == Widen(w, Shown(item.key)) && value == Unpack(s, data, item.pos)
  }

  lemma ShownKey(s: Schema, w: nat, adds: seq<Addition>, t: Tree, data: seq<byte>, f: Forks, k: nat, key: seq<nat>, value: Value)
    requires IsSaved(s, w, adds, t, data, f) && k < |Items(f)| && w > 0
    requires Shows(s, w, data, Items(f)[k], key, value)
    ensures IsAnyKey(w, key) && KeyBytes(w, key) == Items(f)[k].key && LastAdded(w, adds, key) == Some(value)
  {
    hide SubtreeBytes, Holds, Searchable, Items, EmptyValue, FindItem, IsBuilt, Reads, Widen, Unpack, LastAdded, KeyBytes;
    var i := ItemIsKey(s, w, adds, t, f, k);
    var item := Items(f)[k];
    EmptyBytes(w);
    if item.key == [0] {
      WidenNothing(w);
    } else {
      BytesOfKey(w, adds[i].key);
      WidenFlat(w, adds[i].key);
    }
    ItemsAreAdded(s, w, adds, t, f, key);
    forall pos: nat ensures Item(item.key, pos) in Items(f) ==> pos == item.pos {
      SomeKeyBytes(w, key);
      ItemsFound(f, -1, 256, item.key, pos);
      ItemsFound(f, -1, 256, item.key, item.pos);
    }
  }

  lemma BytesOfKey(w: nat, key: seq<nat>)
    requires w > 0
    ensures key != [] ==> KeyBytes(w, key) == Flat(SymbolBytes(w, key))
    ensures key == [] ==> KeyBytes(w, key) == [0]
  {
  }

  lemma SomeKeyBytes(w: nat, key: seq<nat>)
    requires w > 0
    ensures KeyBytes(w, key) != []
  {
  }

  lemma AllVisited(s: Schema, w: nat, adds: seq<Addition>, t: Tree, data: seq<byte>, f: Forks,
      keys: seq<seq<nat>>, values: seq<Value>)
    requires IsSaved(s, w, adds, t, data, f) && w > 0 && |keys| == |values| == |Items(f)|
    requires forall k | 0 <= k < |keys| :: Shows(s, w, data, Items(f)[k], keys[k], values[k])
    ensures Visited(w, adds, keys, values)
  {
    hide SubtreeBytes, Holds, Searchable, Items, EmptyValue, FindItem, IsBuilt, Reads, Shows, LastAdded, KeyBytes, Less, SameKey, Unpack;
    forall k | 0 <= k < |keys|
      ensures IsAnyKey(w, keys[k]) && KeyBytes(w, keys[k]) == Items(f)[k].key && LastAdded(w, adds, keys[k]) == Some(values[k])
    {
      ShownKey(s, w, adds, t, data, f, k, keys[k], values[k]);
    }
    ItemsAscend(f, -1, 256);
    forall key | IsAnyKey(w, key) && LastAdded(w, adds, key).Some? ensures Among(w, keys, key) {
      ItemsAreAdded(s, w, adds, t, f, key);
      var pos: nat :| Item(KeyBytes(w, key), pos) in Items(f);
      var k :| 0 <= k < |Items(f)| && Items(f)[k] == Item(KeyBytes(w, key), pos);
      SameKeySameBytes(w, keys[k], key);
    }
  }

  /** for (it = Begin(); it != End(); ++it): what Print shows and Size counts. */
  method VisitAll(s: Schema, w: nat, trie: CompactTrie, ghost adds: seq<Addition>, ghost t: Tree, ghost f: Forks)
      returns (keys: seq<seq<nat>>, values: seq<Value>)
    requires IsSaved(s, w, adds, t, trie.data, f) && trie == Opened(trie.data) && w > 0
    ensures Visited(w, adds, keys, values)
  {
    hide IsBuilt, SubtreeBytes, Holds, Searchable, Items, EmptyValue, FindItem, Reads, Widen, Unpack, Less, IsSaved, TImpl.At, Visited, StackAt;
    SavedFits(s, w, adds, t, trie.data, f);
    var it := new TImpl(s, w, trie.data, trie.emptyValue, false, f);
    var end := new TImpl(s, w, trie.data, trie.emptyValue, true, f);
    keys, values := [], [];
    ghost var i := 0;
    it.Ended(0);
    end.Ended(end.Count());
    var atEnd := it.Equals(end);
    while !atEnd
      invariant fresh(it) && fresh(end) && it.packer == s && it.width == w && it.data == trie.data && it.root == f
      invariant it.emptyValue == trie.emptyValue && it.Shift() == 0
      invariant it.At(i) && |keys| == |values| == i <= it.Count() == |Items(f)| && (atEnd <==> i == it.Count())
      invariant end.data == it.data && end.emptyValue == it.emptyValue && end.forks == [] && !end.atEmptyValue
      invariant forall k | 0 <= k < i :: Shows(s, w, trie.data, Items(f)[k], keys[k], values[k])
      decreases it.Count() - i
    {
      it.EmptyIsFirst(i);
      var key := it.GetKey(i);
      var value := it.GetValue(i);
      assert Shows(s, w, trie.data, Items(f)[i], key, value);
      keys, values := keys + [key], values + [value];
      var _ := it.Forward(i);
      i := i + 1;
      it.Ended(i);
      atEnd := it.Equals(end);
    }
    AllVisited(s, w, adds, t, trie.data, f, keys, values);
  }

  // ---- the smallest key not below another ----

  /** The keys that were added begin with one byte or two, and the key with a greater one. */
  ghost predicate FewBelow(w: nat, adds: seq<Addition>, key: seq<nat>)
    requires w > 0
  {
    && key != [] && adds != []
    && exists a: byte, b: byte :: BeginWith(w, adds, a, b) && a < KeyBytes(w, key)[0] && b < KeyBytes(w, key)[0]
  }

  ghost predicate BeginWith(w: nat, adds: seq<Addition>, a: byte, b: byte)
    requires w > 0
  {
    forall i | 0 <= i < |adds| :: KeyBytes(w, adds[i].key)[0] == a || KeyBytes(w, adds[i].key)[0] == b
  }

  /** An added key goes through every arc of the root, and every added key through one. */
  lemma ArcHasKey(s: Schema, w: nat, adds: seq<Addition>, t: Tree, i: nat) returns (k: nat)
    requires IsBuilt(s, w, adds, t) && i < |t.sub.arcs|
    ensures k < |adds| && KeyBytes(w, adds[k].key)[0] == t.sub.arcs[i].text[0]
  {
    hide SubtreeBytes, LastValue, Find, Pow, Packed, KeyBytes, Log;
    var rest := KeyThrough(t, i);
    k := LoggedUnder(Log(s, w, adds), t.sub.arcs[i].text + rest);
    LogAt(s, w, adds, k);
  }

  lemma KeyHasArc(s: Schema, w: nat, adds: seq<Addition>, t: Tree, k: nat) returns (i: nat)
    requires IsBuilt(s, w, adds, t) && k < |adds|
    ensures t.sub.ArcSet? && i < |t.sub.arcs| && t.sub.arcs[i].text[0] == KeyBytes(w, adds[k].key)[0]
  {
    hide SubtreeBytes, LastValue, Find, Pow, Packed, KeyBytes, Log;
    LogAt(s, w, adds, k);
    StaysLogged(Log(s, w, adds), k);
    var key := KeyBytes(w, adds[k].key);
    FoundHasArc(t, key);
    i := LowerBound(t.sub.arcs, key[0]);
  }

  lemma ArcsAscend(s: Schema, w: nat, adds: seq<Addition>, t: Tree)
    requires IsBuilt(s, w, adds, t)
    ensures t.sub.ArcSet? && Sorted(t.sub.arcs) && (t.IsLast() <==> t.sub.arcs == [])
  {
  }

  lemma RestartsIsFew(s: Schema, w: nat, adds: seq<Addition>, t: Tree, data: seq<byte>, f: Forks, key: seq<nat>)
    requires IsSaved(s, w, adds, t, data, f) && w > 0
    requires f.Fork? ==> t.sub.ArcSet? && var n := |t.sub.arcs|;
      && n > 0 && f.label_ == t.sub.arcs[n / 2].text[0] && (f.right.Nil? <==> n / 2 + 1 == n)
    ensures FewBelow(w, adds, key) <==>
      key != [] && f.Fork? && f.right.Nil? && KeyBytes(w, key)[0] > f.label_
  {
    hide SubtreeBytes, Holds, Searchable, Reads, IsBuilt, KeyBytes, ForksOf;
    ArcsAscend(s, w, adds, t);
    if f.Nil? {
      if adds != [] {
        var i := KeyHasArc(s, w, adds, t, 0);
      }
    } else {
      SomeKeyBytes(w, key);
      var arcs, n := t.sub.arcs, |t.sub.arcs|;
      var k0 := ArcHasKey(s, w, adds, t, 0);
      if key != [] && f.right.Nil? && KeyBytes(w, key)[0] > f.label_ {
        FewArcs(s, w, adds, t);
      }
      if FewBelow(w, adds, key) {
        var a, b :| BeginWith(w, adds, a, b) && a < KeyBytes(w, key)[0] && b < KeyBytes(w, key)[0];
        forall i | 0 <= i < n ensures arcs[i].text[0] == a || arcs[i].text[0] == b {
          var k := ArcHasKey(s, w, adds, t, i);
        }
        AtMostTwo(arcs, a, b);
      }
    }
  }

  lemma AtMostTwo(arcs: seq<Arc>, a: byte, b: byte)
    requires Sorted(arcs) && forall i | 0 <= i < |arcs| :: arcs[i].text[0] == a || arcs[i].text[0] == b
    ensures |arcs| <= 2
  {
    if |arcs| > 2 {
      ThreeDiffer(arcs);
    }
  }

  lemma ThreeDiffer(arcs: seq<Arc>)
    requires Sorted(arcs) && |arcs| > 2
    ensures arcs[0].text[0] < arcs[1].text[0] < arcs[2].text[0]
  {
  }

  lemma FewArcs(s: Schema, w: nat, adds: seq<Addition>, t: Tree)
    requires w > 0 && IsBuilt(s, w, adds, t) && t.sub.ArcSet? && Sorted(t.sub.arcs)
    requires var n := |t.sub.arcs|; n > 0 && n / 2 + 1 == n
    ensures var n := |t.sub.arcs|;
      && BeginWith(w, adds, t.sub.arcs[0].text[0], t.sub.arcs[n - 1].text[0])
      && t.sub.arcs[0].text[0] <= t.sub.arcs[n - 1].text[0] == t.sub.arcs[n / 2].text[0]
  {
    hide SubtreeBytes, KeyBytes, IsBuilt;
    forall k | 0 <= k < |adds|
      ensures KeyBytes(w, adds[k].key)[0] == t.sub.arcs[0].text[0] || KeyBytes(w, adds[k].key)[0] == t.sub.arcs[|t.sub.arcs| - 1].text[0]
    {
      var i := KeyHasArc(s, w, adds, t, k);
    }
  }

  /** `i` keys are below `key`, and the others are not. */
  ghost predicate IsBound(w: nat, f: Forks, key: seq<nat>, i: nat)
    requires w > 0
  {
    Splits(Items(f), KeyBytes(w, key), i)
  }

  /** UpperBound stands on the smallest key not below the argument, or at the end if there is none,
      exactly unless the added keys begin with one byte or two and the argument with a greater
      one; then it stands on the first key. */
  method UpperBound(s: Schema, w: nat, trie: CompactTrie, key: seq<nat>, ghost adds: seq<Addition>, ghost t: Tree, ghost f: Forks)
      returns (it: TImpl, ghost i: nat)
    requires IsSaved(s, w, adds, t, trie.data, f) && trie == Opened(trie.data) && IsAnyKey(w, key)
    requires f.Fork? ==> t.sub.ArcSet? && var n := |t.sub.arcs|;
      && n > 0 && f.label_ == t.sub.arcs[n / 2].text[0] && (f.right.Nil? <==> n / 2 + 1 == n)
    ensures it.packer == s && it.width == w && it.data == trie.data && it.emptyValue == trie.emptyValue && it.root == f
    ensures it.At(i) && i <= it.Count() == |Items(f)| && it.Shift() == 0
    ensures IsBound(w, f, key, i) <==> !FewBelow(w, adds, key)
    ensures FewBelow(w, adds, key) ==> i == 0
  {
    hide IsBuilt, SubtreeBytes, Holds, Searchable, Items, EmptyValue, FindItem, Reads, Less, IsSaved, TImpl.At, StackAt, FewBelow, KeyBytes,
         LowerIndex, ForksOf;
    SavedFits(s, w, adds, t, trie.data, f);
    it := new TImpl.FromKey(s, w, trie.data, trie.emptyValue, key, f);
    i := it.UpperIndex(key);
    it.EmptyIsFirst(i);
    RestartsIsFew(s, w, adds, t, trie.data, f, key);
    BoundIsRight(s, w, adds, t, trie.data, f, key);
  }

  lemma BoundIsRight(s: Schema, w: nat, adds: seq<Addition>, t: Tree, data: seq<byte>, f: Forks, key: seq<nat>)
    requires IsSaved(s, w, adds, t, data, f) && IsAnyKey(w, key)
    ensures key == [] ==> IsBound(w, f, key, 0)
    ensures key != [] ==> Flat(SymbolBytes(w, key)) == KeyBytes(w, key) != []
    ensures key != [] ==> IsBound(w, f, key, LowerIndex(f, KeyBytes(w, key)))
    ensures key != [] && f.Fork? && f.right.Nil? && KeyBytes(w, key)[0] > f.label_ ==> !IsBound(w, f, key, 0)
    ensures f.Nil? ==> Items(f) == []
  {
    hide SubtreeBytes, Holds, Searchable, Reads, IsBuilt, KeyBytes, Less, Items, LowerIndex, EmptyValue, FindItem;
    ItemsAscend(f, -1, 256);
    ItemsIs(f);
    SomeKeyBytes(w, key);
    BytesOfKey(w, key);
    if key == [] {
      NoneBelowZero(Items(f));
    } else {
      var q := KeyBytes(w, key);
      LowerIs(f, -1, 256, q);
      if f.Fork? && f.right.Nil? && q[0] > f.label_ {
        SearchableIsFull(f, -1, 256);
        SomeItems(f);
        FirstBelow(f, q);
      }
    }
  }

  lemma NoneBelowZero(items: seq<Item>)
    requires Within(items, -1, 256)
    ensures Splits(items, [0], 0)
  {
    hide Less;
    forall i | 0 <= i < |items| ensures !Less(items[i].key, [0]) {
      NotBelowZero(items[i].key);
    }
  }

  lemma NotBelowZero(a: seq<byte>)
    requires a != []
    ensures !Less(a, [0])
  {
    assert [0][1..] == [];
  }

  /** All keys up to the label of the root are below a key that begins with a greater byte. */
  lemma FirstBelow(f: Forks, q: seq<byte>)
    requires f.Fork? && f.right.Nil? && q != [] && q[0] > f.label_ && Searchable(f, -1, 256) && Full(f)
    ensures Items(f) != [] && !Splits(Items(f), q, 0)
  {
    hide Items, Searchable, Full;
    SomeItems(f);
    LowerIs(f, -1, 256, q);
    CountItems(f);
    RightBound(f, q);
    LessOrNot(Items(f), q, LowerIndex(f, q));
  }

  lemma RightBound(f: Forks, q: seq<byte>)
    requires f.Fork? && f.right.Nil? && q != [] && q[0] > f.label_
    ensures LowerIndex(f, q) == |Items(f)|
  {
    CountItems(f);
  }

  lemma LessOrNot(items: seq<Item>, q: seq<byte>, k: nat)
    requires Splits(items, q, k) && k > 0
    ensures !Splits(items, q, 0)
  {
    hide Less;
    assert Less(items[0].key, q);
  }

  /** The smallest key that was added and is not below `key`, with its last value, or none. */
  ghost predicate SmallestNotBelow(w: nat, adds: seq<Addition>, key: seq<nat>, found: Option<(seq<nat>, Value)>)
    requires w > 0
  {
    match found
    case None => forall k | IsAnyKey(w, k) && LastAdded(w, adds, k).Some? :: Less(KeyBytes(w, k), KeyBytes(w, key))
    case Some((k0, v)) =>
      && IsAnyKey(w, k0) && LastAdded(w, adds, k0) == Some(v) && !Less(KeyBytes(w, k0), KeyBytes(w, key))
      && forall k | IsAnyKey(w, k) && LastAdded(w, adds, k).Some? && !Less(KeyBytes(w, k), KeyBytes(w, key)) ::
           !Less(KeyBytes(w, k), KeyBytes(w, k0))
  }

  /** What stands at a position. */
  ghost predicate Standing(s: Schema, w: nat, data: seq<byte>, f: Forks, i: nat, found: Option<(seq<nat>, Value)>)
    requires w > 0
  {
    match found
    case None => i == |Items(f)|
    case Some((k, v)) => i < |Items(f)| && Shows(s, w, data, Items(f)[i], k, v)
  }

  lemma AddedIsItem(s: Schema, w: nat, adds: seq<Addition>, t: Tree, data: seq<byte>, f: Forks, key: seq<nat>) returns (j: nat)
    requires IsSaved(s, w, adds, t, data, f) && IsAnyKey(w, key) && LastAdded(w, adds, key).Some?
    ensures j < |Items(f)| && Items(f)[j].key == KeyBytes(w, key)
  {
    hide SubtreeBytes, Holds, Searchable, Reads, IsBuilt, KeyBytes, Items, LastAdded, ForksOf;
    ItemsAreAdded(s, w, adds, t, f, key);
    var pos: nat :| Item(KeyBytes(w, key), pos) in Items(f);
    j :| 0 <= j < |Items(f)| && Items(f)[j] == Item(KeyBytes(w, key), pos);
  }

  lemma ItemIsAdded(s: Schema, w: nat, adds: seq<Addition>, t: Tree, data: seq<byte>, f: Forks, j: nat) returns (key: seq<nat>)
    requires IsSaved(s, w, adds, t, data, f) && j < |Items(f)|
    ensures IsAnyKey(w, key) && LastAdded(w, adds, key).Some? && KeyBytes(w, key) == Items(f)[j].key
  {
    hide SubtreeBytes, Holds, Searchable, Reads, IsBuilt, KeyBytes, Items, LastAdded, ForksOf;
    var k := ItemIsKey(s, w, adds, t, f, j);
    key := adds[k].key;
    StaysAdded(w, adds, k);
  }

  lemma BoundIsSmallest(s: Schema, w: nat, adds: seq<Addition>, t: Tree, data: seq<byte>, f: Forks, key: seq<nat>, i: nat,
      found: Option<(seq<nat>, Value)>)
    requires IsSaved(s, w, adds, t, data, f) && w > 0 && Standing(s, w, data, f, i, found) && IsBound(w, f, key, i)
    ensures SmallestNotBelow(w, adds, key, found)
  {
    hide SubtreeBytes, Holds, Searchable, Reads, IsBuilt, KeyBytes, Items, LastAdded, Less, IsSaved, Shows;
    var q := KeyBytes(w, key);
    SavedAscends(s, w, adds, t, data, f);
    if found.Some? {
      ShownKey(s, w, adds, t, data, f, i, found.value.0, found.value.1);
    }
    forall k | IsAnyKey(w, k) && LastAdded(w, adds, k).Some?
      ensures found.None? ==> Less(KeyBytes(w, k), q)
      ensures found.Some? && !Less(KeyBytes(w, k), q) ==> !Less(KeyBytes(w, k), Items(f)[i].key)
    {
      var j := AddedIsItem(s, w, adds, t, data, f, k);
      if found.Some? {
        LessEither(Items(f)[i].key, Items(f)[j].key);
      }
    }
  }

  lemma SavedAscends(s: Schema, w: nat, adds: seq<Addition>, t: Tree, data: seq<byte>, f: Forks)
    requires IsSaved(s, w, adds, t, data, f)
    ensures TrieOrder.Ascending(Items(f))
  {
    ItemsAscend(f, -1, 256);
  }

  lemma LessEither(a: seq<byte>, b: seq<byte>)
    ensures Less(a, b) ==> !Less(b, a)
    ensures a == b ==> !Less(b, a)
  {
    LessIrreflexive(a);
    if Less(a, b) && Less(b, a) {
      LessTransitive(a, b, a);
    }
  }

  lemma SmallestIsBound(s: Schema, w: nat, adds: seq<Addition>, t: Tree, data: seq<byte>, f: Forks, key: seq<nat>, i: nat,
      found: Option<(seq<nat>, Value)>)
    requires IsSaved(s, w, adds, t, data, f) && w > 0 && Standing(s, w, data, f, i, found)
    requires SmallestNotBelow(w, adds, key, found)
    ensures IsBound(w, f, key, i)
  {
    hide SubtreeBytes, Holds, Searchable, Reads, IsBuilt, KeyBytes, Items, LastAdded, Less, IsSaved, Shows;
    var q := KeyBytes(w, key);
    SavedAscends(s, w, adds, t, data, f);
    if found.Some? {
      ShownKey(s, w, adds, t, data, f, i, found.value.0, found.value.1);
    }
    forall j | 0 <= j < |Items(f)| ensures Less(Items(f)[j].key, q) <==> j < i {
      var k := ItemIsAdded(s, w, adds, t, data, f, j);
      if found.Some? && i < j && Less(Items(f)[j].key, q) {
        LessTransitive(Items(f)[i].key, Items(f)[j].key, q);
      }
    }
  }

  /** UpperBound, and what stands there. */
  method Seek(s: Schema, w: nat, trie: CompactTrie, key: seq<nat>, ghost adds: seq<Addition>, ghost t: Tree, ghost f: Forks)
      returns (found: Option<(seq<nat>, Value)>)
    requires IsSaved(s, w, adds, t, trie.data, f) && trie == Opened(trie.data) && IsAnyKey(w, key)
    requires f.Fork? ==> t.sub.ArcSet? && var n := |t.sub.arcs|;
      && n > 0 && f.label_ == t.sub.arcs[n / 2].text[0] && (f.right.Nil? <==> n / 2 + 1 == n)
    ensures SmallestNotBelow(w, adds, key, found) <==> !FewBelow(w, adds, key)
    ensures FewBelow(w, adds, key) ==> found.Some? && SmallestNotBelow(w, adds, [], found)
  {
    hide IsBuilt, SubtreeBytes, Holds, Searchable, Items, EmptyValue, Reads, Widen, Unpack, IsSaved, TImpl.At, StackAt, FewBelow, IsBound,
         SmallestNotBelow, Shows;
    SavedFits(s, w, adds, t, trie.data, f);
    ghost var i;
    var it;
    it, i := UpperBound(s, w, trie, key, adds, t, f);
    var end := new TImpl(s, w, trie.data, trie.emptyValue, true, f);
    it.Ended(i);
    end.Ended(end.Count());
    var atEnd := it.Equals(end);
    if atEnd {
      found := None;
    } else {
      var k := it.GetKey(i);
      var v := it.GetValue(i);
      it.EmptyIsFirst(i);
      assert Shows(s, w, trie.data, Items(f)[i], k, v) by { ShowsIs(s, w, trie.data, Items(f)[i]); }
      found := Some((k, v));
    }
    if IsBound(w, f, key, i) {
      BoundIsSmallest(s, w, adds, t, trie.data, f, key, i, found);
    }
    if SmallestNotBelow(w, adds, key, found) {
      SmallestIsBound(s, w, adds, t, trie.data, f, key, i, found);
    }
    FewHasKey(s, w, adds, t, trie.data, f, key);
    if FewBelow(w, adds, key) {
      BoundIsRight(s, w, adds, t, trie.data, f, []);
      BoundIsSmallest(s, w, adds, t, trie.data, f, [], i, found);
    }
  }

  lemma ShowsIs(s: Schema, w: nat, data: seq<byte>, item: Item)
    requires w > 0
    ensures Shows(s, w, data, item, Widen(w, Shown(item.key)), Unpack(s, data, item.pos))
  {
  }

  lemma FewHasKey(s: Schema, w: nat, adds: seq<Addition>, t: Tree, data: seq<byte>, f: Forks, key: seq<nat>)
    requires IsSaved(s, w, adds, t, data, f) && w > 0
    ensures FewBelow(w, adds, key) ==> Items(f) != []
  {
    hide SubtreeBytes, Holds, Searchable, Reads, KeyBytes, Items, LastAdded, IsSaved;
    if adds != [] {
      StaysAdded(w, adds, 0);
      FirstIsAny(s, w, adds, t, data, f);
      var j := AddedIsItem(s, w, adds, t, data, f, adds[0].key);
    }
  }

  lemma FirstIsAny(s: Schema, w: nat, adds: seq<Addition>, t: Tree, data: seq<byte>, f: Forks)
    requires IsSaved(s, w, adds, t, data, f) && adds != []
    ensures IsAnyKey(w, adds[0].key)
  {
    assert IsAddition(s, w, adds[0]);
  }
}
