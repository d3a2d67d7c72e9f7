/** The builder, the saved bytes and the searches put together. */
module TrieEndToEnd {
  import opened Wrappers
  import opened Bytes
  import opened Packers
  import opened TrieTree
  import opened TrieCodec
  import opened TrieMap
  import opened TrieReader
  import opened TrieRoundTrip
  import opened TriePaths
  import opened TrieEmptyKey
  import opened TrieHistory
  import opened TrieSearch
  import opened TrieForks
  import opened TrieOrder
  import opened TrieItems
  import opened TrieIterator
  import opened TrieVisit
  import opened TrieBuilder

  /** No addition throws. */
  ghost predicate Accepts(grouped: bool, unique: bool, s: Schema, w: nat, adds: seq<Addition>)
    requires w > 0 && AreAdditions(s, w, adds)
  {
    BuildKeys(grouped, s, w, adds).Some? && (unique ==> NoneFound(grouped, s, w, adds))
  }

  lemma NextBuilt(grouped: bool, s: Schema, w: nat, adds: seq<Addition>, n: nat)
    requires w > 0 && AreAdditions(s, w, adds) && n < |adds| && BuildKeys(grouped, s, w, adds[..n]).Some?
    ensures IsAddition(s, w, adds[n])
    ensures BuildKeys(grouped, s, w, adds[..n + 1]) ==
      AddKey(grouped, w, BuildKeys(grouped, s, w, adds[..n]).value, adds[n].key, Pack(s, adds[n].value))
  {
    hide AddKey, Pack, Typed, Measure;
    assert IsAddition(s, w, adds[n]);
    assert adds[..n + 1][..n] == adds[..n];
  }

  lemma StartsEmpty(grouped: bool, s: Schema, w: nat, adds: seq<Addition>)
    requires AreAdditions(s, w, adds)
    ensures adds[..0] == [] && BuildKeys(grouped, s, w, adds[..0]) == Some(EMPTY)
  {
  }

  lemma AdditionOf(s: Schema, w: nat, a: Addition)
    requires IsAddition(s, w, a)
    ensures IsAnyKey(w, a.key) && Typed(s, a.value) && Measure(s, a.value) < TWO_64
  {
  }

  /** Add the pairs one by one, up to the first exception. */
  method AddAll(b: Builder, adds: seq<Addition>) returns (ok: bool)
    requires b.Valid() && b.Root() == EMPTY && b.width > 0 && AreAdditions(b.packer, b.width, adds)
    requires b.grouped ==> AllTake(true, b.packer, b.width, adds, Pow(256, 8))
    modifies b`entryCount, b`nodes, b`tree, b.nodes
    ensures b.Valid() && fresh(b.nodes - old(b.nodes))
    ensures ok <==> Accepts(b.grouped, b.unique, b.packer, b.width, adds)
    ensures ok ==> Some(b.Root()) == BuildKeys(b.grouped, b.packer, b.width, adds)
    ensures ok ==> b.entryCount == old(b.entryCount) + |adds|
  {
    hide AddKey, Pack, Typed, Measure, KeyBytes, Find, Builder.Valid, BuildKeys, Size, Pow, IsAnyKey;
    ghost var s, w, grouped, n0 := b.packer, b.width, b.grouped, b.nodes;
    StartsEmpty(grouped, s, w, adds);
    b.TreeOfRoot();
    for i := 0 to |adds|
      invariant b.Valid() && fresh(b.nodes - n0) && b.entryCount == old(b.entryCount) + i
      invariant b.root in b.tree && BuildKeys(grouped, s, w, adds[..i]) == Some(b.Root())
      invariant b.unique ==> forall n | 0 <= n < i :: Missing(BuildKeys(grouped, s, w, adds[..n]), KeyBytes(w, adds[n].key))
    {
      NextBuilt(grouped, s, w, adds, i);
      AdditionOf(s, w, adds[i]);
      assert grouped ==> Takes(BuildKeys(grouped, s, w, adds[..i]), Pow(256, 8));
      var r := b.AddEntry(adds[i].key, adds[i].value);
      b.TreeOfRoot();
      if r.BadInputOrder? {
        FailedStaysFailed(grouped, s, w, adds, i + 1);
        return false;
      }
      if r.DuplicateKey? {
        return false;
      }
    }
    assert adds[..|adds|] == adds;
    ok := true;
  }

  lemma FewerTake(grouped: bool, s: Schema, w: nat, adds: seq<Addition>)
    requires AreAdditions(s, w, adds) && AllTake(grouped, s, w, adds, Pow(256, 7))
    ensures AllTake(grouped, s, w, adds, Pow(256, 8))
  {
    hide BuildKeys, Size;
    assert Pow(256, 8) == 256 * Pow(256, 7);
    forall n | 0 <= n <= |adds| ensures Takes(BuildKeys(grouped, s, w, adds[..n]), Pow(256, 8)) {
      assert Takes(BuildKeys(grouped, s, w, adds[..n]), Pow(256, 7));
    }
  }

  lemma WholeTakes(grouped: bool, s: Schema, w: nat, adds: seq<Addition>)
    requires AreAdditions(s, w, adds) && AllTake(grouped, s, w, adds, Pow(256, 7))
    ensures Takes(BuildKeys(grouped, s, w, adds), Pow(256, 7))
    ensures Pow(256, 7) < Pow(256, 8)
  {
    hide BuildKeys, Size;
    assert adds[..|adds|] == adds;
    assert Pow(256, 8) == 256 * Pow(256, 7);
    assert Pow(256, 7) > 0;
  }

  /** What the bytes answer, told from the additions. */
  lemma Joined(grouped: bool, unique: bool, s: Schema, w: nat, adds: seq<Addition>, key: seq<nat>)
    requires IsAnyKey(w, key) && AreAdditions(s, w, adds) && Unhidden(s, w, adds)
    requires AllTake(grouped, s, w, adds, Pow(256, 7))
    ensures Accepts(grouped, unique, s, w, adds) <==>
      Build(grouped, Log(s, w, adds)).Some? && (unique ==> NoneTwice(w, adds))
    ensures BuildKeys(grouped, s, w, adds) == Build(grouped, Log(s, w, adds))
    ensures Build(grouped, Log(s, w, adds)).Some? ==>
      var data := SubtreeBytes(Build(grouped, Log(s, w, adds)).value.sub);
      && PrefixAgrees(s, w, adds, data, key, LongestPrefix(s, w, Opened(data), key))
      && LastAdded(w, adds, key) ==
           match FindIn(s, w, Opened(data), key) case None => None case Some(p) => Some(Unpack(s, data, p))
  {
    hide BuildKeys, SubtreeBytes, PrefixAgrees, LongestPrefix, Opened, Build, Log, FindIn, NoneFound, NoneTwice, Unpack, LastAdded, Pow;
    HistoryIsLog(grouped, s, w, adds);
    WholeTakes(grouped, s, w, adds);
    if Build(grouped, Log(s, w, adds)).Some? {
      DuplicatesAreFound(grouped, s, w, adds);
      SavedPrefixIsLongest(grouped, s, w, adds, key);
      SavedFindIsMap(grouped, s, w, adds, key);
    }
  }

  /** Build a trie, save it and open the bytes. */
  method SaveAndOpen(grouped: bool, unique: bool, s: Schema, w: nat, adds: seq<Addition>)
      returns (ok: bool, trie: CompactTrie)
    requires w > 0 && AreAdditions(s, w, adds) && AllTake(grouped, s, w, adds, Pow(256, 7))
    ensures ok <==> Accepts(grouped, unique, s, w, adds)
    ensures ok ==> trie == Opened(SubtreeBytes(BuildKeys(grouped, s, w, adds).value.sub))
  {
    hide Builder.Valid, AllTake, SubtreeBytes, Pow, BuildKeys, NoneFound, EmptyValue;
    var b := new Builder(grouped, unique, s, w);
    FewerTake(grouped, s, w, adds);
    ok := AddAll(b, adds);
    trie := CompactTrie([], 0, None);
    if ok {
      WholeTakes(grouped, s, w, adds);
      b.TreeOfRoot();
      var os := new Output();
      var size := b.Save(os);
      assert os.data == SubtreeBytes(b.Root().sub);
      trie := Init(os.data);
    }
  }

  /** Build a trie, save it, open the bytes and search them. The builder throws only for keys in
      bad order, which only a prefix-grouped one minds, and for keys that come twice, which only
      a unique one minds; and unless an empty key was hidden, the search finds the longest
      prefix added and the value last added under the whole key. */
  method SaveAndSearch(grouped: bool, unique: bool, s: Schema, w: nat, adds: seq<Addition>, key: seq<nat>)
      returns (ok: bool, data: seq<byte>, prefix: Prefix, value: Option<Value>)
    requires IsAnyKey(w, key) && AreAdditions(s, w, adds) && AllTake(grouped, s, w, adds, Pow(256, 7))
    ensures Unhidden(s, w, adds) ==>
      (ok <==> Build(grouped, Log(s, w, adds)).Some? && (unique ==> NoneTwice(w, adds)))
    ensures Unhidden(s, w, adds) && ok ==> PrefixAgrees(s, w, adds, data, key, prefix)
    ensures Unhidden(s, w, adds) && ok ==> value == LastAdded(w, adds, key)
  {
    hide AllTake, SubtreeBytes, Pow, PrefixAgrees, LastAdded, Build, Log, LongestPrefix, BuildKeys, NoneFound, Unhidden, EmptyValue;
    if Unhidden(s, w, adds) {
      Joined(grouped, unique, s, w, adds, key);
    }
    var trie;
    ok, trie := SaveAndOpen(grouped, unique, s, w, adds);
    data, prefix, value := trie.data, Prefix(0, None, false), None;
    if ok {
      prefix := LookupLongestPrefix(s, w, trie, key);
      value := FindValue(s, w, trie, key);
    }
  }

  lemma Accepted(grouped: bool, unique: bool, s: Schema, w: nat, adds: seq<Addition>)
    requires w > 0 && AreAdditions(s, w, adds) && Unhidden(s, w, adds)
    ensures Accepts(grouped, unique, s, w, adds) <==>
      Build(grouped, Log(s, w, adds)).Some? && (unique ==> NoneTwice(w, adds))
  {
    hide BuildKeys, Build, Log, NoneFound, NoneTwice, Unhidden;
    HistoryIsLog(grouped, s, w, adds);
    if Build(grouped, Log(s, w, adds)).Some? {
      DuplicatesAreFound(grouped, s, w, adds);
    }
  }

  /** The tree that a search or an iterator of the opened trie goes by. */
  lemma SavedTree(grouped: bool, s: Schema, w: nat, adds: seq<Addition>) returns (t: Tree, f: Forks)
    requires w > 0 && AreAdditions(s, w, adds) && Unhidden(s, w, adds) && AllTake(grouped, s, w, adds, Pow(256, 7))
    requires BuildKeys(grouped, s, w, adds).Some?
    ensures IsSaved(s, w, adds, t, SubtreeBytes(BuildKeys(grouped, s, w, adds).value.sub), f)
    ensures f.Fork? ==> t.sub.ArcSet? && var n := |t.sub.arcs|;
      && n > 0 && f.label_ == t.sub.arcs[n / 2].text[0] && (f.right.Nil? <==> n / 2 + 1 == n)
  {
    hide BuildKeys, SubtreeBytes, Unhidden, AllTake, Pow, IsBuilt, ForksOf, Reads;
    WholeTakes(grouped, s, w, adds);
    t := BuiltTree(grouped, s, w, adds);
    f := SavedForks(s, w, adds, t);
  }

  /** Build a trie, save it, open the bytes and go through them from Begin to End. */
  method SaveAndVisit(grouped: bool, unique: bool, s: Schema, w: nat, adds: seq<Addition>)
      returns (ok: bool, keys: seq<seq<nat>>, values: seq<Value>)
    requires w > 0 && AreAdditions(s, w, adds) && Unhidden(s, w, adds) && AllTake(grouped, s, w, adds, Pow(256, 7))
    ensures ok <==> Build(grouped, Log(s, w, adds)).Some? && (unique ==> NoneTwice(w, adds))
    ensures ok ==> Visited(w, adds, keys, values)
  {
    hide BuildKeys, SubtreeBytes, Unhidden, AllTake, Pow, IsSaved, Build, Log, NoneTwice, NoneFound, EmptyValue, Visited;
    Accepted(grouped, unique, s, w, adds);
    var trie;
    ok, trie := SaveAndOpen(grouped, unique, s, w, adds);
    keys, values := [], [];
    if ok {
      ghost var t, f := SavedTree(grouped, s, w, adds);
      keys, values := VisitAll(s, w, trie, adds, t, f);
    }
  }

  /** Build a trie, save it, open the bytes and ask for the smallest key not below another. The
      answer is right exactly unless the keys added begin with one byte or two and the other key
      with a greater one. */
  method SaveAndSeek(grouped: bool, unique: bool, s: Schema, w: nat, adds: seq<Addition>, key: seq<nat>)
      returns (ok: bool, found: Option<(seq<nat>, Value)>)
    requires IsAnyKey(w, key) && AreAdditions(s, w, adds) && Unhidden(s, w, adds) && AllTake(grouped, s, w, adds, Pow(256, 7))
    ensures ok <==> Build(grouped, Log(s, w, adds)).Some? && (unique ==> NoneTwice(w, adds))
    ensures ok ==> (SmallestNotBelow(w, adds, key, found) <==> !FewBelow(w, adds, key))
    ensures ok && FewBelow(w, adds, key) ==> found.Some? && SmallestNotBelow(w, adds, [], found)
  {
    hide BuildKeys, SubtreeBytes, Unhidden, AllTake, Pow, IsSaved, Build, Log, NoneTwice, NoneFound, EmptyValue, FewBelow,
         SmallestNotBelow, IsBound, Standing, TImpl.At, Items;
    Accepted(grouped, unique, s, w, adds);
    var trie;
    ok, trie := SaveAndOpen(grouped, unique, s, w, adds);
    found := None;
    if ok {
      ghost var t, f := SavedTree(grouped, s, w, adds);
      found := Seek(s, w, trie, key, adds, t, f);
    }
  }
}
