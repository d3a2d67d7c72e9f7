/** Small tries on which an operation of the reader does not give the answer it is asked for. */
module TrieWitness {
  import opened Wrappers
  import opened Bytes
  import opened Packers
  import opened TrieTree
  import opened TrieCodec
  import opened TrieMap
  import opened TrieRoundTrip
  import opened TriePaths
  import opened TrieEmptyKey
  import opened TrieHistory
  import opened TrieSearch
  import opened TrieTails
  import opened TrieSearchIterator
  import opened TrieVisit

  /** A key of one-byte symbols without a value to speak of. */
  function Key(key: seq<nat>): Addition {
    Addition(key, VNull)
  }

  /** What saves the keys. */
  function SavedBytes(adds: seq<Addition>): seq<byte>
    requires AreAdditions(Null, 1, adds) && BuildKeys(false, Null, 1, adds).Some?
  {
    SubtreeBytes(BuildKeys(false, Null, 1, adds).value.sub)
  }

  lemma OneByte(b: nat)
    requires b < 256
    ensures IsAddition(Null, 1, Key([b])) && IsAnyKey(1, [b]) && KeyBytes(1, [b]) == [b]
    ensures IsAddition(Null, 1, Key([])) && KeyBytes(1, []) == [0]
  {
    assert Pow(256, 1) == 256 * Pow(256, 0);
    assert BigEndian(b, 1) == BigEndian(b / 256, 0) + [b % 256];
    FirstSymbol(1, [b]);
    assert [b][1..] == [];
    assert Flat(SymbolBytes(1, [])) == [];
  }

  /** One arc takes two bytes, and two arcs side by side take five. */
  lemma FewBytes(a: byte, b: byte)
    ensures Size(Tree(None, ArcSet([Arc([a], Leaf([]))]))) == 2
    ensures Size(Tree(None, ArcSet([Arc([a], Leaf([])), Arc([b], Leaf([]))]))) == 5
    ensures 5 < Pow(256, 7)
  {
    var one, two := ArcSet([Arc([a], Leaf([]))]), ArcSet([Arc([a], Leaf([])), Arc([b], Leaf([]))]);
    EmptyRange(one, 0);
    EmptyRange(one, 1);
    EmptyRange(two, 0);
    EmptyRange(two, 1);
    EmptyRange(two, 2);
    NoLeafBytes(a);
    NoLeafBytes(b);
    OffsetsOfFew();
    RangeSize(one, 0, 1);
    RangeSize(two, 0, 1);
    RangeSize(two, 0, 2);
    assert Pow(256, 7) == 256 * Pow(256, 6) && Pow(256, 6) > 0;
  }

  lemma NoLeafBytes(a: byte)
    ensures OwnSize([a], Leaf([])) == 2
  {
    EmptyRange(ArcSet([]), 0);
  }

  lemma OffsetsOfFew()
    ensures WithOffsets(2, 0, 0) == 2 && WithOffsets(2, 2, 0) == 3
  {
    assert OffsetLength(0) == 0 && OffsetLength(2) == 1 && OffsetLength(3) == 1;
  }

  lemma OneAdded(key: seq<nat>, b: byte)
    requires IsAddition(Null, 1, Key(key)) && KeyBytes(1, key) == [b]
    ensures AreAdditions(Null, 1, [Key(key)])
    ensures BuildKeys(false, Null, 1, [Key(key)]) == Some(Tree(None, ArcSet([Arc([b], Leaf([]))])))
    ensures Unhidden(Null, 1, [Key(key)])
  {
    var adds, arc := [Key(key)], Arc([b], Leaf([]));
    assert adds[..0] == [] && BuildKeys(false, Null, 1, adds[..0]) == Some(EMPTY);
    BoundIs([], b, 0);
    assert Insert([], arc) == [arc];
    assert AddKey(false, 1, EMPTY, key, []) == Some(Tree(None, ArcSet([arc]))) by {
      if key == [] {
        assert b == 0;
      } else {
        assert Add(false, EMPTY, [b], []) == Some(Tree(None, ArcSet([arc])));
      }
    }
    NoneHides();
  }

  lemma NoneHides()
    ensures !Hides([])
  {
  }

  /** The empty key and one more. */
  lemma TwoAdded(b: byte)
    requires b > 0
    ensures var adds := [Key([]), Key([b as nat])];
      && AreAdditions(Null, 1, adds) && Unhidden(Null, 1, adds)
      && BuildKeys(false, Null, 1, adds) == Some(Tree(None, ArcSet([Arc([0], Leaf([])), Arc([b], Leaf([]))])))
  {
    OneByte(b as nat);
    OneAdded([], 0);
    var adds, arcs, arc := [Key([]), Key([b as nat])], [Arc([0], Leaf([]))], Arc([b], Leaf([]));
    assert adds[..1] == [Key([])] && adds[..0] == [];
    BoundIs(arcs, b, 1);
    assert Insert(arcs, arc) == [arcs[0], arc];
    assert Add(false, Tree(None, ArcSet(arcs)), [b], []) == Some(Tree(None, ArcSet([arcs[0], arc])));
    NoneHides();
  }

  // ---- the witnesses ----

  /** With "" and "a" added, a search for "x" finds the empty prefix, says that no key goes on, and
      one does. */
  lemma EmptyPrefixIsSilent()
    ensures var adds := [Key([]), Key([97])];
      && AreAdditions(Null, 1, adds) && Unhidden(Null, 1, adds) && BuildKeys(false, Null, 1, adds).Some?
      && var r := LongestPrefix(Null, 1, Opened(SavedBytes(adds)), [120]);
         r.value.Some? && r.length == 0 && !r.hasNext && More(1, adds, [])
  {
    hide LongestPrefix, SubtreeBytes, BuildKeys, Opened, Unhidden, LastAdded, KeyBytes, IsBuilt, GoesOn, Pow;
    var adds := [Key([]), Key([97])];
    TwoAdded(97);
    FewBytes(0, 97);
    OneByte(120);
    LastOfTwo();
    var t := BuiltTree(false, Null, 1, adds);
    SavedPrefixIsLongest(false, Null, 1, adds, [120]);
    NextIsRight(Null, 1, adds, t, [120]);
    assert [120][..1] == [120] && [120][..0] == [];
    assert GoesFurther(1, [], adds[1].key);
  }

  lemma LastOfTwo()
    ensures var adds := [Key([]), Key([97])]; LastAdded(1, adds, []) == Some(VNull) && LastAdded(1, adds, [120]) == None
  {
    var adds := [Key([]), Key([97])];
    assert adds[..1] == [Key([])] && adds[..1][..0] == [] && adds[1].key == [97];
    assert LastAdded(1, adds[..1], []) == Some(VNull);
    assert LastAdded(1, adds[..1], [120]) == LastAdded(1, adds[..1][..0], [120]) == None;
  }

  /** With "a" added, Advance over "ab" reads through null. */
  lemma AdvanceFaults()
    ensures var adds := [Key([97])];
      && AreAdditions(Null, 1, adds) && BuildKeys(false, Null, 1, adds).Some?
      && AdvanceKey(Null, 1, SavedBytes(adds), Cursor(Some(0), None), [97, 98]) == Fault
  {
    hide AdvanceKey, SubtreeBytes, BuildKeys, Unhidden, GoesOnAt, TailOf, EmptyValue;
    var adds := [Key([97])];
    OneByte(97);
    OneByte(98);
    OneAdded([97], 97);
    FewBytes(97, 97);
    var t := BuiltTree(false, Null, 1, adds);
    OpenedIsTail(Null, 1, adds, t);
    StartGoesOn(Null, 1, t, SavedBytes(adds), [], Opened(SavedBytes(adds)));
    assert IsAnyKey(1, [97, 98]) by { assert Pow(256, 1) == 256 * Pow(256, 0); }
    CursorAdvances(Null, 1, adds, t, [], Cursor(Some(0), None), [97, 98]);
    assert [] + [97, 98][..1] == [97];
    assert LastAdded(1, adds, [97]) == Some(VNull);
    assert LeafKey(1, adds, [] + [97, 98][..1]);
  }

  /** With "" added, GetValue at the start says true and reads through null. */
  lemma ValueReadsNull()
    ensures var adds := [Key([])];
      && AreAdditions(Null, 1, adds) && BuildKeys(false, Null, 1, adds).Some? && LastAdded(1, adds, []).Some?
      && GetValueOf(Null, Opened(SavedBytes(adds)), Cursor(Some(0), None)) == NullRead
  {
    hide SubtreeBytes, BuildKeys, Unhidden, EmptyValue;
    var adds := [Key([])];
    OneByte(97);
    OneAdded([], 0);
    FewBytes(0, 0);
    var t := BuiltTree(false, Null, 1, adds);
    EmptyValueHolds(Null, t);
    HeldIsAdded(Null, 1, adds, t, [], [], 0);
    assert LastAdded(1, adds, []) == Some(VNull);
  }

  /** With "a" added, the smallest key not below "b" is said to be "a". */
  lemma BoundRestarts()
    ensures var adds := [Key([97])]; FewBelow(1, adds, [98])
  {
    OneByte(97);
    OneByte(98);
    assert BeginWith(1, [Key([97])], 97, 97);
  }

  /** "\0a" hides the empty key. */
  lemma ZeroHides()
    ensures var adds := [Key([0, 97]), Key([])]; AreAdditions(Null, 1, adds) && !Unhidden(Null, 1, adds)
  {
    hide KeyBytes, IsAddition, Log;
    var adds := [Key([0, 97]), Key([])];
    OneByte(0);
    ZeroA();
    assert IsAddition(Null, 1, adds[0]) && IsAddition(Null, 1, adds[1]);
    assert adds[..1] == [adds[0]];
    var log := Log(Null, 1, adds[..1]);
    LogAt(Null, 1, adds[..1], 0);
    assert log[0].key == [0, 97] && BeginsWithZero(log[0].key);
    assert AllGoOn(log, 97);
  }

  lemma ZeroA()
    ensures IsAddition(Null, 1, Key([0, 97])) && KeyBytes(1, [0, 97]) == [0, 97]
  {
    assert Pow(256, 1) == 256 * Pow(256, 0);
    OneByte(97);
    FirstSymbol(1, [0, 97]);
    assert [0, 97][1..] == [97];
    assert BigEndian(0, 1) == BigEndian(0, 0) + [0] == [0];
  }
}
