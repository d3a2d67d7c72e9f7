/** The keys in the forks of saved bytes are the keys that were added, in ascending order. */
module TrieItems {
  import opened Wrappers
  import opened Bytes
  import opened Packers
  import opened TrieTree
  import opened TrieCodec
  import opened TrieMap
  import opened TrieReader
  import opened TrieRoundTrip
  import opened TrieCanonical
  import opened TrieHistory
  import opened TrieSearch
  import opened TrieForks
  import opened TrieOrder
  import opened TrieBounds

  // ---- forks against the tree ----

  /** The search by label bytes has reached the fork `g`. */
  ghost predicate LeapAgrees(s: Schema, data: seq<byte>, leap: Leap, g: Forks) {
    match g
    case Nil => leap.NoArc?
    case Fork(pos, label_, leaf, left, next, right) =>
      && leap.Matched?
      && (leaf == if IsFinalFlag(leap.flags) then Some(leap.pos) else None)
      && (next.Fork? <==> IsNextFlag(leap.flags))
      && (next.Fork? ==>
           next.pos == TraverseEpsilon(data, if leaf.Some? then leap.pos + Skip(s, data, leap.pos) else leap.pos))
      && Holds(s, data, next) && Searchable(next, -1, 256)
  }

  /** Forks are reached as the search by label bytes reaches them. */
  lemma {:induction false} LeapIsFork(s: Schema, data: seq<byte>, f: Forks, lo: int, hi: int, b: byte)
    requires f.Fork? && Holds(s, data, f) && Searchable(f, lo, hi)
    ensures LeapAgrees(s, data, LeapFrom(data, f.pos, b), ForkOf(f, b))
    decreases f
  {
    hide TraverseEpsilon, Skip, LeapFrom, IsFinalFlag, IsNextFlag, Holds, Searchable, LeapAgrees, ReadNode;
    ForkParts(s, data, f, lo, hi);
    LeapTurns(s, data, f, b);
    assert ForkOf(Nil, b) == Nil;
    if b < f.label_ {
      if f.left.Fork? {
        LeapIsFork(s, data, f.left, lo, f.label_ as int, b);
      } else {
        NoLeap(s, data);
      }
    } else if b > f.label_ {
      if f.right.Fork? {
        LeapIsFork(s, data, f.right, f.label_ as int, hi, b);
      } else {
        NoLeap(s, data);
      }
    } else {
      LeapHere(s, data, f, LeapFrom(data, f.pos, b));
    }
  }

  lemma NoLeap(s: Schema, data: seq<byte>)
    ensures LeapAgrees(s, data, NoArc, Nil)
  {
  }

  lemma LeapHere(s: Schema, data: seq<byte>, f: Forks, leap: Leap)
    requires f.Fork? && leap.Matched? && Holds(s, data, f.next) && Searchable(f.next, -1, 256)
    requires f.leaf == if IsFinalFlag(leap.flags) then Some(leap.pos) else None
    requires f.next.Fork? <==> IsNextFlag(leap.flags)
    requires f.next.Fork? ==>
      f.next.pos == TraverseEpsilon(data, if f.leaf.Some? then leap.pos + Skip(s, data, leap.pos) else leap.pos)
    ensures LeapAgrees(s, data, leap, f)
  {
  }

  lemma ForkParts(s: Schema, data: seq<byte>, f: Forks, lo: int, hi: int)
    requires f.Fork? && Holds(s, data, f) && Searchable(f, lo, hi)
    ensures f.pos + 1 < |data| && ReadNode(s, data, f.pos) == NodeOf(f) && (f.leaf.Some? || f.next.Fork?)
    ensures NotFirst(f.left) && NotFirst(f.next) && NotFirst(f.right)
    ensures Holds(s, data, f.left) && Holds(s, data, f.next) && Holds(s, data, f.right)
    ensures Searchable(f.left, lo, f.label_ as int) && Searchable(f.right, f.label_ as int, hi) && Searchable(f.next, -1, 256)
  {
    hide ReadNode, NodeOf;
  }

  lemma LeapTurns(s: Schema, data: seq<byte>, f: Forks, b: byte)
    requires f.Fork? && f.pos + 1 < |data| && ReadNode(s, data, f.pos) == NodeOf(f) && (f.leaf.Some? || f.next.Fork?)
    requires NotFirst(f.left) && NotFirst(f.next) && NotFirst(f.right)
    ensures var flags := ByteAt(data, f.pos);
      var q := f.pos + 2 + LeftOffsetLen(flags) + RightOffsetLen(flags);
      && LeapFrom(data, f.pos, b) == (
           if b < f.label_ then if f.left.Nil? then NoArc else LeapFrom(data, f.left.pos, b)
           else if b > f.label_ then if f.right.Nil? then NoArc else LeapFrom(data, f.right.pos, b)
           else Matched(flags, q))
      && (f.leaf == if IsFinalFlag(flags) then Some(q) else None)
      && (f.next.Fork? <==> IsNextFlag(flags))
      && (f.next.Fork? ==> f.next.pos == TraverseEpsilon(data, if f.leaf.Some? then q + Skip(s, data, q) else q))
  {
    hide TraverseEpsilon, Skip;
    var flags := ByteAt(data, f.pos);
    EpsilonAhead(data);
    assert !IsEpsilonLink(flags);
    var leftward := OffsetAt(data, f.pos + 2, LeftOffsetLen(flags));
    var rightward := OffsetAt(data, f.pos + 2 + LeftOffsetLen(flags), RightOffsetLen(flags));
    assert Ahead(f.pos, leftward) == PosOf(f.left) && Ahead(f.pos, rightward) == PosOf(f.right);
  }

  lemma EpsilonAhead(data: seq<byte>)
    ensures forall p: nat :: TraverseEpsilon(data, p) >= p
  {
  }

  /** Looking a key up in the forks is looking it up in the tree. */
  lemma {:induction false} FindItemIsFind(s: Schema, data: seq<byte>, t: Tree, f: Forks, lo: int, hi: int, key: seq<byte>)
    requires f.Fork? && Holds(s, data, f) && Searchable(f, lo, hi) && Reads(s, data, f.pos, t) && key != []
    ensures match Find(t, key)
      case None => FindItem(f, key) == None
      case Some(payload) => FindItem(f, key).Some? && HoldsAt(s, data, FindItem(f, key).value, payload)
    decreases |key|
  {
    hide Holds, Searchable, Reads, LeapFrom, Find, Follow, WellFormed, StandsAt, IsPacked, Skip, TraverseEpsilon, IsFinalFlag, IsNextFlag;
    ReadsWellFormed(s, data, f.pos, t);
    LeapIsFork(s, data, f, lo, hi, key[0]);
    Step(s, data, f.pos, t, key[0]);
    FindFollows(t, key);
    if Follow(t, key[0]).Some? {
      var u, g, leap := Follow(t, key[0]).value, ForkOf(f, key[0]), LeapFrom(data, f.pos, key[0]);
      FollowKeepsWellFormed(t, key[0]);
      NoKeyLeft(u);
      if u.IsFinal() {
        PackedSkips(s, u.payload.value, data, leap.pos);
      }
      if |key| == 1 {
        assert key[1..] == [];
        Ends(u);
      } else if u.IsLast() {
        Ends(u);
        FindNothing(u, key[1..]);
        FindNil(key[1..]);
      } else {
        NoPayload(u);
        NoEpsilon(s, data, leap.pos + |PayloadBytes(u)|, u);
        FindItemIsFind(s, data, u, g.next, -1, 256, key[1..]);
      }
    }
  }

  lemma Ends(u: Tree)
    ensures Find(u, []) == u.payload
    ensures Proper(u) ==> WellFormed(u)
  {
  }

  lemma NoPayload(u: Tree)
    ensures !u.IsFinal() ==> PayloadBytes(u) == []
  {
  }

  // ---- forks against the additions ----

  /** The forks of the saved bytes of a tree, and none for no bytes. */
  ghost predicate ForksOf(s: Schema, data: seq<byte>, f: Forks) {
    && Holds(s, data, f) && Searchable(f, -1, 256) && PosOf(f) == 0
    && (f.Nil? <==> data == [])
    && EmptyValue(data) == FindItem(f, [0])
  }

  lemma SavedForks(s: Schema, w: nat, adds: seq<Addition>, t: Tree) returns (f: Forks)
    requires IsBuilt(s, w, adds, t)
    ensures ForksOf(s, SubtreeBytes(t.sub), f)
    ensures f.Nil? <==> t.IsLast()
    ensures f.Fork? ==> t.sub.ArcSet? && var n := |t.sub.arcs|;
      && n > 0 && f.label_ == t.sub.arcs[n / 2].text[0] && (f.right.Nil? <==> n / 2 + 1 == n)
    ensures !t.IsLast() ==> Reads(s, SubtreeBytes(t.sub), 0, t)
  {
    hide SubtreeBytes, Holds, Searchable, LastValue, Find, Tight, EmptyValue, FindItem, Pow;
    var data := SubtreeBytes(t.sub);
    AllStands(data);
    if t.IsLast() {
      f := Nil;
      NoBytes(t);
      NoForks(s, data, 0);
      NothingSearchable();
      FindNil([0]);
      NoEmptyValue();
    } else {
      SomeBytes(t);
      NodeIsGood(s, t);
      WholeRange(t);
      var n := |t.sub.arcs|;
      f := RangeForks(s, data, 0, t.sub, 0, n);
      Wider(f, t.sub.arcs[0].text[0] as int - 1, t.sub.arcs[n - 1].text[0] as int + 1, -1, 256);
      EmptyItem(s, data, f);
    }
  }

  lemma NoEmptyValue()
    ensures EmptyValue([]) == None
  {
  }

  lemma EmptyItem(s: Schema, data: seq<byte>, f: Forks)
    requires f.Fork? && f.pos == 0 && Holds(s, data, f) && Searchable(f, -1, 256)
    ensures EmptyValue(data) == FindItem(f, [0])
  {
    hide Holds, Searchable, LeapFrom;
    LeapIsFork(s, data, f, -1, 256, 0);
  }

  /** The items are the keys that were added, with their values. */
  lemma ItemsAreAdded(s: Schema, w: nat, adds: seq<Addition>, t: Tree, f: Forks, key: seq<nat>)
    requires IsBuilt(s, w, adds, t) && IsAnyKey(w, key) && ForksOf(s, SubtreeBytes(t.sub), f)
    requires (f.Nil? <==> t.IsLast()) && (!t.IsLast() ==> Reads(s, SubtreeBytes(t.sub), 0, t))
    ensures match LastAdded(w, adds, key)
      case None => forall pos: nat :: Item(KeyBytes(w, key), pos) !in Items(f)
      case Some(v) => exists pos: nat :: Item(KeyBytes(w, key), pos) in Items(f) && Unpack(s, SubtreeBytes(t.sub), pos) == v
  {
    hide SubtreeBytes, Holds, Searchable, LastValue, Find, Tight, EmptyValue, FindItem, Pow, KeyBytes, Items, LastAdded, Unpack, HoldsAt, Reads;
    var data, bytes := SubtreeBytes(t.sub), KeyBytes(w, key);
    forall pos: nat ensures Item(bytes, pos) in Items(f) <==> FindItem(f, bytes) == Some(pos) {
      ItemsFound(f, -1, 256, bytes, pos);
    }
    HeldIsAdded(s, w, adds, t, key, data, 0);
    if f.Nil? {
      FindNil(bytes);
      FindNothing(t, bytes);
    } else {
      FindItemIsFind(s, data, t, f, -1, 256, bytes);
      if FindItem(f, bytes).Some? {
        HeldIsAdded(s, w, adds, t, key, data, FindItem(f, bytes).value);
      }
    }
  }

  /** Every item is some key that was added. */
  lemma ItemIsKey(s: Schema, w: nat, adds: seq<Addition>, t: Tree, f: Forks, i: nat) returns (k: nat)
    requires IsBuilt(s, w, adds, t) && ForksOf(s, SubtreeBytes(t.sub), f) && i < |Items(f)|
    requires (f.Nil? <==> t.IsLast()) && (!t.IsLast() ==> Reads(s, SubtreeBytes(t.sub), 0, t))
    ensures k < |adds| && IsAnyKey(w, adds[k].key) && KeyBytes(w, adds[k].key) == Items(f)[i].key
  {
    hide SubtreeBytes, Holds, Searchable, LastValue, Find, Tight, EmptyValue, FindItem, Pow, Items, HoldsAt, Reads, Log, KeyBytes, TrieOrder.Ascending;
    var data, item := SubtreeBytes(t.sub), Items(f)[i];
    ItemsAscend(f, -1, 256);
    ItemsIs(f);
    ItemsFound(f, -1, 256, item.key, item.pos);
    FindItemIsFind(s, data, t, f, -1, 256, item.key);
    k := LoggedUnder(Log(s, w, adds), item.key);
    LogAt(s, w, adds, k);
  }
}
