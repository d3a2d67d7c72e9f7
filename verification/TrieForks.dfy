/** The forks of the ordered iterator: TNode reads one in the saved bytes, and all of them make a
    search tree over the bytes of the keys. */
module TrieForks {
  import opened Wrappers
  import opened Bytes
  import opened Packers
  import opened TrieTree
  import opened TrieCodec
  import opened TrieReader

  /** TNode: the label at `offset`, where the other nodes are (0 if there is none) and where the
      value of the key that ends here. */
  datatype TNode = TNode(offset: nat, label_: byte, left: nat, right: nat, forward: nat, leaf: Option<nat>)

  function Ahead(offset: nat, distance: nat): nat {
    if distance == 0 then 0 else offset + distance
  }

  function ReadNode(s: Schema, data: seq<byte>, offset: nat): TNode {
    var flags := ByteAt(data, offset);
    var leftsize, rightsize := LeftOffsetLen(flags), RightOffsetLen(flags);
    var datapos := offset + 2 + leftsize + rightsize;
    var end := if IsFinalFlag(flags) then datapos + Skip(s, data, datapos) else datapos;
    TNode(offset, ByteAt(data, offset + 1),
      Ahead(offset, OffsetAt(data, offset + 2, leftsize)),
      Ahead(offset, OffsetAt(data, offset + 2 + leftsize, rightsize)),
      if IsNextFlag(flags) then TraverseEpsilon(data, end) else 0,
      if IsFinalFlag(flags) then Some(datapos) else None)
  }

  /** A fork with the forks to its left, behind its label and to its right. */
  datatype Forks = Nil | Fork(pos: nat, label_: byte, leaf: Option<nat>, left: Forks, next: Forks, right: Forks)

  function PosOf(f: Forks): nat {
    if f.Fork? then f.pos else 0
  }

  function NodeOf(f: Forks): TNode
    requires f.Fork?
  {
    TNode(f.pos, f.label_, PosOf(f.left), PosOf(f.right), PosOf(f.next), f.leaf)
  }

  /** The saved bytes read as these forks; two bytes of each are there, and no fork but the first
      is at the start. */
  ghost predicate Holds(s: Schema, data: seq<byte>, f: Forks) {
    f.Fork? ==>
      && f.pos + 1 < |data| && ReadNode(s, data, f.pos) == NodeOf(f)
      && NotFirst(f.left) && NotFirst(f.next) && NotFirst(f.right)
      && Holds(s, data, f.left) && Holds(s, data, f.next) && Holds(s, data, f.right)
  }

  predicate NotFirst(f: Forks) {
    f.Fork? ==> f.pos > 0
  }

  /** Labels ascend from left to right, and a key ends at or behind every fork. */
  ghost predicate Searchable(f: Forks, lo: int, hi: int) {
    f.Fork? ==>
      && lo < f.label_ as int < hi && (f.leaf.Some? || f.next.Fork?)
      && Searchable(f.left, lo, f.label_ as int) && Searchable(f.right, f.label_ as int, hi)
      && Searchable(f.next, -1, 256)
  }

  lemma {:induction false} Wider(f: Forks, lo: int, hi: int, lo': int, hi': int)
    requires Searchable(f, lo, hi) && lo' <= lo && hi <= hi'
    ensures Searchable(f, lo', hi')
  {
    if f.Fork? {
      Wider(f.left, lo, f.label_ as int, lo', f.label_ as int);
      Wider(f.right, f.label_ as int, hi, f.label_ as int, hi');
    }
  }

  /** How many forks a search for one byte can come by. */
  function Looks(f: Forks): nat {
    if f.Nil? then 0
    else 1 + if Looks(f.left) < Looks(f.right) then Looks(f.right) else Looks(f.left)
  }

  /** The binary digits of a number. */
  function Digits(n: nat): nat {
    if n == 0 then 0 else 1 + Digits(n / 2)
  }

  lemma {:induction false} DigitsGrow(a: nat, b: nat)
    requires a <= b
    ensures Digits(a) <= Digits(b)
  {
    if a > 0 {
      DigitsGrow(a / 2, b / 2);
    }
  }

  lemma HalvesLook(f: Forks, n: nat)
    requires f.Fork? && n > 0 && Looks(f.left) <= Digits(n / 2) && Looks(f.right) <= Digits((n - 1) / 2)
    ensures Looks(f) <= Digits(n)
  {
    DigitsGrow((n - 1) / 2, n / 2);
  }

  // ---- reading saved arcs as forks ----

  ghost predicate GoodRange(s: Schema, sub: Subtree) {
    WellFormed(Tree(None, sub)) && Packed(s, Tree(None, sub))
  }

  lemma {:induction false} RangeForks(s: Schema, data: seq<byte>, p: nat, sub: Subtree, from: nat, to: nat) returns (f: Forks)
    requires GoodRange(s, sub) && from < to <= |sub.arcs|
    requires StandsAt(data, p, RangeBytes(sub, from, to)) && |RangeBytes(sub, from, to)| < Pow(256, 7)
    ensures f.Fork? && f.pos == p && Holds(s, data, f)
    ensures Searchable(f, sub.arcs[from].text[0] as int - 1, sub.arcs[to - 1].text[0] as int + 1)
    ensures f.label_ == sub.arcs[(from + to) / 2].text[0] && (f.right.Nil? <==> (from + to) / 2 + 1 == to)
    ensures Looks(f) <= Digits(to - from)
    decreases sub, if to >= from then to - from else 0
  {
    hide RangeBytes, ArcBody, OffsetLength, SubtreeBytes, StandsAt, LeftOffset, RightOffset, Holds, Searchable, ArcRead, Packed, Proper, Pow,
         Digits;
    var m := (from + to) / 2;
    var arc, left, right := sub.arcs[m], Nil, Nil;
    var lo, ro := ReadRange(data, p, sub, from, to);
    NoForks(s, data, arc.text[0]);
    var least, most := sub.arcs[from].text[0] as int - 1, sub.arcs[to - 1].text[0] as int + 1;
    if from < m {
      left := RangeForks(s, data, p + lo, sub, from, m);
      Wider(left, least, sub.arcs[m - 1].text[0] as int + 1, least, arc.text[0] as int);
    }
    if m + 1 < to {
      right := RangeForks(s, data, p + ro, sub, m + 1, to);
      Wider(right, sub.arcs[m + 1].text[0] as int - 1, most, arc.text[0] as int, most);
    }
    NothingSearchable();
    GoodArc(s, sub, m);
    f := ArcForks(s, data, p, arc.text, arc.node, lo, ro, left, right, least, most);
    HalvesLook(f, to - from);
  }

  lemma NothingSearchable()
    ensures forall lo, hi :: Searchable(Nil, lo, hi)
  {
  }

  lemma NoForks(s: Schema, data: seq<byte>, b: byte)
    ensures Holds(s, data, Nil) && PosOf(Nil) == 0 && Looks(Nil) == 0
  {
  }

  lemma GoodArc(s: Schema, sub: Subtree, i: nat)
    requires GoodRange(s, sub) && i < |sub.arcs|
    ensures Proper(sub.arcs[i].node) && Packed(s, sub.arcs[i].node)
  {
  }

  /** An arc's label, a fork a byte, and the forks of its node. */
  lemma {:induction false} ArcForks(s: Schema, data: seq<byte>, p: nat, text: Label, node: Tree, lo: nat, ro: nat,
      left: Forks, right: Forks, least: int, most: int) returns (f: Forks)
    requires Proper(node) && Packed(s, node) && ArcRead(data, p, text, node, lo, ro)
    requires StandsAt(data, p + 2 + OffsetLength(lo) + OffsetLength(ro), ArcBody(text, node))
    requires |ArcBody(text, node)| < Pow(256, 7)
    requires Holds(s, data, left) && Holds(s, data, right) && PosOf(left) == Ahead(p, lo) && PosOf(right) == Ahead(p, ro)
    requires (left.Fork? <==> lo > 0) && (right.Fork? <==> ro > 0)
    requires least < text[0] as int < most && Searchable(left, least, text[0] as int) && Searchable(right, text[0] as int, most)
    ensures f.Fork? && f.pos == p && f.label_ == text[0] && f.left == left && f.right == right
    ensures Holds(s, data, f) && Searchable(f, least, most)
    decreases node, |text|
  {
    hide RangeBytes, ArcBody, OffsetLength, SubtreeBytes, StandsAt, Packed, Proper, Pow, LeftOffset, RightOffset, Skip,
         Holds, Searchable, ReadNode, ArcRead, PayloadBytes;
    var q := p + 2 + OffsetLength(lo) + OffsetLength(ro);
    var leaf, next := if |text| == 1 && node.IsFinal() then Some(q) else None, Nil;
    NothingSearchable();
    NoForks(s, data, text[0]);
    if |text| > 1 {
      BodyOfLabel(data, q, text, node);
      next := ArcForks(s, data, q, text[1..], node, 0, 0, Nil, Nil, -1, 256);
      NotEpsilon(data, q, text[1..], node, 0, 0);
    } else {
      BodyOfNode(data, q, text, node);
      LeafSize(s, data, q, node);
      if node.IsLast() {
        LastHasLeaf(node);
      } else {
        next := NodeForks(s, data, q + |PayloadBytes(node)|, node);
      }
    }
    f := Fork(p, text[0], leaf, left, next, right);
    NodeReads(s, data, p, text, node, lo, ro, f);
    ForkHolds(s, data, f, least, most);
  }

  lemma ForkHolds(s: Schema, data: seq<byte>, f: Forks, least: int, most: int)
    requires f.Fork? && f.pos + 1 < |data| && ReadNode(s, data, f.pos) == NodeOf(f)
    requires Holds(s, data, f.left) && Holds(s, data, f.next) && Holds(s, data, f.right)
    requires NotFirst(f.left) && NotFirst(f.next) && NotFirst(f.right) && (f.leaf.Some? || f.next.Fork?)
    requires least < f.label_ as int < most && Searchable(f.next, -1, 256)
    requires Searchable(f.left, least, f.label_ as int) && Searchable(f.right, f.label_ as int, most)
    ensures Holds(s, data, f) && Searchable(f, least, most)
  {
    hide ReadNode, NodeOf;
  }

  /** What TNode reads of an arc's label byte. */
  lemma NodeReads(s: Schema, data: seq<byte>, p: nat, text: Label, node: Tree, lo: nat, ro: nat, f: Forks)
    requires ArcRead(data, p, text, node, lo, ro) && f.Fork? && f.pos == p && f.label_ == text[0]
    requires PosOf(f.left) == Ahead(p, lo) && PosOf(f.right) == Ahead(p, ro)
    requires var q := p + 2 + OffsetLength(lo) + OffsetLength(ro);
      && f.leaf == (if |text| == 1 && node.IsFinal() then Some(q) else None)
      && (f.leaf.Some? ==> Skip(s, data, q) == |PayloadBytes(node)|)
      && if |text| == 1 && node.IsLast() then f.next == Nil
         else
           && PosOf(f.next) == (if f.leaf.Some? then q + |PayloadBytes(node)| else q)
           && TraverseEpsilon(data, PosOf(f.next)) == PosOf(f.next)
    ensures p + 1 < |data| && ReadNode(s, data, p) == NodeOf(f)
  {
    hide OffsetLength, Skip, PayloadBytes, TraverseEpsilon;
  }

  lemma LeafSize(s: Schema, data: seq<byte>, q: nat, node: Tree)
    requires Packed(s, node) && StandsAt(data, q, PayloadBytes(node))
    ensures node.IsFinal() ==> Skip(s, data, q) == |PayloadBytes(node)|
    ensures !node.IsFinal() ==> PayloadBytes(node) == []
  {
    hide Skip, StandsAt, IsPacked;
    if node.IsFinal() {
      PackedSkips(s, node.payload.value, data, q);
    }
  }

  lemma LastHasLeaf(node: Tree)
    requires Proper(node) && node.IsLast()
    ensures node.IsFinal()
  {
  }

  /** The forks of a node that has arcs, which do not begin with an epsilon link. */
  lemma {:induction false} NodeForks(s: Schema, data: seq<byte>, p: nat, node: Tree) returns (f: Forks)
    requires Proper(node) && Packed(s, node) && !node.IsLast()
    requires StandsAt(data, p, SubtreeBytes(node.sub)) && |SubtreeBytes(node.sub)| < Pow(256, 7)
    ensures f.Fork? && f.pos == p && Holds(s, data, f) && Searchable(f, -1, 256)
    ensures TraverseEpsilon(data, p) == p
    decreases node, 0
  {
    hide RangeBytes, ArcBody, OffsetLength, SubtreeBytes, StandsAt, Holds, Searchable, Packed, Pow, LeftOffset, RightOffset, ArcRead;
    var n := |node.sub.arcs|;
    NodeIsGood(s, node);
    WholeRange(node);
    f := RangeForks(s, data, p, node.sub, 0, n);
    Wider(f, node.sub.arcs[0].text[0] as int - 1, node.sub.arcs[n - 1].text[0] as int + 1, -1, 256);
    var lo, ro := ReadRange(data, p, node.sub, 0, n);
    NotEpsilon(data, p, node.sub.arcs[n / 2].text, node.sub.arcs[n / 2].node, lo, ro);
  }

  lemma NodeIsGood(s: Schema, node: Tree)
    requires WellFormed(node) && Packed(s, node)
    ensures GoodRange(s, node.sub)
  {
    assert forall i | 0 <= i < |node.sub.arcs| :: Packed(s, node.sub.arcs[i].node);
  }

  lemma NotEpsilon(data: seq<byte>, p: nat, text: Label, node: Tree, lo: nat, ro: nat)
    requires Proper(node) && ArcRead(data, p, text, node, lo, ro)
    ensures TraverseEpsilon(data, p) == p
  {
  }

  lemma BodyOfLabel(data: seq<byte>, q: nat, text: Label, node: Tree)
    requires |text| > 1 && StandsAt(data, q, ArcBody(text, node)) && |ArcBody(text, node)| < Pow(256, 7)
    ensures ArcRead(data, q, text[1..], node, 0, 0)
    ensures StandsAt(data, q + 2 + OffsetLength(0) + OffsetLength(0), ArcBody(text[1..], node))
    ensures |ArcBody(text[1..], node)| < Pow(256, 7)
  {
    hide StandsAt, ArcBytes, Pow, SubtreeBytes, ArcRead, PayloadBytes;
    BodyIsArc(text, node);
    ReadArc(data, q, text[1..], node, 0, 0);
  }

  lemma BodyIsArc(text: Label, node: Tree)
    requires |text| > 1
    ensures ArcBody(text, node) == ArcBytes(text[1..], node, 0, 0)
    ensures LeftOffset(text[1..], node, 0, 0) == 0 == RightOffset(text[1..], node, 0, 0)
  {
  }

  lemma BodyOfNode(data: seq<byte>, q: nat, text: Label, node: Tree)
    requires |text| == 1 && StandsAt(data, q, ArcBody(text, node))
    ensures StandsAt(data, q, PayloadBytes(node)) && StandsAt(data, q + |PayloadBytes(node)|, SubtreeBytes(node.sub))
    ensures |SubtreeBytes(node.sub)| <= |ArcBody(text, node)|
  {
    hide SubtreeBytes;
    StandsAtSplit(data, q, PayloadBytes(node), SubtreeBytes(node.sub));
  }
}
