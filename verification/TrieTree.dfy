/** The radix tree that TCompactTrieBuilderImpl grows, as a value, and the map it stands for. */
module TrieTree {
  import opened Wrappers
  import opened Bytes

  type Label = s: seq<byte> | |s| > 0 witness [0]

  datatype Arc = Arc(text: Label, node: Tree)

  /** A node's arcs, or, once a prefix-grouped builder has closed the node, their saved bytes. */
  datatype Subtree = ArcSet(arcs: seq<Arc>) | Buffer(saved: seq<byte>)

  datatype Tree = Tree(payload: Option<seq<byte>>, sub: Subtree) {
    predicate IsFinal() {
      payload.Some?
    }

    predicate IsLast() {
      match sub
      case ArcSet(arcs) => arcs == []
      case Buffer(saved) => saved == []
    }
  }

  const EMPTY := Tree(None, ArcSet([]))

  function Leaf(payload: seq<byte>): Tree {
    Tree(Some(payload), ArcSet([]))
  }

  /** The first arc, from the `from`-th on, whose label does not start below `b`. */
  function LowerBoundFrom(arcs: seq<Arc>, b: byte, from: nat): (i: nat)
    requires from <= |arcs|
    ensures from <= i <= |arcs|
    ensures forall j :: from <= j < i ==> arcs[j].text[0] < b
    ensures i < |arcs| ==> arcs[i].text[0] >= b
    decreases |arcs| - from
  {
    if from == |arcs| || arcs[from].text[0] >= b then from else LowerBoundFrom(arcs, b, from + 1)
  }

  function LowerBound(arcs: seq<Arc>, b: byte): nat {
    LowerBoundFrom(arcs, b, 0)
  }

  predicate HasArc(arcs: seq<Arc>, b: byte) {
    var i := LowerBound(arcs, b);
    i < |arcs| && arcs[i].text[0] == b
  }

  function FindArc(arcs: seq<Arc>, b: byte): Option<Arc> {
    if HasArc(arcs, b) then Some(arcs[LowerBound(arcs, b)]) else None
  }

  /** The length of the longest common prefix. */
  function Common(a: seq<byte>, b: seq<byte>): (c: nat)
    ensures c <= |a| && c <= |b|
    ensures a[..c] == b[..c]
    ensures c < |a| && c < |b| ==> a[c] != b[c]
    ensures a != [] && b != [] && a[0] == b[0] ==> c > 0
  {
    if a == [] || b == [] || a[0] != b[0] then 0
    else
      var c := Common(a[1..], b[1..]);
      assert a[..c + 1] == [a[0]] + a[1..][..c];
      assert b[..c + 1] == [b[0]] + b[1..][..c];
      c + 1
  }

  function Insert(arcs: seq<Arc>, arc: Arc): seq<Arc> {
    var i := LowerBound(arcs, arc.text[0]);
    arcs[..i] + [arc] + arcs[i..]
  }

  /** The node an arc leads to once its label has been cut after `c` bytes. */
  function Cut(arc: Arc, c: nat): Tree
    requires 0 < c <= |arc.text|
  {
    if c < |arc.text| then Tree(None, ArcSet([Arc(arc.text[c..], arc.node)])) else arc.node
  }

  function Find(t: Tree, key: seq<byte>): Option<seq<byte>>
    decreases |key|, 1
  {
    if key == [] then t.payload
    else if t.sub.Buffer? then None
    else FindUnder(FindArc(t.sub.arcs, key[0]), key)
  }

  /** What a key, still to be read with the arc's label, leads to. */
  function FindUnder(arc: Option<Arc>, key: seq<byte>): Option<seq<byte>>
    requires key != []
    decreases |key|, 0
  {
    if arc.Some? && arc.value.text <= key then Find(arc.value.node, key[|arc.value.text|..]) else None
  }

  // ---- well-formed trees ----

  predicate Sorted(arcs: seq<Arc>) {
    forall i, j :: 0 <= i < j < |arcs| ==> arcs[i].text[0] < arcs[j].text[0]
  }

  /** What a binary search needs: even the empty key, stored behind a longer arc of the same
      first byte, keeps it. */
  predicate Ordered(arcs: seq<Arc>) {
    forall i, j :: 0 <= i < j < |arcs| ==> arcs[i].text[0] <= arcs[j].text[0]
  }

  /** No buffers, arcs with distinct first bytes in order, and no arc into a node that is
      neither final nor branching. */
  predicate WellFormed(t: Tree)
    decreases t, 0
  {
    && t.sub.ArcSet?
    && Sorted(t.sub.arcs)
    && forall i :: 0 <= i < |t.sub.arcs| ==> Proper(t.sub.arcs[i].node)
  }

  predicate Proper(t: Tree)
    decreases t, 1
  {
    WellFormed(t) && (t.IsFinal() || !t.IsLast())
  }

  lemma CutKeepsProper(arc: Arc, c: nat)
    requires 0 < c <= |arc.text| && Proper(arc.node)
    ensures WellFormed(Cut(arc, c))
  {
  }

  /** In every proper tree there is a key. */
  lemma {:induction false} SomeKey(t: Tree) returns (key: seq<byte>)
    requires Proper(t)
    ensures Find(t, key).Some?
    decreases t
  {
    if t.IsFinal() {
      key := [];
    } else {
      var arc := t.sub.arcs[0];
      key := SomeKey(arc.node);
      key := arc.text + key;
      BoundIs(t.sub.arcs, arc.text[0], 0);
      assert key[|arc.text|..] == key[|arc.text|..] && arc.text <= key;
      assert key[0] == arc.text[0];
    }
  }

  /** Looking under a cut arc finds what looking under the whole arc found. */
  lemma FindThroughCut(arc: Arc, c: nat, key: seq<byte>)
    requires 0 < c <= |arc.text| && arc.text[..c] <= key
    ensures Find(Cut(arc, c), key[c..]) ==
      if arc.text <= key then Find(arc.node, key[|arc.text|..]) else None
  {
    if c < |arc.text| {
      var rest := arc.text[c..];
      if c < |key| && rest[0] == key[c] {
        assert arc.text == arc.text[..c] + rest;
        assert key == key[..c] + key[c..];
        assert rest <= key[c..] <==> arc.text <= key;
        if rest <= key[c..] {
          assert key[c..][|rest|..] == key[|arc.text|..];
        }
      } else {
        assert c < |key| ==> arc.text[c] != key[c];
      }
    }
  }

  lemma SameFirstBytes(arcs: seq<Arc>, arcs': seq<Arc>, b: byte)
    requires |arcs| == |arcs'|
    requires forall i :: 0 <= i < |arcs| ==> arcs[i].text[0] == arcs'[i].text[0]
    ensures LowerBound(arcs, b) == LowerBound(arcs', b)
  {
    BoundIs(arcs', b, LowerBound(arcs, b));
  }

  lemma BoundIs(arcs: seq<Arc>, b: byte, n: nat)
    requires n <= |arcs|
    requires forall j :: 0 <= j < n ==> arcs[j].text[0] < b
    requires n < |arcs| ==> arcs[n].text[0] >= b
    ensures LowerBound(arcs, b) == n
  {
  }

  lemma InsertIndices(arcs: seq<Arc>, arc: Arc)
    ensures var i, more := LowerBound(arcs, arc.text[0]), Insert(arcs, arc);
      && |more| == |arcs| + 1
      && more[i] == arc
      && (forall k :: 0 <= k < i ==> more[k] == arcs[k])
      && (forall k :: i < k <= |arcs| ==> more[k] == arcs[k - 1])
  {
  }

  lemma InsertKeepsOrdered(arcs: seq<Arc>, arc: Arc)
    requires Ordered(arcs)
    ensures Ordered(Insert(arcs, arc))
  {
    var i, more := LowerBound(arcs, arc.text[0]), Insert(arcs, arc);
    InsertIndices(arcs, arc);
    forall j, k | 0 <= j < k < |more| ensures more[j].text[0] <= more[k].text[0] {
      assert j < i ==> more[j] == arcs[j];
      assert j > i ==> more[j] == arcs[j - 1];
      assert k < i ==> more[k] == arcs[k];
      assert k > i ==> more[k] == arcs[k - 1];
      if i < |arcs| {
        assert arc.text[0] <= arcs[i].text[0];
      }
    }
  }

  lemma InsertKeepsSorted(arcs: seq<Arc>, arc: Arc)
    requires Sorted(arcs) && !HasArc(arcs, arc.text[0])
    ensures Sorted(Insert(arcs, arc))
  {
    var i, more := LowerBound(arcs, arc.text[0]), Insert(arcs, arc);
    InsertIndices(arcs, arc);
    forall j, k | 0 <= j < k < |more| ensures more[j].text[0] < more[k].text[0] {
      assert j < i ==> more[j] == arcs[j];
      assert j > i ==> more[j] == arcs[j - 1];
      assert k < i ==> more[k] == arcs[k];
      assert k > i ==> more[k] == arcs[k - 1];
      if i < |arcs| {
        assert arc.text[0] < arcs[i].text[0];
      }
    }
  }
}
