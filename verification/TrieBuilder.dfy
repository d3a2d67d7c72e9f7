/** The builder itself: nodes on the heap, arcs split and inserted in place, offsets written
    into the arcs by a measuring pass and read back by the saving pass.

    `tree` is a ghost map from every node to the value tree it is the root of. `Valid` only
    says how each node agrees with its children; a change to one node is carried to the root
    by `Refresh`. */
module TrieBuilder {
  import opened Wrappers
  import opened Bytes
  import opened Packers
  import opened TrieTree
  import opened TrieCodec
  import opened TrieMap
  import opened TrieReader
  import opened TrieRoundTrip
  import opened TriePaths
  import opened TrieEmptyKey

  /** An arc of the heap: TArc with its label, node and the offsets the measuring pass fills. */
  datatype HeapArc = HeapArc(text: Label, node: Node, leftOffset: nat, rightOffset: nat)

  /** TArcSet or TBufferedSubtree. */
  datatype Links = Arcs(links: seq<HeapArc>) | Saved(saved: seq<byte>)

  class Node {
    var payload: Option<seq<byte>>
    var sub: Links
    ghost var parent: Node?

    constructor ()
      ensures payload == None && sub == Arcs([]) && parent == null
    {
      payload, sub, parent := None, Arcs([]), null;
    }
  }

  class Output {
    var data: seq<byte>

    constructor ()
      ensures data == []
    {
      data := [];
    }

    method Write(bs: seq<byte>)
      modifies this
      ensures data == old(data) + bs
    {
      data := data + bs;
    }
  }

  class Builder {
    const grouped: bool
    const unique: bool
    const packer: Schema
    const width: nat
    var root: Node
    var entryCount: nat
    ghost var nodes: set<Node>
    ghost var tree: map<Node, Tree>

    ghost predicate LinkMatches(tr: map<Node, Tree>, n: Node, link: HeapArc, arc: Arc)
      reads this`nodes, nodes
    {
      && link.node in nodes && link.node in tr
      && link.text == arc.text && tr[link.node] == arc.node && link.node.parent == n
    }

    /** Node `n` is the root of `t`, if its children are the roots of what `tr` says. */
    ghost predicate Matches(tr: map<Node, Tree>, n: Node, t: Tree)
      reads this`nodes, nodes
    {
      && n in nodes && n.payload == t.payload
      && (n.payload.Some? ==> IsPacked(packer, n.payload.value))
      && match n.sub
         case Saved(saved) => t.sub == Buffer(saved)
         case Arcs(links) =>
           && t.sub.ArcSet? && |links| == |t.sub.arcs| && Ordered(t.sub.arcs)
           && (forall i :: 0 <= i < |links| ==> LinkMatches(tr, n, links[i], t.sub.arcs[i]))
           && (forall i, j :: 0 <= i < j < |links| ==> links[i].node != links[j].node)
    }

    ghost predicate Valid()
      reads this`root, this`nodes, this`tree, nodes
    {
      && root in nodes && root.parent == null && root.sub.Arcs? && tree.Keys == nodes
      && (forall n :: n in nodes ==> Matches(tree, n, tree[n]))
      && (!grouped ==> forall n :: n in nodes ==> n.sub.Arcs?)
    }

    /** The tree the builder holds. */
    ghost function Root(): Tree
      reads this`root, this`tree
      requires root in tree
    {
      tree[root]
    }

    constructor (grouped: bool, unique: bool, packer: Schema, width: nat)
      ensures Valid() && fresh(nodes) && Root() == EMPTY && entryCount == 0
      ensures this.grouped == grouped && this.unique == unique
      ensures this.packer == packer && this.width == width
    {
      this.grouped, this.unique, this.packer, this.width := grouped, unique, packer, width;
      var n := new Node();
      root, entryCount, nodes, tree := n, 0, {n}, map[n := EMPTY];
    }

    /** The nodes from the root down to the last of `spine`, through the arcs of `path`. */
    ghost predicate OnSpine(spine: seq<Node>, path: seq<nat>)
      reads this`root, this`nodes, nodes
    {
      && |spine| == |path| + 1 && spine[0] == root
      && (forall j :: 0 <= j < |spine| ==> spine[j] in nodes)
      && (forall i, j :: 0 <= i < j < |spine| ==> spine[i] != spine[j])
      && (forall j :: 0 <= j < |path| ==>
            && spine[j].sub.Arcs? && path[j] < |spine[j].sub.links|
            && spine[j].sub.links[path[j]].node == spine[j + 1]
            && spine[j + 1].parent == spine[j])
    }

    /** A node's tree matters only to its parent. */
    lemma OthersStillMatch(tr: map<Node, Tree>, n: Node, t: Tree, m: Node, mt: Tree)
      requires Matches(tr, m, mt) && n.parent != m
      ensures Matches(tr[n := t], m, mt)
    {
    }

    /** A node above a node with a new tree takes that tree in. */
    lemma ParentMatches(tr: map<Node, Tree>, spine: seq<Node>, path: seq<nat>, u: Tree)
      requires OnSpine(spine, path) && path != [] && tr.Keys == nodes
      requires var k := |path| - 1; Matches(tr, spine[k], tr[spine[k]])
      ensures var k := |path| - 1;
        && tr[spine[k]].sub.ArcSet? && path[k] < |tr[spine[k]].sub.arcs|
        && tr[spine[k]].sub.arcs[path[k]].node == tr[spine[k + 1]]
        && Matches(tr[spine[k + 1] := u], spine[k], Put(tr[spine[k]], [path[k]], u))
    {
      var k := |path| - 1;
      var n, i, t := spine[k], path[k], tr[spine[k]];
      var links, arcs, v := n.sub.links, t.sub.arcs, Put(t, [i], u);
      assert LinkMatches(tr, n, links[i], arcs[i]);
      forall j | 0 <= j < |links| ensures LinkMatches(tr[spine[k + 1] := u], n, links[j], v.sub.arcs[j]) {
        assert LinkMatches(tr, n, links[j], arcs[j]);
        assert j != i ==> links[j].node != links[i].node;
      }
    }

    lemma {:induction false} SpineAt(tr: map<Node, Tree>, spine: seq<Node>, path: seq<nat>)
      requires root in nodes && tr.Keys == nodes && OnSpine(spine, path)
      requires forall j :: 0 <= j < |path| ==> Matches(tr, spine[j], tr[spine[j]])
      ensures At(tr[root], path) == Some(tr[spine[|path|]])
      decreases |path|
    {
      if path != [] {
        var k := |path| - 1;
        SpineAt(tr, spine[..k + 1], path[..k]);
        PutDeeper(tr[root], path[..k], path[k], tr[spine[k]]);
        assert path[..k] + [path[k]] == path;
        ParentMatches(tr, spine, path, tr[spine[k + 1]]);
      }
    }

    /** The last node of the spine has become the root of `u`: bring its ancestors up to date. */
    ghost method Refresh(spine: seq<Node>, path: seq<nat>, u: Tree)
      requires root in nodes && root.parent == null && root.sub.Arcs? && tree.Keys == nodes && OnSpine(spine, path)
      requires forall n :: n in nodes && n != spine[|path|] ==> Matches(tree, n, tree[n])
      requires Matches(tree, spine[|path|], u)
      requires !grouped ==> forall n :: n in nodes ==> n.sub.Arcs?
      modifies this`tree
      ensures Valid() && tree[spine[|path|]] == u
      ensures Root() == Put(old(Root()), path, u)
      ensures forall n :: n in nodes && n !in spine ==> tree[n] == old(tree[n])
      decreases |path|
    {
      hide Matches, Put, At;
      var k := |path|;
      var last := spine[k];
      ghost var before := tree;
      tree := tree[last := u];
      forall n | n in nodes && n != last && n != last.parent ensures Matches(tree, n, tree[n]) {
        OthersStillMatch(before, last, u, n, tree[n]);
      }
      NotItsOwnParent(spine, path);
      OthersStillMatch(before, last, u, last, u);
      if k > 0 {
        ParentMatches(before, spine, path, u);
        PutAbove(before, spine, path, u);
        var v := Put(before[spine[k - 1]], [path[k - 1]], u);
        assert spine[0] != last && tree[root] == before[root];
        assert forall n :: n in nodes && n !in spine ==> tree[n] == before[n] && n !in spine[..k];
        Refresh(spine[..k], path[..k - 1], v);
        assert Root() == Put(before[root], path[..k - 1], v);
      } else {
        PutNowhere(before[root], path, u);
      }
    }

    lemma PutNowhere(t: Tree, path: seq<nat>, u: Tree)
      requires path == []
      ensures Put(t, path, u) == u
    {
    }

    lemma NotItsOwnParent(spine: seq<Node>, path: seq<nat>)
      requires root in nodes && root.parent == null && OnSpine(spine, path)
      ensures spine[|path|].parent != spine[|path|]
      ensures path == [] ==> spine[|path|].parent == null
      ensures path != [] ==> OnSpine(spine[..|path|], path[..|path| - 1])
    {
      if path != [] {
        assert spine[|path| - 1] != spine[|path|];
      }
    }

    lemma PutAbove(tr: map<Node, Tree>, spine: seq<Node>, path: seq<nat>, u: Tree)
      requires root in nodes && tr.Keys == nodes && OnSpine(spine, path) && path != []
      requires forall j :: 0 <= j < |path| ==> Matches(tr, spine[j], tr[spine[j]])
      ensures var k := |path| - 1;
        Put(tr[root], path[..k], Put(tr[spine[k]], [path[k]], u)) == Put(tr[root], path, u)
    {
      var k := |path| - 1;
      SpineAt(tr, spine[..k + 1], path[..k]);
      PutDeeper(tr[root], path[..k], path[k], u);
      assert path[..k] + [path[k]] == path;
    }
  
    // ---- measuring ----

    /** The same arcs, whatever their offsets. */
    static ghost predicate SameLinks(a: Links, b: Links) {
      match (a, b)
      case (Saved(x), Saved(y)) => x == y
      case (Arcs(x), Arcs(y)) =>
        |x| == |y| && forall i :: 0 <= i < |x| ==> x[i].text == y[i].text && x[i].node == y[i].node
      case _ => false
    }

    twostate lemma OffsetsDoNotMatter()
      requires old(Valid()) && nodes == old(nodes) && tree == old(tree) && root == old(root)
      requires forall n :: n in nodes ==>
        SameLinks(old(n.sub), n.sub) && n.payload == old(n.payload) && n.parent == old(n.parent)
      ensures Valid()
    {
      forall n | n in nodes ensures Matches(tree, n, tree[n]) {
        assert old(Matches(tree, n, tree[n]));
        if n.sub.Arcs? {
          forall i | 0 <= i < |n.sub.links| ensures LinkMatches(tree, n, n.sub.links[i], tree[n].sub.arcs[i]) {
            assert old(LinkMatches(tree, n, n.sub.links[i], tree[n].sub.arcs[i]));
          }
        }
      }
    }

    /** The sizes of the two halves behind arc `i` of the balanced range `from`..`to`. */
    static ghost function Halves(sub: Subtree, from: nat, to: nat, i: nat): Sizes
      requires sub.ArcSet? && from <= i < to <= |sub.arcs|
      decreases if from <= to then to - from else 0
    {
      var m := (from + to) / 2;
      if i < m then Halves(sub, from, m, i)
      else if i > m then Halves(sub, m + 1, to, i)
      else Sizes(|RangeBytes(sub, from, m)|, |RangeBytes(sub, m + 1, to)|)
    }

    /** Arc `i` of node `n` carries the offsets it has to save. */
    ghost predicate OffsetsRight(n: Node, i: nat)
      reads this`nodes, this`tree, nodes
    {
      && n in nodes && n in tree && n.sub.Arcs? && i < |n.sub.links|
      && tree[n].sub.ArcSet? && |tree[n].sub.arcs| == |n.sub.links|
      && var arc, h := tree[n].sub.arcs[i], Halves(tree[n].sub, 0, |tree[n].sub.arcs|, i);
      && n.sub.links[i].leftOffset == LeftOffset(arc.text, arc.node, h.left, h.right)
      && n.sub.links[i].rightOffset == RightOffset(arc.text, arc.node, h.left, h.right)
    }

    /** A set of nodes, closed under arcs, all of whose offsets are right. */
    ghost predicate Measured(done: set<Node>)
      reads this`nodes, this`tree, nodes
    {
      && done <= nodes
      && forall n :: n in done && n.sub.Arcs? ==>
           forall i :: 0 <= i < |n.sub.links| ==> OffsetsRight(n, i) && n.sub.links[i].node in done
    }

    method NodeMeasureLeafValue(n: Node) returns (size: nat)
      requires Valid() && n in nodes
      ensures size == |PayloadBytes(tree[n])|
    {
      if n.payload.None? {
        return 0;
      }
      size := Skip(packer, n.payload.value, 0);
      PackedSkips(packer, n.payload.value, n.payload.value, 0);
    }

    method NodeMeasureSubtree(n: Node, ghost done: set<Node>) returns (size: nat, ghost done': set<Node>)
      requires Valid() && n in nodes && Measured(done)
      requires |SubtreeBytes(tree[n].sub)| < Pow(256, 8)
      modifies nodes`sub
      ensures Valid() && forall m :: m in nodes ==> SameLinks(old(m.sub), m.sub)
      ensures forall m, i :: m in nodes && old(OffsetsRight(m, i)) ==> OffsetsRight(m, i)
      ensures size == |SubtreeBytes(tree[n].sub)|
      ensures Measured(done') && done <= done' && n in done'
      decreases tree[n], 2, 0
    {
      hide RangeBytes, ArcBytes, Halves, OffsetsRight, Pow;
      match n.sub
      case Saved(saved) =>
        size, done' := |saved|, done + {n};
      case Arcs(links) =>
        size, done' := MeasureRange(n, 0, |links|, done);
        done' := done' + {n};
    }

    method MeasureRange(n: Node, from: nat, to: nat, ghost done: set<Node>)
        returns (size: nat, ghost done': set<Node>)
      requires Valid() && n in nodes && n.sub.Arcs? && Measured(done)
      requires from <= to <= |n.sub.links|
      requires |RangeBytes(tree[n].sub, from, to)| < Pow(256, 8)
      requires forall i :: from <= i < to ==>
        Halves(tree[n].sub, 0, |n.sub.links|, i) == Halves(tree[n].sub, from, to, i)
      modifies nodes`sub
      ensures Valid() && forall m :: m in nodes ==> SameLinks(old(m.sub), m.sub)
      ensures forall m, i :: m in nodes && old(OffsetsRight(m, i)) ==> OffsetsRight(m, i)
      ensures size == |RangeBytes(tree[n].sub, from, to)|
      ensures Measured(done') && done <= done'
      ensures forall i :: from <= i < to ==> OffsetsRight(n, i) && n.sub.links[i].node in done'
      decreases tree[n], 1, to - from
    {
      hide RangeBytes, ArcBytes, SubtreeBytes, Valid, Matches, Measured, Halves, OffsetsRight;
      ArcsOf(n);
      if from >= to {
        EmptyRange(tree[n].sub, from);
        return 0, done;
      }
      var median := (from + to) / 2;
      RangeUnfolds(tree[n].sub, from, to);
      HalvesInside(tree[n].sub, from, to);
      var leftsize, rightsize;
      leftsize, done' := MeasureRange(n, from, median, done);
      rightsize, done' := MeasureRange(n, median + 1, to, done');
      size, done' := ArcMeasure(n, median, leftsize, rightsize, done');
    }

    lemma ArcsOf(n: Node)
      requires Valid() && n in nodes && n.sub.Arcs?
      ensures n in tree && tree[n].sub.ArcSet? && |tree[n].sub.arcs| == |n.sub.links|
    {
    }

    static lemma HalvesInside(sub: Subtree, from: nat, to: nat)
      requires sub.ArcSet? && from < to <= |sub.arcs|
      ensures var m := (from + to) / 2;
        && (forall i :: from <= i < m ==> Halves(sub, from, to, i) == Halves(sub, from, m, i))
        && (forall i :: m < i < to ==> Halves(sub, from, to, i) == Halves(sub, m + 1, to, i))
        && Halves(sub, from, to, m) == Sizes(|RangeBytes(sub, from, m)|, |RangeBytes(sub, m + 1, to)|)
    {
      hide RangeBytes;
    }

    method ArcMeasure(n: Node, i: nat, leftsize: nat, rightsize: nat, ghost done: set<Node>)
        returns (size: nat, ghost done': set<Node>)
      requires Valid() && n in nodes && n.sub.Arcs? && Measured(done) && i < |n.sub.links|
      requires Halves(tree[n].sub, 0, |n.sub.links|, i) == Sizes(leftsize, rightsize)
      requires OwnSize(tree[n].sub.arcs[i].text, tree[n].sub.arcs[i].node) + leftsize < Pow(256, 8)
      modifies nodes`sub
      ensures Valid() && forall m :: m in nodes ==> SameLinks(old(m.sub), m.sub)
      ensures forall m, i :: m in nodes && old(OffsetsRight(m, i)) ==> OffsetsRight(m, i)
      ensures var arc := tree[n].sub.arcs[i];
        size == |ArcBytes(arc.text, arc.node, leftsize, rightsize)| + leftsize + rightsize
      ensures Measured(done') && done <= done'
      ensures OffsetsRight(n, i) && n.sub.links[i].node in done'
      decreases tree[n], 0, 1
    {
      hide RangeBytes, ArcBytes, SubtreeBytes, OffsetLength, LeftOffset, RightOffset, Halves, OwnSize,
           Valid, Matches, Measured, OffsetsRight, OffsetSizes;
      ArcsOf(n);
      ghost var arc := tree[n].sub.arcs[i];
      var own;
      own, done' := ArcOwnSize(n, i, done);
      var l, r := MeasureOffsetSizes(own, leftsize, rightsize);
      OffsetsLand(arc.text, arc.node, leftsize, rightsize);
      OffsetValues(arc.text, arc.node, leftsize, rightsize);
      SetOffsets(n, i, if leftsize > 0 then own + l + r else 0,
                 if rightsize > 0 then own + l + r + leftsize else 0, done');
      size := own + l + r + leftsize + rightsize;
    }

    /** An arc without its offsets: two bytes and the value, the rest of the label, the subtree. */
    method ArcOwnSize(n: Node, i: nat, ghost done: set<Node>) returns (size: nat, ghost done': set<Node>)
      requires Valid() && n in nodes && n.sub.Arcs? && Measured(done) && i < |n.sub.links|
      requires OwnSize(tree[n].sub.arcs[i].text, tree[n].sub.arcs[i].node) < Pow(256, 8)
      modifies nodes`sub
      ensures Valid() && forall m :: m in nodes ==> SameLinks(old(m.sub), m.sub)
      ensures forall m, j :: m in nodes && old(OffsetsRight(m, j)) ==> OffsetsRight(m, j)
      ensures size == OwnSize(tree[n].sub.arcs[i].text, tree[n].sub.arcs[i].node)
      ensures Measured(done') && done <= done' && n.sub.Arcs? && n.sub.links[i].node in done'
      decreases tree[n], 0, 0
    {
      var link := n.sub.links[i];
      ghost var arc := tree[n].sub.arcs[i];
      assert LinkMatches(tree, n, link, arc);
      SubtreeFits(arc.text, arc.node);
      hide SubtreeBytes, OwnSize, OffsetsRight;
      var coresize := NodeMeasureLeafValue(link.node);
      coresize := 2 + coresize;
      var treesize;
      treesize, done' := NodeMeasureSubtree(link.node, done);
      treesize := treesize + 2 * (|link.text| - 1);
      size := coresize + treesize;
    }

    static lemma SubtreeFits(text: Label, node: Tree)
      ensures OwnSize(text, node) == 2 * |text| + |PayloadBytes(node)| + |SubtreeBytes(node.sub)|
    {
    }

    static lemma OffsetValues(text: Label, node: Tree, leftsize: nat, rightsize: nat)
      ensures var own := OwnSize(text, node);
        var s := OffsetSizes(own, leftsize, rightsize);
        && LeftOffset(text, node, leftsize, rightsize) == (if leftsize > 0 then own + s.left + s.right else 0)
        && RightOffset(text, node, leftsize, rightsize) ==
             (if rightsize > 0 then own + s.left + s.right + leftsize else 0)
    {
    }

    /** Three rounds, because the space needed to store an offset counts in the offset itself. */
    static method MeasureOffsetSizes(own: nat, leftsize: nat, rightsize: nat) returns (l: nat, r: nat)
      ensures Sizes(l, r) == OffsetSizes(own, leftsize, rightsize)
    {
      hide OffsetLength;
      l := if leftsize > 0 then OffsetLength(own) else 0;
      r := if rightsize > 0 then OffsetLength(own + leftsize) else 0;
      l := if leftsize > 0 then OffsetLength(own + l + r) else 0;
      r := if rightsize > 0 then OffsetLength(own + leftsize + l + r) else 0;
      l := if leftsize > 0 then OffsetLength(own + l + r) else 0;
      r := if rightsize > 0 then OffsetLength(own + leftsize + l + r) else 0;
    }

    method SetOffsets(n: Node, i: nat, left: nat, right: nat, ghost done: set<Node>)
      requires Valid() && n in nodes && n.sub.Arcs? && Measured(done) && i < |n.sub.links|
      requires n.sub.links[i].node in done
      requires var arc, h := tree[n].sub.arcs[i], Halves(tree[n].sub, 0, |n.sub.links|, i);
        && left == LeftOffset(arc.text, arc.node, h.left, h.right)
        && right == RightOffset(arc.text, arc.node, h.left, h.right)
      modifies n`sub
      ensures Valid() && forall m :: m in nodes ==> SameLinks(old(m.sub), m.sub)
      ensures forall m, j :: m in nodes && old(OffsetsRight(m, j)) ==> OffsetsRight(m, j)
      ensures Measured(done) && OffsetsRight(n, i)
    {
      hide RangeBytes, ArcBytes, SubtreeBytes, OffsetLength, Halves, LeftOffset, RightOffset;
      n.sub := Arcs(n.sub.links[i := n.sub.links[i].(leftOffset := left, rightOffset := right)]);
      OffsetsDoNotMatter();
    }
  
    // ---- saving ----

    method NodeSaveLeafValue(n: Node, os: Output) returns (written: nat)
      requires Valid() && n in nodes
      modifies os
      ensures os.data == old(os.data) + PayloadBytes(tree[n])
      ensures written == |PayloadBytes(tree[n])|
    {
      if n.payload.None? {
        return 0;
      }
      written := Skip(packer, n.payload.value, 0);
      PackedSkips(packer, n.payload.value, n.payload.value, 0);
      os.Write(n.payload.value[..written]);
    }

    method NodeSaveSubtree(n: Node, os: Output, ghost done: set<Node>) returns (written: nat)
      requires Valid() && Measured(done) && n in done
      modifies os
      ensures os.data == old(os.data) + SubtreeBytes(tree[n].sub)
      ensures written == |SubtreeBytes(tree[n].sub)|
      decreases tree[n], 2, 0
    {
      match n.sub
      case Saved(saved) =>
        os.Write(saved);
        written := |saved|;
      case Arcs(links) =>
        written := SaveRange(n, 0, |links|, os, done);
    }

    method SaveRange(n: Node, from: nat, to: nat, os: Output, ghost done: set<Node>) returns (written: nat)
      requires Valid() && Measured(done) && n in done && n in nodes && n.sub.Arcs? && from <= to <= |n.sub.links|
      requires forall i :: from <= i < to ==>
        Halves(tree[n].sub, 0, |n.sub.links|, i) == Halves(tree[n].sub, from, to, i)
      modifies os
      ensures os.data == old(os.data) + RangeBytes(tree[n].sub, from, to)
      ensures written == |RangeBytes(tree[n].sub, from, to)|
      decreases tree[n], 1, to - from
    {
      hide RangeBytes, ArcBytes, SubtreeBytes, Valid, Matches, Measured, Halves, OffsetsRight;
      ArcsOf(n);
      if from >= to {
        EmptyRange(tree[n].sub, from);
        return 0;
      }
      var median := (from + to) / 2;
      RangeUnfolds(tree[n].sub, from, to);
      HalvesInside(tree[n].sub, from, to);
      ghost var was := os.data;
      ghost var left, right := RangeBytes(tree[n].sub, from, median), RangeBytes(tree[n].sub, median + 1, to);
      ghost var own := ArcBytes(tree[n].sub.arcs[median].text, tree[n].sub.arcs[median].node, |left|, |right|);
      assert was + (own + left + right) == was + own + left + right;
      written := ArcSave(n, median, os, done);
      var more := SaveRange(n, from, median, os, done);
      written := written + more;
      more := SaveRange(n, median + 1, to, os, done);
      written := written + more;
    }

    /** Flags and label byte by byte, the offsets behind the first byte, then the node. */
    method ArcSave(n: Node, i: nat, os: Output, ghost done: set<Node>) returns (written: nat)
      requires Valid() && Measured(done) && n in done && n in nodes && n.sub.Arcs? && i < |n.sub.links|
      modifies os
      ensures var arc, h := tree[n].sub.arcs[i], Halves(tree[n].sub, 0, |n.sub.links|, i);
        && os.data == old(os.data) + ArcBytes(arc.text, arc.node, h.left, h.right)
        && written == |ArcBytes(arc.text, arc.node, h.left, h.right)|
      decreases tree[n], 0, 0
    {
      hide RangeBytes, ArcBytes, SubtreeBytes, OffsetLength, Halves, LeftOffset, RightOffset, LabelBytes;
      var link := n.sub.links[i];
      ghost var arc, h := tree[n].sub.arcs[i], Halves(tree[n].sub, 0, |n.sub.links|, i);
      assert OffsetsRight(n, i) && LinkMatches(tree, n, link, arc);
      LabelThenNode(arc.text, arc.node, h.left, h.right);
      written := SaveLabel(n, i, link, os);
      var more := NodeSaveLeafValue(link.node, os);
      written := written + more;
      more := NodeSaveSubtree(link.node, os, done);
      written := written + more;
    }

    /** Everything of an arc's bytes before its payload. */
    static ghost function LabelBytes(text: Label, node: Tree, left: nat, right: nat): seq<byte>
      decreases |text|
    {
      ArcHeader(text, node, left, right) + if |text| > 1 then LabelBytes(text[1..], node, 0, 0) else []
    }

    static lemma {:induction false} LabelThenNode(text: Label, node: Tree, leftsize: nat, rightsize: nat)
      ensures ArcBytes(text, node, leftsize, rightsize) ==
        LabelBytes(text, node, LeftOffset(text, node, leftsize, rightsize), RightOffset(text, node, leftsize, rightsize))
        + PayloadBytes(node) + SubtreeBytes(node.sub)
      decreases |text|
    {
      hide SubtreeBytes, OffsetSizes, ArcHeader;
      if |text| > 1 {
        LabelThenNode(text[1..], node, 0, 0);
      }
    }

    method SaveLabel(n: Node, i: nat, link: HeapArc, os: Output) returns (written: nat)
      requires Valid() && n in nodes && n.sub.Arcs? && i < |n.sub.links| && link == n.sub.links[i]
      modifies os
      ensures var bs := LabelBytes(link.text, tree[n].sub.arcs[i].node, link.leftOffset, link.rightOffset);
        os.data == old(os.data) + bs && written == |bs|
    {
      ghost var node := tree[n].sub.arcs[i].node;
      assert LinkMatches(tree, n, link, tree[n].sub.arcs[i]);
      ghost var all := LabelBytes(link.text, node, link.leftOffset, link.rightOffset);
      ghost var rest := all;
      written := 0;
      var len := |link.text|;
      assert link.text[0..] == link.text;
      for k := 0 to len
        invariant os.data + rest == old(os.data) + all && written + |rest| == |all|
        invariant rest == if k == len then [] else LabelBytes(link.text[k..], node,
          if k == 0 then link.leftOffset else 0, if k == 0 then link.rightOffset else 0)
      {
        hide OffsetBytes, OffsetLength, Flags, Valid, Matches;
        var left, right := if k == 0 then link.leftOffset else 0, if k == 0 then link.rightOffset else 0;
        var l := MeasureOffset(left);
        var r := MeasureOffset(right);
        var flags := if k == len - 1 then Flags(l, r, link.node.payload.Some?, !IsLast(link.node)) else Flags(l, r, false, true);
        ghost var header, before, tail := ArcHeader(link.text[k..], node, left, right), os.data, rest;
        assert link.text[k..][1..] == link.text[k + 1..];
        rest := if k + 1 == len then [] else LabelBytes(link.text[k + 1..], node, 0, 0);
        assert tail == header + rest;
        WriteLabelByte(os, flags, link.text[k], left, right);
        assert os.data == before + header;
        Associate(before, header, rest);
        written := written + 2 + l + r;
      }
    }

    static method WriteLabelByte(os: Output, flags: byte, ch: byte, left: nat, right: nat)
      modifies os
      ensures os.data == old(os.data) + ([flags, ch] + OffsetBytes(left) + OffsetBytes(right))
    {
      hide OffsetBytes;
      os.Write([flags]);
      os.Write([ch]);
      assert os.data == old(os.data) + [flags, ch];
      os.Write(OffsetBytes(left));
      assert os.data == old(os.data) + ([flags, ch] + OffsetBytes(left));
      os.Write(OffsetBytes(right));
    }

    predicate IsLast(n: Node)
      reads n
    {
      match n.sub
      case Saved(saved) => saved == []
      case Arcs(links) => links == []
    }
  
    /** The measured length is what gets written, so the original's "something wrong" cannot
        happen below 2^64. */
    method Save(os: Output) returns (size: nat)
      requires Valid() && |SubtreeBytes(Root().sub)| < Pow(256, 8)
      modifies os, nodes`sub
      ensures Valid() && Root() == old(Root())
      ensures os.data == old(os.data) + SubtreeBytes(Root().sub)
      ensures size == |SubtreeBytes(Root().sub)|
    {
      ghost var done;
      size, done := NodeMeasureSubtree(root, {});
      var written := NodeSaveSubtree(root, os, done);
      assert size == written;
    }

    /** Save a node's arcs and forget them. */
    method NodeBufferSubtree(x: Node)
      requires Valid() && x in nodes && |SubtreeBytes(tree[x].sub)| < Pow(256, 8)
      modifies nodes`sub, this`tree
      ensures tree == old(tree)[x := Close(old(tree[x]))] && Matches(tree, x, tree[x])
      ensures forall m :: m in nodes && m != x && m != x.parent ==> Matches(tree, m, tree[m])
      ensures forall m :: m in nodes && m != x ==> SameLinks(old(m.sub), m.sub)
    {
      hide SubtreeBytes, Matches, Valid;
      TreeOf(x);
      if x.sub.Arcs? {
        var data := WriteSubtree(x);
        label written:
        x.sub := Saved(data);
        tree := tree[x := Close(tree[x])];
        NodeClosed@written(x);
      } else {
        tree := tree[x := Close(tree[x])];
        NodeClosed(x);
      }
    }

    lemma TreeOf(x: Node)
      requires Valid() && x in nodes
      ensures x in tree
    {
    }

    lemma NoneMeasured()
      ensures Measured({})
    {
    }

    method WriteSubtree(x: Node) returns (data: seq<byte>)
      requires Valid() && x in nodes && |SubtreeBytes(tree[x].sub)| < Pow(256, 8) && x.sub.Arcs?
      modifies nodes`sub
      ensures Valid() && x.sub.Arcs? && data == SubtreeBytes(tree[x].sub)
      ensures forall m :: m in nodes ==> SameLinks(old(m.sub), m.sub)
    {
      hide SubtreeBytes, Matches, Measured;
      ghost var done;
      var size;
      NoneMeasured();
      size, done := NodeMeasureSubtree(x, {});
      var buffer := new Output();
      var written := NodeSaveSubtree(x, buffer, done);
      assert written == size;
      data := buffer.data;
    }

    /** A node whose arcs have given way to their bytes, or that had none. */
    twostate lemma NodeClosed(x: Node)
      requires old(Valid()) && x in old(nodes) && nodes == old(nodes) && root == old(root)
      requires x.sub == old(if x.sub.Saved? then x.sub else Saved(SubtreeBytes(tree[x].sub)))
      requires tree == old(tree)[x := Close(old(tree[x]))]
      requires forall m :: m in nodes ==>
        m.payload == old(m.payload) && m.parent == old(m.parent) && (m != x ==> m.sub == old(m.sub))
      ensures Matches(tree, x, tree[x])
      ensures forall m :: m in nodes && m != x && m != x.parent ==> Matches(tree, m, tree[m])
    {
      hide SubtreeBytes;
      forall m | m in nodes && m != x && m != x.parent ensures Matches(tree, m, tree[m]) {
        assert old(Matches(tree, m, tree[m]));
        if m.sub.Arcs? {
          assert forall i :: 0 <= i < |m.sub.links| ==> old(LinkMatches(tree, m, m.sub.links[i], tree[m].sub.arcs[i]));
        }
      }
      assert old(Matches(tree, x, tree[x]));
      if old(tree[x]).sub.Buffer? {
        ClosedStays(old(tree[x]));
      }
    }

    static lemma ClosedStays(t: Tree)
      requires t.sub.Buffer?
      ensures Close(t) == t
    {
    }

    // ---- searching ----

    /** The binary search of the arc set. */
    method ArcLowerBound(n: Node, b: byte) returns (i: nat)
      requires Valid() && n in nodes && n.sub.Arcs?
      ensures tree[n].sub.ArcSet? && i == LowerBound(tree[n].sub.arcs, b) && i <= |n.sub.links|
    {
      var links := n.sub.links;
      ghost var arcs := tree[n].sub.arcs;
      assert forall j :: 0 <= j < |links| ==> LinkMatches(tree, n, links[j], arcs[j]);
      var lo, hi := 0, |links|;
      while lo < hi
        invariant lo <= hi <= |links|
        invariant forall j :: 0 <= j < lo ==> arcs[j].text[0] < b
        invariant forall j :: hi <= j < |links| ==> arcs[j].text[0] >= b
      {
        var mid := (lo + hi) / 2;
        if links[mid].text[0] < b {
          lo := mid + 1;
        } else {
          hi := mid;
        }
      }
      i := lo;
      BoundIs(arcs, b, i);
    }

    /** Follow the arc whose whole label starts `rest`. */
    method NodeForwardCheck(n: Node, rest: seq<byte>) returns (next: Node?, passed: nat)
      requires Valid() && n in nodes && n.sub.Arcs? && rest != []
      ensures tree[n].sub.ArcSet? && |tree[n].sub.arcs| == |n.sub.links|
      ensures var arc := FindArc(tree[n].sub.arcs, rest[0]);
        next != null <==> arc.Some? && arc.value.text <= rest
      ensures next == null ==> Find(tree[n], rest) == None
      ensures next != null ==>
        var i := LowerBound(tree[n].sub.arcs, rest[0]);
        && i < |n.sub.links| && n.sub.links[i].node == next && passed == |n.sub.links[i].text| && next.parent == n
        && next in nodes && 0 < passed <= |rest| && Find(tree[n], rest) == Find(tree[next], rest[passed..])
    {
      next, passed := null, 0;
      var i := ArcLowerBound(n, rest[0]);
      if i < |n.sub.links| && n.sub.links[i].text[0] == rest[0] {
        assert LinkMatches(tree, n, n.sub.links[i], tree[n].sub.arcs[i]);
        var text := n.sub.links[i].text;
        if text <= rest {
          next, passed := n.sub.links[i].node, |text|;
        }
      }
    }

    /** The bytes of a key's symbols, most significant byte first. */
    method ConvertSymbolArrayToChar(key: seq<nat>) returns (bytes: seq<byte>)
      ensures bytes == Flat(SymbolBytes(width, key))
    {
      bytes := [];
      for i := 0 to |key|
        invariant bytes + Flat(SymbolBytes(width, key[i..])) == Flat(SymbolBytes(width, key))
      {
        hide Flat, SymbolBytes, BigEndian, High;
        ghost var before := bytes;
        FirstSymbol(width, key[i..]);
        assert key[i..][1..] == key[i + 1..];
        Associate(before, BigEndian(key[i], width), Flat(SymbolBytes(width, key[i + 1..])));
        var j := width;
        NoByteOf(key[i], width);
        while j > 0
          invariant 0 <= j <= width
          invariant bytes == before + BigEndian(High(key[i], j), width - j)
        {
          j := j - 1;
          NextByteOf(key[i], j, width);
          bytes := bytes + [High(key[i], j) % 256];
        }
      }
    }

    static lemma NoByteOf(v: nat, width: nat)
      ensures BigEndian(High(v, width), 0) == [] && High(v, 0) == v
    {
    }

    static lemma NextByteOf(v: nat, j: nat, width: nat)
      requires j < width
      ensures BigEndian(High(v, j), width - j) == BigEndian(High(v, j + 1), width - (j + 1)) + [High(v, j) % 256]
    {
      HighStep(v, j);
    }

    method FindEntry(key: seq<nat>) returns (r: Found)
      requires Valid() && IsAnyKey(width, key)
      ensures var payload := Find(Root(), KeyBytes(width, key));
        r == if grouped then Refused
             else if payload.None? then Absent
             else Present(Unpack(packer, payload.value, 0))
    {
      if grouped {
        return Refused;
      }
      ghost var bytes := KeyBytes(width, key);
      var current := root;
      if key == [] {
        var next, passed := NodeForwardCheck(root, [0]);
        if next == null {
          return Absent;
        }
        current := next;
      }
      var rest := ConvertSymbolArrayToChar(key);
      while rest != []
        invariant current in nodes && Find(tree[current], rest) == Find(Root(), bytes)
        decreases |rest|
      {
        var next, passed := NodeForwardCheck(current, rest);
        if next == null {
          return Absent;
        }
        current, rest := next, rest[passed..];
      }
      if current.payload.Some? {
        return Present(Unpack(packer, current.payload.value, 0));
      }
      r := Absent;
    }
  
    // ---- adding ----

    static function InsertLink(links: seq<HeapArc>, i: nat, link: HeapArc): seq<HeapArc>
      requires i <= |links|
    {
      links[..i] + [link] + links[i..]
    }

    ghost predicate AllMatchBut(thiz: Node)
      reads this`nodes, this`tree, nodes
    {
      tree.Keys == nodes && forall m :: m in nodes && m != thiz ==> Matches(tree, m, tree[m])
    }

    /** Nodes other than `thiz` do not notice that nodes were added, that `thiz` got other arcs
        or that a child of `thiz` got another parent. */
    twostate lemma OthersUnmoved(thiz: Node)
      requires old(AllMatchBut(thiz)) && old(nodes) <= nodes
      requires forall x :: x in old(nodes) ==>
        && x in tree && tree[x] == old(tree)[x]
        && x.payload == old(x.payload)
        && (x != thiz ==> x.sub == old(x.sub))
        && (x.parent == old(x.parent) || old(x.parent) == thiz)
      ensures forall m :: m in old(nodes) && m != thiz ==> Matches(tree, m, tree[m])
    {
      forall m | m in old(nodes) && m != thiz ensures Matches(tree, m, tree[m]) {
        assert old(Matches(tree, m, tree[m]));
        if m.sub.Arcs? {
          forall i | 0 <= i < |m.sub.links| ensures LinkMatches(tree, m, m.sub.links[i], tree[m].sub.arcs[i]) {
            assert old(LinkMatches(tree, m, m.sub.links[i], tree[m].sub.arcs[i]));
          }
        }
      }
    }

    /** The spine does not change when its last node gets other arcs. */
    twostate lemma SpineUnmoved(spine: seq<Node>, new path: seq<nat>)
      requires old(OnSpine(spine, path)) && old(nodes) <= nodes && root == old(root)
      requires forall j :: 0 <= j < |path| ==> SameLinks(old(spine[j].sub), spine[j].sub)
      requires forall j :: 0 <= j < |spine| ==> spine[j].parent == old(spine[j].parent)
      ensures OnSpine(spine, path)
    {
      forall j | 0 <= j < |path|
        ensures spine[j].sub.Arcs? && path[j] < |spine[j].sub.links| && spine[j].sub.links[path[j]].node == spine[j + 1]
      {
        assert spine[j] != spine[|path|];
      }
    }

    /** The arc set with its new arc agrees with the tree with its new arc. */
    twostate lemma InsertMatches(thiz: Node, new t: Tree, new i: nat, new link: HeapArc)
      requires old(Matches(tree, thiz, t)) && old(thiz.sub.Arcs?) && i <= |old(thiz.sub.links)|
      requires t.sub.ArcSet? && i == LowerBound(t.sub.arcs, link.text[0])
      requires link.node !in old(nodes) && nodes == old(nodes) + {link.node} && link.node.parent == thiz
      requires link.node in tree && forall x :: x in old(nodes) ==>
        x.parent == old(x.parent) && (x in old(tree) ==> x in tree && tree[x] == old(tree)[x])
      requires thiz.payload == old(thiz.payload) && thiz.sub == Arcs(InsertLink(old(thiz.sub.links), i, link))
      ensures Matches(tree, thiz, t.(sub := ArcSet(Insert(t.sub.arcs, Arc(link.text, tree[link.node])))))
    {
      hide WellFormed, IsPacked;
      var arc := Arc(link.text, tree[link.node]);
      var before, links, arcs := old(thiz.sub.links), thiz.sub.links, Insert(t.sub.arcs, arc);
      InsertKeepsOrdered(t.sub.arcs, arc);
      InsertIndices(t.sub.arcs, arc);
      assert forall j :: 0 <= j < |before| ==> old(LinkMatches(tree, thiz, before[j], t.sub.arcs[j]));
      forall j | 0 <= j < |links| ensures LinkMatches(tree, thiz, links[j], arcs[j]) {
        if j < i {
          assert old(LinkMatches(tree, thiz, before[j], t.sub.arcs[j])) && links[j] == before[j];
        } else if j > i {
          assert old(LinkMatches(tree, thiz, before[j - 1], t.sub.arcs[j - 1])) && links[j] == before[j - 1];
        }
      }
      forall j, k | 0 <= j < k < |links| ensures links[j].node != links[k].node {
        assert links[j] == if j < i then before[j] else if j == i then link else before[j - 1];
        assert links[k] == if k < i then before[k] else if k == i then link else before[k - 1];
      }
    }
  
    /** Put a new node under `thiz` at place `i` and tell the ancestors. */
    method InsertUnder(thiz: Node, ghost t: Tree, i: nat, text: Label, node: Node, ghost spine: seq<Node>, ghost path: seq<nat>)
      requires root in nodes && root.parent == null && root.sub.Arcs? && OnSpine(spine, path) && thiz == spine[|path|]
      requires AllMatchBut(thiz) && Matches(tree, thiz, t) && thiz.sub.Arcs?
      requires !grouped ==> forall n :: n in nodes ==> n.sub.Arcs?
      requires node !in nodes && node.payload == None && node.sub == Arcs([])
      requires t.sub.ArcSet? && i == LowerBound(t.sub.arcs, text[0])
      requires i <= |thiz.sub.links|
      modifies this`nodes, this`tree, thiz`sub, node
      ensures Valid() && nodes == old(nodes) + {node} && OnSpine(spine, path)
      ensures tree[thiz] == t.(sub := ArcSet(Insert(t.sub.arcs, Arc(text, EMPTY))))
      ensures Root() == Put(old(Root()), path, tree[thiz])
      ensures thiz.sub.Arcs? && i < |thiz.sub.links| && thiz.sub.links[i].node == node && node.parent == thiz
      ensures node.payload == None && node.sub == Arcs([])
      ensures forall m :: m in old(nodes) && m !in spine ==> tree[m] == old(tree[m])
    {
      hide Matches, Put, Insert;
      assert thiz in nodes && thiz != node;
      node.parent := thiz;
      nodes := nodes + {node};
      ghost var before := tree;
      assert before.Keys == old(nodes);
      tree := tree[node := EMPTY];
      var link := HeapArc(text, node, 0, 0);
      thiz.sub := Arcs(InsertLink(thiz.sub.links, i, link));
      InsertMatches(thiz, t, i, link);
      OthersUnmoved(thiz);
      LeafMatches(node);
      SpineUnmoved(spine, path);
      Refresh(spine, path, t.(sub := ArcSet(Insert(t.sub.arcs, Arc(text, EMPTY)))));
    }

    lemma LeafMatches(node: Node)
      requires node in nodes && node.payload == None && node.sub == Arcs([])
      ensures Matches(tree, node, EMPTY)
    {
    }
  
    /** The tree of a node once the node of its last arc is closed. */
    static function LastClosed(t: Tree): Tree
      requires t.sub.ArcSet? && t.sub.arcs != []
    {
      var last := |t.sub.arcs| - 1;
      t.(sub := ArcSet(t.sub.arcs[last := Arc(t.sub.arcs[last].text, Close(t.sub.arcs[last].node))]))
    }

    twostate lemma CloseMatches(thiz: Node)
      requires old(thiz in tree && Matches(tree, thiz, tree[thiz]) && tree.Keys == nodes && thiz.sub.Arcs? && thiz.sub.links != [])
      requires nodes == old(nodes) && thiz.payload == old(thiz.payload)
      requires SameLinks(old(thiz.sub), thiz.sub)
      requires forall x :: x in nodes ==> x.parent == old(x.parent)
      requires var x := old(thiz.sub.links[|thiz.sub.links| - 1].node);
        x in old(tree) && tree == old(tree)[x := Close(old(tree)[x])]
      ensures Matches(tree, thiz, LastClosed(old(tree[thiz])))
    {
      hide Close, WellFormed, IsPacked;
      var t, links, last := old(tree[thiz]), thiz.sub.links, |thiz.sub.links| - 1;
      var u := LastClosed(t);
      forall i | 0 <= i < |links| ensures LinkMatches(tree, thiz, links[i], u.sub.arcs[i]) {
        assert old(LinkMatches(tree, thiz, thiz.sub.links[i], t.sub.arcs[i]));
        assert old(LinkMatches(tree, thiz, thiz.sub.links[last], t.sub.arcs[last]));
      }
      assert Ordered(u.sub.arcs);
      assert forall i, j :: 0 <= i < j < |links| ==> links[i].node == old(thiz.sub.links)[i].node && links[j].node == old(thiz.sub.links)[j].node;
    }

    /** Close the node of the last arc of `thiz`. */
    method CloseLastArc(thiz: Node)
      requires Valid() && thiz in nodes && thiz.sub.Arcs? && thiz.sub.links != []
      requires |SubtreeBytes(tree[thiz.sub.links[|thiz.sub.links| - 1].node].sub)| < Pow(256, 8)
      modifies nodes`sub, this`tree
      ensures tree.Keys == nodes && old(tree[thiz]).sub.ArcSet? && old(tree[thiz]).sub.arcs != []
      ensures AllMatchBut(thiz) && Matches(tree, thiz, LastClosed(old(tree[thiz])))
      ensures thiz.sub.Arcs? && |thiz.sub.links| == |old(thiz.sub.links)|
      ensures forall m :: m in nodes && m.parent != thiz ==> SameLinks(old(m.sub), m.sub) && tree[m] == old(tree[m])
    {
      var x := thiz.sub.links[|thiz.sub.links| - 1].node;
      assert LinkMatches(tree, thiz, thiz.sub.links[|thiz.sub.links| - 1], tree[thiz].sub.arcs[|thiz.sub.links| - 1]);
      assert x in nodes && x.parent == thiz && x != thiz by { NotItsOwnChild(thiz, |thiz.sub.links| - 1); }
      hide SubtreeBytes, Matches, LastClosed;
      NodeBufferSubtree(x);
      CloseMatches(thiz);
    }

    lemma NotItsOwnChild(n: Node, i: nat)
      requires Valid() && n in nodes && n.sub.Arcs? && i < |n.sub.links|
      ensures n.sub.links[i].node != n
    {
      assert LinkMatches(tree, n, n.sub.links[i], tree[n].sub.arcs[i]);
      assert tree[n].sub.arcs[i].node < tree[n];
    }

    static lemma LinkIsInsert(grouped: bool, t: Tree, arc: Arc)
      requires t.sub.ArcSet?
      ensures var u := if grouped && t.sub.arcs != [] then LastClosed(t) else t;
        && u.sub.ArcSet? && LowerBound(u.sub.arcs, arc.text[0]) == LowerBound(t.sub.arcs, arc.text[0])
        && u.(sub := ArcSet(Insert(u.sub.arcs, arc))) == t.(sub := ArcSet(Link(grouped, t.sub.arcs, arc)))
    {
      if grouped && t.sub.arcs != [] {
        SameFirstBytes(t.sub.arcs, LastClosed(t).sub.arcs, arc.text[0]);
      }
    }

    lemma AboveLast(spine: seq<Node>, path: seq<nat>)
      requires root.parent == null && OnSpine(spine, path)
      ensures forall j :: 0 <= j < |path| ==> spine[j].parent != spine[|path|]
    {
      forall j | 0 < j < |path| ensures spine[j].parent != spine[|path|] {
        assert spine[j].parent == spine[j - 1];
      }
    }

    /** Hang a new node on `thiz`, closing the node of its last arc first if grouping. */
    method NodeLinkTo(thiz: Node, text: Label, node: Node, ghost spine: seq<Node>, ghost path: seq<nat>)
      requires Valid() && OnSpine(spine, path) && thiz == spine[|path|] && thiz.sub.Arcs?
      requires node !in nodes && node.payload == None && node.sub == Arcs([])
      requires tree[thiz].sub.ArcSet?
      requires grouped && thiz.sub.links != [] ==>
        |SubtreeBytes(tree[thiz.sub.links[|thiz.sub.links| - 1].node].sub)| < Pow(256, 8)
      modifies this`nodes, this`tree, nodes`sub, node
      ensures Valid() && nodes == old(nodes) + {node} && OnSpine(spine, path)
      ensures tree[thiz] == old(tree[thiz].(sub := ArcSet(Link(grouped, tree[thiz].sub.arcs, Arc(text, EMPTY)))))
      ensures Root() == Put(old(Root()), path, tree[thiz])
      ensures var i := LowerBound(old(tree[thiz].sub.arcs), text[0]);
        thiz.sub.Arcs? && i < |thiz.sub.links| && thiz.sub.links[i].node == node && node.parent == thiz
      ensures node.payload == None && node.sub == Arcs([])
    {
      hide SubtreeBytes, Matches, LastClosed, LowerBound, HasArc, Put, Link, Insert, Pow;
      ArcsOf(thiz);
      var i := ArcLowerBound(thiz, text[0]);
      ghost var t := tree[thiz];
      LinkIsInsert(grouped, t, Arc(text, EMPTY));
      if grouped && thiz.sub.links != [] {
        t := LastClosed(t);
        AboveLast(spine, path);
        CloseLastArc(thiz);
        SpineUnmoved(spine, path);
      }
      InsertUnder(thiz, t, i, text, node, spine, path);
    }
  
    /** `t` with arc `i` cut after `c` bytes. */
    static function ArcCut(t: Tree, i: nat, c: nat): Tree
      requires t.sub.ArcSet? && i < |t.sub.arcs| && 0 < c <= |t.sub.arcs[i].text|
    {
      var arc := t.sub.arcs[i];
      t.(sub := ArcSet(t.sub.arcs[i := Arc(arc.text[..c], Cut(arc, c))]))
    }

    twostate lemma SplitMatches(thiz: Node, new i: nat, new c: nat, new mid: Node)
      requires old(thiz in tree && Matches(tree, thiz, tree[thiz]) && tree.Keys == nodes)
      requires old(thiz.sub.Arcs?) && i < |old(thiz.sub.links)| && 0 < c < |old(thiz.sub.links)[i].text|
      requires mid !in old(nodes) && nodes == old(nodes) + {mid}
      requires forall x :: x in old(nodes) ==> x in tree && tree[x] == old(tree)[x]
      requires var link := old(thiz.sub.links)[i];
        && thiz.sub == Arcs(old(thiz.sub.links)[i := link.(text := link.text[..c], node := mid)])
        && mid.sub == Arcs([HeapArc(link.text[c..], link.node, 0, 0)]) && mid.payload == None
        && link.node.parent == mid && mid.parent == thiz
        && (forall x :: x in old(nodes) && x != link.node ==> x.parent == old(x.parent))
      requires thiz.payload == old(thiz.payload)
      requires old(tree[thiz].sub.ArcSet? && |tree[thiz].sub.arcs| == |thiz.sub.links|
        && tree[thiz].sub.arcs[i].text == thiz.sub.links[i].text)
      requires mid in tree && tree[mid] == Cut(old(tree[thiz]).sub.arcs[i], c)
      ensures Matches(tree, thiz, ArcCut(old(tree[thiz]), i, c))
      ensures Matches(tree, mid, tree[mid])
    {
      hide WellFormed, IsPacked;
      var t, before, links := old(tree[thiz]), old(thiz.sub.links), thiz.sub.links;
      var u := ArcCut(t, i, c);
      assert forall j :: 0 <= j < |before| ==> old(LinkMatches(tree, thiz, before[j], t.sub.arcs[j]));
      forall j | 0 <= j < |links| ensures LinkMatches(tree, thiz, links[j], u.sub.arcs[j]) {
        assert old(LinkMatches(tree, thiz, before[j], t.sub.arcs[j]));
      }
      assert LinkMatches(tree, mid, mid.sub.links[0], tree[mid].sub.arcs[0]);
    }

    lemma ChildOffSpine(thiz: Node, i: nat, spine: seq<Node>, path: seq<nat>)
      requires Valid() && OnSpine(spine, path) && thiz == spine[|path|] && thiz.sub.Arcs? && i < |thiz.sub.links|
      ensures |spine| == |path| + 1
      ensures thiz in nodes && thiz in tree && tree[thiz].sub.ArcSet? && |tree[thiz].sub.arcs| == |thiz.sub.links|
      ensures var x := thiz.sub.links[i].node;
        x in nodes && x !in spine && x != thiz && x.parent == thiz
      ensures thiz.sub.links[i].text == tree[thiz].sub.arcs[i].text
      ensures forall j :: 0 <= j < |spine| ==> spine[j] in nodes && spine[j] != thiz.sub.links[i].node
      ensures forall j :: 0 <= j < |path| ==> spine[j] != thiz
    {
      assert LinkMatches(tree, thiz, thiz.sub.links[i], tree[thiz].sub.arcs[i]);
      AboveLast(spine, path);
      NotItsOwnParent(spine, path);
      NotItsOwnChild(thiz, i);
    }

    /** Cut arc `i` of `thiz` after `c` bytes, with a new node at the cut. */
    method SplitArc(thiz: Node, i: nat, c: nat, ghost spine: seq<Node>, ghost path: seq<nat>) returns (mid: Node)
      requires Valid() && OnSpine(spine, path) && thiz == spine[|path|] && thiz.sub.Arcs?
      requires i < |thiz.sub.links| && 0 < c < |thiz.sub.links[i].text|
      modifies this`nodes, this`tree, nodes
      ensures Valid() && fresh(mid) && nodes == old(nodes) + {mid} && OnSpine(spine, path)
      ensures old(tree[thiz]).sub.ArcSet? && i < |old(tree[thiz]).sub.arcs|
      ensures old(tree[thiz]).sub.arcs[i].text == old(thiz.sub.links[i].text)
      ensures tree[thiz] == ArcCut(old(tree[thiz]), i, c) && Root() == Put(old(Root()), path, tree[thiz])
      ensures thiz.sub.Arcs? && i < |thiz.sub.links| && thiz.sub.links[i].node == mid && mid.parent == thiz
      ensures mid.sub.Arcs? && mid.payload == None && tree[mid] == Cut(old(tree[thiz]).sub.arcs[i], c)
      ensures forall m :: m in old(nodes) && m !in spine ==> tree[m] == old(tree[m])
    {
      hide Matches, Put, ArcCut, Cut, OnSpine, LinkMatches;
      ChildOffSpine(thiz, i, spine, path);
      var link := thiz.sub.links[i];
      ghost var arc := tree[thiz].sub.arcs[i];
      mid := new Node();
      mid.sub := Arcs([HeapArc(link.text[c..], link.node, 0, 0)]);
      mid.parent := thiz;
      link.node.parent := mid;
      thiz.sub := Arcs(thiz.sub.links[i := link.(text := link.text[..c], node := mid)]);
      nodes := nodes + {mid};
      tree := tree[mid := Cut(arc, c)];
      SplitMatches(thiz, i, c, mid);
      OthersUnmoved(thiz);
      SpineUnmoved(spine, path);
      Refresh(spine, path, ArcCut(old(tree[thiz]), i, c));
    }
  
    /** Take the arc that shares a first byte with `rest`, cutting it where they part.
        `BadOrder` is the exception for a closed node, `Stop` the null result. */
    method NodeForwardAdd(thiz: Node, rest: seq<byte>, ghost spine: seq<Node>, ghost path: seq<nat>)
        returns (r: Forward)
      requires Valid() && OnSpine(spine, path) && thiz == spine[|path|] && rest != []
      modifies this`nodes, this`tree, nodes
      ensures Valid() && OnSpine(spine, path) && old(nodes) <= nodes && fresh(nodes - old(nodes))
      ensures forall m :: m in old(nodes) && m !in spine ==> tree[m] == old(tree[m])
      ensures var t := old(tree[thiz]);
        if t.sub.Buffer? then r == BadOrder && nodes == old(nodes) && tree == old(tree)
        else if !HasArc(t.sub.arcs, rest[0]) then
          r == Stop && nodes == old(nodes) && tree == old(tree) && thiz.sub.Arcs?
        else
          var i := LowerBound(t.sub.arcs, rest[0]);
          var c := Common(rest, t.sub.arcs[i].text);
          && i < |t.sub.arcs| && 0 < c && r.Passed? && r.passed == c && Root() == Put(old(Root()), path, ArcCut(t, i, c))
          && thiz.sub.Arcs? && i < |thiz.sub.links| && thiz.sub.links[i].node == r.next
          && (forall m :: m in nodes && m !in old(nodes) ==> m == r.next)
          && r.next in nodes && r.next.parent == thiz && tree[r.next] == Cut(t.sub.arcs[i], c)
          && (tree == old(tree) || (r.next.sub.Arcs? && r.next.payload == None && c < |t.sub.arcs[i].text|))
      ensures !r.Passed? ==> unchanged(nodes)
      ensures tree.Keys == nodes && root in nodes
    {
      hide Matches, Put, Cut, ArcCut, Common, LowerBound, OnSpine;
      NodeShape(thiz, spine, path);
      if thiz.sub.Saved? {
        return BadOrder;
      }
      var i := ArcLowerBound(thiz, rest[0]);
      if i == |thiz.sub.links| {
        return Stop;
      }
      ChildOffSpine(thiz, i, spine, path);
      var link := thiz.sub.links[i];
      if link.text[0] != rest[0] {
        return Stop;
      }
      var passed := CountCommon(rest, link.text);
      if passed < |link.text| {
        var mid := SplitArc(thiz, i, passed, spine, path);
        return Passed(mid, passed);
      }
      r := Passed(link.node, passed);
      WholeArc(thiz, i, spine, path);
    }

    lemma NodeShape(n: Node, spine: seq<Node>, path: seq<nat>)
      requires Valid() && OnSpine(spine, path) && n == spine[|path|]
      ensures n in nodes && n in tree && (n.sub.Saved? ==> tree[n].sub.Buffer?)
      ensures n.sub.Arcs? ==> tree[n].sub.ArcSet? && |tree[n].sub.arcs| == |n.sub.links|
    {
      assert Matches(tree, n, tree[n]);
    }

    /** Cutting an arc at its end changes nothing. */
    lemma WholeArc(thiz: Node, i: nat, spine: seq<Node>, path: seq<nat>)
      requires Valid() && OnSpine(spine, path) && thiz == spine[|path|] && thiz.sub.Arcs? && i < |thiz.sub.links|
      ensures var t := tree[thiz];
        && t.sub.ArcSet? && i < |t.sub.arcs|
        && var c := |t.sub.arcs[i].text|;
           && ArcCut(t, i, c) == t && Put(Root(), path, t) == Root()
           && tree[thiz.sub.links[i].node] == Cut(t.sub.arcs[i], c)
    {
      var t := tree[thiz];
      assert LinkMatches(tree, thiz, thiz.sub.links[i], t.sub.arcs[i]);
      var arc := t.sub.arcs[i];
      assert arc.text[..|arc.text|] == arc.text;
      assert t.sub.arcs[i := arc] == t.sub.arcs;
      SpineAt(tree, spine, path);
      PutTwice(Root(), path, t, t);
    }

    static method CountCommon(a: seq<byte>, b: seq<byte>) returns (passed: nat)
      ensures passed == Common(a, b)
    {
      passed := 0;
      while passed < |a| && passed < |b| && a[passed] == b[passed]
        invariant passed <= |a| && passed <= |b|
        invariant passed + Common(a[passed..], b[passed..]) == Common(a, b)
      {
        assert a[passed..][1..] == a[passed + 1..] && b[passed..][1..] == b[passed + 1..];
        passed := passed + 1;
      }
    }
  
    /** Adding the rest of the key at `path` is what is left to do to reach `goal`. */
    ghost predicate Leads(goal: Option<Tree>, t: Tree, path: seq<nat>, rest: seq<byte>, payload: seq<byte>) {
      && At(t, path).Some?
      && match Add(grouped, At(t, path).value, rest, payload)
         case None => goal.None?
         case Some(u) => goal == Some(Put(t, path, u))
    }

    lemma LeadsOn(goal: Option<Tree>, t: Tree, path: seq<nat>, rest: seq<byte>, payload: seq<byte>, i: nat, c: nat)
      requires Leads(goal, t, path, rest, payload) && rest != []
      requires var u := At(t, path).value;
        && u.sub.ArcSet? && HasArc(u.sub.arcs, rest[0])
        && i == LowerBound(u.sub.arcs, rest[0]) && c == Common(rest, u.sub.arcs[i].text)
      ensures var u := At(t, path).value;
        && 0 < c <= |rest|
        && Leads(goal, Put(t, path, ArcCut(u, i, c)), path + [i], rest[c..], payload)
        && Find(u, rest) == Find(Cut(u.sub.arcs[i], c), rest[c..])
    {
      var u := At(t, path).value;
      assert i < |u.sub.arcs| && 0 < c <= |u.sub.arcs[i].text| && rest[..c] == u.sub.arcs[i].text[..c];
      var cut := ArcCut(u, i, c);
      hide LowerBound, Common, Find, HasArc;
      var t' := Put(t, path, cut);
      PutTwice(t, path, cut, cut);
      PutDeeper(t', path, i, EMPTY);
      assert At(t', path + [i]) == Some(Cut(u.sub.arcs[i], c));
      var under := Add(grouped, Cut(u.sub.arcs[i], c), rest[c..], payload);
      if under.Some? {
        PutDeeper(t', path, i, under.value);
        PutTwice(t, path, cut, Put(cut, [i], under.value));
        assert cut.sub.arcs[i := Arc(cut.sub.arcs[i].text, under.value)]
          == u.sub.arcs[i := Arc(u.sub.arcs[i].text[..c], under.value)];
      }
      FindOn(u, rest, i, c);
    }

    static lemma FindOn(u: Tree, rest: seq<byte>, i: nat, c: nat)
      requires rest != [] && u.sub.ArcSet? && HasArc(u.sub.arcs, rest[0])
      requires i == LowerBound(u.sub.arcs, rest[0]) && c == Common(rest, u.sub.arcs[i].text)
      ensures Find(u, rest) == Find(Cut(u.sub.arcs[i], c), rest[c..])
    {
      FindThroughCut(u.sub.arcs[i], c, rest);
    }

    lemma LeadsToLeaf(goal: Option<Tree>, t: Tree, path: seq<nat>, rest: seq<byte>, payload: seq<byte>)
      requires Leads(goal, t, path, rest, payload) && rest != []
      requires At(t, path).value.sub.ArcSet? && !HasArc(At(t, path).value.sub.arcs, rest[0])
      ensures var u := At(t, path).value;
        var grown := u.(sub := ArcSet(Link(grouped, u.sub.arcs, Arc(rest, EMPTY))));
        && Leads(goal, Put(t, path, grown), path + [LowerBound(u.sub.arcs, rest[0])], [], payload)
        && Find(u, rest) == None
    {
      var u := At(t, path).value;
      var i := LowerBound(u.sub.arcs, rest[0]);
      var grown := u.(sub := ArcSet(Link(grouped, u.sub.arcs, Arc(rest, EMPTY))));
      var t' := Put(t, path, grown);
      LinkNewLeaf(u.sub.arcs, rest, payload, i);
      hide LowerBound, Link, HasArc;
      PutTwice(t, path, grown, Put(grown, [i], Leaf(payload)));
      PutDeeper(t', path, i, Leaf(payload));
    }

    lemma LinkNewLeaf(arcs: seq<Arc>, rest: seq<byte>, payload: seq<byte>, i: nat)
      requires rest != [] && i == LowerBound(arcs, rest[0])
      ensures var grown := Link(grouped, arcs, Arc(rest, EMPTY));
        && i < |grown| && grown[i] == Arc(rest, EMPTY)
        && Link(grouped, arcs, Arc(rest, Leaf(payload))) == grown[i := Arc(rest, Leaf(payload))]
    {
      hide LowerBound, Insert;
      var closed := arcs;
      if grouped && arcs != [] {
        closed := LastClosed(Tree(None, ArcSet(arcs))).sub.arcs;
        SameFirstBytes(arcs, closed, rest[0]);
      }
      assert Link(grouped, arcs, Arc(rest, EMPTY)) == Insert(closed, Arc(rest, EMPTY));
      assert Link(grouped, arcs, Arc(rest, Leaf(payload))) == Insert(closed, Arc(rest, Leaf(payload)));
      OtherNode(closed, Arc(rest, EMPTY), Leaf(payload));
    }

    static lemma OtherNode(arcs: seq<Arc>, arc: Arc, node: Tree)
      ensures var i, more := LowerBound(arcs, arc.text[0]), Insert(arcs, arc);
        && i < |more| && more[i] == arc
        && Insert(arcs, Arc(arc.text, node)) == more[i := Arc(arc.text, node)]
    {
    }
  
    lemma ExtendSpine(spine: seq<Node>, path: seq<nat>, i: nat)
      requires Valid() && OnSpine(spine, path)
      requires var last := spine[|path|];
        last.sub.Arcs? && i < |last.sub.links| && last.sub.links[i].node in nodes &&
        last.sub.links[i].node.parent == last
      ensures OnSpine(spine + [spine[|path|].sub.links[i].node], path + [i])
    {
      var next := spine[|path|].sub.links[i].node;
      AboveLast(spine, path);
      NotItsOwnParent(spine, path);
      assert next !in spine;
    }

    /** The payload of the last node on the spine is set; the spine and the others stay. */
    twostate lemma PayloadMatches(n: Node)
      requires old(n in tree && Matches(tree, n, tree[n])) && tree == old(tree) && nodes == old(nodes)
      requires forall x :: x in nodes ==> x.sub == old(x.sub) && x.parent == old(x.parent)
      requires n.payload.Some? && IsPacked(packer, n.payload.value)
      ensures Matches(tree, n, tree[n].(payload := n.payload))
    {
      if n.sub.Arcs? {
        assert forall i :: 0 <= i < |n.sub.links| ==> old(LinkMatches(tree, n, n.sub.links[i], tree[n].sub.arcs[i]));
      }
    }

    /** Store a payload in the last node of the spine. */
    method SetPayload(n: Node, payload: seq<byte>, ghost spine: seq<Node>, ghost path: seq<nat>)
      requires Valid() && OnSpine(spine, path) && n == spine[|path|] && IsPacked(packer, payload)
      modifies this`tree, n`payload
      ensures Valid() && Root() == Put(old(Root()), path, old(tree[n]).(payload := Some(payload)))
    {
      hide Matches, Put, IsPacked;
      n.payload := Some(payload);
      PayloadMatches(n);
      OthersUnmovedByPayload(n);
      Refresh(spine, path, tree[n].(payload := Some(payload)));
    }

    twostate lemma OthersUnmovedByPayload(n: Node)
      requires old(Valid()) && tree == old(tree) && nodes == old(nodes)
      requires forall x :: x in nodes ==>
        x.sub == old(x.sub) && x.parent == old(x.parent) && (x != n ==> x.payload == old(x.payload))
      ensures forall m :: m in nodes && m != n ==> Matches(tree, m, tree[m])
    {
      forall m | m in nodes && m != n ensures Matches(tree, m, tree[m]) {
        assert old(Matches(tree, m, tree[m]));
        if m.sub.Arcs? {
          assert forall i :: 0 <= i < |m.sub.links| ==> old(LinkMatches(tree, m, m.sub.links[i], tree[m].sub.arcs[i]));
        }
      }
    }

    /** The descent for `bytes`, begun in the tree `before`, has reached `current` with
        `rest` to go; only the last step can have changed the tree. */
    ghost predicate Searching(before: Tree, goal: Option<Tree>, bytes: seq<byte>, payload: seq<byte>,
        current: Node, rest: seq<byte>, spine: seq<Node>, path: seq<nat>)
      reads this, nodes
    {
      && Valid() && OnSpine(spine, path) && current == spine[|path|]
      && Leads(goal, Root(), path, rest, payload) && At(Root(), path) == Some(tree[current])
      && Find(before, bytes) == Find(tree[current], rest)
      && (Root() == before || JustCut(current, rest))
      && Size(Root()) == Size(before)
    }

    /** A node that a cut has just made: the rest of the key goes elsewhere. */
    ghost predicate JustCut(n: Node, rest: seq<byte>)
      reads this`tree, n
    {
      && n in tree && n.payload == None && n.sub.Arcs? && tree[n].sub.ArcSet?
      && (rest == [] || !HasArc(tree[n].sub.arcs, rest[0]))
    }

    static lemma CutGoesElsewhere(arc: Arc, rest: seq<byte>, c: nat)
      requires c == Common(rest, arc.text) && 0 < c < |arc.text|
      ensures Cut(arc, c).sub.ArcSet?
      ensures c < |rest| ==> !HasArc(Cut(arc, c).sub.arcs, rest[c..][0])
    {
    }

    lemma NowJustCut(n: Node, arc: Arc, rest: seq<byte>, c: nat)
      requires c == Common(rest, arc.text) && 0 < c < |arc.text|
      requires n in tree && n.payload == None && n.sub.Arcs? && tree[n] == Cut(arc, c)
      ensures JustCut(n, rest[c..])
    {
      CutGoesElsewhere(arc, rest, c);
    }

    lemma StartSearching(payload: seq<byte>, bytes: seq<byte>)
      requires Valid()
      ensures root in nodes && root in tree
      ensures Ongoing(Root(), Add(grouped, Root(), bytes, payload), bytes, payload, root, bytes, [root], [])
    {
      hide Add, Find, Matches;
    }

    /** No arc of `n` starts like `rest`. */
    ghost predicate Leaves(n: Node, rest: seq<byte>)
      reads this`tree, n
    {
      n in tree && n.sub.Arcs? && tree[n].sub.ArcSet? && rest != [] && !HasArc(tree[n].sub.arcs, rest[0])
    }

    /** A prefix-grouped builder measures what it closes, in 64 bits. */
    ghost predicate Fits(t: Tree) {
      grouped ==> Size(t) < Pow(256, 8)
    }

    /** The search for `bytes` in `before` has ended at `current`, where the payload belongs. */
    ghost predicate Reached(goal: Option<Tree>, before: Tree, bytes: seq<byte>, payload: seq<byte>,
        current: Node, spine: seq<Node>, path: seq<nat>)
      reads this, nodes
    {
      && Valid() && OnSpine(spine, path) && current == spine[|path|]
      && Leads(goal, Root(), path, [], payload) && At(Root(), path) == Some(tree[current])
      && Find(before, bytes) == current.payload
      && (current.payload.Some? ==> Root() == before)
    }

    /** One step down. */
    method Descend(ghost before: Tree, ghost goal: Option<Tree>, ghost bytes: seq<byte>,
        ghost payload: seq<byte>, current: Node, rest: seq<byte>, ghost spine: seq<Node>, ghost path: seq<nat>)
        returns (f: Forward, ghost spine': seq<Node>, ghost path': seq<nat>)
      requires Searching(before, goal, bytes, payload, current, rest, spine, path) && rest != []
      modifies this`nodes, this`tree, nodes
      ensures Valid() && old(nodes) <= nodes && fresh(nodes - old(nodes))
      ensures f.BadOrder? ==> goal.None? && Root() == before
      ensures f.Stop? ==> spine' == spine && path' == path
      ensures f.Stop? ==> Searching(before, goal, bytes, payload, current, rest, spine, path)
      ensures f.Stop? ==> Leaves(current, rest)
      ensures f.Passed? ==> 0 < f.passed <= |rest| && f.next in nodes
      ensures f.Passed? ==> Searching(before, goal, bytes, payload, f.next, rest[f.passed..], spine', path')
    {
      hide Searching, Valid, Matches, Put, At, Leads, LowerBound, HasArc, Common, ArcCut, Cut, Find, OnSpine, JustCut;
      SearchFacts(before, goal, bytes, payload, current, rest, spine, path);
      ghost var t, top := tree[current], Root();
      ghost var trees := tree;
      f := NodeForwardAdd(current, rest, spine, path);
      spine', path' := spine, path;
      if f.Passed? {
        ghost var i, c := LowerBound(t.sub.arcs, rest[0]), f.passed;
        if tree != trees {
          NowJustCut(f.next, t.sub.arcs[i], rest, c);
        } else {
          assert Root() == top == before;
        }
        spine', path' := spine + [f.next], path + [i];
        SteppedDown(before, goal, bytes, payload, current, rest, spine, path, top, t, f.next, i, c);
      }
    }

    lemma SteppedDown(before: Tree, goal: Option<Tree>, bytes: seq<byte>, payload: seq<byte>,
        current: Node, rest: seq<byte>, spine: seq<Node>, path: seq<nat>, top: Tree, t: Tree, next: Node, i: nat, c: nat)
      requires Valid() && OnSpine(spine, path) && current == spine[|path|] && rest != []
      requires Leads(goal, top, path, rest, payload) && At(top, path) == Some(t) && Find(before, bytes) == Find(t, rest)
      requires t.sub.ArcSet? && HasArc(t.sub.arcs, rest[0]) && i == LowerBound(t.sub.arcs, rest[0])
      requires i < |t.sub.arcs| && c == Common(rest, t.sub.arcs[i].text) && 0 < c
      requires Root() == Put(top, path, ArcCut(t, i, c))
      requires current.sub.Arcs? && i < |current.sub.links| && current.sub.links[i].node == next
      requires next in nodes && next.parent == current && tree[next] == Cut(t.sub.arcs[i], c)
      requires Root() == before || JustCut(next, rest[c..])
      requires Size(top) == Size(before)
      ensures c <= |rest| && Searching(before, goal, bytes, payload, next, rest[c..], spine + [next], path + [i])
    {
      hide Matches, Put, At, LowerBound, HasArc, Common, ArcCut, Cut, Find;
      LeadsOn(goal, top, path, rest, payload, i, c);
      ExtendSpine(spine, path, i);
      Above(spine + [next], path + [i]);
      ArcCutKeepsSize(top, path, t, i, c);
    }

    static lemma ArcCutKeepsSize(top: Tree, path: seq<nat>, t: Tree, i: nat, c: nat)
      requires At(top, path) == Some(t) && t.sub.ArcSet? && i < |t.sub.arcs| && 0 < c <= |t.sub.arcs[i].text|
      ensures Size(Put(top, path, ArcCut(t, i, c))) == Size(top)
    {
      hide Size, Put, At, Cut;
      var arc := t.sub.arcs[i];
      CutKeepsSize(arc, c);
      OneArcSameSize(t, i, Arc(arc.text[..c], Cut(arc, c)));
      PutKeepsSize(top, path, ArcCut(t, i, c));
    }

    lemma SearchFacts(before: Tree, goal: Option<Tree>, bytes: seq<byte>, payload: seq<byte>,
        current: Node, rest: seq<byte>, spine: seq<Node>, path: seq<nat>)
      requires Searching(before, goal, bytes, payload, current, rest, spine, path) && rest != []
      ensures Valid() && OnSpine(spine, path) && current == spine[|path|]
      ensures current in nodes && current in tree && root in nodes && tree.Keys == nodes
      ensures Leads(goal, Root(), path, rest, payload) && At(Root(), path) == Some(tree[current])
      ensures Find(before, bytes) == Find(tree[current], rest)
      ensures Size(Root()) == Size(before)
      ensures tree[current].sub.Buffer? ==> goal.None? && Root() == before
      ensures current.sub.Arcs? ==> tree[current].sub.ArcSet?
      ensures Root() != before ==> tree[current].sub.ArcSet? && !HasArc(tree[current].sub.arcs, rest[0])
    {
      assert Matches(tree, current, tree[current]);
    }

    lemma Above(spine: seq<Node>, path: seq<nat>)
      requires Valid() && OnSpine(spine, path)
      ensures tree.Keys == nodes && root in nodes && At(Root(), path) == Some(tree[spine[|path|]])
    {
      SpineAt(tree, spine, path);
    }
  
    /** The new leaf of a key that leaves the tree here. */
    method AddLeaf(ghost before: Tree, ghost goal: Option<Tree>, ghost bytes: seq<byte>,
        ghost payload: seq<byte>, current: Node, rest: seq<byte>, ghost spine: seq<Node>, ghost path: seq<nat>)
        returns (leaf: Node, ghost spine': seq<Node>, ghost path': seq<nat>)
      requires Searching(before, goal, bytes, payload, current, rest, spine, path)
      requires Leaves(current, rest) && Fits(before)
      modifies this`nodes, this`tree, nodes
      ensures Valid() && old(nodes) <= nodes && fresh(nodes - old(nodes)) && leaf in nodes
      ensures Reached(goal, before, bytes, payload, leaf, spine', path')
    {
      hide Searching, Valid, Matches, Put, At, Leads, LowerBound, HasArc, Find, OnSpine, Link, SubtreeBytes, Pow, Fits, Leaves;
      LeafFacts(before, goal, bytes, payload, current, rest, spine, path);
      ghost var i := LowerBound(tree[current].sub.arcs, rest[0]);
      leaf := new Node();
      NodeLinkTo(current, rest, leaf, spine, path);
      spine', path' := spine + [leaf], path + [i];
      LeafReached(goal, before, bytes, payload, leaf, spine, path, i);
    }

    /** What the end of the search gives to hang a leaf with. */
    lemma LeafFacts(before: Tree, goal: Option<Tree>, bytes: seq<byte>, payload: seq<byte>,
        current: Node, rest: seq<byte>, spine: seq<Node>, path: seq<nat>)
      requires Searching(before, goal, bytes, payload, current, rest, spine, path)
      requires Leaves(current, rest) && Fits(before)
      ensures Valid() && OnSpine(spine, path) && current == spine[|path|] && current in nodes && current in tree && root in tree
      ensures current.sub.Arcs? && tree[current].sub.ArcSet? && !HasArc(tree[current].sub.arcs, rest[0])
      ensures grouped && current.sub.links != [] ==>
        |SubtreeBytes(tree[current.sub.links[|current.sub.links| - 1].node].sub)| < Pow(256, 8)
      ensures var u := tree[current];
        var grown := u.(sub := ArcSet(Link(grouped, u.sub.arcs, Arc(rest, EMPTY))));
        Leads(goal, Put(Root(), path, grown), path + [LowerBound(u.sub.arcs, rest[0])], [], payload)
      ensures Find(before, bytes) == None && rest != []
    {
      hide Matches, Put, At, Leads, LowerBound, HasArc, Find, Link, SubtreeBytes, Pow;
      LastChildFits(current, spine, path);
      LeadsToLeaf(goal, Root(), path, rest, payload);
    }

    lemma LeafReached(goal: Option<Tree>, before: Tree, bytes: seq<byte>, payload: seq<byte>,
        leaf: Node, spine: seq<Node>, path: seq<nat>, i: nat)
      requires Valid() && OnSpine(spine, path) && leaf in nodes
      requires var last := spine[|path|];
        last.sub.Arcs? && i < |last.sub.links| && last.sub.links[i].node == leaf && leaf.parent == last
      requires leaf.payload == None
      requires Leads(goal, Root(), path + [i], [], payload) && Find(before, bytes) == None
      ensures Reached(goal, before, bytes, payload, leaf, spine + [leaf], path + [i])
    {
      hide Matches, Put, At, Leads, Find;
      ExtendSpine(spine, path, i);
      Above(spine + [leaf], path + [i]);
    }

    lemma LastChildFits(current: Node, spine: seq<Node>, path: seq<nat>)
      requires Valid() && OnSpine(spine, path) && current == spine[|path|]
      ensures current.sub.Arcs? && current.sub.links != [] ==>
        |SubtreeBytes(tree[current.sub.links[|current.sub.links| - 1].node].sub)| <= Size(Root())
    {
      hide SubtreeBytes, At;
      if current.sub.Arcs? && current.sub.links != [] {
        var last, t := |current.sub.links| - 1, tree[current];
        assert LinkMatches(tree, current, current.sub.links[last], t.sub.arcs[last]);
        Above(spine, path);
        AtSize(Root(), path);
        ChildOf(t, last);
      }
    }

    lemma RootChildFits()
      requires Valid() && Fits(Root())
      ensures grouped && root.sub.Arcs? && root.sub.links != [] ==>
        |SubtreeBytes(tree[root.sub.links[|root.sub.links| - 1].node].sub)| < Pow(256, 8)
    {
      hide Matches, SubtreeBytes;
      RootAlone();
      LastChildFits(root, [root], []);
    }

    static lemma ChildOf(t: Tree, i: nat)
      requires t.sub.ArcSet? && i < |t.sub.arcs|
      ensures Size(t.sub.arcs[i].node) <= Size(t)
    {
      ChildSize(t.sub, 0, |t.sub.arcs|, i);
    }

    static lemma PackIsPacked(s: Schema, v: Value)
      requires Typed(s, v) && Measure(s, v) < TWO_64
      ensures IsPacked(s, Pack(s, v))
    {
    }

    lemma EndOfSearch(before: Tree, goal: Option<Tree>, bytes: seq<byte>, payload: seq<byte>,
        current: Node, spine: seq<Node>, path: seq<nat>)
      requires Ongoing(before, goal, bytes, payload, current, [], spine, path)
      ensures Reached(goal, before, bytes, payload, current, spine, path) && current in nodes
    {
      assert Matches(tree, current, tree[current]);
    }

    /** Store the payload, unless that is a duplicate of a unique key. */
    method Finish(n: Node, payload: seq<byte>, ghost goal: Option<Tree>, ghost before: Tree, ghost bytes: seq<byte>,
        ghost spine: seq<Node>, ghost path: seq<nat>) returns (r: Outcome)
      requires Reached(goal, before, bytes, payload, n, spine, path) && IsPacked(packer, payload)
      modifies this`tree, n`payload
      ensures Valid() && goal.Some?
      ensures if unique && Find(before, bytes).Some? then r == DuplicateKey && Root() == before
              else r == Added(Find(before, bytes).None?) && Root() == goal.value
    {
      var isNew := n.payload == None;
      if unique && !isNew {
        return DuplicateKey;
      }
      SetPayload(n, payload, spine, path);
      r := Added(isNew);
    }

    /** The search goes on, or has ended in a new leaf. */
    ghost predicate Ongoing(before: Tree, goal: Option<Tree>, bytes: seq<byte>, payload: seq<byte>,
        current: Node, rest: seq<byte>, spine: seq<Node>, path: seq<nat>)
      reads this, nodes
    {
      || Searching(before, goal, bytes, payload, current, rest, spine, path)
      || (rest == [] && Reached(goal, before, bytes, payload, current, spine, path))
    }

    /** One turn of the loop below. */
    method Turn(ghost before: Tree, ghost goal: Option<Tree>, ghost bytes: seq<byte>,
        ghost payload: seq<byte>, current: Node, rest: seq<byte>, ghost spine: seq<Node>, ghost path: seq<nat>)
        returns (f: Forward, ghost spine': seq<Node>, ghost path': seq<nat>)
      requires Ongoing(before, goal, bytes, payload, current, rest, spine, path)
      requires rest != [] && Fits(before)
      modifies this`nodes, this`tree, nodes
      ensures Valid() && old(nodes) <= nodes && fresh(nodes - old(nodes))
      ensures match f
        case BadOrder => goal.None? && Root() == before
        case Stop => false
        case Passed(next, passed) =>
          && next in nodes && 0 < passed <= |rest|
          && Ongoing(before, goal, bytes, payload, next, rest[passed..], spine', path')
    {
      hide Searching, Reached, Valid, Leads, Fits, Leaves;
      f, spine', path' := Descend(before, goal, bytes, payload, current, rest, spine, path);
      if f.Stop? {
        var leaf;
        leaf, spine', path' := AddLeaf(before, goal, bytes, payload, current, rest, spine, path);
        f := Passed(leaf, |rest|);
      }
    }

    /** Find or make the node of a key; false is the "Bad input order" exception. */
    method AddEntryForSomething(key: seq<nat>, ghost payload: seq<byte>)
        returns (ok: bool, current: Node, ghost spine: seq<Node>, ghost path: seq<nat>)
      requires Valid() && Fits(Root()) && IsAnyKey(width, key)
      modifies this`nodes, this`tree, nodes
      ensures Valid() && fresh(nodes - old(nodes)) && current in nodes
      ensures old(Root()).sub.ArcSet?
      ensures var goal := AddKey(grouped, width, old(Root()), key, payload);
        if ok then Reached(goal, old(Root()), KeyBytes(width, key), payload, current, spine, path)
        else goal.None? && Root() == old(Root())
    {
      TreeOfRoot();
      hide Reached, Valid, Add, Fits;
      if key == [] {
        ok := true;
        current, spine, path := AddEmptyKey(payload);
      } else {
        var bytes := ConvertSymbolArrayToChar(key);
        ok, current, spine, path := AddBytes(bytes, payload);
      }
    }

    /** The empty key: a zero link from the root. */
    method AddEmptyKey(ghost payload: seq<byte>) returns (current: Node, ghost spine: seq<Node>, ghost path: seq<nat>)
      requires Valid() && Fits(Root())
      modifies this`nodes, this`tree, nodes
      ensures Valid() && fresh(nodes - old(nodes)) && current in nodes
      ensures old(Root()).sub.ArcSet?
      ensures Reached(Some(AddEmpty(grouped, old(Root()), payload)), old(Root()), [0], payload, current, spine, path)
    {
      hide Reached, Valid, Matches, Fits, Find, LowerBound, HasArc, Put, Link, Leads, OnSpine;
      RootAlone();
      ghost var before, goal := Root(), AddEmpty(grouped, Root(), payload);
      ghost var i := LowerBound(before.sub.arcs, 0);
      var next, passed := NodeForwardCheck(root, [0]);
      if next != null {
        current := next;
        ZeroThere(payload, current, i);
        assert [root] + [current] == [root, current] && [] + [i] == [i];
      } else {
        current := new Node();
        RootChildFits();
        NodeLinkTo(root, [0], current, [root], []);
        TreeOfRoot();
        ZeroLinked(before, payload, i);
        PutNowhere(before, [], tree[root]);
        LeafReached(Some(goal), before, [0], payload, current, [root], [], i);
        assert [root] + [current] == [root, current] && [] + [i] == [i];
      }
      spine, path := [root, current], [i];
    }

    /** The arc of the root that has the byte 0 for its whole label. */
    lemma ZeroThere(payload: seq<byte>, current: Node, i: nat)
      requires Valid() && root.sub.Arcs? && Root().sub.ArcSet? && i == LowerBound(Root().sub.arcs, 0)
      requires i < |root.sub.links| == |Root().sub.arcs| && root.sub.links[i].node == current
      requires HasArc(Root().sub.arcs, 0) && Root().sub.arcs[i].text <= [0]
      ensures Reached(Some(AddEmpty(grouped, Root(), payload)), Root(), [0], payload, current, [root] + [current], [] + [i])
    {
      hide LowerBound, HasArc, AddEmpty, Find, Matches, Leads;
      var t := Root();
      var arc := t.sub.arcs[i];
      EmptyThere(grouped, t, payload);
      ChildAt(root, i);
      assert arc.text == [0];
      RootAlone();
      ExtendSpine([root], [], i);
      Above([root] + [current], [] + [i]);
      ZeroFinds(t, i);
      ZeroLeads(t, payload, i);
    }

    lemma ChildAt(n: Node, i: nat)
      requires Valid() && n in nodes && n.sub.Arcs? && i < |n.sub.links|
      ensures tree[n].sub.ArcSet? && |tree[n].sub.arcs| == |n.sub.links|
      ensures LinkMatches(tree, n, n.sub.links[i], tree[n].sub.arcs[i])
      ensures n.sub.links[i].node.payload == tree[n].sub.arcs[i].node.payload
    {
      assert LinkMatches(tree, n, n.sub.links[i], tree[n].sub.arcs[i]);
      assert Matches(tree, n.sub.links[i].node, tree[n].sub.arcs[i].node);
    }

    static lemma ZeroFinds(t: Tree, i: nat)
      requires t.sub.ArcSet? && FindArc(t.sub.arcs, 0).Some? && FindArc(t.sub.arcs, 0).value.text == [0]
      requires i == LowerBound(t.sub.arcs, 0)
      ensures Find(t, [0]) == t.sub.arcs[i].node.payload
    {
      assert [0][1..] == [];
    }

    lemma ZeroLeads(t: Tree, payload: seq<byte>, i: nat)
      requires t.sub.ArcSet? && i < |t.sub.arcs|
      ensures var arc := t.sub.arcs[i];
        Leads(Some(t.(sub := ArcSet(t.sub.arcs[i := Arc(arc.text, arc.node.(payload := Some(payload)))]))), t, [] + [i], [], payload)
    {
      assert [] + [i] == [i] && [i][1..] == [];
    }

    lemma ZeroLinked(t: Tree, payload: seq<byte>, i: nat)
      requires t.sub.ArcSet? && i == LowerBound(t.sub.arcs, 0)
      requires var arc := FindArc(t.sub.arcs, 0); !(arc.Some? && arc.value.text <= [0])
      ensures Leads(Some(AddEmpty(grouped, t, payload)),
        t.(sub := ArcSet(Link(grouped, t.sub.arcs, Arc([0], EMPTY)))), [] + [i], [], payload)
    {
      hide LowerBound, Link, HasArc, FindArc, AddEmpty;
      EmptyThere(grouped, t, payload);
      LinkNewLeaf(t.sub.arcs, [0], payload, i);
      var u := t.(sub := ArcSet(Link(grouped, t.sub.arcs, Arc([0], EMPTY))));
      assert [] + [i] == [i] && [i][1..] == [];
      assert At(u, [i]) == At(EMPTY, []) == Some(EMPTY);
      assert Put(u, [i], Leaf(payload)) == u.(sub := ArcSet(u.sub.arcs[i := Arc([0], Put(EMPTY, [], Leaf(payload)))]));
    }

    lemma RootAlone()
      requires Valid()
      ensures root in nodes && root in tree && root.sub.Arcs? && Root().sub.ArcSet? && OnSpine([root], [])
    {
    }

    /** The search along a key's bytes. */
    method AddBytes(bytes: seq<byte>, ghost payload: seq<byte>)
        returns (ok: bool, current: Node, ghost spine: seq<Node>, ghost path: seq<nat>)
      requires Valid() && Fits(Root())
      modifies this`nodes, this`tree, nodes
      ensures Valid() && fresh(nodes - old(nodes)) && current in nodes
      ensures var goal := Add(grouped, old(Root()), bytes, payload);
        if ok then Reached(goal, old(Root()), bytes, payload, current, spine, path)
        else goal.None? && Root() == old(Root())
    {
      hide Searching, Reached, Valid, Add, Fits, Ongoing, OnSpine, Leads, Find, At, Put;
      var rest := bytes;
      StartSearching(payload, bytes);
      ghost var goal, before, n0 := Add(grouped, Root(), bytes, payload), Root(), nodes;
      current := root;
      spine, path := [root], [];
      while rest != []
        invariant Valid() && current in nodes && fresh(nodes - n0)
        invariant Ongoing(before, goal, bytes, payload, current, rest, spine, path)
        decreases |rest|
      {
        var f;
        f, spine, path := Turn(before, goal, bytes, payload, current, rest, spine, path);
        if f.BadOrder? {
          TreeOfRoot();
          return false, root, spine, path;
        }
        current, rest := f.next, rest[f.passed..];
      }
      EndOfSearch(before, goal, bytes, payload, current, spine, path);
      ok := true;
    }

    lemma TreeOfRoot()
      requires Valid()
      ensures root in nodes && root in tree && root.sub.Arcs? && Root().sub.ArcSet?
    {
    }

    /** Add a value under a key. */
    method AddEntry(key: seq<nat>, value: Value) returns (r: Outcome)
      requires Valid() && Fits(Root())
      requires IsAnyKey(width, key) && Typed(packer, value) && Measure(packer, value) < TWO_64
      modifies this`entryCount, this`nodes, this`tree, nodes
      ensures Valid() && fresh(nodes - old(nodes)) && entryCount == old(entryCount) + 1
      ensures old(Root()).sub.ArcSet?
      ensures var bytes, before := KeyBytes(width, key), old(Root());
        match AddKey(grouped, width, before, key, Pack(packer, value))
        case None => r == BadInputOrder && Root() == before
        case Some(after) =>
          if unique && Find(before, bytes).Some? then r == DuplicateKey && Root() == before
          else r == Added(Find(before, bytes).None?) && Root() == after
    {
      hide AddKey, Find, IsPacked, Fits, Pack, Typed, Measure, Reached, Valid, KeyBytes;
      TreeOfRoot();
      ghost var before, bytes := Root(), KeyBytes(width, key);
      entryCount := entryCount + 1;
      var payload := Pack(packer, value);
      PackIsPacked(packer, value);
      ghost var goal := AddKey(grouped, width, before, key, payload);
      var ok, current, spine, path := AddEntryForSomething(key, payload);
      if !ok {
        return BadInputOrder;
      }
      r := Finish(current, payload, goal, before, bytes, spine, path);
    }
  }

  datatype Outcome = Added(isNew: bool) | BadInputOrder | DuplicateKey

  datatype Forward = BadOrder | Stop | Passed(next: Node, passed: nat)

  datatype Found = Refused | Absent | Present(value: Value)
}
