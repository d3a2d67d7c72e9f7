/** Subtrees of a value tree by their path, and what they add to the size of what is saved. */
module TriePaths {
  import opened Wrappers
  import opened TrieTree
  import opened TrieCodec

  // ---- replacing a subtree ----

  function At(t: Tree, path: seq<nat>): Option<Tree>
    decreases |path|
  {
    if path == [] then Some(t)
    else if t.sub.ArcSet? && path[0] < |t.sub.arcs| then At(t.sub.arcs[path[0]].node, path[1..])
    else None
  }

  /** `t` with the subtree at `path` replaced. */
  function Put(t: Tree, path: seq<nat>, u: Tree): Tree
    decreases |path|
  {
    if path == [] then u
    else if t.sub.ArcSet? && path[0] < |t.sub.arcs| then
      var arc := t.sub.arcs[path[0]];
      t.(sub := ArcSet(t.sub.arcs[path[0] := Arc(arc.text, Put(arc.node, path[1..], u))]))
    else t
  }

  lemma {:induction false} PutDeeper(t: Tree, path: seq<nat>, i: nat, u: Tree)
    requires At(t, path).Some?
    ensures Put(t, path + [i], u) == Put(t, path, Put(At(t, path).value, [i], u))
    ensures At(t, path + [i]) == At(At(t, path).value, [i])
    decreases |path|
  {
    if path == [] {
      assert path + [i] == [i];
    } else {
      assert (path + [i])[1..] == path[1..] + [i];
      PutDeeper(t.sub.arcs[path[0]].node, path[1..], i, u);
    }
  }

  lemma {:induction false} PutTwice(t: Tree, path: seq<nat>, x: Tree, y: Tree)
    requires At(t, path).Some?
    ensures Put(Put(t, path, x), path, y) == Put(t, path, y)
    ensures At(Put(t, path, x), path) == Some(x)
    ensures x == At(t, path).value ==> Put(t, path, x) == t
    decreases |path|
  {
    if path != [] {
      var arcs, i := t.sub.arcs, path[0];
      PutTwice(arcs[i].node, path[1..], x, y);
      var a, b := Put(arcs[i].node, path[1..], x), Put(arcs[i].node, path[1..], y);
      assert arcs[i := Arc(arcs[i].text, a)][i := Arc(arcs[i].text, b)] == arcs[i := Arc(arcs[i].text, b)];
      assert arcs[i := arcs[i]] == arcs;
    }
  }

  // ---- sizes ----

  /** The bytes that the arcs below a node take. */
  ghost function Size(t: Tree): nat {
    |SubtreeBytes(t.sub)|
  }

  lemma ArcSize(text: Label, node: Tree, leftsize: nat, rightsize: nat)
    ensures |ArcBytes(text, node, leftsize, rightsize)| >= OwnSize(text, node) >= Size(node)
    ensures |ArcBytes(text, node, 0, 0)| == OwnSize(text, node)
  {
    hide ArcBytes, OffsetSizes, SubtreeBytes;
  }

  /** A range of arcs has its middle arc's own size, a size for each half, and the offsets that
      these need. */
  lemma RangeSize(sub: Subtree, from: nat, to: nat)
    requires sub.ArcSet? && from < to <= |sub.arcs|
    ensures var m := (from + to) / 2;
      var left, right := |RangeBytes(sub, from, m)|, |RangeBytes(sub, m + 1, to)|;
      var own := OwnSize(sub.arcs[m].text, sub.arcs[m].node);
      && |RangeBytes(sub, from, to)| == WithOffsets(own, left, right) + left + right
      && WithOffsets(own, left, right) >= own
  {
    hide ArcBytes, RangeBytes, OwnSize;
    RangeUnfolds(sub, from, to);
    var m := (from + to) / 2;
    OwnBytes(sub.arcs[m].text, sub.arcs[m].node, |RangeBytes(sub, from, m)|, |RangeBytes(sub, m + 1, to)|);
  }

  function WithOffsets(own: nat, leftsize: nat, rightsize: nat): nat {
    var s := OffsetSizes(own, leftsize, rightsize);
    own + OffsetLength(if leftsize > 0 then own + s.left + s.right else 0)
        + OffsetLength(if rightsize > 0 then own + s.left + s.right + leftsize else 0)
  }

  lemma OwnBytes(text: Label, node: Tree, leftsize: nat, rightsize: nat)
    ensures |ArcBytes(text, node, leftsize, rightsize)| == WithOffsets(OwnSize(text, node), leftsize, rightsize)
  {
    hide ArcBytes, OffsetSizes, OwnSize, OffsetLength;
  }

  /** Arcs of the same own sizes take the same bytes. */
  lemma {:induction false} SameSizes(a: Subtree, b: Subtree, from: nat, to: nat)
    requires a.ArcSet? && b.ArcSet? && |a.arcs| == |b.arcs| && from <= to <= |a.arcs|
    requires forall k | 0 <= k < |a.arcs| ::
      OwnSize(a.arcs[k].text, a.arcs[k].node) == OwnSize(b.arcs[k].text, b.arcs[k].node)
    ensures |RangeBytes(a, from, to)| == |RangeBytes(b, from, to)|
    decreases if from <= to then to - from else 0
  {
    hide OwnSize, RangeBytes;
    if from < to {
      var m := (from + to) / 2;
      SameSizes(a, b, from, m);
      SameSizes(a, b, m + 1, to);
      RangeSize(a, from, to);
      RangeSize(b, from, to);
    } else {
      EmptyRange(a, from);
      EmptyRange(b, from);
    }
  }

  /** One arc of the same own size in another's place. */
  lemma OneArcSameSize(t: Tree, i: nat, arc: Arc)
    requires t.sub.ArcSet? && i < |t.sub.arcs|
    requires OwnSize(arc.text, arc.node) == OwnSize(t.sub.arcs[i].text, t.sub.arcs[i].node)
    ensures Size(t.(sub := ArcSet(t.sub.arcs[i := arc]))) == Size(t)
  {
    hide OwnSize, RangeBytes;
    SameSizes(ArcSet(t.sub.arcs[i := arc]), t.sub, 0, |t.sub.arcs|);
  }

  /** Cutting an arc changes no size. */
  lemma CutKeepsSize(arc: Arc, c: nat)
    requires 0 < c <= |arc.text|
    ensures OwnSize(arc.text[..c], Cut(arc, c)) == OwnSize(arc.text, arc.node)
  {
    if c < |arc.text| {
      var rest := ArcSet([Arc(arc.text[c..], arc.node)]);
      RangeSize(rest, 0, 1);
      EmptyRange(rest, 0);
      EmptyRange(rest, 1);
      ArcSize(arc.text[c..], arc.node, 0, 0);
      hide RangeBytes;
      OwnBytes(arc.text[c..], arc.node, 0, 0);
    }
  }

  /** A subtree of the same size and payload in another's place changes no size above. */
  lemma {:induction false} PutKeepsSize(t: Tree, path: seq<nat>, u: Tree)
    requires At(t, path).Some? && Size(u) == Size(At(t, path).value) && u.payload == At(t, path).value.payload
    ensures Size(Put(t, path, u)) == Size(t)
    ensures path != [] ==> Put(t, path, u).payload == t.payload
    decreases |path|
  {
    hide SubtreeBytes;
    if path != [] {
      var arc := t.sub.arcs[path[0]];
      PutKeepsSize(arc.node, path[1..], u);
      OneArcSameSize(t, path[0], Arc(arc.text, Put(arc.node, path[1..], u)));
    }
  }

  /** What is below an arc takes no more than the whole range. */
  lemma {:induction false} ChildSize(sub: Subtree, from: nat, to: nat, i: nat)
    requires sub.ArcSet? && from <= i < to <= |sub.arcs|
    ensures Size(sub.arcs[i].node) <= |RangeBytes(sub, from, to)|
    decreases if from <= to then to - from else 0
  {
    hide OwnSize, RangeBytes;
    var m := (from + to) / 2;
    RangeSize(sub, from, to);
    if i < m {
      ChildSize(sub, from, m, i);
    } else if i > m {
      ChildSize(sub, m + 1, to, i);
    } else {
      ArcSize(sub.arcs[m].text, sub.arcs[m].node, 0, 0);
    }
  }

  /** No subtree takes more than the tree. */
  lemma {:induction false} AtSize(t: Tree, path: seq<nat>)
    requires At(t, path).Some?
    ensures Size(At(t, path).value) <= Size(t)
    decreases |path|
  {
    if path != [] {
      ChildSize(t.sub, 0, |t.sub.arcs|, path[0]);
      hide SubtreeBytes;
      AtSize(t.sub.arcs[path[0]].node, path[1..]);
    }
  }
}
