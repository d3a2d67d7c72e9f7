/** Prefix-grouped building refines plain building: it saves the same bytes, and it never
    fails on input whose keys are grouped by prefix. */
module TrieGrouped {
  import opened Bytes
  import opened TrieTree
  import opened TrieCodec
  import opened TrieMap

  /** `g` is `t` with some nodes closed, each into the bytes its arcs would save. */
  ghost predicate Refines(g: Tree, t: Tree)
    decreases t
  {
    && g.payload == t.payload
    && t.sub.ArcSet?
    && match g.sub
       case Buffer(saved) => saved == SubtreeBytes(t.sub)
       case ArcSet(arcs) =>
         && |arcs| == |t.sub.arcs|
         && forall i :: 0 <= i < |arcs| ==> ArcRefines(arcs[i], t.sub.arcs[i])
  }

  ghost predicate ArcRefines(g: Arc, t: Arc)
    decreases t
  {
    g.text == t.text && Refines(g.node, t.node)
  }

  lemma {:induction false} SameBytes(g: Tree, t: Tree)
    requires Refines(g, t)
    ensures SubtreeBytes(g.sub) == SubtreeBytes(t.sub)
    ensures g.IsLast() == t.IsLast()
    decreases t, 1, 0
  {
    if g.sub.ArcSet? {
      SameRange(g, t, 0, |g.sub.arcs|);
    } else if t.sub.arcs != [] {
      RangeNonEmpty(t.sub, 0, |t.sub.arcs|);
    }
  }

  lemma {:induction false} SameRange(g: Tree, t: Tree, from: nat, to: nat)
    requires Refines(g, t) && g.sub.ArcSet? && from <= to <= |g.sub.arcs|
    ensures RangeBytes(g.sub, from, to) == RangeBytes(t.sub, from, to)
    decreases t, 0, to - from
  {
    if from < to {
      var m := (from + to) / 2;
      var a, b := g.sub.arcs[m], t.sub.arcs[m];
      assert ArcRefines(a, b);
      assert a.text == b.text && a.node.payload == b.node.payload && Refines(a.node, b.node);
      hide *;
      var left, right := RangeBytes(t.sub, from, m), RangeBytes(t.sub, m + 1, to);
      RangeUnfolds(g.sub, from, to);
      RangeUnfolds(t.sub, from, to);
      SameRange(g, t, from, m);
      SameRange(g, t, m + 1, to);
      SameBytes(a.node, b.node);
      SameArc(b.text, a.node, b.node, |left|, |right|);
      var own := ArcBytes(b.text, b.node, |left|, |right|);
      assert RangeBytes(g.sub, from, to) == own + left + right;
      assert RangeBytes(t.sub, from, to) == own + left + right;
    } else {
      EmptyRange(g.sub, from);
      EmptyRange(t.sub, from);
    }
  }

  /** An arc's bytes depend on its node only through what the node saves. */
  lemma {:induction false} SameArc(text: Label, g: Tree, t: Tree, leftsize: nat, rightsize: nat)
    requires g.payload == t.payload && g.IsLast() == t.IsLast()
    requires SubtreeBytes(g.sub) == SubtreeBytes(t.sub)
    ensures ArcBytes(text, g, leftsize, rightsize) == ArcBytes(text, t, leftsize, rightsize)
    decreases |text|
  {
    hide ArcBytes, ArcBody, SubtreeBytes, OffsetSizes, OffsetLength, ArcHeader;
    if |text| > 1 {
      SameArc(text[1..], g, t, 0, 0);
    }
    BodyIs(text, g);
    BodyIs(text, t);
    SameHeader(text, g, t, LeftOffset(text, t, leftsize, rightsize), RightOffset(text, t, leftsize, rightsize));
    ArcIs(text, g, leftsize, rightsize);
    ArcIs(text, t, leftsize, rightsize);
  }

  lemma BodyIs(text: Label, node: Tree)
    ensures ArcBody(text, node)
         == if |text| > 1 then ArcBytes(text[1..], node, 0, 0) else PayloadBytes(node) + SubtreeBytes(node.sub)
  {
  }

  lemma SameHeader(text: Label, g: Tree, t: Tree, left: nat, right: nat)
    requires g.payload == t.payload && g.IsLast() == t.IsLast()
    ensures ArcHeader(text, g, left, right) == ArcHeader(text, t, left, right)
  {
    hide Flags;
  }

  lemma {:induction false} AddRefines(g: Tree, t: Tree, key: seq<byte>, payload: seq<byte>)
    requires Refines(g, t) && Add(true, g, key, payload).Some?
    ensures Add(false, t, key, payload).Some?
    ensures Refines(Add(true, g, key, payload).value, Add(false, t, key, payload).value)
    decreases |key|
  {
    hide SubtreeBytes, Link, Insert;
    if key != [] {
      var arcs, arcs' := g.sub.arcs, t.sub.arcs;
      assert forall i :: 0 <= i < |arcs| ==> ArcRefines(arcs[i], arcs'[i]);
      SameFirstBytes(arcs, arcs', key[0]);
      if HasArc(arcs, key[0]) {
        var i := LowerBound(arcs, key[0]);
        var c := Common(key, arcs[i].text);
        CutRefines(arcs[i], arcs'[i], c);
        AddRefines(Cut(arcs[i], c), Cut(arcs'[i], c), key[c..], payload);
      } else {
        LinkRefines(g, t, Arc(key, Leaf(payload)));
      }
    }
  }

  /** Where an addition succeeds, the node of its key is not closed: looking it up is the same. */
  lemma {:induction false} FindInGrouped(g: Tree, t: Tree, key: seq<byte>, payload: seq<byte>)
    requires Refines(g, t) && Add(true, g, key, payload).Some?
    ensures Find(g, key) == Find(t, key)
    decreases |key|
  {
    hide SubtreeBytes, Link, Insert, LowerBound;
    if key != [] {
      var arcs, arcs' := g.sub.arcs, t.sub.arcs;
      assert forall i :: 0 <= i < |arcs| ==> ArcRefines(arcs[i], arcs'[i]);
      SameFirstBytes(arcs, arcs', key[0]);
      if HasArc(arcs, key[0]) {
        var i := LowerBound(arcs, key[0]);
        var c := Common(key, arcs[i].text);
        CutRefines(arcs[i], arcs'[i], c);
        FindInGrouped(Cut(arcs[i], c), Cut(arcs'[i], c), key[c..], payload);
        FindThroughCut(arcs[i], c, key);
        FindThroughCut(arcs'[i], c, key);
      }
    }
  }

  lemma CutRefines(g: Arc, t: Arc, c: nat)
    requires ArcRefines(g, t) && 0 < c <= |g.text|
    ensures Refines(Cut(g, c), Cut(t, c))
  {
    if c < |g.text| {
      assert ArcRefines(Arc(g.text[c..], g.node), Arc(t.text[c..], t.node));
    }
  }

  lemma LinkRefines(g: Tree, t: Tree, arc: Arc)
    requires Refines(g, t) && g.sub.ArcSet? && arc.node == Leaf(PayloadBytes(arc.node))
    ensures Refines(g.(sub := ArcSet(Link(true, g.sub.arcs, arc))),
                    t.(sub := ArcSet(Link(false, t.sub.arcs, arc))))
  {
    hide Refines, ArcRefines, SubtreeBytes, Insert, LowerBound;
    RefinesArcs(g, t);
    LeafRefines(arc);
    var arcs, arcs' := g.sub.arcs, t.sub.arcs;
    if arcs != [] {
      var last := |arcs| - 1;
      CloseRefines(arcs[last], arcs'[last]);
      arcs := arcs[last := Arc(arcs[last].text, Close(arcs[last].node))];
    }
    InsertRefines(arcs, arcs', arc);
    ArcsRefine(g, t, Insert(arcs, arc), Insert(arcs', arc));
  }

  lemma RefinesArcs(g: Tree, t: Tree)
    requires Refines(g, t) && g.sub.ArcSet?
    ensures t.sub.ArcSet? && |g.sub.arcs| == |t.sub.arcs| && g.payload == t.payload
    ensures forall i :: 0 <= i < |g.sub.arcs| ==> ArcRefines(g.sub.arcs[i], t.sub.arcs[i])
  {
  }

  lemma ArcsRefine(g: Tree, t: Tree, arcs: seq<Arc>, arcs': seq<Arc>)
    requires g.payload == t.payload && |arcs| == |arcs'|
    requires forall i :: 0 <= i < |arcs| ==> ArcRefines(arcs[i], arcs'[i])
    ensures Refines(g.(sub := ArcSet(arcs)), t.(sub := ArcSet(arcs')))
  {
  }

  lemma LeafRefines(arc: Arc)
    requires arc.node == Leaf(PayloadBytes(arc.node))
    ensures ArcRefines(arc, arc)
  {
  }

  lemma CloseRefines(g: Arc, t: Arc)
    requires ArcRefines(g, t)
    ensures ArcRefines(Arc(g.text, Close(g.node)), t)
  {
    hide SubtreeBytes;
    SameBytes(g.node, t.node);
  }

  lemma InsertRefines(arcs: seq<Arc>, arcs': seq<Arc>, arc: Arc)
    requires |arcs| == |arcs'| && (forall i :: 0 <= i < |arcs| ==> ArcRefines(arcs[i], arcs'[i]))
    requires ArcRefines(arc, arc)
    ensures var more, more' := Insert(arcs, arc), Insert(arcs', arc);
      |more| == |more'| && forall k :: 0 <= k < |more| ==> ArcRefines(more[k], more'[k])
  {
    hide Refines, ArcRefines, Insert;
    SameLabels(arcs, arcs', arc.text[0]);
    InsertIndices(arcs, arc);
    InsertIndices(arcs', arc);
    var more, more' := Insert(arcs, arc), Insert(arcs', arc);
    forall k | 0 <= k < |more| ensures ArcRefines(more[k], more'[k]) {
      var i := LowerBound(arcs', arc.text[0]);
      if k < i {
        assert more[k] == arcs[k] && more'[k] == arcs'[k];
      } else if k > i {
        assert more[k] == arcs[k - 1] && more'[k] == arcs'[k - 1];
      }
    }
  }

  lemma SameLabels(arcs: seq<Arc>, arcs': seq<Arc>, b: byte)
    requires |arcs| == |arcs'| && forall i :: 0 <= i < |arcs| ==> ArcRefines(arcs[i], arcs'[i])
    ensures LowerBound(arcs, b) == LowerBound(arcs', b)
  {
    hide Refines, LowerBound;
    SameFirstBytes(arcs, arcs', b);
  }

  /** A grouped run that raises no error saves the same bytes as the plain builder. */
  lemma {:induction false} GroupedSavesTheSame(log: seq<Entry>)
    requires Build(true, log).Some?
    ensures Build(false, log).Some? && Refines(Build(true, log).value, Build(false, log).value)
    ensures SubtreeBytes(Build(true, log).value.sub) == SubtreeBytes(Build(false, log).value.sub)
  {
    if log != [] {
      var n := |log| - 1;
      GroupedSavesTheSame(log[..n]);
      AddRefines(Build(true, log[..n]).value, Build(false, log[..n]).value, log[n].key, log[n].payload);
    }
    SameBytes(Build(true, log).value, Build(false, log).value);
  }

  // ---- grouped input never fails ----

  ghost predicate Under(path: seq<byte>, key: seq<byte>) {
    path <= key
  }

  /** Keys that share a prefix have only keys with that prefix between them. */
  ghost predicate PrefixGrouped(keys: seq<seq<byte>>) {
    forall i, j, k, p: seq<byte> :: 0 <= i < j < k < |keys| ==>
      Under(p, keys[i]) && Under(p, keys[k]) ==> Under(p, keys[j])
  }

  ghost predicate Seen(path: seq<byte>, keys: seq<seq<byte>>) {
    exists i :: 0 <= i < |keys| && Under(path, keys[i])
  }

  /** Some key went under `path` and a later one did not. */
  ghost predicate Finished(path: seq<byte>, keys: seq<seq<byte>>) {
    exists i, j :: 0 <= i < j < |keys| && Under(path, keys[i]) && !Under(path, keys[j])
  }

  /** Every node below `path` lies on a key, and the closed ones are finished. */
  ghost predicate ClosedAreFinished(t: Tree, path: seq<byte>, keys: seq<seq<byte>>)
    decreases t
  {
    match t.sub
    case Buffer(_) => Finished(path, keys)
    case ArcSet(arcs) =>
      && Sorted(arcs)
      && forall i :: 0 <= i < |arcs| ==> ArcIsFinished(arcs[i], path, keys)
  }

  ghost predicate ArcIsFinished(arc: Arc, path: seq<byte>, keys: seq<seq<byte>>)
    decreases arc
  {
    Seen(path + arc.text, keys) && ClosedAreFinished(arc.node, path + arc.text, keys)
  }

  lemma MoreKeys(path: seq<byte>, keys: seq<seq<byte>>, key: seq<byte>)
    ensures Seen(path, keys) ==> Seen(path, keys + [key])
    ensures Under(path, key) ==> Seen(path, keys + [key])
    ensures Finished(path, keys) ==> Finished(path, keys + [key])
    ensures Seen(path, keys) && !Under(path, key) ==> Finished(path, keys + [key])
  {
    var more := keys + [key];
    assert more[|keys|] == key;
    assert forall i :: 0 <= i < |keys| ==> more[i] == keys[i];
  }

  lemma {:induction false} MoreKeysBelow(t: Tree, path: seq<byte>, keys: seq<seq<byte>>, key: seq<byte>)
    requires ClosedAreFinished(t, path, keys)
    ensures ClosedAreFinished(t, path, keys + [key])
    decreases t
  {
    match t.sub
    case Buffer(_) => MoreKeys(path, keys, key);
    case ArcSet(arcs) =>
      forall i | 0 <= i < |arcs| ensures ArcIsFinished(arcs[i], path, keys + [key]) {
        assert ArcIsFinished(arcs[i], path, keys);
        MoreKeys(path + arcs[i].text, keys, key);
        MoreKeysBelow(arcs[i].node, path + arcs[i].text, keys, key);
      }
  }

  /** No node on the way of the next grouped key is closed, and what the addition closes is
      finished. */
  lemma {:induction false} GroupedAddSucceeds(t: Tree, path: seq<byte>, keys: seq<seq<byte>>, rest: seq<byte>, payload: seq<byte>)
    requires ClosedAreFinished(t, path, keys) && PrefixGrouped(keys + [path + rest])
    ensures Add(true, t, rest, payload).Some?
    ensures ClosedAreFinished(Add(true, t, rest, payload).value, path, keys + [path + rest])
    decreases |rest|
  {
    var more := keys + [path + rest];
    NotFinished(path, keys, path + rest);
    MoreKeysBelow(t, path, keys, path + rest);
    if rest != [] {
      var arcs := t.sub.arcs;
      if HasArc(arcs, rest[0]) {
        var i := LowerBound(arcs, rest[0]);
        var c := Common(rest, arcs[i].text);
        assert path + rest[..c] + rest[c..] == path + rest;
        assert ArcIsFinished(arcs[i], path, keys);
        CutIsFinished(arcs[i], path, keys, c);
        GroupedAddSucceeds(Cut(arcs[i], c), path + rest[..c], keys, rest[c..], payload);
        var under := Add(true, Cut(arcs[i], c), rest[c..], payload).value;
        MoreKeys(path + rest[..c], keys, path + rest);
        assert Under(path + rest[..c], path + rest);
        UpdateIsFinished(arcs, path, more, i, Arc(rest[..c], under));
      } else {
        LinkIsFinished(t, path, keys, Arc(rest, Leaf(payload)));
      }
    }
  }

  lemma NotFinished(path: seq<byte>, keys: seq<seq<byte>>, key: seq<byte>)
    requires PrefixGrouped(keys + [key]) && Under(path, key)
    ensures !Finished(path, keys)
  {
    var more := keys + [key];
    assert more[|keys|] == key;
    assert forall i :: 0 <= i < |keys| ==> more[i] == keys[i];
  }

  lemma CutIsFinished(arc: Arc, path: seq<byte>, keys: seq<seq<byte>>, c: nat)
    requires ArcIsFinished(arc, path, keys) && 0 < c <= |arc.text|
    ensures ClosedAreFinished(Cut(arc, c), path + arc.text[..c], keys)
  {
    if c < |arc.text| {
      var tail := Arc(arc.text[c..], arc.node);
      assert path + arc.text[..c] + tail.text == path + arc.text;
      assert ArcIsFinished(tail, path + arc.text[..c], keys);
    } else {
      assert arc.text[..c] == arc.text;
    }
  }

  lemma LinkIsFinished(t: Tree, path: seq<byte>, keys: seq<seq<byte>>, arc: Arc)
    requires ClosedAreFinished(t, path, keys) && t.sub.ArcSet? && !HasArc(t.sub.arcs, arc.text[0])
    requires arc.node == Leaf(PayloadBytes(arc.node))
    ensures ClosedAreFinished(t.(sub := ArcSet(Link(true, t.sub.arcs, arc))), path, keys + [path + arc.text])
  {
    var more, arcs := keys + [path + arc.text], t.sub.arcs;
    MoreKeysBelow(t, path, keys, path + arc.text);
    MoreKeys(path + arc.text, keys, path + arc.text);
    assert ArcIsFinished(arc, path, more);
    if arcs != [] {
      var last := arcs[|arcs| - 1];
      CloseIsFinished(arcs, path, keys, arc);
      var closed := Arc(last.text, Close(last.node));
      UpdateIsFinished(arcs, path, more, |arcs| - 1, closed);
      SameFirstBytes(arcs, arcs[|arcs| - 1 := closed], arc.text[0]);
      InsertIsFinished(arcs[|arcs| - 1 := closed], path, more, arc);
    } else {
      InsertIsFinished(arcs, path, more, arc);
    }
  }

  ghost predicate ArcsAreFinished(arcs: seq<Arc>, path: seq<byte>, keys: seq<seq<byte>>) {
    Sorted(arcs) && forall i :: 0 <= i < |arcs| ==> ArcIsFinished(arcs[i], path, keys)
  }

  lemma UpdateIsFinished(arcs: seq<Arc>, path: seq<byte>, keys: seq<seq<byte>>, i: nat, arc: Arc)
    requires ArcsAreFinished(arcs, path, keys) && i < |arcs|
    requires arc.text[0] == arcs[i].text[0] && ArcIsFinished(arc, path, keys)
    ensures ArcsAreFinished(arcs[i := arc], path, keys)
  {
  }

  lemma CloseIsFinished(arcs: seq<Arc>, path: seq<byte>, keys: seq<seq<byte>>, arc: Arc)
    requires ArcsAreFinished(arcs, path, keys) && arcs != [] && !HasArc(arcs, arc.text[0])
    ensures var last := arcs[|arcs| - 1];
      ArcIsFinished(Arc(last.text, Close(last.node)), path, keys + [path + arc.text])
  {
    var key, last := path + arc.text, arcs[|arcs| - 1];
    OtherByte(arcs, |arcs| - 1, arc.text[0]);
    assert (path + last.text)[|path|] != key[|path|];
    assert !Under(path + last.text, key);
    assert ArcIsFinished(last, path, keys);
    MoreKeys(path + last.text, keys, key);
  }

  lemma InsertIsFinished(arcs: seq<Arc>, path: seq<byte>, keys: seq<seq<byte>>, arc: Arc)
    requires ArcsAreFinished(arcs, path, keys) && ArcIsFinished(arc, path, keys)
    requires !HasArc(arcs, arc.text[0])
    ensures ArcsAreFinished(Insert(arcs, arc), path, keys)
  {
    InsertKeepsSorted(arcs, arc);
    InsertIndices(arcs, arc);
    var i, result := LowerBound(arcs, arc.text[0]), Insert(arcs, arc);
    forall k | 0 <= k < |result| ensures ArcIsFinished(result[k], path, keys) {
      assert result[k] == if k < i then arcs[k] else if k == i then arc else arcs[k - 1];
    }
  }

  lemma OtherByte(arcs: seq<Arc>, i: nat, b: byte)
    requires Sorted(arcs) && i < |arcs| && !HasArc(arcs, b)
    ensures arcs[i].text[0] != b
  {
  }

  function Keys(log: seq<Entry>): (keys: seq<seq<byte>>)
    ensures |keys| == |log|
    ensures forall i :: 0 <= i < |log| ==> keys[i] == log[i].key
  {
    if log == [] then [] else Keys(log[..|log| - 1]) + [log[|log| - 1].key]
  }

  /** Input whose keys are grouped by prefix never reaches a closed node. */
  lemma {:induction false} GroupedInputSucceeds(log: seq<Entry>)
    requires PrefixGrouped(Keys(log))
    ensures Build(true, log).Some?
    ensures ClosedAreFinished(Build(true, log).value, [], Keys(log))
  {
    if log != [] {
      var n := |log| - 1;
      var keys := Keys(log[..n]);
      assert Keys(log) == keys + [log[n].key];
      assert forall i :: 0 <= i < n ==> keys[i] == Keys(log)[i];
      GroupedInputSucceeds(log[..n]);
      assert [] + log[n].key == log[n].key;
      GroupedAddSucceeds(Build(true, log[..n]).value, [], keys, log[n].key, log[n].payload);
    }
  }
}
