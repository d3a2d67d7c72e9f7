/** The tree that additions leave is the only tight one for their map: neither the order of the
    additions nor what they overwrote shows in the saved bytes. */
module TrieCanonical {
  import opened Wrappers
  import opened Bytes
  import opened TrieTree
  import opened TrieCodec
  import opened TrieMap
  import opened TrieGrouped

  /** Every node below the root ends a key or branches. */
  predicate Tight(t: Tree)
    decreases t, 0
  {
    t.sub.ArcSet? && Sorted(t.sub.arcs) && forall i :: 0 <= i < |t.sub.arcs| ==> TightNode(t.sub.arcs[i].node)
  }

  predicate TightNode(t: Tree)
    decreases t, 1
  {
    Tight(t) && (t.IsFinal() || |t.sub.arcs| > 1)
  }

  lemma {:induction false} TightIsWellFormed(t: Tree)
    requires Tight(t)
    ensures WellFormed(t)
    decreases t
  {
    forall i | 0 <= i < |t.sub.arcs| ensures Proper(t.sub.arcs[i].node) {
      assert TightNode(t.sub.arcs[i].node);
      TightIsWellFormed(t.sub.arcs[i].node);
    }
  }

  // ---- additions keep trees tight ----

  lemma {:induction false} AddKeepsTight(t: Tree, key: seq<byte>, payload: seq<byte>)
    requires Tight(t)
    ensures Add(false, t, key, payload).Some?
    ensures var u := Add(false, t, key, payload).value;
      && Tight(u) && |u.sub.arcs| >= |t.sub.arcs|
      && (u.IsFinal() <==> t.IsFinal() || key == [])
      && (key != [] && !HasArc(t.sub.arcs, key[0]) ==> |u.sub.arcs| == |t.sub.arcs| + 1)
    decreases |key|
  {
    if key != [] {
      var arcs := t.sub.arcs;
      if HasArc(arcs, key[0]) {
        var i := LowerBound(arcs, key[0]);
        var c := Common(key, arcs[i].text);
        CutIsTight(arcs[i], c);
        AddKeepsTight(Cut(arcs[i], c), key[c..], payload);
        CutThenAdded(arcs[i], key, c);
      } else {
        InsertKeepsTight(t, Arc(key, Leaf(payload)));
      }
    }
  }

  lemma CutIsTight(arc: Arc, c: nat)
    requires 0 < c <= |arc.text| && TightNode(arc.node)
    ensures Tight(Cut(arc, c))
  {
  }

  /** The rest of the key leaves a cut arc at once. */
  lemma CutThenAdded(arc: Arc, key: seq<byte>, c: nat)
    requires c == Common(key, arc.text) && c > 0 && TightNode(arc.node)
    ensures Cut(arc, c).sub.ArcSet?
    ensures Cut(arc, c).IsFinal() || |Cut(arc, c).sub.arcs| > 1 || key[c..] == []
      || (|Cut(arc, c).sub.arcs| == 1 && !HasArc(Cut(arc, c).sub.arcs, key[c]))
  {
  }

  lemma InsertKeepsTight(t: Tree, arc: Arc)
    requires Tight(t) && TightNode(arc.node) && !HasArc(t.sub.arcs, arc.text[0])
    ensures Tight(t.(sub := ArcSet(Insert(t.sub.arcs, arc))))
  {
    var more, i := Insert(t.sub.arcs, arc), LowerBound(t.sub.arcs, arc.text[0]);
    InsertKeepsSorted(t.sub.arcs, arc);
    InsertIndices(t.sub.arcs, arc);
    forall k | 0 <= k < |more| ensures TightNode(more[k].node) {
      assert more[k] == if k < i then t.sub.arcs[k] else if k == i then arc else t.sub.arcs[k - 1];
    }
  }

  lemma {:induction false} BuildIsTight(log: seq<Entry>)
    ensures Build(false, log).Some? && Tight(Build(false, log).value)
  {
    if log != [] {
      var n := |log| - 1;
      BuildIsTight(log[..n]);
      AddKeepsTight(Build(false, log[..n]).value, log[n].key, log[n].payload);
    }
  }

  // ---- a map has one tight tree ----

  ghost predicate SameMap(t: Tree, u: Tree) {
    forall key: seq<byte> :: Find(t, key) == Find(u, key)
  }

  /** Below an arc the keys go on behind its label, and no others have its first byte. */
  lemma FindAtArc(t: Tree, i: nat, rest: seq<byte>)
    requires Tight(t) && i < |t.sub.arcs|
    ensures Find(t, t.sub.arcs[i].text + rest) == Find(t.sub.arcs[i].node, rest)
  {
    var arc := t.sub.arcs[i];
    BoundIs(t.sub.arcs, arc.text[0], i);
    var key := arc.text + rest;
    assert key[0] == arc.text[0] && arc.text <= key && key[|arc.text|..] == rest;
    assert FindArc(t.sub.arcs, key[0]) == Some(arc);
  }

  lemma FoundAtArc(t: Tree, i: nat, key: seq<byte>)
    requires Tight(t) && i < |t.sub.arcs| && key != [] && key[0] == t.sub.arcs[i].text[0] && Find(t, key).Some?
    ensures t.sub.arcs[i].text <= key
  {
    BoundIs(t.sub.arcs, key[0], i);
  }

  /** A key through an arc. */
  lemma KeyThrough(t: Tree, i: nat) returns (rest: seq<byte>)
    requires Tight(t) && i < |t.sub.arcs|
    ensures Find(t.sub.arcs[i].node, rest).Some?
    ensures Find(t, t.sub.arcs[i].text + rest).Some?
  {
    TightIsWellFormed(t.sub.arcs[i].node);
    rest := SomeKey(t.sub.arcs[i].node);
    FindAtArc(t, i, rest);
  }

  /** What all keys through a tight arc begin with is no longer than the arc's label. */
  lemma CommonBeginning(t: Tree, i: nat, text: seq<byte>)
    requires Tight(t) && i < |t.sub.arcs|
    requires forall rest :: Find(t.sub.arcs[i].node, rest).Some? ==> text <= t.sub.arcs[i].text + rest
    ensures text <= t.sub.arcs[i].text
  {
    var arc := t.sub.arcs[i];
    var u := arc.node;
    assert TightNode(u);
    if u.IsFinal() {
      assert Find(u, []).Some?;
      assert arc.text + [] == arc.text;
    } else {
      var x := KeyThrough(u, 0);
      var y := KeyThrough(u, 1);
      var a, b := u.sub.arcs[0].text + x, u.sub.arcs[1].text + y;
      assert a[0] < b[0];
      assert text <= arc.text + a && text <= arc.text + b;
      NoLonger(text, arc.text, a, b);
    }
  }

  lemma NoLonger(text: seq<byte>, p: seq<byte>, a: seq<byte>, b: seq<byte>)
    requires a != [] && b != [] && a[0] != b[0] && text <= p + a && text <= p + b
    ensures text <= p
  {
    assert (p + a)[|p|] == a[0] && (p + b)[|p|] == b[0];
    assert forall k :: 0 <= k < |text| ==> text[k] == (p + a)[k] && text[k] == (p + b)[k];
  }

  lemma LabelsNested(t: Tree, u: Tree, i: nat, j: nat)
    requires Tight(t) && Tight(u) && SameMap(t, u) && i < |t.sub.arcs| && j < |u.sub.arcs|
    requires t.sub.arcs[i].text[0] == u.sub.arcs[j].text[0]
    ensures u.sub.arcs[j].text <= t.sub.arcs[i].text
  {
    var text := u.sub.arcs[j].text;
    forall rest | Find(t.sub.arcs[i].node, rest).Some? ensures text <= t.sub.arcs[i].text + rest {
      FindAtArc(t, i, rest);
      FoundAtArc(u, j, t.sub.arcs[i].text + rest);
    }
    CommonBeginning(t, i, text);
  }

  /** The first bytes of arcs. */
  function Firsts(arcs: seq<Arc>): (bs: seq<byte>)
    ensures |bs| == |arcs| && forall i :: 0 <= i < |bs| ==> bs[i] == arcs[i].text[0]
  {
    if arcs == [] then [] else [arcs[0].text[0]] + Firsts(arcs[1..])
  }

  ghost predicate Ascending(bs: seq<byte>) {
    forall i, j :: 0 <= i < j < |bs| ==> bs[i] < bs[j]
  }

  lemma {:induction false} SameAscending(a: seq<byte>, b: seq<byte>)
    requires Ascending(a) && Ascending(b) && forall x :: x in a <==> x in b
    ensures a == b
    decreases |a|
  {
    if a == [] || b == [] {
      FirstIsIn(a);
      FirstIsIn(b);
    } else {
      var m, n := |a| - 1, |b| - 1;
      assert a[m] in b && b[n] in a;
      assert a[m] == b[n];
      forall x ensures x in a[..m] <==> x in b[..n] {
        assert x in a[..m] <==> x in a && x != a[m] by { LastLeaves(a, x); }
        assert x in b[..n] <==> x in b && x != b[n] by { LastLeaves(b, x); }
      }
      SameAscending(a[..m], b[..n]);
      assert a == a[..m] + [a[m]] && b == b[..n] + [b[n]];
    }
  }

  lemma FirstIsIn(a: seq<byte>)
    ensures a != [] ==> a[0] in a
  {
  }

  lemma LastLeaves(a: seq<byte>, x: byte)
    requires Ascending(a) && a != []
    ensures x in a[..|a| - 1] <==> x in a && x != a[|a| - 1]
  {
    var m := |a| - 1;
    assert a == a[..m] + [a[m]];
    if x in a[..m] {
      var i :| 0 <= i < m && a[..m][i] == x;
      assert a[i] == x;
    }
  }

  lemma FoundHasArc(t: Tree, key: seq<byte>)
    requires t.sub.ArcSet? && key != [] && Find(t, key).Some?
    ensures HasArc(t.sub.arcs, key[0])
  {
  }

  lemma FirstsInside(t: Tree, u: Tree, x: byte)
    requires Tight(t) && Tight(u) && SameMap(t, u) && t.sub.ArcSet? && u.sub.ArcSet? && x in Firsts(t.sub.arcs)
    ensures x in Firsts(u.sub.arcs)
  {
    hide Find, LowerBound, Tight;
    var i :| 0 <= i < |t.sub.arcs| && t.sub.arcs[i].text[0] == x;
    var rest := KeyThrough(t, i);
    var key := t.sub.arcs[i].text + rest;
    assert Find(u, key).Some? && key[0] == x;
    FoundHasArc(u, key);
    assert Firsts(u.sub.arcs)[LowerBound(u.sub.arcs, x)] == x;
  }

  /** Two tight trees that hold the same map are the same tree. */
  lemma {:induction false} OneTightTree(t: Tree, u: Tree)
    requires Tight(t) && Tight(u) && SameMap(t, u)
    ensures t == u
    decreases t
  {
    hide Find, SameMap;
    SamePayload(t, u);
    var a, b := t.sub.arcs, u.sub.arcs;
    forall x ensures x in Firsts(a) <==> x in Firsts(b) {
      if x in Firsts(a) { FirstsInside(t, u, x); }
      if x in Firsts(b) { Symmetric(t, u); FirstsInside(u, t, x); }
    }
    SameAscending(Firsts(a), Firsts(b));
    forall i | 0 <= i < |a| ensures a[i] == b[i] {
      assert Firsts(a)[i] == Firsts(b)[i];
      Symmetric(t, u);
      LabelsNested(t, u, i, i);
      LabelsNested(u, t, i, i);
      SameBelow(t, u, i);
      assert TightNode(a[i].node) && TightNode(b[i].node);
      OneTightTree(a[i].node, b[i].node);
    }
  }

  lemma SamePayload(t: Tree, u: Tree)
    requires SameMap(t, u)
    ensures t.payload == u.payload
  {
    assert Find(t, []) == Find(u, []);
  }

  lemma Symmetric(t: Tree, u: Tree)
    requires SameMap(t, u)
    ensures SameMap(u, t)
  {
  }

  lemma SameBelow(t: Tree, u: Tree, i: nat)
    requires Tight(t) && Tight(u) && SameMap(t, u) && i < |t.sub.arcs| && i < |u.sub.arcs|
    requires t.sub.arcs[i].text == u.sub.arcs[i].text
    ensures SameMap(t.sub.arcs[i].node, u.sub.arcs[i].node)
  {
    forall rest: seq<byte> ensures Find(t.sub.arcs[i].node, rest) == Find(u.sub.arcs[i].node, rest) {
      FindAtArc(t, i, rest);
      FindAtArc(u, i, rest);
    }
  }

  /** Logs that leave the same values save the same bytes, in whatever order and whether grouped
      by prefix or not. */
  lemma SavedBytesFollowMap(grouped: bool, log: seq<Entry>, grouped': bool, log': seq<Entry>)
    requires Build(grouped, log).Some? && Build(grouped', log').Some?
    requires forall key :: LastValue(log, key) == LastValue(log', key)
    ensures SubtreeBytes(Build(grouped, log).value.sub) == SubtreeBytes(Build(grouped', log').value.sub)
  {
    hide Build, LastValue, SubtreeBytes, Tight, Find;
    BuildIsTight(log);
    BuildIsTight(log');
    var t, u := Build(false, log).value, Build(false, log').value;
    forall key: seq<byte> ensures Find(t, key) == Find(u, key) {
      BuildIsMap(log, key);
      BuildIsMap(log', key);
    }
    OneTightTree(t, u);
    if grouped { GroupedSavesTheSame(log); }
    if grouped' { GroupedSavesTheSame(log'); }
  }
}
