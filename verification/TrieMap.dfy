/** Adding entries to the tree, and the map that a sequence of additions leaves. */
module TrieMap {
  import opened Wrappers
  import opened Bytes
  import opened TrieTree
  import opened TrieCodec

  /** A prefix-grouped builder saves the arcs of a node and forgets them. */
  function Close(t: Tree): Tree {
    t.(sub := Buffer(SubtreeBytes(t.sub)))
  }

  /** Hang a node on an arc set. A prefix-grouped builder first closes the node of the last
      arc, wherever the new arc will go. */
  function Link(grouped: bool, arcs: seq<Arc>, arc: Arc): seq<Arc> {
    if grouped && arcs != [] then
      var last := |arcs| - 1;
      Insert(arcs[last := Arc(arcs[last].text, Close(arcs[last].node))], arc)
    else Insert(arcs, arc)
  }

  /** Put a payload under a key: split the arc that shares a first byte with the key, or hang a
      new leaf on the node. `None` is the "Bad input order" error of a closed node. */
  function Add(grouped: bool, t: Tree, key: seq<byte>, payload: seq<byte>): Option<Tree>
    decreases |key|
  {
    if key == [] then Some(t.(payload := Some(payload)))
    else if t.sub.Buffer? then None
    else if HasArc(t.sub.arcs, key[0]) then
      var i := LowerBound(t.sub.arcs, key[0]);
      var arc := t.sub.arcs[i];
      var c := Common(key, arc.text);
      match Add(grouped, Cut(arc, c), key[c..], payload)
      case None => None
      case Some(u) => Some(t.(sub := ArcSet(t.sub.arcs[i := Arc(arc.text[..c], u)])))
    else
      Some(t.(sub := ArcSet(Link(grouped, t.sub.arcs, Arc(key, Leaf(payload))))))
  }

  // ---- one addition ----

  lemma {:induction false} AddKeepsWellFormed(t: Tree, key: seq<byte>, payload: seq<byte>)
    requires WellFormed(t)
    ensures Add(false, t, key, payload).Some? && Proper(Add(false, t, key, payload).value)
    decreases |key|
  {
    if key != [] {
      var arcs, i := t.sub.arcs, LowerBound(t.sub.arcs, key[0]);
      if HasArc(arcs, key[0]) {
        var c := Common(key, arcs[i].text);
        CutKeepsProper(arcs[i], c);
        AddKeepsWellFormed(Cut(arcs[i], c), key[c..], payload);
      } else {
        InsertKeepsWellFormed(t, Arc(key, Leaf(payload)));
      }
    }
  }

  lemma InsertKeepsWellFormed(t: Tree, arc: Arc)
    requires WellFormed(t) && Proper(arc.node) && !HasArc(t.sub.arcs, arc.text[0])
    ensures Proper(t.(sub := ArcSet(Insert(t.sub.arcs, arc))))
  {
    var more := Insert(t.sub.arcs, arc);
    InsertKeepsSorted(t.sub.arcs, arc);
    InsertIndices(t.sub.arcs, arc);
    forall k | 0 <= k < |more| ensures Proper(more[k].node) {
      var i := LowerBound(t.sub.arcs, arc.text[0]);
      assert more[k] == if k < i then t.sub.arcs[k] else if k == i then arc else t.sub.arcs[k - 1];
    }
    assert WellFormed(t.(sub := ArcSet(more)));
  }

  /** One Add changes the map at its key and nowhere else. */
  lemma {:induction false} FindAfterAdd(t: Tree, key: seq<byte>, payload: seq<byte>, other: seq<byte>)
    requires WellFormed(t)
    ensures Add(false, t, key, payload).Some?
    ensures Find(Add(false, t, key, payload).value, other) == if other == key then Some(payload) else Find(t, other)
    decreases |key|
  {
    AddKeepsWellFormed(t, key, payload);
    if key != [] && other != [] {
      var arcs := t.sub.arcs;
      if HasArc(arcs, key[0]) {
        var i := LowerBound(arcs, key[0]);
        var c := Common(key, arcs[i].text);
        CutKeepsProper(arcs[i], c);
        AddKeepsWellFormed(Cut(arcs[i], c), key[c..], payload);
        var under := Add(false, Cut(arcs[i], c), key[c..], payload).value;
        FindArcAfterUpdate(arcs, i, Arc(arcs[i].text[..c], under), other[0]);
        if arcs[i].text[..c] <= other {
          FindAfterAdd(Cut(arcs[i], c), key[c..], payload, other[c..]);
          FindThroughCut(arcs[i], c, other);
          SamePrefix(key, other, c);
        }
      } else {
        FindArcAfterInsert(arcs, Arc(key, Leaf(payload)), other[0]);
        if key <= other {
          SamePrefix(key, other, |key|);
          var rest := other[|key|..];
          assert Find(Leaf(payload), rest) == if rest == [] then Some(payload) else None;
        }
      }
    }
  }

  lemma SamePrefix(a: seq<byte>, b: seq<byte>, c: nat)
    requires c <= |a| && a[..c] <= b
    ensures a[c..] == b[c..] <==> a == b
  {
    assert a == a[..c] + a[c..];
    assert b == a[..c] + b[c..];
  }

  lemma FindArcAfterUpdate(arcs: seq<Arc>, i: nat, arc: Arc, b: byte)
    requires Sorted(arcs) && i < |arcs| && arc.text[0] == arcs[i].text[0]
    ensures FindArc(arcs[i := arc], b) == if b == arc.text[0] then Some(arc) else FindArc(arcs, b)
  {
    SameFirstBytes(arcs, arcs[i := arc], b);
  }

  lemma FindArcAfterInsert(arcs: seq<Arc>, arc: Arc, b: byte)
    requires Sorted(arcs) && !HasArc(arcs, arc.text[0])
    ensures FindArc(Insert(arcs, arc), b) == if b == arc.text[0] then Some(arc) else FindArc(arcs, b)
  {
    var i, j, more := LowerBound(arcs, arc.text[0]), LowerBound(arcs, b), Insert(arcs, arc);
    InsertIndices(arcs, arc);
    if b <= arc.text[0] {
      assert j <= i;
      BoundIs(more, b, j);
    } else {
      assert i <= j;
      BoundIs(more, b, j + 1);
    }
  }

  // ---- every history of additions ----

  datatype Entry = Entry(key: seq<byte>, payload: seq<byte>)

  /** The tree after a log of additions, unless one of them failed. */
  function Build(grouped: bool, log: seq<Entry>): Option<Tree> {
    if log == [] then Some(EMPTY)
    else
      var n := |log| - 1;
      match Build(grouped, log[..n])
      case None => None
      case Some(t) => Add(grouped, t, log[n].key, log[n].payload)
  }

  /** The last payload a log gives to a key. */
  function LastValue(log: seq<Entry>, key: seq<byte>): Option<seq<byte>> {
    if log == [] then None
    else
      var n := |log| - 1;
      if log[n].key == key then Some(log[n].payload) else LastValue(log[..n], key)
  }

  lemma {:induction false} LoggedUnder(log: seq<Entry>, bytes: seq<byte>) returns (i: nat)
    requires LastValue(log, bytes).Some?
    ensures i < |log| && log[i].key == bytes
  {
    var n := |log| - 1;
    if log[n].key == bytes {
      i := n;
    } else {
      i := LoggedUnder(log[..n], bytes);
    }
  }

  lemma {:induction false} StaysLogged(log: seq<Entry>, i: nat)
    requires i < |log|
    ensures LastValue(log, log[i].key).Some?
  {
    if i < |log| - 1 {
      StaysLogged(log[..|log| - 1], i);
    }
  }

  /** After any sequence of additions the tree is well formed and holds exactly the keys
      added, each with its last payload. */
  lemma {:induction false} BuildIsMap(log: seq<Entry>, key: seq<byte>)
    ensures Build(false, log).Some? && WellFormed(Build(false, log).value)
    ensures Find(Build(false, log).value, key) == LastValue(log, key)
  {
    if log != [] {
      var n := |log| - 1;
      BuildIsMap(log[..n], key);
      var t := Build(false, log[..n]).value;
      AddKeepsWellFormed(t, log[n].key, log[n].payload);
      FindAfterAdd(t, log[n].key, log[n].payload, key);
    }
  }
}
