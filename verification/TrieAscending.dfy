/** What prefix-grouped building is for: with keys in ascending order only the nodes on the way of
    the last key are kept, all others are saved and forgotten. And what it costs: a key that goes on
    behind a closed node is refused. */
module TrieAscending {
  import opened Wrappers
  import opened Bytes
  import opened TrieTree
  import opened TrieCodec
  import opened TrieMap
  import opened TrieGrouped
  import TrieOrder

  // ---- ascending input ----

  /** Beside the last arc of a node every arc leads to a closed node, all the way down. */
  predicate OneWayOpen(t: Tree)
    decreases t
  {
    && t.sub.ArcSet?
    && (forall i :: 0 <= i < |t.sub.arcs| - 1 ==> t.sub.arcs[i].node.sub.Buffer?)
    && (t.sub.arcs != [] ==> OneWayOpen(t.sub.arcs[|t.sub.arcs| - 1].node))
  }

  /** The labels of the last arcs, all the way down. */
  function LastWay(t: Tree): seq<byte>
    decreases t
  {
    if t.sub.Buffer? || t.sub.arcs == [] then []
    else var arc := t.sub.arcs[|t.sub.arcs| - 1]; arc.text + LastWay(arc.node)
  }

  /** Arcs in order, in the nodes that are open. */
  predicate OpenSorted(t: Tree)
    decreases t
  {
    t.sub.ArcSet? ==>
      Sorted(t.sub.arcs) && (t.sub.arcs != [] ==> OpenSorted(t.sub.arcs[|t.sub.arcs| - 1].node))
  }

  /** A key greater than all before it is taken, and makes the way that stays open. */
  lemma {:induction false} NextAscends(t: Tree, key: seq<byte>, payload: seq<byte>)
    requires OneWayOpen(t) && OpenSorted(t)
    requires t.sub.arcs == [] || TrieOrder.Less(LastWay(t), key)
    ensures Add(true, t, key, payload).Some?
    ensures var t' := Add(true, t, key, payload).value;
      OneWayOpen(t') && OpenSorted(t') && LastWay(t') == key
    decreases |key|
  {
    hide Close, SubtreeBytes, OneWayOpen, OpenSorted, LastWay, Cut, Common, LowerBound, Link;
    LastArc(t);
    if key == [] {
      NoKey(t, payload);
    } else {
      var arcs := t.sub.arcs;
      var last := |arcs| - 1;
      if arcs == [] || arcs[last].text[0] < key[0] {
        NewLast(t, key, payload);
      } else {
        var arc := arcs[last];
        Compare(arc.text, LastWay(arc.node), key);
        BoundIs(arcs, key[0], last);
        var c := Common(key, arc.text);
        CutIsOpen(arc, c);
        NextAscends(Cut(arc, c), key[c..], payload);
        assert key[..c] + key[c..] == key;
        OtherLast(t, key[..c], Add(true, Cut(arc, c), key[c..], payload).value);
      }
    }
  }

  /** One level of the definitions. */
  lemma LastArc(t: Tree)
    requires OneWayOpen(t) && OpenSorted(t)
    ensures t.sub.ArcSet? && Sorted(t.sub.arcs)
    ensures t.sub.arcs != [] ==>
      var arc := t.sub.arcs[|t.sub.arcs| - 1];
      OneWayOpen(arc.node) && OpenSorted(arc.node) && LastWay(t) == arc.text + LastWay(arc.node)
  {
  }

  lemma NoKey(t: Tree, payload: seq<byte>)
    requires OneWayOpen(t) && OpenSorted(t) && (t.sub.arcs == [] || TrieOrder.Less(LastWay(t), []))
    ensures var t' := t.(payload := Some(payload)); OneWayOpen(t') && OpenSorted(t') && LastWay(t') == []
  {
  }

  lemma OtherLast(t: Tree, text: Label, node: Tree)
    requires OneWayOpen(t) && OpenSorted(t) && t.sub.arcs != [] && OneWayOpen(node) && OpenSorted(node)
    requires text[0] == t.sub.arcs[|t.sub.arcs| - 1].text[0]
    ensures var t' := t.(sub := ArcSet(t.sub.arcs[|t.sub.arcs| - 1 := Arc(text, node)]));
      OneWayOpen(t') && OpenSorted(t') && LastWay(t') == text + LastWay(node)
  {
    var last := |t.sub.arcs| - 1;
    assert t.sub.arcs[last := Arc(text, node)][last] == Arc(text, node);
  }

  /** What follows a common beginning decides. */
  lemma {:induction false} Compare(text: seq<byte>, rest: seq<byte>, key: seq<byte>)
    requires text != [] && TrieOrder.Less(text + rest, key) && key != [] && text[0] >= key[0]
    ensures text[0] == key[0]
    ensures var c := Common(key, text);
      TrieOrder.Less(text[c..] + rest, key[c..])
  {
    assert (text + rest)[1..] == text[1..] + rest;
    if |text| > 1 && |key| > 1 && text[1] >= key[1] {
      Compare(text[1..], rest, key[1..]);
      assert text[1..][Common(key[1..], text[1..])..] == text[Common(key, text)..];
      assert key[1..][Common(key[1..], text[1..])..] == key[Common(key, text)..];
    } else {
      assert Common(key, text) == 1;
    }
  }

  lemma CutIsOpen(arc: Arc, c: nat)
    requires 0 < c <= |arc.text| && OneWayOpen(arc.node) && OpenSorted(arc.node)
    ensures OneWayOpen(Cut(arc, c)) && OpenSorted(Cut(arc, c))
    ensures LastWay(Cut(arc, c)) == arc.text[c..] + LastWay(arc.node)
  {
  }

  lemma NewLast(t: Tree, key: seq<byte>, payload: seq<byte>)
    requires OneWayOpen(t) && OpenSorted(t) && key != []
    requires t.sub.arcs == [] || t.sub.arcs[|t.sub.arcs| - 1].text[0] < key[0]
    ensures Add(true, t, key, payload).Some?
    ensures var t' := Add(true, t, key, payload).value;
      OneWayOpen(t') && OpenSorted(t') && LastWay(t') == key
  {
    hide SubtreeBytes;
    var arcs := t.sub.arcs;
    var linked := Link(true, arcs, Arc(key, Leaf(payload)));
    assert linked[|arcs|] == Arc(key, Leaf(payload));
    assert key + [] == key;
  }

  ghost predicate Ascending(keys: seq<seq<byte>>) {
    forall i, j :: 0 <= i < j < |keys| ==> TrieOrder.Less(keys[i], keys[j])
  }

  /** Keys in ascending order are all taken, and of the tree no more stays open than the way of the
      last key. */
  lemma {:induction false} AscendingKeepsOneWay(log: seq<Entry>)
    requires Ascending(Keys(log)) && log != []
    ensures Build(true, log).Some? && OneWayOpen(Build(true, log).value)
    ensures LastWay(Build(true, log).value) == log[|log| - 1].key
    ensures OpenSorted(Build(true, log).value)
  {
    var n := |log| - 1;
    var keys := Keys(log);
    assert forall i :: 0 <= i < n ==> Keys(log[..n])[i] == keys[i];
    if n > 0 {
      AscendingKeepsOneWay(log[..n]);
      assert TrieOrder.Less(keys[n - 1], keys[n]);
    }
    NextAscends(Build(true, log[..n]).value, log[n].key, log[n].payload);
  }

  // ---- what is refused ----

  /** The key goes through a closed node and on. */
  predicate PassesClosed(t: Tree, key: seq<byte>)
    decreases |key|
  {
    key != [] && (t.sub.Buffer? ||
      exists i :: 0 <= i < |t.sub.arcs| && t.sub.arcs[i].text <= key
        && PassesClosed(t.sub.arcs[i].node, key[|t.sub.arcs[i].text|..]))
  }

  /** Open nodes have their arcs in order, all the way down. */
  predicate AllSorted(t: Tree)
    decreases t
  {
    t.sub.ArcSet? ==> Sorted(t.sub.arcs) && forall i :: 0 <= i < |t.sub.arcs| ==> AllSorted(t.sub.arcs[i].node)
  }

  /** "Bad input order" is raised for exactly these keys. */
  lemma {:induction false} RefusedIfClosed(t: Tree, key: seq<byte>, payload: seq<byte>)
    requires AllSorted(t)
    ensures Add(true, t, key, payload).None? <==> PassesClosed(t, key)
    decreases |key|
  {
    hide Close, SubtreeBytes;
    if key != [] && t.sub.ArcSet? {
      var arcs, i := t.sub.arcs, LowerBound(t.sub.arcs, key[0]);
      forall j | 0 <= j < |arcs| && arcs[j].text <= key ensures HasArc(arcs, key[0]) && j == i {
        BoundIs(arcs, key[0], j);
      }
      if HasArc(arcs, key[0]) {
        var c := Common(key, arcs[i].text);
        CommonIsAll(key, arcs[i].text);
        if c < |arcs[i].text| {
          CutTakes(arcs[i], c, key[c..], payload);
        } else {
          RefusedIfClosed(arcs[i].node, key[c..], payload);
        }
      }
    }
  }

  lemma CommonIsAll(key: seq<byte>, text: seq<byte>)
    ensures Common(key, text) == |text| <==> text <= key
  {
    var c := Common(key, text);
    assert text <= key ==> forall i :: 0 <= i < |text| ==> key[i] == text[i];
  }

  /** The node put into a label has one arc, with another first byte. */
  lemma CutTakes(arc: Arc, c: nat, rest: seq<byte>, payload: seq<byte>)
    requires 0 < c < |arc.text| && (rest != [] ==> rest[0] != arc.text[c])
    ensures Add(true, Cut(arc, c), rest, payload).Some?
  {
    hide Close, SubtreeBytes;
    var arcs := Cut(arc, c).sub.arcs;
    if rest != [] {
      assert LowerBound(arcs, rest[0]) <= 1;
    }
  }

  lemma {:induction false} RefinedIsSorted(g: Tree, t: Tree)
    requires Refines(g, t) && WellFormed(t)
    ensures AllSorted(g)
    decreases t
  {
    if g.sub.ArcSet? {
      forall i | 0 <= i < |g.sub.arcs| ensures g.sub.arcs[i].text == t.sub.arcs[i].text && AllSorted(g.sub.arcs[i].node) {
        assert ArcRefines(g.sub.arcs[i], t.sub.arcs[i]);
        assert Proper(t.sub.arcs[i].node);
        RefinedIsSorted(g.sub.arcs[i].node, t.sub.arcs[i].node);
      }
    }
  }

  /** After any additions the next one is refused just when it goes on behind a closed node. */
  lemma RefusedExactly(log: seq<Entry>, entry: Entry)
    requires Build(true, log).Some?
    ensures Build(true, log + [entry]).None? <==> PassesClosed(Build(true, log).value, entry.key)
  {
    hide Add, Refines, AllSorted, PassesClosed;
    GroupedSavesTheSame(log);
    BuildIsMap(log, []);
    RefinedIsSorted(Build(true, log).value, Build(false, log).value);
    RefusedIfClosed(Build(true, log).value, entry.key, entry.payload);
    assert (log + [entry])[..|log|] == log;
  }
}
