/** The empty key of the trie builder, kept as the one-byte key "\0", and when that is no key of
    its own. */
module TrieEmptyKey {
  import opened Wrappers
  import opened Bytes
  import opened TrieTree
  import opened TrieMap
  import opened TrieRoundTrip

  /** The arc that keeps the empty key is taken only whole; else a new arc is linked. */
  function AddEmpty(grouped: bool, t: Tree, payload: seq<byte>): (r: Tree)
    requires t.sub.ArcSet?
    ensures r.sub.ArcSet?
  {
    var arcs, i := t.sub.arcs, LowerBound(t.sub.arcs, 0);
    if HasArc(arcs, 0) && arcs[i].text == [0] then
      t.(sub := ArcSet(arcs[i := Arc([0], arcs[i].node.(payload := Some(payload)))]))
    else
      t.(sub := ArcSet(Link(grouped, arcs, Arc([0], Leaf(payload)))))
  }

  /** A longer arc of the root begins with byte 0. */
  predicate Shadowed(t: Tree) {
    t.sub.ArcSet? && HasArc(t.sub.arcs, 0) && |t.sub.arcs[LowerBound(t.sub.arcs, 0)].text| > 1
  }

  lemma EmptyThere(grouped: bool, t: Tree, payload: seq<byte>)
    requires t.sub.ArcSet?
    ensures var arc, i := FindArc(t.sub.arcs, 0), LowerBound(t.sub.arcs, 0);
      AddEmpty(grouped, t, payload) ==
        if arc.Some? && arc.value.text <= [0] then
          t.(sub := ArcSet(t.sub.arcs[i := Arc(arc.value.text, arc.value.node.(payload := Some(payload)))]))
        else t.(sub := ArcSet(Link(grouped, t.sub.arcs, Arc([0], Leaf(payload)))))
  {
  }

  /** One addition of the builder. */
  function AddKey(grouped: bool, w: nat, t: Tree, key: seq<nat>, payload: seq<byte>): (r: Option<Tree>)
    requires w > 0 && t.sub.ArcSet?
    ensures r.Some? ==> r.value.sub.ArcSet?
  {
    if key == [] then Some(AddEmpty(grouped, t, payload)) else Add(grouped, t, KeyBytes(w, key), payload)
  }

  /** Without such an arc this is the addition of the key "\0". */
  lemma EmptyIsZero(grouped: bool, t: Tree, payload: seq<byte>)
    requires t.sub.ArcSet? && !Shadowed(t)
    ensures Add(grouped, t, [0], payload) == Some(AddEmpty(grouped, t, payload))
  {
    var arcs, i := t.sub.arcs, LowerBound(t.sub.arcs, 0);
    if HasArc(arcs, 0) {
      var arc := arcs[i];
      assert arc.text == [0] && Common([0], arc.text) == 1;
      assert arc.text[..1] == [0] && [0][1..] == [];
      assert Add(grouped, Cut(arc, 1), [], payload) == Some(arc.node.(payload := Some(payload)));
    }
  }

  /** The key below the longer arc cannot be found behind the new one. */
  lemma KeyLost(t: Tree, payload: seq<byte>) returns (key: seq<byte>)
    requires WellFormed(t) && Shadowed(t)
    ensures |key| > 1 && key[0] == 0 && Find(t, key).Some? && Find(AddEmpty(false, t, payload), key) == None
  {
    var arcs, i := t.sub.arcs, LowerBound(t.sub.arcs, 0);
    var arc := arcs[i];
    var rest := SomeKey(arc.node);
    key := arc.text + rest;
    assert key[|arc.text|..] == rest && arc.text <= key && key[0] == 0;
    var new_ := Arc([0], Leaf(payload));
    InsertIndices(arcs, new_);
    var arcs' := Insert(arcs, new_);
    BoundIs(arcs', 0, i);
    assert arcs'[i] == new_ && HasArc(arcs', 0) && FindArc(arcs', 0) == Some(new_);
    assert AddEmpty(false, t, payload).sub.arcs == arcs';
    assert [0] <= key && key[1..] != [];
    assert Find(Leaf(payload), key[1..]) == None;
  }

  /** Some key of symbols `w` bytes wide has these bytes. */
  ghost predicate IsUserKey(w: nat, bytes: seq<byte>) {
    exists key :: IsKey(w, key) && Flat(SymbolBytes(w, key)) == bytes
  }

  /** Only keys of the user were added so far, and perhaps the empty one. */
  ghost predicate HoldsUserKeys(t: Tree, w: nat) {
    forall bytes :: Find(t, bytes).Some? ==> IsUserKey(w, bytes) || bytes == [0]
  }

  /** "\0" is a key of its own only for one-byte symbols. */
  lemma ZeroIsUserKey(w: nat)
    requires w > 0
    ensures IsUserKey(w, [0]) <==> w == 1
  {
    if w == 1 {
      assert BigEndian(0, 1) == BigEndian(0, 0) + [0] == [0];
      assert SymbolBytes(1, [0]) == [[0]];
      assert Flat([[0]]) == [0] + Flat([]) == [0];
      assert IsKey(1, [0]) by { assert Pow(256, 1) == 256; }
    } else {
      forall key | IsKey(w, key) ensures |Flat(SymbolBytes(w, key))| >= w {
        var symbols := SymbolBytes(w, key);
        assert Flat(symbols) == symbols[0] + Flat(symbols[1..]);
      }
    }
  }

  lemma LeafHoldsOne(payload: seq<byte>, rest: seq<byte>)
    ensures Find(Leaf(payload), rest).Some? ==> rest == []
  {
    if rest != [] {
      assert FindArc(Leaf(payload).sub.arcs, rest[0]) == None;
      assert Find(Leaf(payload), rest) == FindUnder(None, rest);
    }
  }

  /** The empty key leaves what the user finds under every key as it was, exactly when no longer
      arc of the root begins with byte 0 and the byte 0 is no key, or has this payload already.
      What was added stays under the same condition, or when the byte 0 was never added. */
  lemma EmptyKeyIsSafe(t: Tree, w: nat, payload: seq<byte>)
    requires WellFormed(t) && w > 0 && HoldsUserKeys(t, w)
    ensures (forall bytes | IsUserKey(w, bytes) :: Find(AddEmpty(false, t, payload), bytes) == Find(t, bytes))
       <==> !Shadowed(t) && (w > 1 || Find(t, [0]) == Some(payload))
    ensures (forall bytes | IsUserKey(w, bytes) && Find(t, bytes).Some? ::
              Find(AddEmpty(false, t, payload), bytes) == Find(t, bytes))
       <==> !Shadowed(t) && (w > 1 || Find(t, [0]) == None || Find(t, [0]) == Some(payload))
    ensures !Shadowed(t) <==> WellFormed(AddEmpty(false, t, payload))
    ensures !Shadowed(t) ==> Find(AddEmpty(false, t, payload), [0]) == Some(payload)
  {
    hide IsUserKey;
    ZeroIsUserKey(w);
    if Shadowed(t) {
      var key := KeyLost(t, payload);
      TwoArcs(t, payload);
      assert IsUserKey(w, key);
    } else {
      EmptyIsZero(false, t, payload);
      AddKeepsWellFormed(t, [0], payload);
      forall bytes
        ensures Find(AddEmpty(false, t, payload), bytes) == if bytes == [0] then Some(payload) else Find(t, bytes)
      {
        FindAfterAdd(t, [0], payload, bytes);
      }
    }
  }

  /** With one-byte symbols, the empty key takes the place of the user's key "\0". */
  lemma ZeroOverwritten()
    ensures var t := Tree(None, ArcSet([Arc([0], Leaf([1]))]));
      && WellFormed(t) && !Shadowed(t) && HoldsUserKeys(t, 1) && IsUserKey(1, [0])
      && Find(t, [0]) == Some([1]) && Find(AddEmpty(false, t, [2]), [0]) == Some([2])
  {
    var arc := Arc([0], Leaf([1]));
    var t := Tree(None, ArcSet([arc]));
    ZeroIsUserKey(1);
    BoundIs([arc], 0, 0);
    assert Proper(arc.node);
    forall bytes ensures Find(t, bytes).Some? ==> bytes == [0] {
      assert bytes != [] ==> Find(t, bytes) == FindUnder(FindArc([arc], bytes[0]), bytes);
      assert bytes != [] ==> FindArc([arc], bytes[0]) in {None, Some(arc)};
      if bytes != [] && FindArc([arc], bytes[0]).Some? && arc.text <= bytes {
        assert bytes == [0] + bytes[1..];
        LeafHoldsOne([1], bytes[1..]);
      }
    }
    assert Find(t, [0]) == Some([1]) by { assert [0][1..] == []; }
    EmptyIsZero(false, t, [2]);
    FindAfterAdd(t, [0], [2], [0]);
  }

  lemma TwoArcs(t: Tree, payload: seq<byte>)
    requires WellFormed(t) && Shadowed(t)
    ensures !WellFormed(AddEmpty(false, t, payload))
  {
    var i := LowerBound(t.sub.arcs, 0);
    InsertIndices(t.sub.arcs, Arc([0], Leaf(payload)));
    var more := Insert(t.sub.arcs, Arc([0], Leaf(payload)));
    assert more[i].text[0] == 0 == more[i + 1].text[0];
  }
}
