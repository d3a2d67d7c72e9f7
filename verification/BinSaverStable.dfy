/** What stable output promises: the file follows the graph alone, not the addresses at which its
    objects lie. */
module BinSaverStable {
  import opened Bytes
  import opened BinSaver
  import opened BinSaverRoundTrip

  // ---- one graph in two memories ----

  /** The two values differ in pointers alone, and `f` leads the ones to the others. */
  ghost predicate SameValue(f: map<nat, nat>, v: Value, v': Value)
    decreases v, 0
  {
    match v
    case VPtr(p) => v'.VPtr? && (if p == 0 then v'.p == 0 else p in f && v'.p == f[p])
    case VVector(es) => v'.VVector? && SameAll(f, es, v'.elems)
    case VPair(a, b) => v'.VPair? && SameValue(f, a, v'.fst) && SameValue(f, b, v'.snd)
    case VJust(i) => v'.VJust? && SameValue(f, i, v'.inner)
    case VLeft(i) => v'.VLeft? && SameValue(f, i, v'.inner)
    case VRight(i) => v'.VRight? && SameValue(f, i, v'.inner)
    case VTable(ks, vs) => v'.VTable? && SameAll(f, ks, v'.keys) && SameAll(f, vs, v'.vals)
    case VGrid(x, y, es) => v'.VGrid? && v'.width == x && v'.height == y && SameAll(f, es, v'.cells)
    case _ => v' == v
  }

  ghost predicate SameAll(f: map<nat, nat>, es: seq<Value>, es': seq<Value>)
    decreases es, 1
  {
    |es| == |es'| && forall k | 0 <= k < |es| :: SameValue(f, es[k], es'[k])
  }

  /** One to one, the objects of `f` have the same types and the same values in both memories. */
  ghost predicate SameGraph(f: map<nat, nat>, memory: map<nat, Node>, memory': map<nat, Node>) {
    && (forall p, r | p in f && r in f && p != r :: f[p] != f[r])
    && forall p | p in f :: SameNode(f, memory, memory', p)
  }

  ghost predicate SameNode(f: map<nat, nat>, memory: map<nat, Node>, memory': map<nat, Node>, p: nat)
    requires p in f
  {
    && p in memory && f[p] in memory' && memory[p].typeId == memory'[f[p]].typeId
    && SameValue(f, memory[p].value, memory'[f[p]].value)
  }

  /** Two savers that have written the same and have the same objects queued. */
  ghost predicate Alike(classes: Classes, f: map<nat, nat>, st: State, st': State) {
    && Saving(classes, st) && Saving(classes, st') && st.stable && st'.stable
    && SameGraph(f, st.memory, st'.memory)
    && st.file == st'.file && SameQueue(f, st.queue, st'.queue)
  }

  ghost predicate SameQueue(f: map<nat, nat>, q: seq<nat>, q': seq<nat>) {
    |q| == |q'| && forall i | 0 <= i < |q| :: q[i] in f && q'[i] == f[q[i]]
  }

  // ---- they go on alike ----

  lemma SameEmit(classes: Classes, f: map<nat, nat>, st: State, st': State, t: Token)
    requires Alike(classes, f, st, st')
    ensures Alike(classes, f, Emit(st, t), Emit(st', t))
  {
    hide Saving;
    EmitKeeps(classes, st, t);
    EmitKeeps(classes, st', t);
  }

  /** An object is queued in the one exactly if its image is in the other, at the same place. */
  lemma SamePlace(f: map<nat, nat>, q: seq<nat>, q': seq<nat>, p: nat)
    requires SameQueue(f, q, q') && p in f && forall r | r in f && r != p :: f[r] != f[p]
    ensures p in q <==> f[p] in q'
    ensures forall i | 0 <= i < |q| :: q[i] == p <==> q'[i] == f[p]
  {
  }

  lemma SameObject(classes: Classes, f: map<nat, nat>, st: State, st': State, p: nat, p': nat)
    requires Alike(classes, f, st, st') && SameValue(f, VPtr(p), VPtr(p'))
    ensures p != 0 ==> p in st.memory && p' in st'.memory
    ensures Alike(classes, f, StoreObject(st, p), StoreObject(st', p'))
  {
    hide Saving, SameValue;
    PointerIs(f, p, p');
    if p == 0 {
      NoAddress(classes, f, st, st');
      SameEmit(classes, f, st, st', Id(0));
      assert StoreObject(st, 0) == Emit(st, Id(0)) && StoreObject(st', 0) == Emit(st', Id(0));
    } else {
      assert SameNode(f, st.memory, st'.memory, p);
      NoAddress(classes, f, st, st');
      NameKnown(classes, st, p);
      NameKnown(classes, st', p');
      SamePlace(f, st.queue, st'.queue, p);
      StoreObjectKeeps(classes, st, p);
      StoreObjectKeeps(classes, st', p');
      if p in st.queue {
        var i :| 0 <= i < |st.queue| && st.queue[i] == p;
        assert st'.queue[i] == p';
        assert Name(st, i) == Name(st', i);
      }
      QueuedSame(f, st.queue, st'.queue, p);
    }
  }

  lemma PointerIs(f: map<nat, nat>, p: nat, p': nat)
    requires SameValue(f, VPtr(p), VPtr(p'))
    ensures if p == 0 then p' == 0 else p in f && p' == f[p]
  {
  }

  lemma NoAddress(classes: Classes, f: map<nat, nat>, st: State, st': State)
    requires Alike(classes, f, st, st')
    ensures 0 !in st.memory && 0 !in st'.memory && (forall p | p in f :: f[p] != 0)
  {
    hide Distinct;
    forall p | p in f ensures f[p] != 0 {
      assert SameNode(f, st.memory, st'.memory, p);
    }
  }

  lemma QueuedSame(f: map<nat, nat>, q: seq<nat>, q': seq<nat>, p: nat)
    requires SameQueue(f, q, q') && p in f
    ensures SameQueue(f, q + [p], q' + [f[p]])
  {
  }

  lemma {:induction false} SameStore(classes: Classes, f: map<nat, nat>, st: State, st': State, l: Layout, v: Value, v': Value)
    requires Alike(classes, f, st, st') && SameValue(f, v, v')
    requires Typed(l, v) && Pointers(v) <= st.memory.Keys && Typed(l, v') && Pointers(v') <= st'.memory.Keys
    ensures Alike(classes, f, Store(st, l, v), Store(st', l, v'))
    decreases v, 3
  {
    hide Alike, StoreObject, SameGraph, StoreElems;
    match l
    case Raw(_) => SameEmit(classes, f, st, st', Chunk(v.raw));
    case Text =>
      SameEmit(classes, f, st, st', Size(|v.text|));
      SameEmit(classes, f, Emit(st, Size(|v.text|)), Emit(st', Size(|v.text|)), Chunk(v.text));
    case Ptr => SameObject(classes, f, st, st', v.p, v'.p);
    case Vector(e) =>
      SameEmit(classes, f, st, st', Size(|v.elems|));
      SameElems(classes, f, Emit(st, Size(|v.elems|)), Emit(st', Size(|v.elems|)), e, v.elems, v'.elems, |v.elems|);
    case Pair(a, b) =>
      SameStore(classes, f, st, st', a, v.fst, v'.fst);
      SameStore(classes, f, Store(st, a, v.fst), Store(st', a, v'.fst), b, v.snd, v'.snd);
    case Maybe(e) =>
      SameEmit(classes, f, st, st', Size(0));
      SameEmit(classes, f, st, st', Size(1));
      if v.VJust? {
        SameStore(classes, f, Emit(st, Size(1)), Emit(st', Size(1)), e, v.inner, v'.inner);
      }
    case Either(a, b) =>
      var n := if v.VLeft? then 0 else 1;
      SameEmit(classes, f, st, st', Size(n));
      SameStore(classes, f, Emit(st, Size(n)), Emit(st', Size(n)), if v.VLeft? then a else b, v.inner, v'.inner);
    case Table(a, b) => SameTable(classes, f, st, st', a, b, v, v');
    case Grid(e) => SameGrid(classes, f, st, st', e, v, v');
    case DataGrid =>
      SameEmit(classes, f, st, st', Size(v.width));
      var st1, st1' := Emit(st, Size(v.width)), Emit(st', Size(v.width));
      SameEmit(classes, f, st1, st1', Size(v.height));
      SameEmit(classes, f, Emit(st1, Size(v.height)), Emit(st1', Size(v.height)), Chunk(v.raw));
    case Fixed(e, _) => SameElems(classes, f, st, st', e, v.elems, v'.elems, |v.elems|);
  }

  lemma {:induction false} SameTable(classes: Classes, f: map<nat, nat>, st: State, st': State, a: Layout, b: Layout, v: Value, v': Value)
    requires Alike(classes, f, st, st') && SameValue(f, v, v')
    requires Typed(Table(a, b), v) && Pointers(v) <= st.memory.Keys
    requires Typed(Table(a, b), v') && Pointers(v') <= st'.memory.Keys
    ensures Alike(classes, f, Store(st, Table(a, b), v), Store(st', Table(a, b), v'))
    decreases v, 2
  {
    hide Alike, StoreElems, SameGraph;
    var n := |v.keys|;
    SameEmit(classes, f, st, st', Size(n));
    var st1, st1' := Emit(st, Size(n)), Emit(st', Size(n));
    SameElems(classes, f, st1, st1', a, v.keys, v'.keys, n);
    SameElems(classes, f, StoreElems(st1, a, v.keys, n), StoreElems(st1', a, v'.keys, n), b, v.vals, v'.vals, |v.vals|);
  }

  lemma {:induction false} SameGrid(classes: Classes, f: map<nat, nat>, st: State, st': State, e: Layout, v: Value, v': Value)
    requires Alike(classes, f, st, st') && SameValue(f, v, v')
    requires Typed(Grid(e), v) && Pointers(v) <= st.memory.Keys && Typed(Grid(e), v') && Pointers(v') <= st'.memory.Keys
    ensures Alike(classes, f, Store(st, Grid(e), v), Store(st', Grid(e), v'))
    decreases v, 2
  {
    hide Alike, StoreElems, SameGraph;
    SameEmit(classes, f, st, st', Size(v.width));
    var st1, st1' := Emit(st, Size(v.width)), Emit(st', Size(v.width));
    SameEmit(classes, f, st1, st1', Size(v.height));
    SameElems(classes, f, Emit(st1, Size(v.height)), Emit(st1', Size(v.height)), e, v.cells, v'.cells, |v.cells|);
  }

  lemma {:induction false} SameElems(classes: Classes, f: map<nat, nat>, st: State, st': State, e: Layout,
                                     es: seq<Value>, es': seq<Value>, n: nat)
    requires Alike(classes, f, st, st') && SameAll(f, es, es') && n <= |es|
    requires (forall k | 0 <= k < n :: Typed(e, es[k])) && PointersOf(es, n) <= st.memory.Keys
    requires (forall k | 0 <= k < n :: Typed(e, es'[k])) && PointersOf(es', n) <= st'.memory.Keys
    ensures Alike(classes, f, StoreElems(st, e, es, n), StoreElems(st', e, es', n))
    decreases es, 4, n
  {
    hide Alike, SameGraph, SameValue, Typed, Store, Pointers;
    if n > 0 {
      SameElems(classes, f, st, st', e, es, es', n - 1);
      SameStore(classes, f, StoreElems(st, e, es, n - 1), StoreElems(st', e, es', n - 1), e, es[n - 1], es'[n - 1]);
    }
  }

  lemma {:induction false} SameDrain(classes: Classes, f: map<nat, nat>, st: State, st': State, i: nat)
    requires Alike(classes, f, st, st') && i <= |st.queue| && Draining(classes, st, i) && Draining(classes, st', i)
    ensures Alike(classes, f, Drain(classes, st, i), Drain(classes, st', i))
    decreases |st.memory| - i
  {
    hide Saving, SameValue, Store;
    QueueInMemory(classes, st);
    QueueInMemory(classes, st');
    if i < |st.queue| {
      assert SameNode(f, st.memory, st'.memory, st.queue[i]);
      var node, node' := st.memory[st.queue[i]], st'.memory[st'.queue[i]];
      SameStore(classes, f, st, st', classes[node.typeId], node.value, node'.value);
      SameDrain(classes, f, StoreQueued(classes, st, i), StoreQueued(classes, st', i), i + 1);
    }
  }

  lemma StartAlike(classes: Classes, f: map<nat, nat>, memory: map<nat, Node>, memory': map<nat, Node>)
    requires Closed(classes, memory) && Closed(classes, memory') && SameGraph(f, memory, memory')
    ensures Saving(classes, Writer(true, memory)) && Saving(classes, Writer(true, memory'))
    ensures Alike(classes, f, Writer(true, memory), Writer(true, memory'))
  {
    hide SameGraph;
    WriterSaves(classes, true, memory);
    WriterSaves(classes, true, memory');
  }

  lemma AlikeFile(classes: Classes, f: map<nat, nat>, st: State, st': State)
    requires Alike(classes, f, st, st')
    ensures st.file == st'.file && |st.queue| == |st'.queue| && Saving(classes, st) && Saving(classes, st')
  {
  }

  /** Wherever its objects lie, a graph is saved in the same bytes. */
  lemma StableFileFollowsGraph(classes: Classes, f: map<nat, nat>, memory: map<nat, Node>, memory': map<nat, Node>,
                               l: Layout, root: Value, root': Value)
    requires Closed(classes, memory) && Typed(l, root) && Pointers(root) <= memory.Keys
    requires Closed(classes, memory') && Typed(l, root') && Pointers(root') <= memory'.Keys
    requires SameGraph(f, memory, memory') && SameValue(f, root, root')
    ensures Save(classes, true, memory, l, root).file == Save(classes, true, memory', l, root').file
  {
    hide Store, SameGraph, SameValue, Typed, Pointers, Alike, Drain, Saving;
    StartAlike(classes, f, memory, memory');
    var st, st' := Writer(true, memory), Writer(true, memory');
    StoreKeeps(classes, st, l, root);
    StoreKeeps(classes, st', l, root');
    SameStore(classes, f, st, st', l, root, root');
    AlikeFile(classes, f, Store(st, l, root), Store(st', l, root'));
    SameDrain(classes, f, Store(st, l, root), Store(st', l, root'), 0);
    AlikeFile(classes, f, Drain(classes, Store(st, l, root), 0), Drain(classes, Store(st', l, root'), 0));
  }

  // ---- what was loaded, saved again ----

  ghost function Places(q: seq<nat>): map<nat, nat> {
    map p | p in q :: Place(q, p)
  }

  ghost predicate UpTo(addresses: set<nat>, n: nat) {
    forall a | a in addresses :: 1 <= a <= n
  }

  /** Leading the pointers to the loaded objects keeps the type of a value and all else in it. */
  lemma {:induction false} MappedIsSame(l: Layout, v: Value, q: seq<nat>)
    requires Typed(l, v) && Distinct(q) && 0 !in q && forall p | p in Pointers(v) :: p in q
    ensures SameValue(Places(q), v, Mapped(v, q)) && Typed(l, Mapped(v, q))
    ensures UpTo(Pointers(Mapped(v, q)), |q|)
    decreases v, 0
  {
    hide Place, Distinct, MappedAll, Places, PointersOf;
    match l
    case Ptr => PointerMapped(v.p, q);
    case Vector(e) => MappedAllIsSame(e, v.elems, |v.elems|, q);
    case Pair(a, b) =>
      MappedIsSame(a, v.fst, q);
      MappedIsSame(b, v.snd, q);
    case Maybe(e) =>
      if v.VJust? {
        MappedIsSame(e, v.inner, q);
      }
    case Either(a, b) => MappedIsSame(if v.VLeft? then a else b, v.inner, q);
    case Table(a, b) =>
      MappedAllIsSame(a, v.keys, |v.keys|, q);
      MappedAllIsSame(b, v.vals, |v.vals|, q);
    case Grid(e) => MappedAllIsSame(e, v.cells, |v.cells|, q);
    case Fixed(e, _) => MappedAllIsSame(e, v.elems, |v.elems|, q);
    case _ =>
  }

  lemma PointerMapped(p: nat, q: seq<nat>)
    requires 0 !in q && (p != 0 ==> p in q)
    ensures SameValue(Places(q), VPtr(p), Mapped(VPtr(p), q))
    ensures UpTo(Pointers(Mapped(VPtr(p), q)), |q|)
  {
    if p == 0 {
      PlaceOfNone(q, 0);
    } else {
      PlaceInRange(q, p);
    }
  }

  lemma {:induction false} MappedAllIsSame(e: Layout, es: seq<Value>, n: nat, q: seq<nat>)
    requires n <= |es| && (forall k | 0 <= k < n :: Typed(e, es[k]))
    requires Distinct(q) && 0 !in q && forall p | p in PointersOf(es, n) :: p in q
    ensures |MappedAll(es, q, n)| == n
    ensures forall k | 0 <= k < n ::
      SameValue(Places(q), es[k], MappedAll(es, q, n)[k]) && Typed(e, MappedAll(es, q, n)[k])
    ensures UpTo(PointersOf(MappedAll(es, q, n), n), |q|)
    decreases es, 1, n
  {
    hide SameValue, Typed, Mapped;
    if n > 0 {
      MappedAllIsSame(e, es, n - 1, q);
      MappedIsSame(e, es[n - 1], q);
      PointersOfMore(MappedAll(es, q, n - 1), Mapped(es[n - 1], q));
    }
  }

  lemma PointersOfMore(es: seq<Value>, v: Value)
    ensures PointersOf(es + [v], |es| + 1) == PointersOf(es, |es|) + Pointers(v)
  {
    PointersOfFirst(es, [v], |es|);
  }

  lemma {:induction false} PointersOfFirst(es: seq<Value>, more: seq<Value>, n: nat)
    requires n <= |es|
    ensures PointersOf(es + more, n) == PointersOf(es, n)
  {
    if n > 0 {
      PointersOfFirst(es, more, n - 1);
    }
  }

  /** The object loaded for the one queued at `i`. */
  lemma LoadedSame(classes: Classes, memory: map<nat, Node>, root: Value, memory': map<nat, Node>, root': Value, q: seq<nat>, i: nat)
    requires Closed(classes, memory) && Isomorphic(memory, root, memory', root', q) && i < |q| && 0 !in q
    requires forall p | p in Pointers(memory[q[i]].value) :: p in q
    ensures Places(q)[q[i]] == i + 1 && SameNode(Places(q), memory, memory', q[i])
    ensures i + 1 in memory' && memory'[i + 1].typeId in classes && Typed(classes[memory'[i + 1].typeId], memory'[i + 1].value)
    ensures UpTo(Pointers(memory'[i + 1].value), |q|)
  {
    hide SameValue, Typed, Mapped, Reachable, Pointers, Place;
    PlaceAt(q, i);
    assert q[i] in memory && q[i] in q;
    MappedIsSame(classes[memory[q[i]].typeId], memory[q[i]].value, q);
  }

  lemma PlacesApart(q: seq<nat>)
    requires Distinct(q)
    ensures forall p, r | p in Places(q) && r in Places(q) && p != r :: Places(q)[p] != Places(q)[r]
  {
    hide Place;
    forall p, r | p in Places(q) && r in Places(q) && p != r ensures Places(q)[p] != Places(q)[r] {
      var i :| 0 <= i < |q| && q[i] == p;
      var j :| 0 <= j < |q| && q[j] == r;
      PlaceAt(q, i);
      PlaceAt(q, j);
    }
  }

  /** The first object queued leads to the place 1 and so on, and back again. */
  lemma PlacesSame(classes: Classes, memory: map<nat, Node>, root: Value, memory': map<nat, Node>, root': Value, q: seq<nat>)
    requires Closed(classes, memory) && Isomorphic(memory, root, memory', root', q)
    ensures SameGraph(Places(q), memory, memory') && Closed(classes, memory')
  {
    hide SameNode, Typed, Mapped, Reachable, Pointers, Place;
    QueueLeads(memory, root, memory', root', q);
    PlacesApart(q);
    forall p | p in Places(q) ensures SameNode(Places(q), memory, memory', p) {
      var i :| 0 <= i < |q| && q[i] == p;
      LoadedSame(classes, memory, root, memory', root', q, i);
    }
    forall a | a in memory' ensures a != 0 && memory'[a].typeId in classes
      && Typed(classes[memory'[a].typeId], memory'[a].value) && Pointers(memory'[a].value) <= memory'.Keys
    {
      LoadedSame(classes, memory, root, memory', root', q, a - 1);
    }
  }

  /** The queue has no null and every object that a queued one points to. */
  lemma QueueLeads(memory: map<nat, Node>, root: Value, memory': map<nat, Node>, root': Value, q: seq<nat>)
    requires 0 !in memory && Isomorphic(memory, root, memory', root', q)
    ensures 0 !in q && (forall p | p in Pointers(root) :: p in q)
    ensures forall i | 0 <= i < |q| :: q[i] in memory && forall p | p in Pointers(memory[q[i]].value) :: p in q
  {
    hide Mapped;
    forall p | p in Pointers(root) ensures p in q {
      assert Path(memory, Pointers(root), [p]);
      assert [p][|[p]| - 1] == p;
      assert Reachable(memory, Pointers(root), p);
    }
    forall i, p | 0 <= i < |q| && p in Pointers(memory[q[i]].value) ensures p in q {
      assert q[i] in q && Reachable(memory, Pointers(root), q[i]);
      assert PointsTo(memory, q[i], p);
      ReachOne(memory, Pointers(root), q[i], p);
    }
  }

  /** However it was saved, what is loaded is saved in the same bytes as the original. */
  lemma SavedAgain(classes: Classes, stable: bool, memory: map<nat, Node>, l: Layout, root: Value)
    requires Closed(classes, memory) && Typed(l, root) && Pointers(root) <= memory.Keys
    ensures var (root', ld) := Restore(classes, Save(classes, stable, memory, l, root).file, l);
      && Closed(classes, ld.memory) && Typed(l, root') && Pointers(root') <= ld.memory.Keys
      && Save(classes, true, ld.memory, l, root').file == Save(classes, true, memory, l, root).file
  {
    hide Save, Restore, SameValue, SameGraph, Mapped;
    SavedGraphLoads(classes, stable, memory, l, root);
    var st := Save(classes, stable, memory, l, root);
    var (root', ld) := Restore(classes, st.file, l);
    QueueLeads(memory, root, ld.memory, root', st.queue);
    PlacesSame(classes, memory, root, ld.memory, root', st.queue);
    MappedIsSame(l, root, st.queue);
    StableFileFollowsGraph(classes, Places(st.queue), memory, ld.memory, l, root, root');
  }
}
