/** What is saved and loaded again is the same graph: reading follows writing step by step, the
    object queued at `i` by the one being the object queued at `i` by the other. */
module BinSaverRoundTrip {
  import opened Bytes
  import opened BinSaver

  // ---- the isomorphism ----

  /** The address that the reader gives to the object at `p`: its place in the queue, from 1. */
  function Place(q: seq<nat>, p: nat): nat {
    if q == [] then 0 else if q[|q| - 1] == p then |q| else Place(q[..|q| - 1], p)
  }

  lemma {:induction false} PlaceAt(q: seq<nat>, i: nat)
    requires Distinct(q) && i < |q|
    ensures Place(q, q[i]) == i + 1
  {
    if i < |q| - 1 {
      PlaceAt(q[..|q| - 1], i);
    }
  }

  lemma {:induction false} PlaceOfNone(q: seq<nat>, p: nat)
    requires p !in q
    ensures Place(q, p) == 0
  {
    if q != [] {
      PlaceOfNone(q[..|q| - 1], p);
    }
  }

  /** A value with every pointer led to the loaded object. */
  function Mapped(v: Value, q: seq<nat>): Value
    decreases v, 0
  {
    match v
    case VPtr(p) => VPtr(Place(q, p))
    case VVector(es) => VVector(MappedAll(es, q, |es|))
    case VPair(a, b) => VPair(Mapped(a, q), Mapped(b, q))
    case VJust(i) => VJust(Mapped(i, q))
    case VLeft(i) => VLeft(Mapped(i, q))
    case VRight(i) => VRight(Mapped(i, q))
    case VTable(ks, vs) => VTable(MappedAll(ks, q, |ks|), MappedAll(vs, q, |vs|))
    case VGrid(x, y, es) => VGrid(x, y, MappedAll(es, q, |es|))
    case _ => v
  }

  function MappedAll(es: seq<Value>, q: seq<nat>, n: nat): seq<Value>
    requires n <= |es|
    decreases es, 1, n
  {
    if n == 0 then [] else MappedAll(es, q, n - 1) + [Mapped(es[n - 1], q)]
  }

  /** Queueing more objects moves no pointer to an object queued before. */
  lemma {:induction false} MappedStays(v: Value, q: seq<nat>, q': seq<nat>)
    requires q <= q' && Distinct(q') && 0 !in q' && forall p | p in Pointers(v) :: p in q
    ensures Mapped(v, q') == Mapped(v, q)
    decreases v, 0
  {
    match v
    case VPtr(p) =>
      if p == 0 {
        PlaceOfNone(q, p);
        PlaceOfNone(q', p);
      } else {
        assert p in Pointers(v);
        var i :| 0 <= i < |q| && q[i] == p;
        PlaceAt(q, i);
        PlaceAt(q', i);
      }
    case VVector(es) => MappedAllStays(es, |es|, q, q');
    case VPair(a, b) =>
      MappedStays(a, q, q');
      MappedStays(b, q, q');
    case VJust(i) => MappedStays(i, q, q');
    case VLeft(i) => MappedStays(i, q, q');
    case VRight(i) => MappedStays(i, q, q');
    case VTable(ks, vs) =>
      MappedAllStays(ks, |ks|, q, q');
      MappedAllStays(vs, |vs|, q, q');
    case VGrid(_, _, es) => MappedAllStays(es, |es|, q, q');
    case _ =>
  }

  lemma {:induction false} MappedAllStays(es: seq<Value>, n: nat, q: seq<nat>, q': seq<nat>)
    requires n <= |es|
    requires q <= q' && Distinct(q') && 0 !in q' && forall p | p in PointersOf(es, n) :: p in q
    ensures MappedAll(es, q', n) == MappedAll(es, q, n)
    decreases es, 1, n
  {
    if n > 0 {
      MappedStays(es[n - 1], q, q');
      MappedAllStays(es, n - 1, q, q');
    }
  }

  lemma {:induction false} PlaceInRange(q: seq<nat>, p: nat)
    requires p in q
    ensures 1 <= Place(q, p) <= |q| && q[Place(q, p) - 1] == p
  {
    if q[|q| - 1] != p {
      PlaceInRange(q[..|q| - 1], p);
    }
  }

  /** Values that differ still differ when they are loaded: the keys of a table do not merge. */
  lemma {:induction false} MappedInjective(v: Value, u: Value, q: seq<nat>)
    requires 0 !in q && (forall p | p in Pointers(v) :: p in q) && (forall p | p in Pointers(u) :: p in q)
    requires Mapped(v, q) == Mapped(u, q)
    ensures v == u
    decreases v, 0
  {
    match v
    case VPtr(p) =>
      if p == 0 {
        PlaceOfNone(q, p);
      } else {
        assert p in Pointers(v);
        PlaceInRange(q, p);
      }
      if u.p == 0 {
        PlaceOfNone(q, u.p);
      } else {
        assert u.p in Pointers(u);
        PlaceInRange(q, u.p);
      }
    case VVector(es) =>
      MappedLength(es, q, |es|);
      MappedLength(u.elems, q, |u.elems|);
      MappedAllInjective(es, u.elems, |es|, q);
    case VPair(a, b) =>
      MappedInjective(a, u.fst, q);
      MappedInjective(b, u.snd, q);
    case VJust(i) => MappedInjective(i, u.inner, q);
    case VLeft(i) => MappedInjective(i, u.inner, q);
    case VRight(i) => MappedInjective(i, u.inner, q);
    case VTable(ks, vs) =>
      MappedLength(ks, q, |ks|);
      MappedLength(u.keys, q, |u.keys|);
      MappedLength(vs, q, |vs|);
      MappedLength(u.vals, q, |u.vals|);
      MappedAllInjective(ks, u.keys, |ks|, q);
      MappedAllInjective(vs, u.vals, |vs|, q);
    case VGrid(_, _, es) =>
      MappedLength(es, q, |es|);
      MappedLength(u.cells, q, |u.cells|);
      MappedAllInjective(es, u.cells, |es|, q);
    case _ =>
  }

  lemma {:induction false} MappedLength(es: seq<Value>, q: seq<nat>, n: nat)
    requires n <= |es|
    ensures |MappedAll(es, q, n)| == n
  {
    if n > 0 {
      MappedLength(es, q, n - 1);
    }
  }

  lemma {:induction false} MappedAllInjective(es: seq<Value>, us: seq<Value>, n: nat, q: seq<nat>)
    requires n <= |es| && n <= |us| && MappedAll(es, q, n) == MappedAll(us, q, n)
    requires 0 !in q && (forall p | p in PointersOf(es, n) :: p in q) && (forall p | p in PointersOf(us, n) :: p in q)
    ensures es[..n] == us[..n]
    decreases es, 1, n
  {
    if n > 0 {
      var a, b := MappedAll(es, q, n - 1), MappedAll(us, q, n - 1);
      var x, y := Mapped(es[n - 1], q), Mapped(us[n - 1], q);
      MappedLength(es, q, n - 1);
      MappedLength(us, q, n - 1);
      assert a + [x] == b + [y];
      assert a == (a + [x])[..n - 1] == (b + [y])[..n - 1] == b;
      assert x == (a + [x])[n - 1] == (b + [y])[n - 1] == y;
      MappedAllInjective(es, us, n - 1, q);
      MappedInjective(es[n - 1], us[n - 1], q);
      assert es[..n] == es[..n - 1] + [es[n - 1]] && us[..n] == us[..n - 1] + [us[n - 1]];
    }
  }

  // ---- reading follows writing ----

  /** The reader has read what the writer has written, and queued the same objects. */
  ghost predicate Linked(st: State, ld: State) {
    && st.file <= ld.file && ld.pos == |st.file|
    && |ld.queue| == |st.queue|
    && (forall i | 0 <= i < |st.queue| :: Matched(st, ld, i))
    && ld.objects.Keys == st.objects.Keys
    && forall a | a in ld.memory :: 1 <= a <= |ld.queue|
  }

  ghost predicate Matched(st: State, ld: State, i: nat)
    requires i < |st.queue| && |ld.queue| == |st.queue|
  {
    && ld.queue[i] == i + 1
    && Name(st, i) in ld.objects && ld.objects[Name(st, i)] == i + 1
    && i + 1 in ld.memory && st.queue[i] in st.memory
    && ld.memory[i + 1].typeId == st.memory[st.queue[i]].typeId
  }

  /** Reading a value leaves the objects there are alone. */
  ghost predicate Untouched(ld: State, ld': State) {
    && ld'.file == ld.file
    && forall a | a in ld.memory :: a in ld'.memory && ld'.memory[a] == ld.memory[a]
  }

  lemma NextIs(st: State, ld: State, t: Token)
    requires Linked(st, ld) && Emit(st, t).file <= ld.file
    ensures Next(ld) == t && Linked(Emit(st, t), Skip(ld))
  {
    assert Emit(st, t).file[|st.file|] == t;
    forall i | 0 <= i < |st.queue| ensures Matched(Emit(st, t), Skip(ld), i) {
      assert Matched(st, ld, i);
    }
  }

  lemma ObjectFollows(classes: Classes, st: State, ld: State, p: nat)
    requires Saving(classes, st) && Linked(st, ld) && (p != 0 ==> p in st.memory)
    requires StoreObject(st, p).file <= ld.file
    ensures var (a, ld') := LoadObject(classes, ld); var st' := StoreObject(st, p);
      Linked(st', ld') && Untouched(ld, ld') && a == Place(st'.queue, p)
  {
    hide Saving;
    if p == 0 {
      NextIs(st, ld, Id(0));
      NullHasNoPlace(classes, st);
    } else {
      NameKnown(classes, st, p);
      var (id, ptrIds) := NameOf(st, p);
      var st1 := Emit(st.(ptrIds := ptrIds), Id(id));
      if p in st.queue {
        NextIs(st, ld, Id(id));
        OldObject(classes, st, ld, p, id);
      } else {
        NewObject(classes, st, ld, p);
      }
    }
  }

  lemma NullHasNoPlace(classes: Classes, st: State)
    requires Saving(classes, st)
    ensures 0 !in st.queue && Place(st.queue, 0) == 0 && Distinct(st.queue)
  {
    assert forall i | 0 <= i < |st.queue| :: st.queue[i] in st.memory;
    PlaceOfNone(st.queue, 0);
  }

  lemma OldObject(classes: Classes, st: State, ld: State, p: nat, id: nat)
    requires Saving(classes, st) && Linked(st, ld) && p in st.queue
    requires forall i | 0 <= i < |st.queue| && st.queue[i] == p :: id == Name(st, i)
    ensures id in ld.objects && ld.objects[id] == Place(st.queue, p)
  {
    var i :| 0 <= i < |st.queue| && st.queue[i] == p;
    assert Matched(st, ld, i);
    PlaceAt(st.queue, i);
  }

  lemma NewObject(classes: Classes, st: State, ld: State, p: nat)
    requires Saving(classes, st) && Linked(st, ld) && p != 0 && p in st.memory && p !in st.queue
    requires StoreObject(st, p).file <= ld.file
    ensures var (a, ld') := LoadObject(classes, ld); var st' := StoreObject(st, p);
      Linked(st', ld') && Untouched(ld, ld') && a == Place(st'.queue, p)
  {
    hide Saving, Linked;
    NameKnown(classes, st, p);
    var (id, ptrIds) := NameOf(st, p);
    var st' := StoreObject(st, p);
    var st1 := st.(ptrIds := ptrIds);
    var t := TypeId(st.memory[p].typeId);
    assert st'.file == Emit(Emit(st, Id(id)), t).file;
    assert Emit(st, Id(id)).file <= st'.file;
    SameObjects(st, ld);
    NextIs(st, ld, Id(id));
    NextIs(Emit(st, Id(id)), Skip(ld), t);
    PlaceAt(st'.queue, |st.queue|) by {
      StoreObjectKeeps(classes, st, p);
      NullHasNoPlace(classes, st');
    }
    NewLinked(classes, st, ld, p);
  }

  lemma SameObjects(st: State, ld: State)
    requires Linked(st, ld)
    ensures |ld.queue| == |st.queue| && ld.objects.Keys == st.objects.Keys
    ensures |ld.queue| + 1 !in ld.memory
  {
  }

  lemma NewLinked(classes: Classes, st: State, ld: State, p: nat)
    requires Saving(classes, st) && Linked(st, ld) && p != 0 && p in st.memory && p !in st.queue
    requires NameOf(st, p).0 !in st.objects && StoreObject(st, p).file <= ld.file
    requires NextNumber(ld) == NameOf(st, p).0 && NextNumber(Skip(ld)) == st.memory[p].typeId
    ensures var (a, ld') := LoadObject(classes, ld);
      Linked(StoreObject(st, p), ld') && Untouched(ld, ld') && a == |st.queue| + 1
  {
    hide Saving, Untouched;
    NameKnown(classes, st, p);
    var id := NameOf(st, p).0;
    var st' := StoreObject(st, p);
    var (a, ld') := LoadObject(classes, ld);
    assert st'.queue == st.queue + [p] && ld'.queue == ld.queue + [|st.queue| + 1];
    assert st'.stable == st.stable && st'.memory == st.memory;
    assert ld'.objects == ld.objects[id := |st.queue| + 1];
    forall i | 0 <= i < |st'.queue| ensures Matched(st', ld', i) {
      if i < |st.queue| {
        assert Matched(st, ld, i);
        NamesApart(classes, st, i, id);
      }
    }
    NewUntouched(classes, ld, |st.queue| + 1);
  }

  lemma NewUntouched(classes: Classes, ld: State, a: nat)
    requires a !in ld.memory && a == NewAddress(ld)
    ensures Untouched(ld, LoadObject(classes, ld).1)
  {
  }

  lemma NamesApart(classes: Classes, st: State, i: nat, id: nat)
    requires Saving(classes, st) && i < |st.queue| && id !in st.objects
    ensures Name(st, i) != id
  {
  }

  lemma {:induction false} LoadFollows(classes: Classes, st: State, ld: State, l: Layout, v: Value)
    requires Saving(classes, st) && Linked(st, ld) && Typed(l, v) && Pointers(v) <= st.memory.Keys
    requires Store(st, l, v).file <= ld.file
    ensures var (v', ld') := Load(classes, ld, l); var st' := Store(st, l, v);
      Linked(st', ld') && Untouched(ld, ld') && v' == Mapped(v, st'.queue)
    decreases v, 1
  {
    hide Saving, Linked, StoreObject, LoadObject, Untouched, Grown;
    match l
    case Raw(_) =>
      NextIs(st, ld, Chunk(v.raw));
      SameUntouched(ld);
    case Text => TextFollows(st, ld, v.text);
    case Ptr =>
      ZeroIsNullIn(classes, st);
      ObjectFollows(classes, st, ld, v.p);
    case Vector(e) =>
      var st1 := Emit(st, Size(|v.elems|));
      EmitKeeps(classes, st, Size(|v.elems|));
      StoreElemsKeeps(classes, st1, e, v.elems, |v.elems|);
      FileGrows(st1, Store(st, l, v), ld.file, PointersOf(v.elems, |v.elems|));
      NextIs(st, ld, Size(|v.elems|));
      ElemsFollow(classes, st1, Skip(ld), e, v.elems, |v.elems|);
      SkipUntouched(ld, Load(classes, ld, l).1);
    case Pair(a, b) => PairFollows(classes, st, ld, a, b, v);
    case Maybe(e) =>
      if v.VNothing? {
        NextIs(st, ld, Size(0));
        SameUntouched(ld);
      } else {
        var st1 := Emit(st, Size(1));
        EmitKeeps(classes, st, Size(1));
        StoreKeeps(classes, st1, e, v.inner);
        FileGrows(st1, Store(st, l, v), ld.file, Pointers(v.inner));
        NextIs(st, ld, Size(1));
        LoadFollows(classes, st1, Skip(ld), e, v.inner);
        SkipUntouched(ld, Load(classes, ld, l).1);
      }
    case Either(a, b) =>
      var t, e := Size(if v.VLeft? then 0 else 1), if v.VLeft? then a else b;
      EmitKeeps(classes, st, t);
      StoreKeeps(classes, Emit(st, t), e, v.inner);
      FileGrows(Emit(st, t), Store(st, l, v), ld.file, Pointers(v.inner));
      NextIs(st, ld, t);
      LoadFollows(classes, Emit(st, t), Skip(ld), e, v.inner);
      SkipUntouched(ld, Load(classes, ld, l).1);
    case Table(a, b) => TableFollows(classes, st, ld, a, b, v);
    case Grid(e) => GridFollows(classes, st, ld, e, v);
    case DataGrid => DataGridFollows(st, ld, v.width, v.height, v.raw);
    case Fixed(e, _) => ElemsFollow(classes, st, ld, e, v.elems, |v.elems|);
  }

  lemma DataGridFollows(st: State, ld: State, width: nat, height: nat, raw: seq<byte>)
    requires Linked(st, ld) && StoreDataGrid(st, width, height, raw).file <= ld.file && (width * height == 0 ==> raw == [])
    ensures LoadDataGrid(ld).0 == VDataGrid(width, height, raw)
    ensures Linked(StoreDataGrid(st, width, height, raw), LoadDataGrid(ld).1) && Untouched(ld, LoadDataGrid(ld).1)
  {
    hide Linked;
    var st1 := Emit(st, Size(width));
    var st2 := Emit(st1, Size(height));
    assert st1.file <= st2.file <= StoreDataGrid(st, width, height, raw).file;
    NextIs(st, ld, Size(width));
    NextIs(st1, Skip(ld), Size(height));
    if width * height > 0 {
      NextIs(st2, Skip(Skip(ld)), Chunk(raw));
    }
  }

  lemma TableFollows(classes: Classes, st: State, ld: State, a: Layout, b: Layout, v: Value)
    requires Saving(classes, st) && Linked(st, ld) && Typed(Table(a, b), v) && Pointers(v) <= st.memory.Keys
    requires Store(st, Table(a, b), v).file <= ld.file
    ensures var (v', ld') := Load(classes, ld, Table(a, b)); var st' := Store(st, Table(a, b), v);
      Linked(st', ld') && Untouched(ld, ld') && v' == Mapped(v, st'.queue)
    decreases v, 0
  {
    hide Saving, Linked, StoreObject, LoadObject, Untouched, Grown;
    var n := |v.keys|;
    var st1 := Emit(st, Size(n));
    var st2 := StoreElems(st1, a, v.keys, n);
    var st3 := StoreElems(st2, b, v.vals, n);
    EmitKeeps(classes, st, Size(n));
    StoreElemsKeeps(classes, st1, a, v.keys, n);
    StoreElemsKeeps(classes, st2, b, v.vals, n);
    FileGrows(st2, st3, ld.file, PointersOf(v.vals, n));
    FileGrows(st1, st2, ld.file, PointersOf(v.keys, n));
    NextIs(st, ld, Size(n));
    ElemsFollow(classes, st1, Skip(ld), a, v.keys, n);
    var ld1 := LoadElems(classes, Skip(ld), a, n).1;
    UntouchedFile(Skip(ld), ld1);
    ElemsFollow(classes, st2, ld1, b, v.vals, n);
    UntouchedTwice(Skip(ld), ld1, LoadElems(classes, ld1, b, n).1);
    SkipUntouched(ld, LoadElems(classes, ld1, b, n).1);
    MappedElemsLater(classes, st1, st2, st3, v.keys, n, PointersOf(v.vals, n));
  }

  lemma GridFollows(classes: Classes, st: State, ld: State, e: Layout, v: Value)
    requires Saving(classes, st) && Linked(st, ld) && Typed(Grid(e), v) && Pointers(v) <= st.memory.Keys
    requires Store(st, Grid(e), v).file <= ld.file
    ensures var (v', ld') := Load(classes, ld, Grid(e)); var st' := Store(st, Grid(e), v);
      Linked(st', ld') && Untouched(ld, ld') && v' == Mapped(v, st'.queue)
    decreases v, 0
  {
    hide Saving, Linked, StoreObject, LoadObject, Untouched, Grown;
    var st1 := Emit(st, Size(v.width));
    var st2 := Emit(st1, Size(v.height));
    EmitKeeps(classes, st, Size(v.width));
    EmitKeeps(classes, st1, Size(v.height));
    StoreElemsKeeps(classes, st2, e, v.cells, |v.cells|);
    FileGrows(st2, Store(st, Grid(e), v), ld.file, PointersOf(v.cells, |v.cells|));
    FileGrows(st1, st2, ld.file, {});
    NextIs(st, ld, Size(v.width));
    NextIs(st1, Skip(ld), Size(v.height));
    ElemsFollow(classes, st2, Skip(Skip(ld)), e, v.cells, |v.cells|);
    SkipUntouched(Skip(ld), Load(classes, ld, Grid(e)).1);
    SkipUntouched(ld, Load(classes, ld, Grid(e)).1);
  }

  lemma PairFollows(classes: Classes, st: State, ld: State, a: Layout, b: Layout, v: Value)
    requires Saving(classes, st) && Linked(st, ld) && Typed(Pair(a, b), v) && Pointers(v) <= st.memory.Keys
    requires Store(st, Pair(a, b), v).file <= ld.file
    ensures var (v', ld') := Load(classes, ld, Pair(a, b)); var st' := Store(st, Pair(a, b), v);
      Linked(st', ld') && Untouched(ld, ld') && v' == Mapped(v, st'.queue)
    decreases v, 0
  {
    hide Saving, Linked, StoreObject, LoadObject, Untouched, Grown;
    var st1 := Store(st, a, v.fst);
    var st2 := Store(st1, b, v.snd);
    StoreKeeps(classes, st, a, v.fst);
    StoreKeeps(classes, st1, b, v.snd);
    FileGrows(st1, st2, ld.file, Pointers(v.snd));
    LoadFollows(classes, st, ld, a, v.fst);
    var (v1, ld1) := Load(classes, ld, a);
    UntouchedFile(ld, ld1);
    LoadFollows(classes, st1, ld1, b, v.snd);
    UntouchedTwice(ld, ld1, Load(classes, ld1, b).1);
    MappedLater(classes, st, st1, st2, v.fst, Pointers(v.snd));
  }

  lemma {:induction false} ElemsFollow(classes: Classes, st: State, ld: State, e: Layout, es: seq<Value>, n: nat)
    requires Saving(classes, st) && Linked(st, ld)
    requires n <= |es| && (forall k | 0 <= k < n :: Typed(e, es[k])) && PointersOf(es, n) <= st.memory.Keys
    requires StoreElems(st, e, es, n).file <= ld.file
    ensures var (vs, ld') := LoadElems(classes, ld, e, n); var st' := StoreElems(st, e, es, n);
      Linked(st', ld') && Untouched(ld, ld') && vs == MappedAll(es, st'.queue, n)
    decreases es, 1, n
  {
    hide Saving, Linked, Untouched, Grown, Store, Load, Typed, Mapped, Pointers;
    if n == 0 {
      SameUntouched(ld);
    } else {
      var st1 := StoreElems(st, e, es, n - 1);
      var st2 := Store(st1, e, es[n - 1]);
      StoreElemsKeeps(classes, st, e, es, n - 1);
      StoreKeeps(classes, st1, e, es[n - 1]);
      FileGrows(st1, st2, ld.file, Pointers(es[n - 1]));
      ElemsFollow(classes, st, ld, e, es, n - 1);
      var (vs, ld1) := LoadElems(classes, ld, e, n - 1);
      UntouchedFile(ld, ld1);
      LoadFollows(classes, st1, ld1, e, es[n - 1]);
      UntouchedTwice(ld, ld1, Load(classes, ld1, e).1);
      MappedElemsLater(classes, st, st1, st2, es, n - 1, Pointers(es[n - 1]));
    }
  }

  lemma TextFollows(st: State, ld: State, text: seq<byte>)
    requires Linked(st, ld) && StoreText(st, text).file <= ld.file
    ensures LoadText(ld).0 == VText(text)
    ensures Linked(StoreText(st, text), LoadText(ld).1) && Untouched(ld, LoadText(ld).1)
  {
    hide Linked;
    var st1 := Emit(st, Size(|text|));
    assert st1.file <= StoreText(st, text).file;
    NextIs(st, ld, Size(|text|));
    if |text| > 0 {
      NextIs(st1, Skip(ld), Chunk(text));
    }
  }

  lemma FileGrows(st: State, st': State, file: seq<Token>, pointers: set<nat>)
    requires Grown(st, st', pointers) && st'.file <= file
    ensures st.file <= file
  {
  }

  lemma SameUntouched(ld: State)
    ensures Untouched(ld, ld) && Untouched(ld, Skip(ld))
  {
  }

  lemma SkipUntouched(ld: State, ld': State)
    requires Untouched(Skip(ld), ld')
    ensures Untouched(ld, ld')
  {
  }

  lemma UntouchedFile(ld: State, ld': State)
    requires Untouched(ld, ld')
    ensures ld'.file == ld.file
  {
  }

  lemma UntouchedTwice(a: State, b: State, c: State)
    requires Untouched(a, b) && Untouched(b, c)
    ensures Untouched(a, c)
  {
  }

  lemma MappedLater(classes: Classes, st: State, st1: State, st2: State, v: Value, more: set<nat>)
    requires Saving(classes, st2) && Grown(st, st1, Pointers(v)) && Grown(st1, st2, more)
    ensures Mapped(v, st2.queue) == Mapped(v, st1.queue)
  {
    NullHasNoPlace(classes, st2);
    MappedStays(v, st1.queue, st2.queue);
  }

  lemma MappedElemsLater(classes: Classes, st: State, st1: State, st2: State, es: seq<Value>, n: nat, more: set<nat>)
    requires n <= |es|
    requires Saving(classes, st2) && Grown(st, st1, PointersOf(es, n)) && Grown(st1, st2, more)
    ensures MappedAll(es, st2.queue, n) == MappedAll(es, st1.queue, n)
  {
    NullHasNoPlace(classes, st2);
    MappedAllStays(es, n, st1.queue, st2.queue);
  }

  // ---- the destructors ----

  /** The objects that both queues have worked off are each other's images. */
  ghost predicate Settled(st: State, ld: State, n: nat) {
    && n <= |st.queue| && |ld.queue| == |st.queue|
    && forall j | 0 <= j < n :: SettledAt(st, ld, j)
  }

  ghost predicate SettledAt(st: State, ld: State, j: nat)
    requires j < |st.queue|
  {
    && st.queue[j] in st.memory && j + 1 in ld.memory
    && (forall p | p in Pointers(st.memory[st.queue[j]].value) :: p in st.queue)
    && ld.memory[j + 1].value == Mapped(st.memory[st.queue[j]].value, st.queue)
  }

  lemma QueuedFollows(classes: Classes, st: State, ld: State, i: nat)
    requires Draining(classes, st, i) && i < |st.queue| && Linked(st, ld) && Settled(st, ld, i)
    requires StoreQueued(classes, st, i).file <= ld.file
    ensures var st', ld' := StoreQueued(classes, st, i), LoadQueued(classes, ld, i);
      Linked(st', ld') && Settled(st', ld', i + 1) && ld'.file == ld.file
  {
    hide Saving, Load, Store, Grown, Linked, SettledAt, Untouched, Mapped;
    QueueInMemory(classes, st);
    var node := st.memory[st.queue[i]];
    var l := classes[node.typeId];
    StoreKeeps(classes, st, l, node.value);
    LoadFollows(classes, st, ld, l, node.value);
    var st' := StoreQueued(classes, st, i);
    var (v, ld1) := Load(classes, ld, l);
    var ld' := LoadQueued(classes, ld, i);
    LoadsInto(classes, st, ld, i);
    assert ld' == ld1.(memory := ld1.memory[i + 1 := Node(node.typeId, v)]);
    UntouchedAt(ld, ld1, i + 1);
    LinkedWithValue(st', ld1, i, Node(node.typeId, v));
    GrownBasics(st, st', Pointers(node.value));
    NewlySettled(classes, st', ld', i);
    forall j | 0 <= j < i ensures SettledAt(st', ld', j) {
      assert SettledAt(st, ld, j);
      SettledIn(st, ld, j);
      UntouchedAt(ld, ld1, j + 1);
      StillSettled(classes, st, ld, st', ld', j, Pointers(node.value));
    }
    LinkedSizes(st', ld');
    UntouchedFile(ld, ld1);
  }

  lemma LoadsInto(classes: Classes, st: State, ld: State, i: nat)
    requires Linked(st, ld) && i < |st.queue|
    ensures |ld.queue| == |st.queue| && ld.queue[i] == i + 1 && st.queue[i] in st.memory
    ensures i + 1 in ld.memory && ld.memory[i + 1].typeId == st.memory[st.queue[i]].typeId
  {
    assert Matched(st, ld, i);
  }

  lemma UntouchedAt(ld: State, ld': State, a: nat)
    requires Untouched(ld, ld') && a in ld.memory
    ensures a in ld'.memory && ld'.memory[a] == ld.memory[a]
  {
  }

  lemma LinkedSizes(st: State, ld: State)
    requires Linked(st, ld)
    ensures |ld.queue| == |st.queue|
  {
  }

  lemma SettledIn(st: State, ld: State, j: nat)
    requires j < |st.queue| && SettledAt(st, ld, j)
    ensures j + 1 in ld.memory
  {
  }

  lemma NewlySettled(classes: Classes, st: State, ld: State, i: nat)
    requires i < |st.queue| && st.queue[i] in st.memory && i + 1 in ld.memory
    requires forall p | p in Pointers(st.memory[st.queue[i]].value) :: p in st.queue
    requires ld.memory[i + 1].value == Mapped(st.memory[st.queue[i]].value, st.queue)
    ensures SettledAt(st, ld, i)
  {
  }

  lemma GrownBasics(st: State, st': State, pointers: set<nat>)
    requires Grown(st, st', pointers)
    ensures st.queue <= st'.queue && forall p | p in pointers :: p in st'.queue
  {
  }

  lemma LinkedWithValue(st: State, ld: State, i: nat, node: Node)
    requires Linked(st, ld) && i < |st.queue| && i + 1 in ld.memory && node.typeId == ld.memory[i + 1].typeId
    ensures Linked(st, ld.(memory := ld.memory[i + 1 := node]))
  {
    var ld' := ld.(memory := ld.memory[i + 1 := node]);
    forall j | 0 <= j < |st.queue| ensures Matched(st, ld', j) {
      assert Matched(st, ld, j);
    }
  }

  lemma StillSettled(classes: Classes, st: State, ld: State, st': State, ld': State, j: nat, more: set<nat>)
    requires Saving(classes, st') && Grown(st, st', more) && st'.memory == st.memory
    requires j < |st.queue| && SettledAt(st, ld, j)
    requires j + 1 in ld'.memory && ld'.memory[j + 1] == ld.memory[j + 1]
    ensures j < |st'.queue| && SettledAt(st', ld', j)
  {
    NullHasNoPlace(classes, st');
    MappedStays(st.memory[st.queue[j]].value, st.queue, st'.queue);
  }

  lemma {:induction false} DrainFollows(classes: Classes, st: State, ld: State, i: nat)
    requires Draining(classes, st, i) && Linked(st, ld) && Settled(st, ld, i)
    requires Drain(classes, st, i).file <= ld.file
    ensures var st', ld' := Drain(classes, st, i), DrainLoads(classes, ld, i);
      Linked(st', ld') && Settled(st', ld', |st'.queue|) && ld'.file == ld.file
    decreases |st.memory| - i
  {
    hide Saving, StoreQueued, LoadQueued, Linked, SettledAt;
    QueueInMemory(classes, st);
    if i < |st.queue| {
      QueuedFollows(classes, st, ld, i);
      DrainFollows(classes, StoreQueued(classes, st, i), LoadQueued(classes, ld, i), i + 1);
    }
  }

  // ---- what is saved ----

  ghost predicate Path(memory: map<nat, Node>, roots: set<nat>, path: seq<nat>) {
    path != [] && path[0] in roots && forall k | 0 < k < |path| :: PointsTo(memory, path[k - 1], path[k])
  }

  ghost predicate PointsTo(memory: map<nat, Node>, a: nat, b: nat) {
    a in memory && b in Pointers(memory[a].value)
  }

  ghost predicate Reachable(memory: map<nat, Node>, roots: set<nat>, p: nat) {
    exists path :: Path(memory, roots, path) && path[|path| - 1] == p
  }

  ghost predicate AllReachable(st: State, roots: set<nat>) {
    forall p | p in st.queue :: Reachable(st.memory, roots, p)
  }

  lemma ReachOne(memory: map<nat, Node>, roots: set<nat>, a: nat, b: nat)
    requires Reachable(memory, roots, a) && PointsTo(memory, a, b)
    ensures Reachable(memory, roots, b)
  {
    var path :| Path(memory, roots, path) && path[|path| - 1] == a;
    assert Path(memory, roots, path + [b]);
  }

  lemma {:induction false} DrainReaches(classes: Classes, st: State, i: nat, roots: set<nat>)
    requires Draining(classes, st, i) && AllReachable(st, roots)
    ensures AllReachable(Drain(classes, st, i), roots)
    decreases |st.memory| - i
  {
    hide Saving, Reachable, StoreQueued;
    QueueInMemory(classes, st);
    if i < |st.queue| {
      StoreQueuedGrown(classes, st, i);
      var st' := StoreQueued(classes, st, i);
      forall p | p in st'.queue ensures Reachable(st'.memory, roots, p) {
        if p !in st.queue {
          ReachOne(st.memory, roots, st.queue[i], p);
        }
      }
      DrainReaches(classes, st', i + 1, roots);
    }
  }

  lemma {:induction false} PathQueued(st: State, ld: State, roots: set<nat>, path: seq<nat>)
    requires Settled(st, ld, |st.queue|) && Path(st.memory, roots, path)
    requires forall p | p in roots :: p in st.queue
    ensures path[|path| - 1] in st.queue
    decreases |path|
  {
    var n := |path| - 1;
    if n > 0 {
      forall k | 0 < k < n ensures PointsTo(st.memory, path[..n][k - 1], path[..n][k]) {
        assert PointsTo(st.memory, path[k - 1], path[k]);
      }
      assert PointsTo(st.memory, path[n - 1], path[n]);
      PathQueued(st, ld, roots, path[..n]);
      var j :| 0 <= j < |st.queue| && st.queue[j] == path[n - 1];
      assert SettledAt(st, ld, j);
    }
  }

  // ---- the law ----

  function Writer(stable: bool, memory: map<nat, Node>): State {
    State(stable, [], 0, map[], map[], [], memory)
  }

  function Reader(file: seq<Token>): State {
    State(false, file, 0, map[], map[], [], map[])
  }

  /** A whole saver from construction to destruction. */
  function Save(classes: Classes, stable: bool, memory: map<nat, Node>, l: Layout, root: Value): (st: State)
    requires Closed(classes, memory) && Typed(l, root) && Pointers(root) <= memory.Keys
  {
    var st := Writer(stable, memory);
    StoreKeeps(classes, st, l, root);
    Drain(classes, Store(st, l, root), 0)
  }

  function Restore(classes: Classes, file: seq<Token>, l: Layout): (Value, State) {
    var (root, ld) := Load(classes, Reader(file), l);
    (root, DrainLoads(classes, ld, 0))
  }

  /** The graph below `root` and the one in `memory'` below `root'` are the same: objects
      correspond by `Place`, one to one and onto, with their types and their values. */
  ghost predicate Isomorphic(memory: map<nat, Node>, root: Value, memory': map<nat, Node>, root': Value, q: seq<nat>) {
    && Distinct(q) && (forall p :: p in q <==> Reachable(memory, Pointers(root), p))
    && root' == Mapped(root, q)
    && (forall a :: a in memory' <==> 1 <= a <= |q|)
    && forall i | 0 <= i < |q| ::
         && q[i] in memory && Place(q, q[i]) == i + 1
         && memory'[i + 1] == Node(memory[q[i]].typeId, Mapped(memory[q[i]].value, q))
  }

  /** Saving and loading any finite graph of registered objects, shared or cyclic, gives an
      isomorphic graph; each reachable object is queued and written once, and reading ends
      where the file ends. */
  lemma SavedGraphLoads(classes: Classes, stable: bool, memory: map<nat, Node>, l: Layout, root: Value)
    requires Closed(classes, memory) && Typed(l, root) && Pointers(root) <= memory.Keys
    ensures var st := Save(classes, stable, memory, l, root);
      var (root', ld) := Restore(classes, st.file, l);
      Isomorphic(memory, root, ld.memory, root', st.queue) && ld.pos == |st.file|
  {
    hide Saving, Load, Store, SettledAt, Drain, DrainLoads;
    var st0 := Writer(stable, memory);
    var ld0 := Reader(Save(classes, stable, memory, l, root).file);
    WriterSaves(classes, stable, memory);
    StoreKeeps(classes, st0, l, root);
    var st1 := Store(st0, l, root);
    var st2 := Drain(classes, st1, 0);
    LoadFollows(classes, st0, ld0, l, root);
    var (root', ld1) := Load(classes, ld0, l);
    UntouchedFile(ld0, ld1);
    DrainFollows(classes, st1, ld1, 0);
    RootsReachable(st0, st1, Pointers(root));
    DrainReaches(classes, st1, 0, Pointers(root));
    MappedRoot(classes, st0, st1, st2, root);
    Conclude(classes, memory, root, st2, DrainLoads(classes, ld1, 0), root');
  }

  lemma WriterSaves(classes: Classes, stable: bool, memory: map<nat, Node>)
    requires Closed(classes, memory)
    ensures Saving(classes, Writer(stable, memory))
  {
  }

  lemma RootsReachable(st: State, st': State, roots: set<nat>)
    requires st.queue == [] && Grown(st, st', roots)
    ensures AllReachable(st', roots)
  {
    forall p | p in st'.queue ensures Reachable(st'.memory, roots, p) {
      assert Path(st'.memory, roots, [p]);
    }
  }

  lemma MappedRoot(classes: Classes, st: State, st1: State, st2: State, root: Value)
    requires Saving(classes, st2) && Grown(st, st1, Pointers(root)) && st1.queue <= st2.queue
    ensures Mapped(root, st2.queue) == Mapped(root, st1.queue)
    ensures forall p | p in Pointers(root) :: p in st2.queue
  {
    NullHasNoPlace(classes, st2);
    MappedStays(root, st1.queue, st2.queue);
  }

  lemma Conclude(classes: Classes, memory: map<nat, Node>, root: Value, st: State, ld: State, root': Value)
    requires Saving(classes, st) && st.memory == memory && Linked(st, ld) && Settled(st, ld, |st.queue|)
    requires AllReachable(st, Pointers(root)) && root' == Mapped(root, st.queue)
    requires forall p | p in Pointers(root) :: p in st.queue
    ensures Isomorphic(memory, root, ld.memory, root', st.queue)
  {
    hide Saving, Mapped, Linked, Settled, Pointers;
    var q := st.queue;
    NullHasNoPlace(classes, st);
    forall p ensures p in q <==> Reachable(memory, Pointers(root), p) {
      if Reachable(memory, Pointers(root), p) {
        var path :| Path(memory, Pointers(root), path) && path[|path| - 1] == p;
        PathQueued(st, ld, Pointers(root), path);
      }
    }
    Images(st, ld);
  }

  lemma Images(st: State, ld: State)
    requires Distinct(st.queue) && Linked(st, ld) && Settled(st, ld, |st.queue|)
    ensures forall a :: a in ld.memory <==> 1 <= a <= |st.queue|
    ensures forall i | 0 <= i < |st.queue| ::
      var p := st.queue[i];
      && p in st.memory && Place(st.queue, p) == i + 1
      && ld.memory[i + 1] == Node(st.memory[p].typeId, Mapped(st.memory[p].value, st.queue))
  {
    hide Mapped, Distinct, Pointers, Place;
    forall i | 0 <= i < |st.queue|
      ensures st.queue[i] in st.memory && Place(st.queue, st.queue[i]) == i + 1 && i + 1 in ld.memory
      ensures ld.memory[i + 1] == Node(st.memory[st.queue[i]].typeId, Mapped(st.memory[st.queue[i]].value, st.queue))
    {
      assert Matched(st, ld, i) && SettledAt(st, ld, i);
      PlaceAt(st.queue, i);
    }
    forall a ensures a in ld.memory <==> 1 <= a <= |st.queue| {
      if 1 <= a <= |st.queue| {
        assert Matched(st, ld, a - 1);
      }
    }
  }
}
