/** The object-graph saver (BinSaver.h, BinSaver.cpp): values are written where they stand, the
    objects they point to are written once each when the saver is destroyed, and a reader builds
    the same graph again.

    A C++ class is a `Layout`, what its fields hold is a `Value`; a pointer is an address, 0 when
    null. The stream is a sequence of tokens, one for each chunk of data. */
module BinSaver {
  import opened Bytes

  // ---- values ----

  /** `Text` is a string, a blob, a bit set or a vector of plain data, in bytes; `DataGrid` is a
      two-dimensional array of plain data, `Fixed` an array of a fixed size. */
  datatype Layout =
    | Raw(size: nat)
    | Text
    | Ptr
    | Vector(elem: Layout)
    | Pair(first: Layout, second: Layout)
    | Maybe(inner: Layout)
    | Either(left: Layout, right: Layout)
    | Table(key: Layout, val: Layout)
    | Grid(cell: Layout)
    | DataGrid
    | Fixed(elem: Layout, count: nat)

  datatype Value =
    | VRaw(raw: seq<byte>)
    | VText(text: seq<byte>)
    | VPtr(p: nat)
    | VVector(elems: seq<Value>)
    | VPair(fst: Value, snd: Value)
    | VNothing
    | VJust(inner: Value)
    | VLeft(inner: Value)
    | VRight(inner: Value)
    | VTable(keys: seq<Value>, vals: seq<Value>)
    | VGrid(width: nat, height: nat, cells: seq<Value>)
    | VDataGrid(width: nat, height: nat, raw: seq<byte>)

  predicate Typed(l: Layout, v: Value)
    decreases l
  {
    match l
    case Raw(n) => v.VRaw? && |v.raw| == n
    case Text => v.VText?
    case Ptr => v.VPtr?
    case Vector(e) => v.VVector? && forall k | 0 <= k < |v.elems| :: Typed(e, v.elems[k])
    case Pair(a, b) => v.VPair? && Typed(a, v.fst) && Typed(b, v.snd)
    case Maybe(e) => v.VNothing? || (v.VJust? && Typed(e, v.inner))
    case Either(a, b) => (v.VLeft? && Typed(a, v.inner)) || (v.VRight? && Typed(b, v.inner))
    case Table(a, b) =>
      && v.VTable? && |v.keys| == |v.vals|
      && (forall k | 0 <= k < |v.keys| :: Typed(a, v.keys[k]))
      && (forall k | 0 <= k < |v.vals| :: Typed(b, v.vals[k]))
    case Grid(e) =>
      v.VGrid? && |v.cells| == v.width * v.height && forall k | 0 <= k < |v.cells| :: Typed(e, v.cells[k])
    case DataGrid => v.VDataGrid? && (v.width * v.height == 0 ==> v.raw == [])
    case Fixed(e, n) => v.VVector? && |v.elems| == n && forall k | 0 <= k < |v.elems| :: Typed(e, v.elems[k])
  }

  /** What a new object or a resized vector holds before it is read. */
  function Default(l: Layout): Value {
    match l
    case Raw(n) => VRaw(seq(n, i => 0))
    case Text => VText([])
    case Ptr => VPtr(0)
    case Vector(_) => VVector([])
    case Pair(a, b) => VPair(Default(a), Default(b))
    case Maybe(_) => VNothing
    case Either(a, _) => VLeft(Default(a))
    case Table(_, _) => VTable([], [])
    case Grid(_) => VGrid(0, 0, [])
    case DataGrid => VDataGrid(0, 0, [])
    case Fixed(e, n) => var d := Default(e); VVector(seq(n, i => d))
  }

  /** The pointers of a value that are not null. */
  function Pointers(v: Value): set<nat> {
    match v
    case VPtr(p) => if p == 0 then {} else {p}
    case VVector(es) => PointersOf(es, |es|)
    case VPair(a, b) => Pointers(a) + Pointers(b)
    case VJust(i) => Pointers(i)
    case VLeft(i) => Pointers(i)
    case VRight(i) => Pointers(i)
    case VTable(ks, vs) => PointersOf(ks, |ks|) + PointersOf(vs, |vs|)
    case VGrid(_, _, es) => PointersOf(es, |es|)
    case _ => {}
  }

  function PointersOf(es: seq<Value>, n: nat): set<nat>
    requires n <= |es|
  {
    if n == 0 then {} else PointersOf(es, n - 1) + Pointers(es[n - 1])
  }

  // ---- memory ----

  datatype Node = Node(typeId: nat, value: Value)

  /** The registered classes by type id. */
  type Classes = map<nat, Layout>

  /** Every object is of a registered class and points to objects only. */
  ghost predicate Closed(classes: Classes, memory: map<nat, Node>) {
    && 0 !in memory
    && forall p | p in memory ::
         && memory[p].typeId in classes && Typed(classes[memory[p].typeId], memory[p].value)
         && Pointers(memory[p].value) <= memory.Keys
  }

  // ---- the saver ----

  datatype Token = Id(id: nat) | TypeId(typeId: nat) | Size(size: nat) | Chunk(bytes: seq<byte>)

  /** `file` is what has been written, or all there is to read with `pos` read already. */
  datatype State = State(
    stable: bool, file: seq<Token>, pos: nat,
    ptrIds: map<nat, nat>, objects: map<nat, nat>, queue: seq<nat>, memory: map<nat, Node>)

  function Emit(st: State, t: Token): State {
    st.(file := st.file + [t])
  }

  // ---- writing ----

  /** The id of a pointer, given out in order when the output has to be stable, else its address. */
  function NameOf(st: State, p: nat): (r: (nat, map<nat, nat>)) {
    if !st.stable then (p, st.ptrIds)
    else if p == 0 then (0, st.ptrIds)
    else if p in st.ptrIds then (st.ptrIds[p], st.ptrIds)
    else (|st.ptrIds| + 1, st.ptrIds[p := |st.ptrIds| + 1])
  }

  function StoreObject(st: State, p: nat): (st': State)
    requires p != 0 ==> p in st.memory
    ensures st'.memory == st.memory && st'.stable == st.stable
  {
    var (id, ptrIds) := NameOf(st, p);
    var st1 := Emit(st.(ptrIds := ptrIds), Id(id));
    if id != 0 && id !in st.objects then
      Emit(st1.(queue := st1.queue + [p], objects := st1.objects[id := 0]), TypeId(st.memory[p].typeId))
    else st1
  }

  function Store(st: State, l: Layout, v: Value): (st': State)
    requires Typed(l, v) && Pointers(v) <= st.memory.Keys
    ensures st'.memory == st.memory && st'.stable == st.stable
    decreases v, 0
  {
    match l
    case Raw(_) => Emit(st, Chunk(v.raw))
    case Text => StoreText(st, v.text)
    case Ptr => StoreObject(st, v.p)
    case Vector(e) => StoreElems(Emit(st, Size(|v.elems|)), e, v.elems, |v.elems|)
    case Pair(a, b) => Store(Store(st, a, v.fst), b, v.snd)
    case Maybe(e) => if v.VNothing? then Emit(st, Size(0)) else Store(Emit(st, Size(1)), e, v.inner)
    case Either(a, b) =>
      if v.VLeft? then Store(Emit(st, Size(0)), a, v.inner) else Store(Emit(st, Size(1)), b, v.inner)
    case Table(a, b) =>
      StoreElems(StoreElems(Emit(st, Size(|v.keys|)), a, v.keys, |v.keys|), b, v.vals, |v.vals|)
    case Grid(e) => StoreElems(Emit(Emit(st, Size(v.width)), Size(v.height)), e, v.cells, |v.cells|)
    case DataGrid => StoreDataGrid(st, v.width, v.height, v.raw)
    case Fixed(e, _) => StoreElems(st, e, v.elems, |v.elems|)
  }

  /** Do2DArrayData: no chunk for no cells. */
  function StoreDataGrid(st: State, width: nat, height: nat, raw: seq<byte>): State {
    var st1 := Emit(Emit(st, Size(width)), Size(height));
    if width * height > 0 then Emit(st1, Chunk(raw)) else st1
  }

  /** DoDataVector: no chunk for no data. */
  function StoreText(st: State, text: seq<byte>): State {
    var st1 := Emit(st, Size(|text|));
    if |text| > 0 then Emit(st1, Chunk(text)) else st1
  }

  function StoreElems(st: State, e: Layout, es: seq<Value>, n: nat): (st': State)
    requires n <= |es| && (forall k | 0 <= k < n :: Typed(e, es[k])) && PointersOf(es, n) <= st.memory.Keys
    ensures st'.memory == st.memory && st'.stable == st.stable
    decreases es, 1, n
  {
    if n == 0 then st else Store(StoreElems(st, e, es, n - 1), e, es[n - 1])
  }

  // ---- reading ----

  function Next(st: State): Token {
    if st.pos < |st.file| then st.file[st.pos] else Size(0)
  }

  function NextNumber(st: State): nat {
    match Next(st)
    case Id(n) => n
    case TypeId(n) => n
    case Size(n) => n
    case Chunk(_) => 0
  }

  function NextBytes(st: State): seq<byte> {
    if Next(st).Chunk? then Next(st).bytes else []
  }

  function Skip(st: State): State {
    st.(pos := st.pos + 1)
  }

  /** Where the allocator puts the next object. */
  function NewAddress(st: State): nat {
    |st.queue| + 1
  }

  function LoadObject(classes: Classes, st: State): (r: (nat, State)) {
    var id, st1 := NextNumber(st), Skip(st);
    if id == 0 then (0, st1)
    else if id in st1.objects then (st1.objects[id], st1)
    else
      var typeId, st2, p := NextNumber(st1), Skip(st1), NewAddress(st1);
      var value := if typeId in classes then Default(classes[typeId]) else VNothing;
      (p, st2.(memory := st2.memory[p := Node(typeId, value)],
               objects := st2.objects[id := p], queue := st2.queue + [p]))
  }

  function Load(classes: Classes, st: State, l: Layout): (r: (Value, State))
    decreases l, 0
  {
    match l
    case Raw(_) => (VRaw(NextBytes(st)), Skip(st))
    case Text => LoadText(st)
    case Ptr => var (p, st1) := LoadObject(classes, st); (VPtr(p), st1)
    case Vector(e) => var (es, st1) := LoadElems(classes, Skip(st), e, NextNumber(st)); (VVector(es), st1)
    case Pair(a, b) =>
      var (v1, st1) := Load(classes, st, a);
      var (v2, st2) := Load(classes, st1, b);
      (VPair(v1, v2), st2)
    case Maybe(e) =>
      if NextNumber(st) == 0 then (VNothing, Skip(st))
      else var (v, st1) := Load(classes, Skip(st), e); (VJust(v), st1)
    case Either(a, b) =>
      if NextNumber(st) == 0 then var (v, st1) := Load(classes, Skip(st), a); (VLeft(v), st1)
      else var (v, st1) := Load(classes, Skip(st), b); (VRight(v), st1)
    case Table(a, b) =>
      var n := NextNumber(st);
      var (ks, st1) := LoadElems(classes, Skip(st), a, n);
      var (vs, st2) := LoadElems(classes, st1, b, n);
      (VTable(ks, vs), st2)
    case Grid(e) =>
      var width, height := NextNumber(st), NextNumber(Skip(st));
      var (es, st1) := LoadElems(classes, Skip(Skip(st)), e, width * height);
      (VGrid(width, height, es), st1)
    case DataGrid => LoadDataGrid(st)
    case Fixed(e, n) => var (es, st1) := LoadElems(classes, st, e, n); (VVector(es), st1)
  }

  function LoadDataGrid(st: State): (Value, State) {
    var width, height, st1 := NextNumber(st), NextNumber(Skip(st)), Skip(Skip(st));
    if width * height > 0 then (VDataGrid(width, height, NextBytes(st1)), Skip(st1)) else (VDataGrid(width, height, []), st1)
  }

  function LoadText(st: State): (Value, State) {
    var st1 := Skip(st);
    if NextNumber(st) > 0 then (VText(NextBytes(st1)), Skip(st1)) else (VText([]), st1)
  }

  function LoadElems(classes: Classes, st: State, e: Layout, n: nat): (seq<Value>, State)
    decreases e, 1, n
  {
    if n == 0 then ([], st)
    else
      var (es, st1) := LoadElems(classes, st, e, n - 1);
      var (v, st2) := Load(classes, st1, e);
      (es + [v], st2)
  }

  // ---- the queue ----

  ghost predicate Distinct(q: seq<nat>) {
    forall i, j | 0 <= i < j < |q| :: q[i] != q[j]
  }

  /** The id under which the object queued at `i` was written. */
  function Name(st: State, i: nat): nat
    requires i < |st.queue|
  {
    if st.stable then i + 1 else st.queue[i]
  }

  /** What writing keeps: the queue holds every object written so far, once; the ids given out
      are those of the queue. */
  ghost predicate Saving(classes: Classes, st: State) {
    && Closed(classes, st.memory)
    && Distinct(st.queue)
    && (forall i | 0 <= i < |st.queue| :: st.queue[i] in st.memory && Name(st, i) in st.objects)
    && NamesOf(st)
    && (st.stable ==> Numbered(st))
  }

  /** Only queued objects have ids. */
  ghost predicate NamesOf(st: State) {
    forall id | id in st.objects :: id != 0 && if st.stable then id <= |st.queue| else id in st.queue
  }

  /** Stable ids are given out in the order of the queue. */
  ghost predicate Numbered(st: State) {
    && |st.ptrIds| == |st.queue| && (forall p | p in st.ptrIds :: p in st.queue)
    && forall i | 0 <= i < |st.queue| :: st.queue[i] in st.ptrIds && st.ptrIds[st.queue[i]] == i + 1
  }

  lemma {:induction false} QueueFits(q: seq<nat>, keys: set<nat>)
    requires Distinct(q) && forall i | 0 <= i < |q| :: q[i] in keys
    ensures |q| <= |keys|
  {
    if q != [] {
      QueueFits(q[..|q| - 1], keys - {q[|q| - 1]});
    }
  }

  /** Writing grows the file and the queue, and queues whatever is pointed to and nothing else. */
  ghost predicate Grown(st: State, st': State, pointers: set<nat>) {
    && st.file <= st'.file && st.queue <= st'.queue
    && (forall p | p in pointers :: p in st'.queue)
    && forall p | p in st'.queue :: p in st.queue || p in pointers
  }

  /** An object's id is known exactly when the object has been queued. */
  lemma NameKnown(classes: Classes, st: State, p: nat)
    requires Saving(classes, st) && p != 0
    ensures NameOf(st, p).0 in st.objects <==> p in st.queue
    ensures p in st.queue ==> NameOf(st, p).1 == st.ptrIds
    ensures p !in st.queue ==> NameOf(st, p).0 == (if st.stable then |st.queue| + 1 else p) && (st.stable ==> p !in st.ptrIds)
    ensures NameOf(st, p).0 != 0
    ensures forall i | 0 <= i < |st.queue| && st.queue[i] == p :: NameOf(st, p).0 == Name(st, i)
  {
    hide Closed, Distinct;
    if p in st.queue {
      var i :| 0 <= i < |st.queue| && st.queue[i] == p;
      assert Name(st, i) in st.objects;
    }
  }

  lemma QueueOne(classes: Classes, st: State, p: nat)
    requires Saving(classes, st) && p in st.memory && p !in st.queue
    ensures var id := if st.stable then |st.queue| + 1 else p;
      Saving(classes, st.(queue := st.queue + [p], objects := st.objects[id := 0],
                          ptrIds := if st.stable then st.ptrIds[p := id] else st.ptrIds))
  {
    hide Closed, Distinct, Numbered, NamesOf;
    ZeroIsNull(classes, st.memory);
    QueueStaysDistinct(st.queue, p);
    var id := if st.stable then |st.queue| + 1 else p;
    var st1 := st.(queue := st.queue + [p], objects := st.objects[id := 0],
                   ptrIds := if st.stable then st.ptrIds[p := id] else st.ptrIds);
    forall i | 0 <= i < |st1.queue| ensures st1.queue[i] in st.memory && Name(st1, i) in st1.objects {
      if i < |st.queue| {
        assert Name(st, i) in st.objects;
      }
    }
    NamesMore(st, st1, p, id);
    if st.stable {
      NumberedMore(st, st1, p);
    }
  }

  lemma NamesMore(st: State, st1: State, p: nat, id: nat)
    requires NamesOf(st) && p != 0 && id == if st.stable then |st.queue| + 1 else p
    requires st1.queue == st.queue + [p] && st1.objects == st.objects[id := 0] && st1.stable == st.stable
    ensures NamesOf(st1)
  {
  }

  lemma NumberedMore(st: State, st1: State, p: nat)
    requires Numbered(st) && p !in st.queue
    requires st1.queue == st.queue + [p] && st1.ptrIds == st.ptrIds[p := |st.queue| + 1]
    ensures Numbered(st1)
  {
    assert p !in st.ptrIds;
    OneKeyMore(st.ptrIds, p, |st.queue| + 1);
    forall i | 0 <= i < |st1.queue| ensures st1.queue[i] in st1.ptrIds && st1.ptrIds[st1.queue[i]] == i + 1 {
      if i < |st.queue| {
        assert st1.queue[i] == st.queue[i] && st.queue[i] in st.ptrIds && st.queue[i] != p;
      }
    }
  }

  lemma OneKeyMore(m: map<nat, nat>, p: nat, v: nat)
    requires p !in m
    ensures |m[p := v]| == |m| + 1
  {
    assert m[p := v].Keys == m.Keys + {p};
  }

  lemma QueueStaysDistinct(q: seq<nat>, p: nat)
    requires Distinct(q) && p !in q
    ensures Distinct(q + [p])
  {
  }

  lemma ZeroIsNull(classes: Classes, memory: map<nat, Node>)
    requires Closed(classes, memory)
    ensures 0 !in memory
  {
  }

  lemma EmitKeeps(classes: Classes, st: State, t: Token)
    requires Saving(classes, st)
    ensures Saving(classes, Emit(st, t)) && Grown(st, Emit(st, t), {})
  {
    hide Closed, Distinct;
    var st' := Emit(st, t);
    assert forall i | 0 <= i < |st.queue| :: Name(st', i) == Name(st, i);
  }

  lemma StoreObjectKeeps(classes: Classes, st: State, p: nat)
    requires Saving(classes, st) && (p != 0 ==> p in st.memory)
    ensures var st' := StoreObject(st, p);
      Saving(classes, st') && Grown(st, st', if p == 0 then {} else {p})
  {
    hide Saving;
    if p == 0 {
      EmitKeeps(classes, st, Id(0));
      assert StoreObject(st, p) == Emit(st, Id(0));
    } else {
      NameKnown(classes, st, p);
      var (id, ptrIds) := NameOf(st, p);
      if p in st.queue {
        EmitKeeps(classes, st, Id(id));
      } else {
        QueueOne(classes, st, p);
        var st1 := st.(queue := st.queue + [p], objects := st.objects[id := 0], ptrIds := ptrIds);
        EmitKeeps(classes, st1, Id(id));
        EmitKeeps(classes, Emit(st1, Id(id)), TypeId(st.memory[p].typeId));
      }
    }
  }

  lemma GrownTwice(a: State, b: State, c: State, p1: set<nat>, p2: set<nat>)
    requires Grown(a, b, p1) && Grown(b, c, p2)
    ensures Grown(a, c, p1 + p2)
  {
    forall p | p in p1 ensures p in c.queue {
      var i :| 0 <= i < |b.queue| && b.queue[i] == p;
      assert c.queue[i] == p;
    }
  }

  lemma {:induction false} StoreKeeps(classes: Classes, st: State, l: Layout, v: Value)
    requires Saving(classes, st) && Typed(l, v) && Pointers(v) <= st.memory.Keys
    ensures Saving(classes, Store(st, l, v)) && Grown(st, Store(st, l, v), Pointers(v))
    decreases v, 0
  {
    hide Saving, Grown, StoreObject;
    match l
    case Raw(_) => EmitKeeps(classes, st, Chunk(v.raw));
    case Text =>
      EmitKeeps(classes, st, Size(|v.text|));
      EmitKeeps(classes, Emit(st, Size(|v.text|)), Chunk(v.text));
      GrownTwice(st, Emit(st, Size(|v.text|)), Emit(Emit(st, Size(|v.text|)), Chunk(v.text)), {}, {});
      assert {} + {} == Pointers(v);
    case Ptr =>
      ZeroIsNullIn(classes, st);
      StoreObjectKeeps(classes, st, v.p);
    case Vector(e) =>
      var st1 := Emit(st, Size(|v.elems|));
      EmitKeeps(classes, st, Size(|v.elems|));
      StoreElemsKeeps(classes, st1, e, v.elems, |v.elems|);
      GrownTwice(st, st1, Store(st, l, v), {}, Pointers(v));
      assert {} + Pointers(v) == Pointers(v);
    case Pair(a, b) =>
      var st1 := Store(st, a, v.fst);
      StoreKeeps(classes, st, a, v.fst);
      StoreKeeps(classes, st1, b, v.snd);
      GrownTwice(st, st1, Store(st, l, v), Pointers(v.fst), Pointers(v.snd));
    case Maybe(e) =>
      EmitKeeps(classes, st, Size(0));
      EmitKeeps(classes, st, Size(1));
      if v.VJust? {
        StoreKeeps(classes, Emit(st, Size(1)), e, v.inner);
        GrownTwice(st, Emit(st, Size(1)), Store(st, l, v), {}, Pointers(v));
        assert {} + Pointers(v) == Pointers(v);
      }
    case Either(a, b) =>
      var st1 := Emit(st, Size(if v.VLeft? then 0 else 1));
      EmitKeeps(classes, st, Size(if v.VLeft? then 0 else 1));
      StoreKeeps(classes, st1, if v.VLeft? then a else b, v.inner);
      GrownTwice(st, st1, Store(st, l, v), {}, Pointers(v));
      assert {} + Pointers(v) == Pointers(v);
    case Table(a, b) =>
      var st1 := Emit(st, Size(|v.keys|));
      var st2 := StoreElems(st1, a, v.keys, |v.keys|);
      EmitKeeps(classes, st, Size(|v.keys|));
      StoreElemsKeeps(classes, st1, a, v.keys, |v.keys|);
      StoreElemsKeeps(classes, st2, b, v.vals, |v.vals|);
      GrownTwice(st1, st2, Store(st, l, v), PointersOf(v.keys, |v.keys|), PointersOf(v.vals, |v.vals|));
      GrownTwice(st, st1, Store(st, l, v), {}, Pointers(v));
      assert {} + Pointers(v) == Pointers(v);
    case Grid(e) =>
      var st1 := Emit(st, Size(v.width));
      var st2 := Emit(st1, Size(v.height));
      EmitKeeps(classes, st, Size(v.width));
      EmitKeeps(classes, st1, Size(v.height));
      StoreElemsKeeps(classes, st2, e, v.cells, |v.cells|);
      GrownTwice(st, st1, st2, {}, {});
      GrownTwice(st, st2, Store(st, l, v), {} + {}, Pointers(v));
      assert {} + {} + Pointers(v) == Pointers(v);
    case DataGrid => DataGridKeeps(classes, st, v.width, v.height, v.raw);
    case Fixed(e, _) => StoreElemsKeeps(classes, st, e, v.elems, |v.elems|);
  }

  lemma DataGridKeeps(classes: Classes, st: State, width: nat, height: nat, raw: seq<byte>)
    requires Saving(classes, st)
    ensures Saving(classes, StoreDataGrid(st, width, height, raw)) && Grown(st, StoreDataGrid(st, width, height, raw), {})
  {
    hide Saving, Grown;
    var st1 := Emit(st, Size(width));
    var st2 := Emit(st1, Size(height));
    EmitKeeps(classes, st, Size(width));
    EmitKeeps(classes, st1, Size(height));
    EmitKeeps(classes, st2, Chunk(raw));
    GrownTwice(st, st1, st2, {}, {});
    GrownTwice(st, st2, Emit(st2, Chunk(raw)), {}, {});
    var none: set<nat> := {};
    assert none + none == none;
  }

  lemma ZeroIsNullIn(classes: Classes, st: State)
    requires Saving(classes, st)
    ensures 0 !in st.memory
  {
  }

  lemma {:induction false} StoreElemsKeeps(classes: Classes, st: State, e: Layout, es: seq<Value>, n: nat)
    requires Saving(classes, st)
    requires n <= |es| && (forall k | 0 <= k < n :: Typed(e, es[k])) && PointersOf(es, n) <= st.memory.Keys
    ensures Saving(classes, StoreElems(st, e, es, n)) && Grown(st, StoreElems(st, e, es, n), PointersOf(es, n))
    decreases es, 1, n
  {
    hide Saving, Grown;
    if n == 0 {
      SameGrown(st);
    } else {
      var st1 := StoreElems(st, e, es, n - 1);
      StoreElemsKeeps(classes, st, e, es, n - 1);
      StoreKeeps(classes, st1, e, es[n - 1]);
      GrownTwice(st, st1, StoreElems(st, e, es, n), PointersOf(es, n - 1), Pointers(es[n - 1]));
    }
  }

  lemma SameGrown(st: State)
    ensures Grown(st, st, {})
  {
  }

  // ---- the destructor ----

  ghost predicate Draining(classes: Classes, st: State, i: nat) {
    Saving(classes, st) && i <= |st.queue|
  }

  lemma QueueInMemory(classes: Classes, st: State)
    requires Saving(classes, st)
    ensures |st.queue| <= |st.memory|
    ensures forall i | 0 <= i < |st.queue| ::
      && st.queue[i] in st.memory && st.memory[st.queue[i]].typeId in classes
      && Typed(classes[st.memory[st.queue[i]].typeId], st.memory[st.queue[i]].value)
      && Pointers(st.memory[st.queue[i]].value) <= st.memory.Keys
  {
    QueueFits(st.queue, st.memory.Keys);
    assert |st.memory| == |st.memory.Keys|;
  }

  lemma QueueEnds(classes: Classes, st: State)
    requires Saving(classes, st)
    ensures |st.queue| <= |st.memory|
  {
    QueueInMemory(classes, st);
  }

  /** The object queued at `i`, whole. */
  function StoreQueued(classes: Classes, st: State, i: nat): (st': State)
    requires Draining(classes, st, i) && i < |st.queue|
    ensures Draining(classes, st', i + 1) && st'.memory == st.memory && st'.stable == st.stable
    ensures st.file <= st'.file && st.queue <= st'.queue
  {
    QueueInMemory(classes, st);
    var node := st.memory[st.queue[i]];
    StoreKeeps(classes, st, classes[node.typeId], node.value);
    Store(st, classes[node.typeId], node.value)
  }

  lemma StoreQueuedGrown(classes: Classes, st: State, i: nat)
    requires Draining(classes, st, i) && i < |st.queue|
    ensures st.queue[i] in st.memory
    ensures Grown(st, StoreQueued(classes, st, i), Pointers(st.memory[st.queue[i]].value))
  {
    QueueInMemory(classes, st);
    var node := st.memory[st.queue[i]];
    hide Saving, Grown;
    StoreKeeps(classes, st, classes[node.typeId], node.value);
  }

  /** The queue grows while it is worked off; it ends because no object is queued twice. */
  function Drain(classes: Classes, st: State, i: nat): (st': State)
    requires Draining(classes, st, i)
    ensures Saving(classes, st') && st'.memory == st.memory && st'.stable == st.stable
    ensures st.file <= st'.file && st.queue <= st'.queue
    decreases |st.memory| - i
  {
    QueueEnds(classes, st);
    if i >= |st.queue| then st
    else
      var st1 := StoreQueued(classes, st, i);
      Drain(classes, st1, i + 1)
  }

  /** One object's fields, read into the object queued at `i`. */
  function LoadQueued(classes: Classes, st: State, i: nat): (st': State)
    requires i < |st.queue|
  {
    var p := st.queue[i];
    if p in st.memory && st.memory[p].typeId in classes then
      var (v, st1) := Load(classes, st, classes[st.memory[p].typeId]);
      st1.(memory := st1.memory[p := Node(st.memory[p].typeId, v)])
    else st
  }

  /** What reading can still queue is bounded by what is left to read. */
  function Left(st: State): nat {
    if st.pos < |st.file| then |st.file| - st.pos else 0
  }

  ghost predicate Progress(st: State, st': State) {
    && st'.file == st.file && st.pos <= st'.pos
    && st.queue <= st'.queue && |st'.queue| + Left(st') <= |st.queue| + Left(st)
  }

  lemma SimpleProgress(classes: Classes, st: State)
    ensures Progress(st, st) && Progress(st, Skip(st)) && Progress(st, Skip(Skip(st)))
    ensures Progress(st, LoadText(st).1) && Progress(st, LoadObject(classes, st).1) && Progress(st, LoadDataGrid(st).1)
  {
  }

  lemma ProgressTwice(a: State, b: State, c: State)
    requires Progress(a, b) && Progress(b, c)
    ensures Progress(a, c)
  {
  }

  lemma {:induction false} LoadProgress(classes: Classes, st: State, l: Layout)
    ensures Progress(st, Load(classes, st, l).1)
    decreases l, 0
  {
    hide LoadElems, Progress, LoadText, LoadDataGrid, LoadObject, Next;
    SimpleProgress(classes, st);
    var n, st1, last := NextNumber(st), Skip(st), Load(classes, st, l).1;
    match l
    case Raw(_) =>
    case Text =>
    case Ptr =>
    case Vector(e) =>
      LoadElemsProgress(classes, st1, e, n);
      ProgressTwice(st, st1, last);
    case Pair(a, b) =>
      LoadProgress(classes, st, a);
      LoadProgress(classes, Load(classes, st, a).1, b);
      ProgressTwice(st, Load(classes, st, a).1, last);
    case Maybe(e) =>
      LoadProgress(classes, st1, e);
      ProgressTwice(st, st1, Load(classes, st1, e).1);
    case Either(a, b) =>
      LoadProgress(classes, st1, if n == 0 then a else b);
      ProgressTwice(st, st1, last);
    case Table(a, b) =>
      var st2 := LoadElems(classes, st1, a, n).1;
      LoadElemsProgress(classes, st1, a, n);
      LoadElemsProgress(classes, st2, b, n);
      ProgressTwice(st, st1, st2);
      ProgressTwice(st, st2, last);
    case Grid(e) =>
      LoadElemsProgress(classes, Skip(st1), e, n * NextNumber(st1));
      ProgressTwice(st, Skip(st1), last);
    case DataGrid =>
    case Fixed(e, k) => LoadElemsProgress(classes, st, e, k);
  }

  lemma {:induction false} LoadElemsProgress(classes: Classes, st: State, e: Layout, n: nat)
    ensures Progress(st, LoadElems(classes, st, e, n).1)
    decreases e, 1, n
  {
    if n > 0 {
      LoadElemsProgress(classes, st, e, n - 1);
      LoadProgress(classes, LoadElems(classes, st, e, n - 1).1, e);
    }
  }

  /** The reader's destructor ends whatever the stream holds. */
  function DrainLoads(classes: Classes, st: State, i: nat): (st': State)
    requires i <= |st.queue|
    decreases |st.queue| + Left(st) - i
  {
    if i >= |st.queue| then st
    else
      QueuedProgress(classes, st, i);
      DrainLoads(classes, LoadQueued(classes, st, i), i + 1)
  }

  lemma QueuedProgress(classes: Classes, st: State, i: nat)
    requires i < |st.queue|
    ensures Progress(st, LoadQueued(classes, st, i))
  {
    var p := st.queue[i];
    if p in st.memory && st.memory[p].typeId in classes {
      LoadProgress(classes, st, classes[st.memory[p].typeId]);
    }
  }
}
