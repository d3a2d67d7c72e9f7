/** IBinSaver itself, one object for both directions, with its methods proved to do what module
    BinSaver says. */
module BinSaverObject {
  import opened BinSaver

  class IBinSaver {
    const classes: Classes
    const bRead: bool
    const stableOutput: bool
    var file: seq<Token>
    var pos: nat
    var ptrIds: map<nat, nat>
    var objects: map<nat, nat>
    var objectQueue: seq<nat>
    var memory: map<nat, Node>

    constructor (classes: Classes, bRead: bool, stableOutput: bool, file: seq<Token>, memory: map<nat, Node>)
      ensures this.classes == classes && this.bRead == bRead && this.stableOutput == stableOutput
      ensures Now() == State(stableOutput, file, 0, map[], map[], [], memory)
    {
      this.classes, this.bRead, this.stableOutput := classes, bRead, stableOutput;
      this.file, pos, ptrIds, objects, objectQueue, this.memory := file, 0, map[], map[], [], memory;
    }

    function Now(): State
      reads this
    {
      State(stableOutput, file, pos, ptrIds, objects, objectQueue, memory)
    }

    /** DataChunk, out. */
    method Write(t: Token)
      modifies this`file
      ensures Now() == Emit(old(Now()), t)
    {
      file := file + [t];
    }

    /** DataChunk, in. */
    method ReadNumber() returns (n: nat)
      modifies this`pos
      ensures n == NextNumber(old(Now())) && Now() == Skip(old(Now()))
    {
      n := NextNumber(Now());
      pos := pos + 1;
    }

    method StoreObject(pObject: nat)
      requires pObject != 0 ==> pObject in memory
      modifies this
      ensures Now() == BinSaver.StoreObject(old(Now()), pObject)
    {
      var ptrId := pObject;
      if stableOutput {
        ptrId := 0;
        if pObject != 0 {
          if pObject in ptrIds {
            ptrId := ptrIds[pObject];
          } else {
            ptrId := |ptrIds| + 1;
            ptrIds := ptrIds[pObject := ptrId];
          }
        }
      }
      Write(Id(ptrId));
      if ptrId != 0 && ptrId !in objects {
        objectQueue := objectQueue + [pObject];
        objects := objects[ptrId := 0];
        Write(TypeId(memory[pObject].typeId));
      }
    }

    method LoadObject() returns (p: nat)
      modifies this
      ensures (p, Now()) == BinSaver.LoadObject(classes, old(Now()))
    {
      var ptrId := ReadNumber();
      if ptrId == 0 {
        return 0;
      }
      if ptrId in objects {
        return objects[ptrId];
      }
      var typeId := ReadNumber();
      p := CreateObject(typeId);
      objects := objects[ptrId := p];
      objectQueue := objectQueue + [p];
    }

    /** The class factory. */
    method CreateObject(typeId: nat) returns (p: nat)
      modifies this`memory
      ensures p == NewAddress(old(Now()))
      ensures memory == old(memory)[p := Node(typeId, if typeId in classes then Default(classes[typeId]) else VNothing)]
    {
      p := |objectQueue| + 1;
      memory := memory[p := Node(typeId, if typeId in classes then Default(classes[typeId]) else VNothing)];
    }

    /** Add for every kind of value, writing. */
    method AddOut(l: Layout, v: Value)
      requires Typed(l, v) && Pointers(v) <= memory.Keys
      modifies this
      ensures Now() == Store(old(Now()), l, v)
      decreases v, 1
    {
      match l
      case Raw(_) => Write(Chunk(v.raw));
      case Text =>
        Write(Size(|v.text|));
        if |v.text| > 0 {
          Write(Chunk(v.text));
        }
      case Ptr => StoreObject(v.p);
      case Vector(e) =>
        Write(Size(|v.elems|));
        DoElemsOut(e, v.elems);
      case Pair(a, b) =>
        AddOut(a, v.fst);
        AddOut(b, v.snd);
      case Maybe(e) =>
        if v.VNothing? {
          Write(Size(0));
        } else {
          Write(Size(1));
          AddOut(e, v.inner);
        }
      case Either(a, b) =>
        if v.VLeft? {
          Write(Size(0));
          AddOut(a, v.inner);
        } else {
          Write(Size(1));
          AddOut(b, v.inner);
        }
      case Table(a, b) =>
        Write(Size(|v.keys|));
        DoElemsOut(a, v.keys);
        DoElemsOut(b, v.vals);
      case Grid(e) =>
        Write(Size(v.width));
        Write(Size(v.height));
        DoElemsOut(e, v.cells);
      case DataGrid =>
        Write(Size(v.width));
        Write(Size(v.height));
        if v.width * v.height > 0 {
          Write(Chunk(v.raw));
        }
      case Fixed(e, _) => DoElemsOut(e, v.elems);
    }

    /** One value after the other. */
    method DoElemsOut(e: Layout, es: seq<Value>)
      requires forall k | 0 <= k < |es| :: Typed(e, es[k])
      requires PointersOf(es, |es|) <= memory.Keys
      modifies this
      ensures Now() == StoreElems(old(Now()), e, es, |es|)
      decreases es, 0
    {
      hide Store, Typed;
      ghost var st := Now();
      for i := 0 to |es|
        invariant PointersOf(es, i) <= st.memory.Keys
        invariant Now() == StoreElems(st, e, es, i)
      {
        PointersInside(es, i + 1, |es|);
        AddOut(e, es[i]);
      }
    }

    lemma {:induction false} PointersInside(es: seq<Value>, i: nat, n: nat)
      requires i <= n <= |es|
      ensures PointersOf(es, i) <= PointersOf(es, n)
      decreases n
    {
      if i < n {
        PointersInside(es, i, n - 1);
      }
    }

    /** Add for every kind of value, reading. */
    method AddIn(l: Layout) returns (v: Value)
      modifies this
      ensures (v, Now()) == Load(classes, old(Now()), l)
      decreases l, 1
    {
      match l
      case Raw(_) =>
        v := VRaw(NextBytes(Now()));
        pos := pos + 1;
      case Text =>
        var nSize := ReadNumber();
        v := VText([]);
        if nSize > 0 {
          v := VText(NextBytes(Now()));
          pos := pos + 1;
        }
      case Ptr =>
        var p := LoadObject();
        v := VPtr(p);
      case Vector(e) =>
        var nSize := ReadNumber();
        var data := DoElemsIn(e, nSize);
        v := VVector(data);
      case Pair(a, b) =>
        var v1 := AddIn(a);
        var v2 := AddIn(b);
        v := VPair(v1, v2);
      case Maybe(e) =>
        var defined := ReadNumber();
        if defined == 0 {
          v := VNothing;
        } else {
          var inner := AddIn(e);
          v := VJust(inner);
        }
      case Either(a, b) =>
        var isSecond := ReadNumber();
        if isSecond == 0 {
          var inner := AddIn(a);
          v := VLeft(inner);
        } else {
          var inner := AddIn(b);
          v := VRight(inner);
        }
      case Table(a, b) =>
        var nSize := ReadNumber();
        var indices := DoElemsIn(a, nSize);
        var data := DoElemsIn(b, nSize);
        v := VTable(indices, data);
      case Grid(e) =>
        var nXSize := ReadNumber();
        var nYSize := ReadNumber();
        var cells := DoElemsIn(e, nXSize * nYSize);
        v := VGrid(nXSize, nYSize, cells);
      case DataGrid =>
        var nXSize := ReadNumber();
        var nYSize := ReadNumber();
        v := VDataGrid(nXSize, nYSize, []);
        if nXSize * nYSize > 0 {
          v := VDataGrid(nXSize, nYSize, NextBytes(Now()));
          pos := pos + 1;
        }
      case Fixed(e, n) =>
        var data := DoElemsIn(e, n);
        v := VVector(data);
    }

    /** One value after the other into what has just been resized. */
    method DoElemsIn(e: Layout, nSize: nat) returns (data: seq<Value>)
      modifies this
      ensures (data, Now()) == LoadElems(classes, old(Now()), e, nSize)
      decreases e, 2
    {
      ghost var st := Now();
      data := [];
      for i := 0 to nSize
        invariant (data, Now()) == LoadElems(classes, st, e, i)
      {
        var elem := AddIn(e);
        data := data + [elem];
      }
    }

    /** The destructor of a writing saver: the queue grows as it is gone through. */
    method FinishWriting()
      requires Saving(classes, Now())
      modifies this
      ensures Now() == Drain(classes, old(Now()), 0)
    {
      var i := 0;
      while i < |objectQueue|
        invariant memory == old(memory) && Draining(classes, Now(), i)
        invariant Drain(classes, Now(), i) == Drain(classes, old(Now()), 0)
        decreases |memory| - i
      {
        ghost var st := Now();
        QueueInMemory(classes, st);
        var node := memory[objectQueue[i]];
        AddOut(classes[node.typeId], node.value);
        assert Now() == StoreQueued(classes, st, i);
        i := i + 1;
      }
    }

    /** The destructor of a reading saver: every object queued is read in place. */
    method FinishReading()
      modifies this
      ensures Now() == DrainLoads(classes, old(Now()), 0)
    {
      var i := 0;
      while i < |objectQueue|
        invariant i <= |objectQueue|
        invariant DrainLoads(classes, Now(), i) == DrainLoads(classes, old(Now()), 0)
        decreases |objectQueue| + Left(Now()) - i
      {
        ghost var st := Now();
        QueuedProgress(classes, st, i);
        var p := objectQueue[i];
        if p in memory && memory[p].typeId in classes {
          var typeId := memory[p].typeId;
          var value := AddIn(classes[typeId]);
          memory := memory[p := Node(typeId, value)];
        }
        assert Now() == LoadQueued(classes, st, i);
        i := i + 1;
      }
    }
  }
}
