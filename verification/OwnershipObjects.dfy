/** The methods of TObjectBase and TPtrBase on objects that count in place and re-enter one
    another through their destructors, proved to do what module Ownership says. */
module OwnershipObjects {
  import opened Wrappers
  import opened Ownership

  class TObjectBase {
    const id: nat
    var objData: nat
    var refData: nat
    var freed: bool  // the allocator's view
    ghost var phase: Phase

    constructor (id: nat)
      ensures this.id == id && View() == Cell(0, 0, Born) && !freed
    {
      this.id, objData, refData, freed, phase := id, 0, 0, false, Born;
    }

    ghost function View(): Cell
      reads this
    {
      Cell(objData, refData, phase)
    }

    method Add(k: Kind, d: int)
      modifies this`objData, this`refData
      ensures View() == Bump(old(View()), k, d)
    {
      if k.Ref? {
        refData := Word(refData + d);
      } else {
        objData := Word(objData + d * Unit(k));
      }
    }
  }

  class TPtrBase {
    const kind: Kind
    var ptr: TObjectBase?

    constructor (kind: Kind)
      ensures this.kind == kind && ptr == null
    {
      this.kind, ptr := kind, null;
    }

    ghost function View(): Slot
      reads this
    {
      Slot(kind, if ptr == null then None else Some(ptr.id))
    }
  }

  /** A running program: its objects in the order they were made, and its smart pointers. */
  class Program {
    var objects: seq<TObjectBase>
    const slots: seq<TPtrBase>
    ghost var trace: seq<Mark>

    ghost predicate Valid()
      reads this, objects, slots
    {
      && (forall i | 0 <= i < |objects| :: objects[i].id == i && (objects[i].freed <==> objects[i].phase == Gone))
      && (forall s, s' | 0 <= s < s' < |slots| :: slots[s] != slots[s'])
      && (forall s | 0 <= s < |slots| :: slots[s].ptr == null || slots[s].ptr in objects)
    }

    ghost function Cells(): seq<Cell>
      reads this, objects
    {
      seq(|objects|, i requires 0 <= i < |objects| reads this, objects => objects[i].View())
    }

    ghost function Slots(): seq<Slot>
      reads this, slots
    {
      seq(|slots|, s requires 0 <= s < |slots| reads this, slots => slots[s].View())
    }

    ghost function Now(): World
      reads this, objects, slots
    {
      World(Cells(), Slots(), trace)
    }

    twostate predicate Grown()
      reads this
    {
      && |old(objects)| <= |objects|
      && objects[..|old(objects)|] == old(objects)
      && forall i | |old(objects)| <= i < |objects| :: fresh(objects[i])
    }

    constructor (slots: seq<TPtrBase>)
      requires forall s, s' | 0 <= s < s' < |slots| :: slots[s] != slots[s']
      requires forall s | 0 <= s < |slots| :: slots[s].ptr == null
      ensures Valid() && this.slots == slots && Now().cells == [] && trace == []
      ensures forall s | 0 <= s < |slots| :: Now().slots[s] == Slot(slots[s].kind, None)
    {
      this.slots, objects, trace := slots, [], [];
    }

    method Execute(s: Script)
      requires Valid()
      modifies this, objects, slots
      ensures Valid() && Grown() && Now() == Run(old(Now()), s)
      decreases s, 1
    {
      if s.Step? {
        SetObject(s);
        Execute(s.rest);
      }
    }

    /** Only the object `p` has changed, besides the trace. */
    twostate lemma OneChanged(p: TObjectBase)
      requires old(Valid()) && p in old(objects) && objects == old(objects)
      requires forall o | o in objects && o != p :: o.View() == old(o.View())
      requires forall s | 0 <= s < |slots| :: slots[s].ptr == old(slots[s].ptr)
      requires p.freed <==> p.phase == Gone
      requires forall o | o in objects && o != p :: o.freed == old(o.freed)
      ensures Valid() && Grown() && Now() == Put(old(Now()), p.id, p.View()).(trace := trace)
    {
      assert Slots() == old(Slots());
      assert Cells() == old(Cells())[p.id := p.View()];
      forall i | 0 <= i < |objects| ensures objects[i].freed <==> objects[i].phase == Gone {
        assert objects[i] in objects;
        if objects[i] != p {
          assert objects[i].View() == old(objects[i].View());
        }
      }
    }

    lemma Seen(p: TObjectBase)
      requires Valid() && p in objects
      ensures p.id < |objects| == |Now().cells| && Now().cells[p.id] == p.View()
    {
    }

    /** The raw pointer that an assignment starts from. */
    method Evaluate(source: Source) returns (p: TObjectBase?)
      requires Valid()
      modifies this, objects, slots
      ensures Valid() && Grown() && (p != null ==> p in objects)
      ensures (Now(), if p == null then None else Some(p.id)) == Resolve(old(Now()), source)
      decreases source
    {
      hide Run;
      p := null;
      match source
      case Nothing =>
      case CopyOf(s) =>
        if s < |slots| {
          p := slots[s].ptr;
          assert Slots()[s] == slots[s].View();
        }
      case Raw(x) =>
        if x < |objects| && !objects[x].freed {
          p := objects[x];
        }
      case Fresh(init) => p := New(init);
    }

    /** A new object and its constructor. */
    method New(init: Script) returns (p: TObjectBase)
      requires Valid()
      modifies this, objects, slots
      ensures Valid() && Grown() && p in objects
      ensures p.id == |old(Now()).cells| && p.id < |Run(WithNew(old(Now())), init).cells|
      ensures Now() == WithPhase(Run(WithNew(old(Now())), init), p.id, Idle)
      decreases init, 2
    {
      hide Run;
      p := Allocate();
      ghost var made := objects;
      Execute(init);
      assert objects[..|made|][p.id] == p;
      Seen(p);
      label made:
      p.freed, p.phase := false, Idle;
      OneChanged@made(p);
    }

    method Allocate() returns (p: TObjectBase)
      requires Valid()
      modifies this`objects
      ensures Valid() && fresh(p) && objects == old(objects) + [p] && p.id == |old(objects)|
      ensures Now() == WithNew(old(Now())) && |old(Now()).cells| == |old(objects)|
    {
      p := new TObjectBase(|objects|);
      objects := objects + [p];
      assert Cells() == old(Cells()) + [p.View()] && Slots() == old(Slots());
    }

    method SetObject(s: Script)
      requires Valid() && s.Step?
      modifies this, objects, slots
      ensures Valid() && Grown() && Now() == Assign(old(Now()), s)
      decreases s, 0
    {
      hide Release, Resolve, Redirect, Now, Valid;
      if s.slot < |slots| {
        SlotsSeen();
        var p := Evaluate(s.source);
        var pOld, k := slots[s.slot].ptr, slots[s.slot].kind;
        SlotSeen(s.slot);
        Point(s.slot, p);
        if pOld != null {
          ReleaseKind(pOld, k, s.body);
        }
      } else {
        SlotsSeen();
      }
    }

    lemma SlotsSeen()
      ensures |Now().slots| == |slots|
    {
    }

    lemma SlotSeen(slot: nat)
      requires Valid() && slot < |slots|
      ensures |Now().slots| == |slots| && Now().slots[slot] == slots[slot].View()
      ensures slots[slot].ptr != null ==> slots[slot].ptr in objects && slots[slot].ptr.id < |objects| == |Now().cells|
    {
    }

    /** `ptr = _ptr; AddRef(ptr)`. */
    method Point(slot: nat, p: TObjectBase?)
      requires Valid() && slot < |slots| && (p != null ==> p in objects)
      requires slot < |Now().slots| && (p != null ==> p.id < |Now().cells|)
      modifies slots[slot], objects, this`trace
      ensures Valid() && Now() == Redirect(old(Now()), slot, if p == null then None else Some(p.id))
    {
      hide Bump;
      slots[slot].ptr := p;
      assert Slots() == old(Slots())[slot := slots[slot].View()];
      assert Cells() == old(Cells());
      if p != null {
        NoteTaken(p);
        AddTo(p, slots[slot].kind, 1);
      }
    }

    ghost method NoteTaken(p: TObjectBase)
      requires Valid() && p in objects
      modifies this`trace
      ensures Valid()
      ensures Now() == if p.phase == Dying then Say(old(Now()), Taken(p.id)) else old(Now())
      ensures p.id < |Now().cells| && Now().cells[p.id] == p.View()
    {
      if p.phase == Dying {
        trace := trace + [Taken(p.id)];
      }
      assert Now() == old(Now()).(trace := trace);
    }

    /** AddRef, AddObj and the decrements of ReleaseRef and ReleaseObj. */
    method AddTo(p: TObjectBase, k: Kind, d: int)
      requires Valid() && p in objects
      modifies p`objData, p`refData
      ensures Valid() && p.View() == Bump(old(p.View()), k, d)
      ensures Now() == Put(old(Now()), p.id, p.View()) && Now().cells[p.id] == p.View()
    {
      p.Add(k, d);
      OneChanged(p);
    }

    /** ReleaseRef and ReleaseObj. */
    method ReleaseKind(p: TObjectBase, k: Kind, body: Body)
      requires Valid() && p in objects
      modifies this, objects, slots
      ensures Valid() && Grown() && Now() == Release(old(Now()), p.id, k, body)
      decreases body, if k.Ref? then 2 else 5
    {
      hide ReleaseRefComplete, ReleaseObjComplete, Bump, Empties;
      AddTo(p, k, -1);
      Note(p, k);
      if k.Ref? {
        if p.refData == 0 {
          RefComplete(p, body);
        }
      } else if Field(p.objData, k) == 0 {
        ObjComplete(p, k, body);
      }
    }

    ghost method Note(p: TObjectBase, k: Kind)
      requires Valid() && p in objects
      modifies this`trace
      ensures Valid() && Now() == Noted(old(Now()), p.id, k)
    {
      if Empties(p.View(), k) {
        trace := trace + [Emptied(p.id)];
      }
      assert Now().cells[p.id] == p.View();
      assert Now() == old(Now()).(trace := trace);
    }

    /** ReleaseRefComplete. */
    method RefComplete(p: TObjectBase, body: Body)
      requires Valid() && p in objects
      modifies this, objects, slots
      ensures Valid() && Grown() && Now() == ReleaseRefComplete(old(Now()), p.id, body)
      decreases body, 1
    {
      hide Delete;
      assert Now().cells[p.id] == p.View();
      if p.objData % BUSY == 0 {
        DeleteThis(p, body);
      }
    }

    /** ReleaseObjComplete. */
    method ObjComplete(p: TObjectBase, k: Kind, body: Body)
      requires Valid() && p in objects
      modifies this, objects, slots
      ensures Valid() && Grown() && Now() == ReleaseObjComplete(old(Now()), p.id, k, body)
      decreases body, 4
    {
      hide Delete, DestroyContents, Release, Bump, Field, Valid, Now;
      Seen(p);
      if p.objData % BUSY == 0 && p.refData == 0 {
        DeleteThis(p, body);
      } else if Field(p.objData, k) == 0 {
        if IsBusy(p.objData) {
          return;
        }
        Raise(p);
        Clear(p, body);
        Lower(p);
        ReleaseKind(p, Ref, body);
      }
    }

    /** Both flags, and a reference to keep the object while it is cleared. */
    method Raise(p: TObjectBase)
      requires Valid() && p in objects
      modifies p
      ensures Valid()
      ensures var c := old(Now()).cells[p.id];
        Now() == Put(old(Now()), p.id, Bump(c.(objData := c.objData % BUSY + INVALID + BUSY), Ref, 1))
    {
      p.objData := p.objData % BUSY + INVALID + BUSY;
      p.Add(Ref, 1);
      OneChanged(p);
    }

    method Lower(p: TObjectBase)
      requires Valid() && p in objects
      modifies p
      ensures Valid()
      ensures var c := old(Now()).cells[p.id];
        Now() == Put(old(Now()), p.id, c.(objData := if IsBusy(c.objData) then c.objData - BUSY else c.objData))
    {
      if IsBusy(p.objData) {
        p.objData := p.objData - BUSY;
      }
      OneChanged(p);
    }

    /** The DestroyContents that OBJECT_METHODS gives every class. */
    method Clear(p: TObjectBase, body: Body)
      requires Valid() && p in objects
      modifies this, objects, slots
      ensures Valid() && Grown() && Now() == DestroyContents(old(Now()), p.id, body)
      ensures p in objects && p.View() == Now().cells[p.id]
      decreases body, 0
    {
      hide Run, Rebuilt, Restored, Now, Valid, Put, Say;
      Begin(p);
      Execute(body.destructor);
      ghost var hold := p.View();
      Seen(p);
      var nHoldRefs, nHoldObjs := Reset(p);
      Execute(body.constructor_);
      Restore(p, nHoldRefs, nHoldObjs, hold);
    }

    method Begin(p: TObjectBase)
      requires Valid() && p in objects
      modifies this`trace, p`phase, p`freed
      ensures Valid()
      ensures var w, c := old(Now()), old(Now()).cells[p.id];
        Now() == WithPhase(Say(w, Destroying(p.id, c.phase != Idle)), p.id, Clearing)
    {
      trace := trace + [Destroying(p.id, p.phase != Idle)];
      p.freed, p.phase := false, Clearing;
      OneChanged(p);
    }

    method Restore(p: TObjectBase, nHoldRefs: nat, nHoldObjs: nat, ghost hold: Cell)
      requires Valid() && p in objects && hold.refData == nHoldRefs && hold.objData == nHoldObjs
      modifies p
      ensures Valid() && Now() == Put(old(Now()), p.id, Restored(old(Now()).cells[p.id], hold))
      ensures p.View() == Now().cells[p.id]
    {
      p.refData := Word(p.refData + nHoldRefs);
      p.objData := Word(p.objData + nHoldObjs);
      p.freed, p.phase := false, Idle;
      OneChanged(p);
    }

    /** The counts to local variables, and TObjectBase's own constructor. */
    method Reset(p: TObjectBase) returns (nHoldRefs: nat, nHoldObjs: nat)
      requires Valid() && p in objects
      modifies p
      ensures Valid() && nHoldRefs == old(p.refData) && nHoldObjs == old(p.objData)
      ensures Now() == Put(old(Now()), p.id, Rebuilt(old(Now()).cells[p.id]))
    {
      nHoldRefs, nHoldObjs := p.refData, p.objData;
      p.refData, p.objData := 0, 0;
      p.freed, p.phase := false, Building(nHoldRefs, nHoldObjs);
      OneChanged(p);
    }

    /** `delete this`. */
    method DeleteThis(p: TObjectBase, body: Body)
      requires Valid() && p in objects
      modifies this, objects, slots
      ensures Valid() && Grown() && Now() == Delete(old(Now()), p.id, body)
      decreases body, 0
    {
      hide Run, Pointers;
      BeginDelete(p);
      Execute(body.finalizer);
      Free(p);
    }

    method BeginDelete(p: TObjectBase)
      requires Valid() && p in objects
      modifies this`trace, p`phase, p`freed
      ensures Valid()
      ensures var w, c := old(Now()), old(Now()).cells[p.id];
        Now() == WithPhase(Say(w, Deleted(p.id, Pointers(w.slots, p.id), c.phase != Idle)), p.id, Dying)
    {
      trace := trace + [Deleted(p.id, Pointers(Slots(), p.id), p.phase != Idle)];
      p.freed, p.phase := false, Dying;
      OneChanged(p);
    }

    method Free(p: TObjectBase)
      requires Valid() && p in objects
      modifies this`trace, p`phase, p`freed
      ensures Valid()
      ensures Now() == WithPhase(Say(old(Now()), Freed(p.id, Pointers(old(Now()).slots, p.id))), p.id, Gone)
    {
      trace := trace + [Freed(p.id, Pointers(Slots(), p.id))];
      p.freed, p.phase := true, Gone;
      OneChanged(p);
    }
  }
}
