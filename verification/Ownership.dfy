/** Intrusive ownership counts (ysafeptr.h, ysafeptr.cpp): one object counts the pointers of
    three kinds that hold it in two 32-bit words, is cleared when its last owner goes and is
    deleted when its last pointer goes, with destructors that move pointers in turn.

    A run is a `Script` of pointer assignments. What the destructors and the constructor started
    by an assignment do is again a script, carried by the assignment. `Run` is the whole
    behaviour as a function of the `World`; module OwnershipObjects has the methods. */
module Ownership {
  import opened Wrappers

  /** TPtr, TObj, TMObj. */
  datatype Kind = Ref | Obj | Multi

  /** One smart pointer, the object it holds if any. */
  datatype Slot = Slot(kind: Kind, target: Option<nat>)

  /** What runs for an object: nothing, the destructor half of its DestroyContents, the
      constructor half with the counts put aside, its first constructor, its last destructor; or
      it is gone. */
  datatype Phase = Idle | Clearing | Building(heldRefs: nat, heldObjs: nat) | Born | Dying | Gone

  datatype Cell = Cell(objData: nat, refData: nat, phase: Phase)

  /** What a reader of a run wants to know. `Deleted` is where `delete this` begins and `Freed`
      where the memory goes. `Emptied` is a release of an object inside one of its constructors or
      its last destructor that leaves nothing to see in its words; `Taken` is a pointer to an
      object inside its last destructor. */
  datatype Mark =
    | Deleted(x: nat, pointers: nat, running: bool)
    | Freed(x: nat, pointers: nat)
    | Destroying(x: nat, running: bool)
    | Emptied(x: nat)
    | Taken(x: nat)

  datatype World = World(cells: seq<Cell>, slots: seq<Slot>, trace: seq<Mark>)

  /** Where an assignment gets its object. A new one is made by a constructor, a script too. */
  datatype Source = Nothing | CopyOf(slot: nat) | Raw(x: nat) | Fresh(init: Script)

  datatype Body = Body(destructor: Script, constructor_: Script, finalizer: Script)

  datatype Script = Done | Step(slot: nat, source: Source, body: Body, rest: Script)

  const WORD: nat := 0x1_0000_0000
  const BUSY: nat := 0x4000_0000
  const INVALID: nat := 0x8000_0000
  const MULTI: nat := 0x10_0000

  function Word(i: int): (w: nat)
    ensures w < WORD
  {
    i % WORD
  }

  /** The count of one owner kind, out of ObjData. */
  function Field(objData: nat, k: Kind): nat {
    match k
    case Obj => objData % MULTI
    case Multi => (objData / MULTI) % 0x400
    case Ref => 0
  }

  predicate IsBusy(objData: nat) {
    (objData / BUSY) % 2 == 1
  }

  function Unit(k: Kind): nat {
    match k case Obj => 1 case Multi => MULTI case Ref => 0
  }

  /** AddRef and AddObj, and with `d == -1` the decrements. */
  function Bump(c: Cell, k: Kind, d: int): Cell {
    if k.Ref? then c.(refData := Word(c.refData + d)) else c.(objData := Word(c.objData + d * Unit(k)))
  }

  function Count(slots: seq<Slot>, x: nat, k: Kind): (n: nat)
    ensures n <= |slots|
  {
    if slots == [] then 0
    else Count(slots[..|slots| - 1], x, k) + if slots[|slots| - 1] == Slot(k, Some(x)) then 1 else 0
  }

  function Pointers(slots: seq<Slot>, x: nat): nat {
    Count(slots, x, Ref) + Count(slots, x, Obj) + Count(slots, x, Multi)
  }

  function Put(w: World, x: nat, c: Cell): World
    requires x < |w.cells|
  {
    w.(cells := w.cells[x := c])
  }

  function Say(w: World, m: Mark): World {
    w.(trace := w.trace + [m])
  }

  /** Nothing is lost from one world to a later one. */
  predicate Extends(w: World, w': World) {
    && |w.cells| <= |w'.cells|
    && |w.slots| == |w'.slots|
    && |w.trace| <= |w'.trace| && w'.trace[..|w.trace|] == w.trace
  }

  // ---- the run ----

  function Run(w: World, s: Script): (w': World)
    ensures Extends(w, w')
    decreases s, 1
  {
    if s.Done? then w else Run(Assign(w, s), s.rest)
  }

  /** The object an assignment reads, made first when it is new. Raw pointers reach every object
      that is not gone, `this` inside its last destructor included. */
  function Resolve(w: World, source: Source): (r: (World, Option<nat>))
    ensures Extends(w, r.0)
    ensures r.1.Some? ==> r.1.value < |r.0.cells|
    decreases source
  {
    match source
    case Nothing => (w, None)
    case CopyOf(s) =>
      if s < |w.slots| && w.slots[s].target.Some? && w.slots[s].target.value < |w.cells|
      then (w, w.slots[s].target) else (w, None)
    case Raw(x) => if x < |w.cells| && w.cells[x].phase != Gone then (w, Some(x)) else (w, None)
    case Fresh(init) =>
      var w1 := Run(WithNew(w), init);
      (WithPhase(w1, |w.cells|, Idle), Some(|w.cells|))
  }

  /** TObjectBase's own constructor. */
  function WithNew(w: World): World {
    w.(cells := w.cells + [Cell(0, 0, Born)])
  }

  function WithPhase(w: World, x: nat, p: Phase): World
    requires x < |w.cells|
  {
    Put(w, x, w.cells[x].(phase := p))
  }

  /** The slot moved and the new object counted, on the way to the release of the old one. */
  function Redirect(w: World, slot: nat, target: Option<nat>): (w': World)
    requires slot < |w.slots|
    requires target.Some? ==> target.value < |w.cells|
    ensures Extends(w, w')
  {
    var k := w.slots[slot].kind;
    var w1 := w.(slots := w.slots[slot := Slot(k, target)]);
    if target.Some? then Take(w1, target.value, k) else w1
  }

  function Take(w: World, x: nat, k: Kind): (w': World)
    requires x < |w.cells|
    ensures Extends(w, w')
  {
    var w1 := if w.cells[x].phase == Dying then Say(w, Taken(x)) else w;
    Put(w1, x, Bump(w.cells[x], k, 1))
  }

  /** SetObject: the slot first, then AddRef on the new object, then Release on the old. */
  function Assign(w: World, s: Script): (w': World)
    requires s.Step?
    ensures Extends(w, w')
    decreases s, 0
  {
    if s.slot >= |w.slots| then w
    else
      var (w0, target) := Resolve(w, s.source);
      var k, pOld := w0.slots[s.slot].kind, w0.slots[s.slot].target;
      var w2 := Redirect(w0, s.slot, target);
      if pOld.Some? && pOld.value < |w2.cells| then Release(w2, pOld.value, k, s.body) else w2
  }

  function Release(w: World, x: nat, k: Kind, body: Body): (w': World)
    requires x < |w.cells|
    ensures Extends(w, w')
    decreases body, if k.Ref? then 2 else 4
  {
    var c := Bump(w.cells[x], k, -1);
    var w1 := Noted(Put(w, x, c), x, k);
    if k.Ref? then (if c.refData == 0 then ReleaseRefComplete(w1, x, body) else w1)
    else if Field(c.objData, k) == 0 then ReleaseObjComplete(w1, x, k, body)
    else w1
  }

  /** The release that a constructor or a last destructor cannot survive: the words show no
      pointer left, or no owner of this kind and no clearing under way. */
  predicate Empties(c: Cell, k: Kind) {
    var none := c.refData == 0 && c.objData % BUSY == 0;
    && (c.phase.Building? || c.phase.Born? || c.phase.Dying?)
    && if k.Ref? then none else Field(c.objData, k) == 0 && (none || !IsBusy(c.objData))
  }

  function Noted(w: World, x: nat, k: Kind): World
    requires x < |w.cells|
  {
    if Empties(w.cells[x], k) then Say(w, Emptied(x)) else w
  }

  function ReleaseRefComplete(w: World, x: nat, body: Body): (w': World)
    requires x < |w.cells|
    ensures Extends(w, w')
    decreases body, 1
  {
    if w.cells[x].objData % BUSY == 0 then Delete(w, x, body) else w
  }

  function ReleaseObjComplete(w: World, x: nat, k: Kind, body: Body): (w': World)
    requires x < |w.cells|
    ensures Extends(w, w')
    decreases body, 3
  {
    var c := w.cells[x];
    if c.objData % BUSY == 0 && c.refData == 0 then Delete(w, x, body)
    else if Field(c.objData, k) != 0 || IsBusy(c.objData) then w
    else
      var w1 := Put(w, x, Raised(c));
      var w2 := DestroyContents(w1, x, body);
      Release(Put(w2, x, Lowered(w2.cells[x])), x, Ref, body)
  }

  /** Both flags up, and a reference more. */
  function Raised(c: Cell): Cell {
    Bump(c.(objData := c.objData % BUSY + INVALID + BUSY), Ref, 1)
  }

  function Lowered(c: Cell): Cell {
    c.(objData := if IsBusy(c.objData) then c.objData - BUSY else c.objData)
  }

  /** The destructor; the counts to locals; the constructor on zeroed counts; the counts back. */
  function DestroyContents(w: World, x: nat, body: Body): (w': World)
    requires x < |w.cells|
    ensures Extends(w, w')
    decreases body, 0
  {
    var w1 := WithPhase(Say(w, Destroying(x, w.cells[x].phase != Idle)), x, Clearing);
    var w2 := Run(w1, body.destructor);
    var hold := w2.cells[x];
    var w3 := Put(w2, x, Rebuilt(hold));
    var w4 := Run(w3, body.constructor_);
    Put(w4, x, Restored(w4.cells[x], hold))
  }

  function Rebuilt(hold: Cell): Cell {
    hold.(objData := 0, refData := 0, phase := Building(hold.refData, hold.objData))
  }

  function Restored(c: Cell, hold: Cell): Cell {
    c.(refData := Word(c.refData + hold.refData), objData := Word(c.objData + hold.objData), phase := Idle)
  }

  /** `delete this`: the class's destructor once more, then the memory is freed. */
  function Delete(w: World, x: nat, body: Body): (w': World)
    requires x < |w.cells|
    ensures Extends(w, w')
    decreases body, 0
  {
    var mark := Deleted(x, Pointers(w.slots, x), w.cells[x].phase != Idle);
    var w2 := Run(WithPhase(Say(w, mark), x, Dying), body.finalizer);
    WithPhase(Say(w2, Freed(x, Pointers(w2.slots, x))), x, Gone)
  }
}
