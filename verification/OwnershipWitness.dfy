/** Two runs that are not safe: a constructor, and a last destructor, that takes a pointer to its
    own object and drops it. */
module OwnershipWitness {
  import opened Wrappers
  import opened Ownership
  import opened OwnershipSafety

  const QUIET: Body := Body(Done, Done, Done)

  /** Takes a plain pointer to the first object, and drops it. */
  const SELFISH: Script := Step(2, Raw(0), QUIET, Step(2, Nothing, QUIET, Done))

  lemma StillThere(w: World, w': World, m: Mark)
    requires m in w.trace && Extends(w, w')
    ensures m in w'.trace
  {
    var i :| 0 <= i < |w.trace| && w.trace[i] == m;
    assert w'.trace[i] == m;
  }

  /** The one object, with empty words, while something runs for it. */
  ghost predicate Bare(w: World) {
    && |w.cells| == 1 && w.cells[0].refData == 0 && w.cells[0].objData == 0
    && (w.cells[0].phase.Building? || w.cells[0].phase.Dying?)
    && |w.slots| == 3 && w.slots[2] == Slot(Ref, None)
  }

  lemma SelfishDeletes(w: World)
    requires Bare(w)
    ensures Deleted(0, Pointers(w.slots, 0), true) in Run(w, SELFISH).trace
  {
    hide Count, Release, Pointers;
    var w1 := Take(w.(slots := w.slots[2 := Slot(Ref, Some(0))]), 0, Ref);
    assert Assign(w, SELFISH) == w1;
    assert w1.cells[0] == w.cells[0].(refData := 1);
    var w2 := w1.(slots := w.slots);
    assert w1.slots[2 := Slot(Ref, None)] == w.slots;
    assert Assign(w1, SELFISH.rest) == Release(w2, 0, Ref, QUIET);
    TwoSteps(w, SELFISH);
    hide Run, Assign;
    SelfishRelease(w2);
  }

  lemma TwoSteps(w: World, s: Script)
    requires s.Step? && s.rest.Step? && s.rest.rest == Done
    ensures Run(w, s) == Assign(Assign(w, s), s.rest)
  {
    hide Assign;
    assert Run(Assign(w, s), s.rest) == Run(Assign(Assign(w, s), s.rest), Done);
  }

  lemma SelfishRelease(w: World)
    requires |w.cells| == 1 && (w.cells[0].phase.Building? || w.cells[0].phase.Dying?)
    requires w.cells[0].refData == 1 && w.cells[0].objData == 0
    ensures Deleted(0, Pointers(w.slots, 0), true) in Release(w, 0, Ref, QUIET).trace
  {
    hide Count, Run, Pointers, Delete, ReleaseObjComplete;
    var w1 := Say(Put(w, 0, w.cells[0].(refData := 0)), Emptied(0));
    assert Noted(Put(w, 0, w.cells[0].(refData := 0)), 0, Ref) == w1;
    assert Release(w, 0, Ref, QUIET) == Delete(w1, 0, QUIET);
    DeleteMarks(w1, 0, QUIET);
  }

  lemma DeleteMarks(w: World, x: nat, body: Body)
    requires x < |w.cells| && w.cells[x].phase != Idle
    ensures Deleted(x, Pointers(w.slots, x), true) in Delete(w, x, body).trace
  {
    hide Pointers;
    var mark := Deleted(x, Pointers(w.slots, x), true);
    var w1 := WithPhase(Say(w, mark), x, Dying);
    assert w1.trace[|w.trace|] == mark;
    hide Run;
    var w2 := Run(w1, body.finalizer);
    StillThere(w1, w2, mark);
    StillThere(w2, Delete(w, x, body), mark);
  }

  lemma MarkedUnsafe(trace: seq<Mark>, m: Mark)
    requires m in trace && !Sound(m)
    ensures !Safe(trace)
  {
    var i :| 0 <= i < |trace| && trace[i] == m;
    assert !Sound(trace[i]);
  }

  lemma FewHaveRoom(slots: seq<Slot>)
    requires |slots| < 0x400
    ensures Room(slots)
  {
  }

  // ---- a constructor ----

  /** The last owner goes while a plain pointer stays: the object is deleted, with that pointer
      left, within its own DestroyContents. */
  lemma EarlyDeletion()
    ensures var w := World([], [Slot(Obj, None), Slot(Ref, None), Slot(Ref, None)], []);
      var script := Step(0, Fresh(Done), QUIET, Step(1, CopyOf(0), QUIET,
                      Step(0, Nothing, Body(Done, SELFISH, Done), Done)));
      Start(w) && Deleted(0, 1, true) in Run(w, script).trace && !Safe(Run(w, script).trace)
  {
    hide Run, Release, DestroyContents, Safe, Times, Count, Room;
    var w := World([], [Slot(Obj, None), Slot(Ref, None), Slot(Ref, None)], []);
    var body := Body(Done, SELFISH, Done);
    var s3 := Step(0, Nothing, body, Done);
    var s2 := Step(1, CopyOf(0), QUIET, s3);
    var s1 := Step(0, Fresh(Done), QUIET, s2);
    NothingRuns(WithNew(w));
    var w1 := World([Cell(1, 0, Idle)], [Slot(Obj, Some(0)), Slot(Ref, None), Slot(Ref, None)], []);
    assert Assign(w, s1) == w1;
    var w2 := World([Cell(1, 1, Idle)], [Slot(Obj, Some(0)), Slot(Ref, Some(0)), Slot(Ref, None)], []);
    assert Assign(w1, s2) == w2;
    var w3 := w2.(slots := [Slot(Obj, None), Slot(Ref, Some(0)), Slot(Ref, None)]);
    assert w2.slots[0 := Slot(Obj, None)] == w3.slots;
    assert Assign(w2, s3) == Release(w3, 0, Obj, body);
    LastOwnerGoes(w3, body);
    ThreeSteps(w, s1);
    FewHaveRoom(w.slots);
    MarkedUnsafe(Run(w, s1).trace, Deleted(0, 1, true));
  }

  lemma NothingRuns(w: World)
    ensures Run(w, Done) == w
  {
  }

  lemma ThreeSteps(w: World, s: Script)
    requires s.Step? && s.rest.Step? && s.rest.rest.Step? && s.rest.rest.rest == Done
    ensures Run(w, s) == Assign(Assign(Assign(w, s), s.rest), s.rest.rest)
  {
    hide Assign;
    TwoSteps(Assign(w, s), s.rest);
  }

  lemma LastOwnerGoes(w: World, body: Body)
    requires w.cells == [Cell(1, 1, Idle)] && body == Body(Done, SELFISH, Done)
    requires w.slots == [Slot(Obj, None), Slot(Ref, Some(0)), Slot(Ref, None)]
    ensures Deleted(0, 1, true) in Release(w, 0, Obj, body).trace
  {
    hide Count, Run, DestroyContents, Release, ReleaseObjComplete, Raised, Lowered;
    var w0 := Put(w, 0, Cell(0, 1, Idle));
    var w1 := Put(w, 0, Cell(INVALID + BUSY, 2, Idle));
    OwnerReleased(w, w0, body);
    RaisedCell();
    assert Put(w0, 0, Raised(w0.cells[0])) == w1;
    ClearIs(w0, 0, Obj, body);
    var w2 := DestroyContents(w1, 0, body);
    SelfishInside(w1, body);
    var w3 := Put(w2, 0, Lowered(w2.cells[0]));
    StillThere(w3, Release(w3, 0, Ref, body), Deleted(0, 1, true));
  }

  lemma OwnerReleased(w: World, w0: World, body: Body)
    requires |w.cells| == 1 && w.cells[0] == Cell(1, 1, Idle) && w0 == Put(w, 0, Cell(0, 1, Idle))
    ensures Release(w, 0, Obj, body) == ReleaseObjComplete(w0, 0, Obj, body)
  {
    hide ReleaseObjComplete;
  }

  lemma RaisedCell()
    ensures Raised(Cell(0, 1, Idle)) == Cell(INVALID + BUSY, 2, Idle)
  {
  }

  lemma SelfishInside(w: World, body: Body)
    requires w.cells == [Cell(INVALID + BUSY, 2, Idle)] && body == Body(Done, SELFISH, Done)
    requires w.slots == [Slot(Obj, None), Slot(Ref, Some(0)), Slot(Ref, None)]
    ensures Deleted(0, 1, true) in DestroyContents(w, 0, body).trace
  {
    hide Run, Count;
    var w1 := WithPhase(Say(w, Destroying(0, false)), 0, Clearing);
    NothingRuns(w1);
    var w3 := Put(w1, 0, Rebuilt(w1.cells[0]));
    SelfishDeletes(w3);
    PointersOfOne();
    var w4 := Run(w3, SELFISH);
    assert DestroyContents(w, 0, body).trace == w4.trace;
  }

  lemma PointersOfOne()
    ensures Pointers([Slot(Obj, None), Slot(Ref, Some(0)), Slot(Ref, None)], 0) == 1
  {
    var none := [Slot(Obj, None), Slot(Ref, None), Slot(Ref, None)];
    var s := Slot(Ref, Some(0));
    CountZero(none, 0, Ref);
    CountZero(none, 0, Obj);
    CountZero(none, 0, Multi);
    CountPut(none, 1, s, 0, Ref);
    CountPut(none, 1, s, 0, Obj);
    CountPut(none, 1, s, 0, Multi);
    assert none[1 := s] == [Slot(Obj, None), s, Slot(Ref, None)];
  }

  // ---- a last destructor ----

  /** The last pointer goes, and the destructor that `delete this` runs takes and drops one more:
      the object is deleted twice. */
  lemma DoubleDeletion()
    ensures var w := World([], [Slot(Ref, None), Slot(Ref, None), Slot(Ref, None)], []);
      var script := Step(0, Fresh(Done), QUIET, Step(0, Nothing, Body(Done, Done, SELFISH), Done));
      && Start(w) && !Safe(Run(w, script).trace)
      && Deleted(0, 0, false) in Run(w, script).trace && Deleted(0, 0, true) in Run(w, script).trace
  {
    hide Run, Release, Delete, Safe, Times, Count, Room;
    var none := [Slot(Ref, None), Slot(Ref, None), Slot(Ref, None)];
    var w := World([], none, []);
    var body := Body(Done, Done, SELFISH);
    var s2 := Step(0, Nothing, body, Done);
    var s1 := Step(0, Fresh(Done), QUIET, s2);
    NothingRuns(WithNew(w));
    var w1 := World([Cell(0, 1, Idle)], none[0 := Slot(Ref, Some(0))], []);
    assert Assign(w, s1) == w1;
    var w2 := World([Cell(0, 1, Idle)], none, []);
    assert w1.slots[0 := Slot(Ref, None)] == none;
    assert Assign(w1, s2) == Release(w2, 0, Ref, body);
    TwoSteps(w, s1);
    LastPointerGoes(w2, body);
    FewHaveRoom(w.slots);
    MarkedUnsafe(Run(w, s1).trace, Deleted(0, 0, true));
  }

  lemma LastPointerGoes(w: World, body: Body)
    requires w == World([Cell(0, 1, Idle)], [Slot(Ref, None), Slot(Ref, None), Slot(Ref, None)], [])
    requires body == Body(Done, Done, SELFISH)
    ensures var w' := Release(w, 0, Ref, body);
      Deleted(0, 0, false) in w'.trace && Deleted(0, 0, true) in w'.trace
  {
    hide Run, Count, ReleaseObjComplete;
    CountZero(w.slots, 0, Ref);
    CountZero(w.slots, 0, Obj);
    CountZero(w.slots, 0, Multi);
    var w0 := Put(w, 0, Cell(0, 0, Idle));
    assert Release(w, 0, Ref, body) == Delete(w0, 0, body);
    var w1 := WithPhase(Say(w0, Deleted(0, 0, false)), 0, Dying);
    assert w1.trace[0] == Deleted(0, 0, false);
    var w2 := Run(w1, SELFISH);
    SelfishDeletes(w1);
    StillThere(w1, w2, Deleted(0, 0, false));
    StillThere(w2, Delete(w0, 0, body), Deleted(0, 0, false));
    StillThere(w2, Delete(w0, 0, body), Deleted(0, 0, true));
  }
}
