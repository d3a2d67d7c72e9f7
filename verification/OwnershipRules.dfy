/** Rules for classes that make every run safe, and what happens without them. */
module OwnershipRules {
  import opened Wrappers
  import opened Ownership
  import opened OwnershipSafety

  // ---- the rules ----

  /** What scripts may take: anything, no raw pointers, or new objects only. */
  datatype Level = Anything | NoRaw | OnlyNew

  /** Constructors, and what they set off, take new objects only; last destructors, and what they
      set off, take no raw pointers. Nothing else is asked. */
  predicate Tame(l: Level, s: Script)
    decreases s
  {
    s.Done? || (Allowed(l, s.source) && TameBody(l, s.body) && Tame(l, s.rest))
  }

  predicate Allowed(l: Level, source: Source)
    decreases source
  {
    match source
    case Nothing => true
    case CopyOf(_) => l != OnlyNew
    case Raw(_) => l == Anything
    case Fresh(init) => Tame(OnlyNew, init)
  }

  predicate TameBody(l: Level, body: Body)
    decreases body
  {
    && Tame(l, body.destructor) && Tame(OnlyNew, body.constructor_) && Tame(Last(l), body.finalizer)
  }

  /** The level of a last destructor. */
  function Last(l: Level): Level {
    if l == Anything then NoRaw else l
  }

  // ---- what they keep ----

  /** Inside a last destructor no raw pointers are taken, so none leads to the object; inside a
      constructor only new objects are, so the pointers to the object get no more. */
  ghost predicate Calm(w: World, l: Level) {
    forall x | 0 <= x < |w.cells| :: CalmAt(w, l, x)
  }

  ghost predicate CalmAt(w: World, l: Level, x: nat)
    requires x < |w.cells|
  {
    match w.cells[x].phase
    case Dying => l != Anything && Pointers(w.slots, x) == 0
    case Born => l == OnlyNew && Pointers(w.slots, x) == 0
    case Building(refs, objs) =>
      && l == OnlyNew && Count(w.slots, x, Ref) < refs <= WORD
      && Count(w.slots, x, Obj) <= Field(objs, Obj) && Count(w.slots, x, Multi) <= Field(objs, Multi)
      && objs < WORD && objs / BUSY == 3
    case _ => true
  }

  ghost predicate Fine(w: World, l: Level) {
    Kept(w) && Held(w, None) && Calm(w, l) && Quiet(w.trace)
  }

  /** A stricter level goes with the same world, and back again when nothing new runs. */
  lemma CalmBelow(w: World, w': World, l: Level, l': Level, x: nat)
    requires Calm(w, l) && Calm(w', l')
    requires forall y | 0 <= y < |w'.cells| && y != x ::
      if y < |w.cells| then w'.cells[y].phase in {w.cells[y].phase, Gone} else w'.cells[y].phase in {Idle, Gone}
    requires x < |w'.cells| ==> w'.cells[x].phase in {Idle, Gone, Clearing}
    ensures Calm(w', l)
  {
    forall y | 0 <= y < |w'.cells| ensures CalmAt(w', l, y) {
      assert CalmAt(w', l', y);
      if y < |w.cells| {
        assert CalmAt(w, l, y);
      }
    }
  }

  lemma CalmStricter(w: World, l: Level, l': Level)
    requires Calm(w, l) && (l' == l || l == Anything || l' == OnlyNew)
    ensures Calm(w, l')
  {
    forall y | 0 <= y < |w.cells| ensures CalmAt(w, l', y) {
      assert CalmAt(w, l, y);
    }
  }

  /** Another cell for `x`, calm by itself. */
  lemma CalmPut(w: World, l: Level, x: nat, c: Cell)
    requires Calm(w, l) && x < |w.cells| && CalmAt(Put(w, x, c), l, x)
    ensures Calm(Put(w, x, c), l)
  {
    forall y | 0 <= y < |w.cells| ensures CalmAt(Put(w, x, c), l, y) {
      assert CalmAt(w, l, y);
    }
  }

  lemma CalmSay(w: World, l: Level, m: Mark)
    requires Calm(w, l)
    ensures Calm(Say(w, m), l)
  {
    forall y | 0 <= y < |w.cells| ensures CalmAt(Say(w, m), l, y) {
      assert CalmAt(w, l, y);
    }
  }

  lemma QuietSay(w: World, m: Mark)
    requires Quiet(w.trace) && !m.Emptied? && !m.Taken?
    ensures Quiet(Say(w, m).trace)
  {
  }

  lemma QuietIsRight(w: World)
    requires Quiet(w.trace)
    ensures Right(w.trace)
  {
  }

  /** The words under reconstruction are short by the pointers that have gone, and never empty
      after one of these has. */
  lemma NotEmptyBelow(c: Cell, k: Kind, r: nat, o: nat, m: nat)
    requires Balanced(c, r, o, m) && c.phase.Building?
    requires c.phase.heldRefs <= WORD && c.phase.heldObjs < WORD && c.phase.heldObjs / BUSY == 3
    requires r < c.phase.heldRefs && o <= Field(c.phase.heldObjs, Obj) && m <= Field(c.phase.heldObjs, Multi)
    requires match k
      case Ref => r + 1 < c.phase.heldRefs
      case Obj => o < Field(c.phase.heldObjs, Obj)
      case Multi => m < Field(c.phase.heldObjs, Multi)
    ensures !Empties(c, k)
  {
    var held := c.phase.heldObjs;
    var a, b := Field(held, Obj) - o, Field(held, Multi) - m;
    assert held == INVALID + BUSY + Field(held, Obj) + MULTI * Field(held, Multi);
    match k
    case Ref =>
    case Obj =>
      assert c.objData == WORD - a - MULTI * b;
      FieldBelow(a, b);
    case Multi =>
      assert c.objData == WORD - a - MULTI * b;
      FieldBelow(a, b);
  }

  lemma FieldBelow(a: nat, b: nat)
    requires a < MULTI && b < 0x400
    ensures var v := WORD - a - MULTI * b;
      && (a > 0 ==> Field(v, Obj) != 0)
      && (b > 0 && Field(v, Multi) == 0 ==> IsBusy(v) && v % BUSY != 0)
  {
    var v := WORD - a - MULTI * b;
    if a > 0 {
      assert v == MULTI * (0xfff - b) + (MULTI - a);
      assert v / MULTI == 0xfff - b && v % MULTI == MULTI - a;
    } else {
      assert v == MULTI * (0x1000 - b);
      assert v / MULTI == 0x1000 - b;
    }
  }

  // ---- the run ----

  /** Runs under the rules never empty an object too early, and never take a dying one. */
  lemma {:induction false} TameRun(w: World, l: Level, s: Script)
    requires Fine(w, l) && Tame(l, s)
    ensures Fine(Run(w, s), l) && Stable(w, Run(w, s))
    decreases s, 1
  {
    hide Fine, Stable, Assign;
    if s.Step? {
      var w1 := Assign(w, s);
      TameAssign(w, l, s);
      TameRun(w1, l, s.rest);
      StableTwice(w, w1, Run(w1, s.rest));
    } else {
      StableRefl(w);
    }
  }

  /** What the rules let an assignment take is neither under construction nor dying. */
  ghost predicate Takes(w: World, target: Option<nat>) {
    target.Some? ==> target.value < |w.cells| && w.cells[target.value].phase in {Idle, Clearing}
  }

  lemma {:induction false} TameResolve(w: World, l: Level, source: Source)
    requires Fine(w, l) && Allowed(l, source)
    ensures var (w0, target) := Resolve(w, source);
      && Kept(w0) && Stable(w, w0) && Held(w0, if source.Fresh? then target else None)
      && Calm(w0, l) && Quiet(w0.trace)
      && (if source.Fresh? then target.Some? && target.value < |w0.cells| && w0.cells[target.value].phase == Idle
          else Takes(w0, target))
    decreases source
  {
    StableRefl(w);
    match source
    case Nothing =>
    case CopyOf(slot) =>
      if slot < |w.slots| && w.slots[slot].target.Some? {
        var x := w.slots[slot].target.value;
        CountSome(w.slots, slot, x);
        assert x < |w.cells| && CalmAt(w, l, x);
      }
    case Raw(x) =>
      if x < |w.cells| {
        assert CalmAt(w, l, x);
      }
    case Fresh(init) =>
      hide Run, Fine, Calm, Tame, Kept, Held, Quiet, Right;
      var x, w1 := |w.cells|, Run(WithNew(w), init);
      NewFine(w, l);
      TameRun(WithNew(w), OnlyNew, init);
      FineParts(w1, OnlyNew);
      FineParts(w, l);
      assert Stays(WithNew(w).cells[x], w1.cells[x]);
      BornKept(w1, x);
      BornStable(w, w1, x);
      CalmIdle(w1, OnlyNew, x);
      CalmBelowStable(w, WithPhase(w1, x, Idle), l, OnlyNew, x);
  }

  lemma FineParts(w: World, l: Level)
    requires Fine(w, l)
    ensures Kept(w) && Held(w, None) && Calm(w, l) && Quiet(w.trace)
  {
  }

  lemma CalmIdle(w: World, l: Level, x: nat)
    requires Calm(w, l) && x < |w.cells|
    ensures Calm(WithPhase(w, x, Idle), l)
  {
    CalmPut(w, l, x, w.cells[x].(phase := Idle));
  }

  lemma CalmBelowStable(w: World, w': World, l: Level, l': Level, x: nat)
    requires Calm(w, l) && Calm(w', l') && Stable(w, w')
    requires x < |w'.cells| ==> w'.cells[x].phase in {Idle, Gone, Clearing}
    ensures Calm(w', l)
  {
    hide Calm;
    forall y | 0 <= y < |w'.cells| && y != x
      ensures if y < |w.cells| then w'.cells[y].phase in {w.cells[y].phase, Gone} else w'.cells[y].phase in {Idle, Gone}
    {
      if y < |w.cells| {
        assert Stays(w.cells[y], w'.cells[y]);
      }
    }
    CalmBelow(w, w', l, l', x);
  }

  lemma NewFine(w: World, l: Level)
    requires Fine(w, l)
    ensures Fine(WithNew(w), OnlyNew)
  {
    hide Kept, Held, Quiet, Pointers;
    NewKept(w);
    NoPointers(w, |w.cells|);
    CalmStricter(w, l, OnlyNew);
    forall y | 0 <= y < |w.cells| + 1 ensures CalmAt(WithNew(w), OnlyNew, y) {
      if y < |w.cells| {
        assert CalmAt(w, OnlyNew, y);
      }
    }
  }

  lemma NoPointers(w: World, x: nat)
    requires Kept(w) && x >= |w.cells|
    ensures Pointers(w.slots, x) == 0
  {
    CountZero(w.slots, x, Ref);
    CountZero(w.slots, x, Obj);
    CountZero(w.slots, x, Multi);
  }

  /** Moving a pointer to an object that nothing runs for. */
  lemma MovedCalm(w: World, l: Level, slot: nat, target: Option<nat>)
    requires Calm(w, l) && Targets(w) && slot < |w.slots| && Takes(w, target)
    ensures var w' := Moved(w, slot, target); Calm(w', l) && w'.trace == w.trace
  {
    hide Moved, Count, Redirect, Both, Pointers;
    var w' := Moved(w, slot, target);
    MovedIs(w, slot, target);
    assert w.trace + [] == w.trace;
    forall y | 0 <= y < |w'.cells| ensures CalmAt(w', l, y) {
      assert CalmAt(w, l, y);
      if target != Some(y) {
        FewerPointers(w.slots, slot, Slot(w.slots[slot].kind, target), y);
      }
    }
  }

  lemma FewerPointers(slots: seq<Slot>, slot: nat, s: Slot, x: nat)
    requires slot < |slots| && s.kind == slots[slot].kind && s.target != Some(x)
    ensures forall k :: Count(slots[slot := s], x, k) <= Count(slots, x, k)
    ensures Pointers(slots[slot := s], x) <= Pointers(slots, x)
    ensures slots[slot].target == Some(x) ==>
      Count(slots[slot := s], x, s.kind) + 1 == Count(slots, x, s.kind)
  {
    CountPut(slots, slot, s, x, Ref);
    CountPut(slots, slot, s, x, Obj);
    CountPut(slots, slot, s, x, Multi);
    assert slots[slot] == Slot(s.kind, slots[slot].target);
    forall k ensures Count(slots[slot := s], x, k) <= Count(slots, x, k) {
      match k case Ref => case Obj => case Multi =>
    }
  }

  /** The object that a pointer leaves is not emptied by that. */
  lemma LeftNotEmpty(w: World, l: Level, slot: nat, target: Option<nat>, x: nat)
    requires Kept(w) && Calm(w, l) && slot < |w.slots| && Takes(w, target) && w.slots[slot].target == Some(x)
    requires Kept(Moved(w, slot, target))
    ensures x < |w.cells| && w.cells[x].phase != Born && w.cells[x].phase != Dying
    ensures var w' := Moved(w, slot, target); !Empties(w'.cells[x], w.slots[slot].kind)
  {
    hide Moved, Count, Redirect, Both, Balanced, Empties;
    var w', k := Moved(w, slot, target), w.slots[slot].kind;
    MovedIs(w, slot, target);
    CountSome(w.slots, slot, x);
    assert CalmAt(w, l, x);
    if w.cells[x].phase.Building? {
      FewerPointers(w.slots, slot, Slot(k, target), x);
      assert Counted(w', x);
      NotEmptyBelow(w'.cells[x], k, Count(w'.slots, x, Ref), Count(w'.slots, x, Obj), Count(w'.slots, x, Multi));
    } else {
      PhaseNotEmpty(w'.cells[x], k);
    }
  }

  lemma PhaseNotEmpty(c: Cell, k: Kind)
    requires !c.phase.Building? && !c.phase.Born? && !c.phase.Dying?
    ensures !Empties(c, k)
  {
  }

  lemma {:induction false} TameAssign(w: World, l: Level, s: Script)
    requires s.Step? && Fine(w, l) && Tame(l, s)
    ensures Fine(Assign(w, s), l) && Stable(w, Assign(w, s))
    decreases s, 0
  {
    hide Fine, Kept, Held, Calm, Stable, Redirect, Release, Resolve, Moved, Bump, Quiet, Right, Empties, Targets, Takes;
    StableRefl(w);
    if s.slot < |w.slots| {
      var (w0, target) := Resolve(w, s.source);
      TameResolve(w, l, s.source);
      FreshTakes(w0, target, s.source);
      KeptTargets(w0);
      AssignIs(w, s);
      hide Assign;
      var k, pOld, w2, w3 := w0.slots[s.slot].kind, w0.slots[s.slot].target, Redirect(w0, s.slot, target), Moved(w0, s.slot, target);
      TakesAlive(w0, target);
      MovedKept(w0, s.slot, target);
      MovedHeld(w0, s.slot, target, if s.source.Fresh? then target else None);
      MovedCalm(w0, l, s.slot, target);
      StableTwice(w, w0, w3);
      if pOld.Some? {
        LeftNotEmpty(w0, l, s.slot, target, pOld.value);
        TameRelease(w2, pOld.value, k, l, s.body);
        StableTwice(w, w3, Release(w2, pOld.value, k, s.body));
      } else {
        MakeFine(w3, l);
      }
    }
  }

  lemma FreshTakes(w: World, target: Option<nat>, source: Source)
    requires if source.Fresh? then target.Some? && target.value < |w.cells| && w.cells[target.value].phase == Idle
             else Takes(w, target)
    ensures Takes(w, target)
  {
  }

  lemma TakesAlive(w: World, target: Option<nat>)
    requires Takes(w, target)
    ensures target.Some? ==> target.value < |w.cells| && w.cells[target.value].phase != Gone
  {
  }

  lemma MakeFine(w: World, l: Level)
    requires Kept(w) && Held(w, None) && Calm(w, l) && Quiet(w.trace)
    ensures Fine(w, l)
  {
  }

  lemma {:induction false} TameRelease(w: World, x: nat, k: Kind, l: Level, body: Body)
    requires x < |w.cells| && Released(w, x, k) && TameBody(l, body) && Quiet(w.trace)
    requires Calm(Put(w, x, Bump(w.cells[x], k, -1)), l)
    requires !Empties(Bump(w.cells[x], k, -1), k) && w.cells[x].phase != Born && w.cells[x].phase != Dying
    ensures var w' := Release(w, x, k, body);
      Fine(w', l) && Stable(Put(w, x, Bump(w.cells[x], k, -1)), w')
    decreases body, if k.Ref? then 2 else 5
  {
    var c := Bump(w.cells[x], k, -1);
    var w1 := Put(w, x, c);
    StableRefl(w1);
    hide Fine, Bump, Stable, Kept, Held, Calm, Quiet, TameBody, Empties;
    ReleasedParts(w, x, k);
    ReleaseIs(w, x, k, body);
    if k.Ref? && c.refData == 0 {
      TameRefComplete(w1, x, l, body);
    } else if !k.Ref? && Field(c.objData, k) == 0 {
      TameObjComplete(w1, x, k, l, body);
    } else {
      StillHeld(w1, x, k);
      MakeFine(w1, l);
    }
  }

  lemma {:induction false} TameRefComplete(w: World, x: nat, l: Level, body: Body)
    requires Kept(w) && Held(w, Some(x)) && Calm(w, l) && Quiet(w.trace) && TameBody(l, body)
    requires x < |w.cells| && w.cells[x].phase != Gone && w.cells[x].phase != Born && w.cells[x].phase != Dying
    requires w.cells[x].refData == 0 && !Empties(w.cells[x], Ref)
    ensures var w' := ReleaseRefComplete(w, x, body); Fine(w', l) && Stable(w, w')
    decreases body, 1
  {
    hide Fine, Count, OfKind, Times, Stable, Delete, Room, Targets, Logged, Held, Calm, Quiet, TameBody;
    assert Counted(w, x);
    Bounds(w.slots, x);
    var c := w.cells[x];
    var r, o, m := Count(w.slots, x, Ref), Count(w.slots, x, Obj), Count(w.slots, x, Multi);
    StableRefl(w);
    match c.phase
    case Idle =>
      ReadPlain(c, r, o, m);
      if c.objData % BUSY == 0 {
        assert Pointers(w.slots, x) == 0;
        hide Kept;
        TameDelete(w, x, l, body);
      } else {
        HeldAll(w, x);
        MakeFine(w, l);
      }
    case Clearing => ReadClearing(c, r, o, m); assert false;
    case _ =>
      HeldAll(w, x);
      MakeFine(w, l);
  }

  lemma {:induction false} TameDelete(w: World, x: nat, l: Level, body: Body)
    requires Kept(w) && Held(w, Some(x)) && Calm(w, l) && Quiet(w.trace) && TameBody(l, body)
    requires x < |w.cells| && w.cells[x].phase == Idle && Pointers(w.slots, x) == 0
    ensures var w' := Delete(w, x, body); Fine(w', l) && Stable(w, w')
    decreases body, 0
  {
    hide Fine, Kept, Held, Calm, Stable, Quiet, Right, Pointers, Run, Tame;
    var mark := Deleted(x, 0, false);
    var w1 := WithPhase(Say(w, mark), x, Dying);
    var w2 := Run(w1, body.finalizer);
    var freed := Freed(x, Pointers(w2.slots, x));
    var w' := WithPhase(Say(w2, freed), x, Gone);
    DyingKept(w, x);
    QuietSay(w, mark);
    DyingCalm(w, x, l, mark);
    MakeFine(w1, Last(l));
    TameRun(w1, Last(l), body.finalizer);
    FineParts(w2, Last(l));
    DyingStays(w1, w2, x);
    QuietSay(w2, freed);
    QuietIsRight(Say(w2, freed));
    GoneKept(w2, x);
    GoneStable(w, w1, w2, x);
    CalmSay(w2, Last(l), freed);
    GoneCalm(Say(w2, freed), x, Last(l));
    CalmBelowStable(w, w', l, Last(l), x);
    MakeFine(w', l);
  }

  lemma DyingCalm(w: World, x: nat, l: Level, m: Mark)
    requires Calm(w, l) && x < |w.cells| && Pointers(w.slots, x) == 0
    ensures Calm(WithPhase(Say(w, m), x, Dying), Last(l))
  {
    CalmStricter(w, l, Last(l));
    CalmSay(w, Last(l), m);
    CalmPut(Say(w, m), Last(l), x, w.cells[x].(phase := Dying));
  }

  lemma GoneCalm(w: World, x: nat, l: Level)
    requires Calm(w, l) && x < |w.cells|
    ensures Calm(WithPhase(w, x, Gone), l)
  {
    CalmPut(w, l, x, w.cells[x].(phase := Gone));
  }

  lemma {:induction false} TameObjComplete(w: World, x: nat, k: Kind, l: Level, body: Body)
    requires Kept(w) && Held(w, Some(x)) && Calm(w, l) && Quiet(w.trace) && TameBody(l, body)
    requires x < |w.cells| && w.cells[x].phase != Gone && w.cells[x].phase != Born && w.cells[x].phase != Dying
    requires !k.Ref? && Field(w.cells[x].objData, k) == 0 && !Empties(w.cells[x], k)
    ensures var w' := ReleaseObjComplete(w, x, k, body); Fine(w', l) && Stable(w, w')
    decreases body, 4
  {
    hide Fine, Count, OfKind, Times, Stable, Delete, Room, Targets, Logged, Quiet, Calm, DestroyContents, Release, Held, TameBody;
    assert Counted(w, x);
    Bounds(w.slots, x);
    var c := w.cells[x];
    var r, o, m := Count(w.slots, x, Ref), Count(w.slots, x, Obj), Count(w.slots, x, Multi);
    StableRefl(w);
    if c.phase == Idle {
      ReadPlain(c, r, o, m);
      if c.objData % BUSY == 0 && c.refData == 0 {
        assert Pointers(w.slots, x) == 0;
        hide Kept;
        TameDelete(w, x, l, body);
      } else {
        TameClear(w, x, k, l, body);
      }
    } else {
      if c.phase == Clearing {
        ReadClearing(c, r, o, m);
      }
      HeldAll(w, x);
      MakeFine(w, l);
    }
  }

  lemma {:induction false} TameClear(w: World, x: nat, k: Kind, l: Level, body: Body)
    requires Kept(w) && Held(w, Some(x)) && Calm(w, l) && Quiet(w.trace) && TameBody(l, body)
    requires x < |w.cells| && w.cells[x].phase == Idle
    requires !k.Ref? && Field(w.cells[x].objData, k) == 0 && !IsBusy(w.cells[x].objData)
    requires !(w.cells[x].objData % BUSY == 0 && w.cells[x].refData == 0)
    ensures var w' := ReleaseObjComplete(w, x, k, body); Fine(w', l) && Stable(w, w')
    decreases body, 3
  {
    hide Fine, ReleaseObjComplete, DestroyContents, Release, Quiet, Calm, Bump, Raised, Lowered, Kept, Held, Stable, Released, TameBody, Empties;
    ClearIs(w, x, k, body);
    var w1 := Put(w, x, Raised(w.cells[x]));
    var w2 := DestroyContents(w1, x, body);
    var w3 := Put(w2, x, Lowered(w2.cells[x]));
    var w4 := Put(w3, x, Bump(w3.cells[x], Ref, -1));
    BumpFields(w3.cells[x], Ref, -1);
    RaisedKept(w, x);
    RaisedCalm(w, x, l);
    TameDestroy(w1, x, l, body);
    LoweredKept(w2, x);
    LoweredCalm(w2, x, l);
    PhaseNotEmpty(Bump(w3.cells[x], Ref, -1), Ref);
    TameRelease(w3, x, Ref, l, body);
    ClearStable(w, w1, w2, w4, Release(w3, x, Ref, body), x);
  }

  lemma RaisedCalm(w: World, x: nat, l: Level)
    requires Calm(w, l) && x < |w.cells|
    ensures Calm(WithPhase(Put(w, x, Raised(w.cells[x])), x, Clearing), l)
  {
    var w' := WithPhase(Put(w, x, Raised(w.cells[x])), x, Clearing);
    assert w' == Put(w, x, Raised(w.cells[x]).(phase := Clearing));
    CalmPut(w, l, x, Raised(w.cells[x]).(phase := Clearing));
  }

  lemma LoweredCalm(w: World, x: nat, l: Level)
    requires x < |w.cells| && Calm(WithPhase(w, x, Clearing), l) && w.cells[x].phase == Idle
    ensures var w3 := Put(w, x, Lowered(w.cells[x])); Calm(Put(w3, x, Bump(w3.cells[x], Ref, -1)), l)
  {
    var w0 := WithPhase(w, x, Clearing);
    var w3 := Put(w, x, Lowered(w.cells[x]));
    var c := Bump(w3.cells[x], Ref, -1);
    assert Put(w3, x, c) == Put(w0, x, c);
    CalmPut(w0, l, x, c);
  }

  lemma {:induction false} TameDestroy(w: World, x: nat, l: Level, body: Body)
    requires x < |w.cells| && w.cells[x].phase == Idle && TameBody(l, body) && Quiet(w.trace)
    requires var w0 := WithPhase(w, x, Clearing); Kept(w0) && Held(w0, None) && Calm(w0, l)
    ensures var w' := DestroyContents(w, x, body);
      && w'.cells[x].phase == Idle && Quiet(w'.trace)
      && var w5 := WithPhase(w', x, Clearing);
         Kept(w5) && Held(w5, None) && Calm(w5, l) && Stable(WithPhase(w, x, Clearing), w5)
    decreases body, 0
  {
    hide Fine, Run, Right, Rebuilt, Restored, Kept, Held, Calm, Quiet, Tame;
    var mark := Destroying(x, false);
    var w0 := WithPhase(w, x, Clearing);
    var w1 := Say(w0, mark);
    assert w1 == WithPhase(Say(w, mark), x, Clearing);
    var w2 := Run(w1, body.destructor);
    var hold := w2.cells[x];
    var w3 := Put(w2, x, Rebuilt(hold));
    var w4 := Run(w3, body.constructor_);
    var w' := DestroyContents(w, x, body);
    assert w' == Put(w4, x, Restored(w4.cells[x], hold));
    var w5 := WithPhase(w', x, Clearing);
    assert w5 == Put(w4, x, Restored(w4.cells[x], hold).(phase := Clearing));
    SayKept(w0, mark);
    QuietSay(w0, mark);
    CalmSay(w0, l, mark);
    MakeFine(w1, l);
    TameRun(w1, l, body.destructor);
    FineParts(w2, l);
    assert Stays(w1.cells[x], w2.cells[x]);
    RebuiltKept(w2, x);
    RebuiltCalm(w2, x, l);
    MakeFine(w3, OnlyNew);
    TameRun(w3, OnlyNew, body.constructor_);
    FineParts(w4, OnlyNew);
    assert Stays(w3.cells[x], w4.cells[x]);
    RestoredKept(w4, x, hold);
    StableThrough(w0, w1, w2, w3, w4, w5, x);
    RestoredCalm(w4, x, hold);
    CalmBelowStable(w0, w5, l, OnlyNew, x);
  }

  lemma RebuiltCalm(w: World, x: nat, l: Level)
    requires Kept(w) && Calm(w, l) && x < |w.cells| && w.cells[x].phase == Clearing
    ensures Calm(Put(w, x, Rebuilt(w.cells[x])), OnlyNew)
  {
    hide Count;
    CalmStricter(w, l, OnlyNew);
    assert Counted(w, x);
    Bounds(w.slots, x);
    ClearingFields(w.cells[x], Count(w.slots, x, Ref), Count(w.slots, x, Obj), Count(w.slots, x, Multi));
    CalmPut(w, OnlyNew, x, Rebuilt(w.cells[x]));
  }

  lemma ClearingFields(c: Cell, r: nat, o: nat, m: nat)
    requires Balanced(c, r, o, m) && c.phase == Clearing && r < WORD - 1 && o < MULTI && m < 0x400
    ensures r < c.refData <= WORD && Field(c.objData, Obj) == o && Field(c.objData, Multi) == m
    ensures c.objData < WORD && c.objData / BUSY == 3
  {
  }

  lemma RestoredCalm(w: World, x: nat, hold: Cell)
    requires Calm(w, OnlyNew) && x < |w.cells|
    ensures Calm(Put(w, x, Restored(w.cells[x], hold).(phase := Clearing)), OnlyNew)
  {
    CalmPut(w, OnlyNew, x, Restored(w.cells[x], hold).(phase := Clearing));
  }

  /** Whatever else destructors do, these rules make every run safe. */
  lemma TameIsSafe(w: World, s: Script)
    requires Start(w) && Tame(Anything, s)
    ensures Quiet(Run(w, s).trace) && Safe(Run(w, s).trace)
  {
    hide Run, Tame, Kept, Held, Quiet, Safe;
    StartKept(w);
    StartCalm(w);
    TameRun(w, Anything, s);
    FineParts(Run(w, s), Anything);
    RunsAreSafe(w, s);
  }

  lemma StartCalm(w: World)
    requires Start(w) && Kept(w) && Held(w, None)
    ensures Fine(w, Anything)
  {
  }
}
