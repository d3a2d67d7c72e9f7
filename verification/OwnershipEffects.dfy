/** What runs do to the pointers: the last assignment to a pointer is what it holds, also when
    destructors and constructors make it; and what clearing and deleting an object amount to. */
module OwnershipEffects {
  import opened Wrappers
  import opened Ownership
  import opened OwnershipSafety
  import opened OwnershipRules

  // ---- pointers that are left alone ----

  /** Somewhere in the script, or in what its assignments set off, the pointer is assigned. */
  predicate Touches(s: Script, j: nat)
    decreases s
  {
    s.Step? && (s.slot == j || TouchesSource(s.source, j) || TouchesBody(s.body, j) || Touches(s.rest, j))
  }

  predicate TouchesSource(source: Source, j: nat)
    decreases source
  {
    source.Fresh? && Touches(source.init, j)
  }

  predicate TouchesBody(body: Body, j: nat)
    decreases body
  {
    Touches(body.destructor, j) || Touches(body.constructor_, j) || Touches(body.finalizer, j)
  }

  lemma {:induction false} RunLeaves(w: World, s: Script, j: nat)
    requires j < |w.slots| && !Touches(s, j)
    ensures Run(w, s).slots[j] == w.slots[j]
    decreases s, 1
  {
    hide Assign;
    if s.Step? {
      AssignLeaves(w, s, j);
      RunLeaves(Assign(w, s), s.rest, j);
    }
  }

  lemma {:induction false} AssignLeaves(w: World, s: Script, j: nat)
    requires j < |w.slots| && s.Step? && s.slot != j && !TouchesSource(s.source, j) && !TouchesBody(s.body, j)
    ensures Assign(w, s).slots[j] == w.slots[j]
    decreases s, 0
  {
    hide Release, Resolve;
    if s.slot < |w.slots| {
      var (w0, target) := Resolve(w, s.source);
      ResolveLeaves(w, s.source, j);
      var k, pOld, w2 := w0.slots[s.slot].kind, w0.slots[s.slot].target, Redirect(w0, s.slot, target);
      if pOld.Some? && pOld.value < |w2.cells| {
        ReleaseLeaves(w2, pOld.value, k, s.body, j);
      }
    }
  }

  lemma {:induction false} ResolveLeaves(w: World, source: Source, j: nat)
    requires j < |w.slots| && !TouchesSource(source, j)
    ensures Resolve(w, source).0.slots[j] == w.slots[j]
    decreases source
  {
    hide Run;
    if source.Fresh? {
      RunLeaves(WithNew(w), source.init, j);
    }
  }

  lemma {:induction false} ReleaseLeaves(w: World, x: nat, k: Kind, body: Body, j: nat)
    requires x < |w.cells| && j < |w.slots| && !TouchesBody(body, j)
    ensures Release(w, x, k, body).slots[j] == w.slots[j]
    decreases body, if k.Ref? then 2 else 4
  {
    hide ReleaseRefComplete, ReleaseObjComplete, TouchesBody;
    var w1 := Noted(Put(w, x, Bump(w.cells[x], k, -1)), x, k);
    if k.Ref? {
      RefCompleteLeaves(w1, x, body, j);
    } else {
      ObjCompleteLeaves(w1, x, k, body, j);
    }
  }

  lemma {:induction false} RefCompleteLeaves(w: World, x: nat, body: Body, j: nat)
    requires x < |w.cells| && j < |w.slots| && !TouchesBody(body, j)
    ensures ReleaseRefComplete(w, x, body).slots[j] == w.slots[j]
    decreases body, 1
  {
    hide Delete, TouchesBody;
    if w.cells[x].objData % BUSY == 0 {
      DeleteLeaves(w, x, body, j);
    }
  }

  lemma {:induction false} DeleteLeaves(w: World, x: nat, body: Body, j: nat)
    requires x < |w.cells| && j < |w.slots| && !TouchesBody(body, j)
    ensures Delete(w, x, body).slots[j] == w.slots[j]
    decreases body, 0
  {
    hide Run;
    RunLeaves(WithPhase(Say(w, Deleted(x, Pointers(w.slots, x), w.cells[x].phase != Idle)), x, Dying), body.finalizer, j);
  }

  lemma {:induction false} ObjCompleteLeaves(w: World, x: nat, k: Kind, body: Body, j: nat)
    requires x < |w.cells| && j < |w.slots| && !TouchesBody(body, j)
    ensures ReleaseObjComplete(w, x, k, body).slots[j] == w.slots[j]
    decreases body, 3
  {
    hide Delete, DestroyContents, Release, TouchesBody;
    var c := w.cells[x];
    if c.objData % BUSY == 0 && c.refData == 0 {
      DeleteLeaves(w, x, body, j);
    } else if !(Field(c.objData, k) != 0 || IsBusy(c.objData)) {
      var w1 := Put(w, x, Raised(c));
      var w2 := DestroyContents(w1, x, body);
      DestroyLeaves(w1, x, body, j);
      ReleaseLeaves(Put(w2, x, Lowered(w2.cells[x])), x, Ref, body, j);
    }
  }

  lemma {:induction false} DestroyLeaves(w: World, x: nat, body: Body, j: nat)
    requires x < |w.cells| && j < |w.slots| && !TouchesBody(body, j)
    ensures DestroyContents(w, x, body).slots[j] == w.slots[j]
    decreases body, 0
  {
    hide Run;
    var w1 := WithPhase(Say(w, Destroying(x, w.cells[x].phase != Idle)), x, Clearing);
    var w2 := Run(w1, body.destructor);
    RunLeaves(w1, body.destructor, j);
    RunLeaves(Put(w2, x, Rebuilt(w2.cells[x])), body.constructor_, j);
  }

  // ---- one assignment ----

  /** Where nothing sets the pointer again, it holds what it was given: null, what the other
      pointer or the raw pointer led to, or the new object. */
  lemma AssignHolds(w: World, s: Script)
    requires Targets(w) && s.Step? && s.slot < |w.slots| && !TouchesBody(s.body, s.slot)
    ensures var target := Assign(w, s).slots[s.slot].target;
      && (s.source.Nothing? ==> target == None)
      && (s.source.CopyOf? ==> target == if s.source.slot < |w.slots| then w.slots[s.source.slot].target else None)
      && (s.source.Raw? ==>
           target == if s.source.x < |w.cells| && w.cells[s.source.x].phase != Gone then Some(s.source.x) else None)
      && (s.source.Fresh? ==> target == Some(|w.cells|))
  {
    hide Release, Run;
    var (w0, target) := Resolve(w, s.source);
    var k, pOld, w2 := w0.slots[s.slot].kind, w0.slots[s.slot].target, Redirect(w0, s.slot, target);
    if pOld.Some? && pOld.value < |w2.cells| {
      ReleaseLeaves(w2, pOld.value, k, s.body, s.slot);
    }
  }

  // ---- the last assignment counts ----

  /** The last assignment to the pointer gives it null, or a new object. What an object's first
      constructor does comes before the assignment, what a release sets off behind it. */
  predicate Ends(s: Script, n: nat, j: nat, full: bool)
    decreases s
  {
    s.Step? && (Ends(s.rest, n, j, full) || (!Touches(s.rest, j) && !TouchesBody(s.body, j) && s.slot < n &&
      if s.slot == j then (if full then s.source.Fresh? else s.source.Nothing?)
      else s.source.Fresh? && Ends(s.source.init, n, j, full)))
  }

  lemma {:induction false} RunEnds(w: World, s: Script, j: nat, full: bool)
    requires j < |w.slots| && Ends(s, |w.slots|, j, full)
    ensures Run(w, s).slots[j].target.Some? == full
    decreases s
  {
    hide Assign;
    var w1 := Assign(w, s);
    if Ends(s.rest, |w.slots|, j, full) {
      RunEnds(w1, s.rest, j, full);
    } else {
      AssignEnds(w, s, j, full);
      RunLeaves(w1, s.rest, j);
    }
  }

  lemma {:induction false} AssignEnds(w: World, s: Script, j: nat, full: bool)
    requires j < |w.slots| && s.Step? && s.slot < |w.slots| && !TouchesBody(s.body, j)
    requires if s.slot == j then (if full then s.source.Fresh? else s.source.Nothing?)
      else s.source.Fresh? && Ends(s.source.init, |w.slots|, j, full)
    ensures Assign(w, s).slots[j].target.Some? == full
    decreases s, 0
  {
    hide Release, Run;
    var (w0, target) := Resolve(w, s.source);
    if s.slot != j {
      RunEnds(WithNew(w), s.source.init, j, full);
    }
    var k, pOld, w2 := w0.slots[s.slot].kind, w0.slots[s.slot].target, Redirect(w0, s.slot, target);
    if pOld.Some? && pOld.value < |w2.cells| {
      ReleaseLeaves(w2, pOld.value, k, s.body, j);
    }
  }

  // ---- the last owner goes ----

  /** The pointer held the only owner of its kind, and other pointers to the object stay. */
  ghost predicate LastOwner(w: World, s: Script, x: nat) {
    && s.Step? && s.rest.Done? && s.slot < |w.slots| && !s.source.Fresh?
    && x < |w.cells| && w.cells[x].phase == Idle
    && w.slots[s.slot].target == Some(x) && !w.slots[s.slot].kind.Ref?
    && Count(w.slots, x, w.slots[s.slot].kind) == 1 && Pointers(w.slots, x) > 1
    && Resolve(w, s.source).1 != Some(x)
  }

  /** The class's destructor runs, and then its constructor; the finalizer at most runs last. */
  predicate Clears(body: Body, n: nat, j: nat, full: bool) {
    && !Touches(body.finalizer, j)
    && (Ends(body.constructor_, n, j, full) || (Ends(body.destructor, n, j, full) && !Touches(body.constructor_, j)))
  }

  /** The words say so: no owner of the kind, something left, and no clearing under way. */
  lemma LastOwnerWords(w: World, s: Script, x: nat)
    requires Kept(w) && LastOwner(w, s, x)
    ensures var k := w.slots[s.slot].kind;
      var w2 := Redirect(w, s.slot, Resolve(w, s.source).1);
      var c := Bump(w2.cells[x], k, -1);
      && w2.cells[x] == w.cells[x] && Resolve(w, s.source).0 == w
      && Field(c.objData, k) == 0 && !IsBusy(c.objData) && !(c.objData % BUSY == 0 && c.refData == 0) && c.phase == Idle
  {
    hide Count, OfKind, Times, Room, Logged;
    var k := w.slots[s.slot].kind;
    assert Counted(w, x);
    RoomOf(w);
    Bounds(w.slots, x);
    var r, o, m := Count(w.slots, x, Ref), Count(w.slots, x, Obj), Count(w.slots, x, Multi);
    BumpBalanced(w.cells[x], r, o, m, k, -1);
    ReadPlain(Bump(w.cells[x], k, -1), r, Plus(o, k, Obj, -1), Plus(m, k, Multi, -1));
  }

  lemma RoomOf(w: World)
    requires Kept(w)
    ensures Room(w.slots)
  {
  }

  /** When the last owner of its kind goes while other pointers stay, the object is cleared: what its
      destructor ends is ended, and its constructor has the last word. */
  lemma LastOwnerClears(w: World, s: Script, x: nat, j: nat, full: bool)
    requires Kept(w) && LastOwner(w, s, x) && j < |w.slots| && Clears(s.body, |w.slots|, j, full)
    ensures Run(w, s).slots[j].target.Some? == full
  {
    hide Kept, Release, Resolve, DestroyContents, Count, Field, Bump, IsBusy, Raised, Lowered, Touches, Ends, LastOwner;
    LastOwnerWords(w, s, x);
    LastOwnerShape(w, s, x);
    OneStep(w, s);
    var k := w.slots[s.slot].kind;
    var w2 := Redirect(w, s.slot, Resolve(w, s.source).1);
    var w3 := Put(w2, x, Bump(w2.cells[x], k, -1));
    ReleaseClears(w2, x, k, s.body);
    var w4 := Put(w3, x, Raised(w3.cells[x]));
    var w5 := DestroyContents(w4, x, s.body);
    ClearingEnds(w4, x, s.body, j, full);
    FinalRelease(Put(w5, x, Lowered(w5.cells[x])), x, s.body, j);
  }

  lemma OneStep(w: World, s: Script)
    requires s.Step? && s.rest.Done?
    ensures Run(w, s) == Assign(w, s)
  {
    hide Assign;
  }

  lemma LastOwnerShape(w: World, s: Script, x: nat)
    requires Kept(w) && LastOwner(w, s, x) && Resolve(w, s.source).0 == w
    ensures s.Step? && s.rest.Done? && s.slot < |w.slots| && x < |w.cells| && w.slots[s.slot].target == Some(x) && !w.slots[s.slot].kind.Ref?
    ensures var w2 := Redirect(w, s.slot, Resolve(w, s.source).1);
      && |w2.cells| == |w.cells| && |w2.slots| == |w.slots|
      && Assign(w, s) == Release(w2, x, w.slots[s.slot].kind, s.body)
  {
    hide Release, Resolve;
  }

  lemma ReleaseClears(w: World, x: nat, k: Kind, body: Body)
    requires x < |w.cells| && !k.Ref?
    requires var c := Bump(w.cells[x], k, -1);
      Field(c.objData, k) == 0 && !IsBusy(c.objData) && !(c.objData % BUSY == 0 && c.refData == 0) && c.phase == Idle
    ensures var w1 := Put(w, x, Bump(w.cells[x], k, -1));
      var w2 := DestroyContents(Put(w1, x, Raised(w1.cells[x])), x, body);
      Release(w, x, k, body) == Release(Put(w2, x, Lowered(w2.cells[x])), x, Ref, body)
  {
    hide DestroyContents, Field, Bump, IsBusy, Raised, Lowered;
    var c := Bump(w.cells[x], k, -1);
    var w1 := Put(w, x, c);
    assert Noted(w1, x, k) == w1;
    ClearIs(w1, x, k, body);
    assert Release(w, x, k, body) == ReleaseObjComplete(w1, x, k, body) by { ReleaseIs(w, x, k, body); }
  }

  lemma ClearingEnds(w: World, x: nat, body: Body, j: nat, full: bool)
    requires x < |w.cells| && j < |w.slots| && Clears(body, |w.slots|, j, full)
    ensures DestroyContents(w, x, body).slots[j].target.Some? == full
  {
    hide Run, Touches, Ends;
    var w1 := WithPhase(Say(w, Destroying(x, w.cells[x].phase != Idle)), x, Clearing);
    var w2 := Run(w1, body.destructor);
    var w3 := Put(w2, x, Rebuilt(w2.cells[x]));
    if Ends(body.constructor_, |w.slots|, j, full) {
      RunEnds(w3, body.constructor_, j, full);
    } else {
      RunEnds(w1, body.destructor, j, full);
      RunLeaves(w3, body.constructor_, j);
    }
  }

  /** The reference of the clearing goes; at most the finalizer runs. */
  lemma FinalRelease(w: World, x: nat, body: Body, j: nat)
    requires x < |w.cells| && j < |w.slots| && !Touches(body.finalizer, j)
    ensures Release(w, x, Ref, body).slots[j] == w.slots[j]
  {
    hide Delete, Touches;
    var w1 := Noted(Put(w, x, Bump(w.cells[x], Ref, -1)), x, Ref);
    DeletionLeaves(w1, x, body, j);
  }

  lemma DeletionLeaves(w: World, x: nat, body: Body, j: nat)
    requires x < |w.cells| && j < |w.slots| && !Touches(body.finalizer, j)
    ensures Delete(w, x, body).slots[j] == w.slots[j]
  {
    hide Run, Touches;
    RunLeaves(WithPhase(Say(w, Deleted(x, Pointers(w.slots, x), w.cells[x].phase != Idle)), x, Dying), body.finalizer, j);
  }

  // ---- the last pointer goes ----

  ghost predicate LastPointer(w: World, s: Script, x: nat) {
    && s.Step? && s.rest.Done? && s.slot < |w.slots| && !s.source.Fresh?
    && x < |w.cells| && w.cells[x].phase == Idle
    && w.slots[s.slot].target == Some(x) && Pointers(w.slots, x) == 1
    && Resolve(w, s.source).1 != Some(x)
  }

  lemma LastPointerWords(w: World, s: Script, x: nat)
    requires Kept(w) && LastPointer(w, s, x)
    ensures var k := w.slots[s.slot].kind;
      var w2 := Redirect(w, s.slot, Resolve(w, s.source).1);
      var c := Bump(w2.cells[x], k, -1);
      && w2.cells[x] == w.cells[x] && Resolve(w, s.source).0 == w
      && Field(c.objData, k) == 0 && c.objData % BUSY == 0 && c.refData == 0 && c.phase == Idle
  {
    hide OfKind, Times, Room, Logged, Count;
    var k := w.slots[s.slot].kind;
    assert Counted(w, x);
    RoomOf(w);
    Bounds(w.slots, x);
    CountSome(w.slots, s.slot, x);
    OwnCount(w.slots, s.slot, x);
    var r, o, m := Count(w.slots, x, Ref), Count(w.slots, x, Obj), Count(w.slots, x, Multi);
    BumpBalanced(w.cells[x], r, o, m, k, -1);
    ReadPlain(Bump(w.cells[x], k, -1), Plus(r, k, Ref, -1), Plus(o, k, Obj, -1), Plus(m, k, Multi, -1));
  }

  lemma {:induction false} OwnCount(slots: seq<Slot>, i: nat, x: nat)
    requires i < |slots| && slots[i].target == Some(x)
    ensures Count(slots, x, slots[i].kind) > 0
  {
    if i < |slots| - 1 {
      OwnCount(slots[..|slots| - 1], i, x);
    }
  }

  /** When the last pointer goes, the object is deleted: its last destructor runs, and it is gone. */
  lemma LastPointerDeletes(w: World, s: Script, x: nat, j: nat, full: bool)
    requires Kept(w) && LastPointer(w, s, x) && j < |w.slots| && Ends(s.body.finalizer, |w.slots|, j, full)
    ensures Run(w, s).slots[j].target.Some? == full
    ensures x < |Run(w, s).cells| && Run(w, s).cells[x].phase == Gone
  {
    hide Kept, Release, Resolve, Count, Field, Bump, Ends, LastPointer;
    LastPointerWords(w, s, x);
    LastPointerShape(w, s, x);
    OneStep(w, s);
    var k := w.slots[s.slot].kind;
    var w2 := Redirect(w, s.slot, Resolve(w, s.source).1);
    ReleaseDeletes(w2, x, k, s.body);
    DeletionEnds(Put(w2, x, Bump(w2.cells[x], k, -1)), x, s.body, j, full);
  }

  lemma LastPointerShape(w: World, s: Script, x: nat)
    requires Kept(w) && LastPointer(w, s, x) && Resolve(w, s.source).0 == w
    ensures s.Step? && s.rest.Done? && s.slot < |w.slots| && x < |w.cells|
    ensures var w2 := Redirect(w, s.slot, Resolve(w, s.source).1);
      && |w2.cells| == |w.cells| && |w2.slots| == |w.slots|
      && Assign(w, s) == Release(w2, x, w.slots[s.slot].kind, s.body)
  {
    hide Release, Resolve;
  }

  lemma ReleaseDeletes(w: World, x: nat, k: Kind, body: Body)
    requires x < |w.cells|
    requires var c := Bump(w.cells[x], k, -1);
      Field(c.objData, k) == 0 && c.objData % BUSY == 0 && c.refData == 0 && c.phase == Idle
    ensures Release(w, x, k, body) == Delete(Put(w, x, Bump(w.cells[x], k, -1)), x, body)
  {
    hide Delete, Field, Bump, ReleaseRefComplete, ReleaseObjComplete;
    var w1 := Put(w, x, Bump(w.cells[x], k, -1));
    ReleaseIs(w, x, k, body);
    CompleteDeletes(w1, x, k, body);
  }

  lemma DeletionEnds(w: World, x: nat, body: Body, j: nat, full: bool)
    requires x < |w.cells| && j < |w.slots| && Ends(body.finalizer, |w.slots|, j, full)
    ensures Delete(w, x, body).slots[j].target.Some? == full && Delete(w, x, body).cells[x].phase == Gone
  {
    hide Run, Ends;
    RunEnds(WithPhase(Say(w, Deleted(x, Pointers(w.slots, x), w.cells[x].phase != Idle)), x, Dying), body.finalizer, j, full);
  }

  // ---- a pointer goes that is not the last ----

  /** The pointer let the object go, and others stay; when it was an owner, one of its kind. */
  ghost predicate OneOfMany(w: World, s: Script, x: nat) {
    && s.Step? && s.rest.Done? && s.slot < |w.slots| && !s.source.Fresh?
    && x < |w.cells| && w.cells[x].phase == Idle
    && w.slots[s.slot].target == Some(x) && Pointers(w.slots, x) > 1
    && (w.slots[s.slot].kind.Ref? || Count(w.slots, x, w.slots[s.slot].kind) > 1)
    && Resolve(w, s.source).1 != Some(x)
  }

  lemma OneOfManyWords(w: World, s: Script, x: nat)
    requires Kept(w) && OneOfMany(w, s, x)
    ensures var k := w.slots[s.slot].kind;
      var w2 := Redirect(w, s.slot, Resolve(w, s.source).1);
      var c := Bump(w2.cells[x], k, -1);
      && w2.cells[x] == w.cells[x] && Resolve(w, s.source).0 == w && c.phase == Idle
      && (if k.Ref? then c.refData != 0 || c.objData % BUSY != 0 else Field(c.objData, k) != 0)
  {
    hide OfKind, Times, Room, Logged, Count;
    var k := w.slots[s.slot].kind;
    assert Counted(w, x);
    RoomOf(w);
    Bounds(w.slots, x);
    CountSome(w.slots, s.slot, x);
    OwnCount(w.slots, s.slot, x);
    var r, o, m := Count(w.slots, x, Ref), Count(w.slots, x, Obj), Count(w.slots, x, Multi);
    BumpBalanced(w.cells[x], r, o, m, k, -1);
    ReadPlain(Bump(w.cells[x], k, -1), Plus(r, k, Ref, -1), Plus(o, k, Obj, -1), Plus(m, k, Multi, -1));
  }

  /** Then nothing runs: no other pointer moves, and no object is made, cleared or deleted. */
  lemma OneOfManyLeaves(w: World, s: Script, x: nat)
    requires Kept(w) && OneOfMany(w, s, x)
    ensures var w' := Run(w, s);
      && w'.slots == w.slots[s.slot := w.slots[s.slot].(target := Resolve(w, s.source).1)]
      && |w'.cells| == |w.cells| && forall y | 0 <= y < |w.cells| :: w'.cells[y].phase == w.cells[y].phase
  {
    hide Kept, Release, Resolve, Count, Field, Bump;
    OneOfManyWords(w, s, x);
    OneStep(w, s);
    OneOfManyShape(w, s, x);
    var k := w.slots[s.slot].kind;
    var w2 := Redirect(w, s.slot, Resolve(w, s.source).1);
    NoCompletion(w2, x, k, s.body);
    RedirectIs(w, s.slot, Resolve(w, s.source).1);
    BumpPhase(w2.cells[x], k, -1);
  }

  lemma OneOfManyShape(w: World, s: Script, x: nat)
    requires Kept(w) && OneOfMany(w, s, x) && Resolve(w, s.source).0 == w
    ensures s.Step? && s.rest.Done? && s.slot < |w.slots| && x < |w.cells|
    ensures var w2 := Redirect(w, s.slot, Resolve(w, s.source).1);
      && |w2.cells| == |w.cells| && |w2.slots| == |w.slots|
      && Assign(w, s) == Release(w2, x, w.slots[s.slot].kind, s.body)
  {
    hide Release, Resolve;
  }

  lemma NoCompletion(w: World, x: nat, k: Kind, body: Body)
    requires x < |w.cells|
    requires var c := Bump(w.cells[x], k, -1);
      c.phase == Idle && if k.Ref? then c.refData != 0 || c.objData % BUSY != 0 else Field(c.objData, k) != 0
    ensures Release(w, x, k, body) == Put(w, x, Bump(w.cells[x], k, -1))
  {
    hide Delete, DestroyContents, Field, Bump;
  }

  lemma RedirectIs(w: World, slot: nat, target: Option<nat>)
    requires slot < |w.slots| && (target.Some? ==> target.value < |w.cells|)
    ensures var w' := Redirect(w, slot, target);
      && w'.slots == w.slots[slot := w.slots[slot].(target := target)]
      && |w'.cells| == |w.cells| && forall y | 0 <= y < |w.cells| :: w'.cells[y].phase == w.cells[y].phase
  {
  }

  lemma BumpPhase(c: Cell, k: Kind, d: int)
    ensures Bump(c, k, d).phase == c.phase
  {
  }

  // ---- what goes with a cleared object ----

  /** Every pointer holds what it held, nothing, or an object numbered `n` or later. */
  ghost predicate Fewer(w: World, w': World, n: nat) {
    && |w'.slots| == |w.slots|
    && forall i | 0 <= i < |w.slots| :: FewerAt(w.slots[i].target, w'.slots[i].target, n)
  }

  predicate FewerAt(before: Option<nat>, after: Option<nat>, n: nat) {
    after == before || after == None || after.value >= n
  }

  lemma FewerTwice(a: World, b: World, c: World, n: nat)
    requires Fewer(a, b, n) && Fewer(b, c, n)
    ensures Fewer(a, c, n)
  {
    forall i | 0 <= i < |a.slots| ensures FewerAt(a.slots[i].target, c.slots[i].target, n) {
      assert FewerAt(a.slots[i].target, b.slots[i].target, n) && FewerAt(b.slots[i].target, c.slots[i].target, n);
    }
  }

  lemma SameFewer(w: World, w': World, n: nat)
    requires w'.slots == w.slots
    ensures Fewer(w, w', n)
  {
  }

  lemma {:induction false} RunFewer(w: World, s: Script, n: nat)
    requires Tame(OnlyNew, s) && n <= |w.cells|
    ensures Fewer(w, Run(w, s), n)
    decreases s, 1
  {
    hide Assign, Fewer;
    SameFewer(w, w, n);
    if s.Step? {
      var w1 := Assign(w, s);
      AssignFewer(w, s, n);
      RunFewer(w1, s.rest, n);
      FewerTwice(w, w1, Run(w1, s.rest), n);
    }
  }

  lemma {:induction false} AssignFewer(w: World, s: Script, n: nat)
    requires s.Step? && Allowed(OnlyNew, s.source) && TameBody(OnlyNew, s.body) && n <= |w.cells|
    ensures Fewer(w, Assign(w, s), n)
    decreases s, 0
  {
    hide Release, Resolve, Fewer, TameBody;
    SameFewer(w, w, n);
    if s.slot < |w.slots| {
      var (w0, target) := Resolve(w, s.source);
      ResolveFewer(w, s.source, n);
      var k, pOld, w2 := w0.slots[s.slot].kind, w0.slots[s.slot].target, Redirect(w0, s.slot, target);
      RedirectFewer(w0, s.slot, target, n);
      FewerTwice(w, w0, w2, n);
      if pOld.Some? && pOld.value < |w2.cells| {
        ReleaseFewer(w2, pOld.value, k, s.body, n);
        FewerTwice(w, w2, Assign(w, s), n);
      }
    }
  }

  lemma RedirectFewer(w: World, slot: nat, target: Option<nat>, n: nat)
    requires slot < |w.slots| && (target.Some? ==> n <= target.value < |w.cells|)
    ensures Fewer(w, Redirect(w, slot, target), n)
  {
  }

  lemma {:induction false} ResolveFewer(w: World, source: Source, n: nat)
    requires Allowed(OnlyNew, source) && n <= |w.cells|
    ensures Fewer(w, Resolve(w, source).0, n)
    ensures Resolve(w, source).1.Some? ==> n <= Resolve(w, source).1.value
    decreases source
  {
    hide Run, Fewer;
    SameFewer(w, w, n);
    if source.Fresh? {
      var w1 := Run(WithNew(w), source.init);
      SameFewer(w, WithNew(w), n);
      RunFewer(WithNew(w), source.init, n);
      FewerTwice(w, WithNew(w), w1, n);
      SameFewer(w1, WithPhase(w1, |w.cells|, Idle), n);
      FewerTwice(w, w1, WithPhase(w1, |w.cells|, Idle), n);
    }
  }

  lemma {:induction false} ReleaseFewer(w: World, x: nat, k: Kind, body: Body, n: nat)
    requires x < |w.cells| && TameBody(OnlyNew, body) && n <= |w.cells|
    ensures Fewer(w, Release(w, x, k, body), n)
    decreases body, if k.Ref? then 2 else 4
  {
    hide ReleaseRefComplete, ReleaseObjComplete, TameBody, Fewer;
    var w1 := Noted(Put(w, x, Bump(w.cells[x], k, -1)), x, k);
    SameFewer(w, w1, n);
    if k.Ref? {
      RefCompleteFewer(w1, x, body, n);
      FewerTwice(w, w1, ReleaseRefComplete(w1, x, body), n);
    } else {
      ObjCompleteFewer(w1, x, k, body, n);
      FewerTwice(w, w1, ReleaseObjComplete(w1, x, k, body), n);
    }
  }

  lemma {:induction false} RefCompleteFewer(w: World, x: nat, body: Body, n: nat)
    requires x < |w.cells| && TameBody(OnlyNew, body) && n <= |w.cells|
    ensures Fewer(w, ReleaseRefComplete(w, x, body), n)
    decreases body, 1
  {
    hide Delete, TameBody, Fewer;
    SameFewer(w, w, n);
    if w.cells[x].objData % BUSY == 0 {
      DeleteFewer(w, x, body, n);
    }
  }

  lemma {:induction false} DeleteFewer(w: World, x: nat, body: Body, n: nat)
    requires x < |w.cells| && TameBody(OnlyNew, body) && n <= |w.cells|
    ensures Fewer(w, Delete(w, x, body), n)
    decreases body, 0
  {
    hide Run, Fewer;
    var w1 := WithPhase(Say(w, Deleted(x, Pointers(w.slots, x), w.cells[x].phase != Idle)), x, Dying);
    var w2 := Run(w1, body.finalizer);
    SameFewer(w, w1, n);
    RunFewer(w1, body.finalizer, n);
    FewerTwice(w, w1, w2, n);
    SameFewer(w2, Delete(w, x, body), n);
    FewerTwice(w, w2, Delete(w, x, body), n);
  }

  lemma {:induction false} ObjCompleteFewer(w: World, x: nat, k: Kind, body: Body, n: nat)
    requires x < |w.cells| && TameBody(OnlyNew, body) && n <= |w.cells|
    ensures Fewer(w, ReleaseObjComplete(w, x, k, body), n)
    decreases body, 3
  {
    hide Delete, DestroyContents, Release, TameBody, Fewer;
    var c := w.cells[x];
    SameFewer(w, w, n);
    if c.objData % BUSY == 0 && c.refData == 0 {
      DeleteFewer(w, x, body, n);
    } else if !(Field(c.objData, k) != 0 || IsBusy(c.objData)) {
      var w1 := Put(w, x, Raised(c));
      var w2 := DestroyContents(w1, x, body);
      var w3 := Put(w2, x, Lowered(w2.cells[x]));
      SameFewer(w, w1, n);
      DestroyFewer(w1, x, body, n);
      FewerTwice(w, w1, w2, n);
      SameFewer(w2, w3, n);
      FewerTwice(w, w2, w3, n);
      ReleaseFewer(w3, x, Ref, body, n);
      FewerTwice(w, w3, Release(w3, x, Ref, body), n);
    }
  }

  lemma {:induction false} DestroyFewer(w: World, x: nat, body: Body, n: nat)
    requires x < |w.cells| && TameBody(OnlyNew, body) && n <= |w.cells|
    ensures Fewer(w, DestroyContents(w, x, body), n)
    decreases body, 0
  {
    hide Run, Fewer;
    var w1 := WithPhase(Say(w, Destroying(x, w.cells[x].phase != Idle)), x, Clearing);
    var w2 := Run(w1, body.destructor);
    var w3 := Put(w2, x, Rebuilt(w2.cells[x]));
    var w4 := Run(w3, body.constructor_);
    SameFewer(w, w1, n);
    RunFewer(w1, body.destructor, n);
    FewerTwice(w, w1, w2, n);
    SameFewer(w2, w3, n);
    FewerTwice(w, w2, w3, n);
    RunFewer(w3, body.constructor_, n);
    FewerTwice(w, w3, w4, n);
    SameFewer(w4, DestroyContents(w, x, body), n);
    FewerTwice(w, w4, DestroyContents(w, x, body), n);
  }

  /** All pointers to `y` are ended by the clearing, and nothing takes it up again. */
  ghost predicate OnlyHeldBelow(w: World, s: Script, y: nat)
    requires s.Step?
  {
    && y < |w.cells| && w.cells[y].phase == Idle
    && TameBody(OnlyNew, s.body) && Resolve(w, s.source).1 != Some(y)
    && forall j | 0 <= j < |w.slots| && w.slots[j].target == Some(y) :: Clears(s.body, |w.slots|, j, false)
  }

  /** An object that only the cleared one holds goes with it. */
  lemma ClearingFrees(w: World, s: Script, x: nat, y: nat)
    requires Kept(w) && Held(w, None) && Right(Run(w, s).trace)
    requires LastOwner(w, s, x) && OnlyHeldBelow(w, s, y)
    ensures y < |Run(w, s).cells| && Run(w, s).cells[y].phase == Gone
  {
    hide Kept, Right, Run, Resolve, Clears, Count, TameBody, Stable, Fewer;
    var w' := Run(w, s);
    RunSafe(w, s);
    RunTaken(w, s, x);
    forall j | 0 <= j < |w'.slots| ensures w'.slots[j].target != Some(y) {
      FewerHas(Redirect(w, s.slot, Resolve(w, s.source).1), w', |w.cells|, j);
      if w.slots[j].target == Some(y) {
        LastOwnerClears(w, s, x, j, false);
      }
    }
    CountZero(w'.slots, y, Ref);
    CountZero(w'.slots, y, Obj);
    CountZero(w'.slots, y, Multi);
    StaysAt(w, w', y);
    assert HeldAt(w', None, y);
  }

  lemma FewerHas(w: World, w': World, n: nat, j: nat)
    requires Fewer(w, w', n) && j < |w.slots|
    ensures FewerAt(w.slots[j].target, w'.slots[j].target, n)
  {
  }

  lemma StaysAt(w: World, w': World, y: nat)
    requires Stable(w, w') && y < |w.cells|
    ensures y < |w'.cells| && Stays(w.cells[y], w'.cells[y])
  {
  }

  lemma RunTaken(w: World, s: Script, x: nat)
    requires Kept(w) && LastOwner(w, s, x) && TameBody(OnlyNew, s.body)
    ensures Resolve(w, s.source).0 == w
    ensures Fewer(Redirect(w, s.slot, Resolve(w, s.source).1), Run(w, s), |w.cells|)
  {
    hide Kept, Run, Release, Count, TameBody, Fewer, Field, Bump, IsBusy;
    LastOwnerWords(w, s, x);
    LastOwnerShape(w, s, x);
    OneStep(w, s);
    ReleaseFewer(Redirect(w, s.slot, Resolve(w, s.source).1), x, w.slots[s.slot].kind, s.body, |w.cells|);
  }

  /** What was cleared and is still there says so. */
  lemma ClearedIsInvalid(w: World, s: Script, x: nat)
    requires Kept(w) && Held(w, None) && Right(Run(w, s).trace) && LastOwner(w, s, x)
    ensures x < |Run(w, s).cells|
    ensures Run(w, s).cells[x].phase != Gone ==> Run(w, s).cells[x].objData >= 0x8000_0000
  {
    hide Kept, Held, Right, Run, Release, Resolve, DestroyContents, Count, Field, Bump, IsBusy, Raised, Lowered, Stable, LastOwner, Released;
    LastOwnerWords(w, s, x);
    LastOwnerShape(w, s, x);
    OneStep(w, s);
    var k := w.slots[s.slot].kind;
    var w2 := Redirect(w, s.slot, Resolve(w, s.source).1);
    var w3 := Put(w2, x, Bump(w2.cells[x], k, -1));
    ReleaseClears(w2, x, k, s.body);
    OwnerGone(w, s, x);
    var w4 := Put(w3, x, Raised(w3.cells[x]));
    var w5 := DestroyContents(w4, x, s.body);
    var w6 := Put(w5, x, Lowered(w5.cells[x]));
    RightBefore(w6, Release(w6, x, Ref, s.body));
    RightAs(w5, w6);
    RaisedKept(w3, x);
    DestroySafe(w4, x, s.body);
    LoweredFlag(w5, x);
    RefKeepsFlag(w6, x, s.body);
  }

  /** The world without the last owner, before the clearing. */
  lemma OwnerGone(w: World, s: Script, x: nat)
    requires Kept(w) && Held(w, None) && LastOwner(w, s, x)
    ensures var k := w.slots[s.slot].kind;
      var w2 := Redirect(w, s.slot, Resolve(w, s.source).1);
      var w3 := Put(w2, x, Bump(w2.cells[x], k, -1));
      Kept(w3) && Held(w3, Some(x)) && w3.cells[x].phase == Idle
  {
    hide Kept, Held, Release, Count, Bump, Redirect, Moved;
    LastOwnerWords(w, s, x);
    KeptTargets(w);
    var target := Resolve(w, s.source).1;
    TargetLives(w, s);
    MovedKept(w, s.slot, target);
    MovedHeld(w, s.slot, target, None);
    AssignIs(w, s);
    MovedHas(w, s, x);
  }

  lemma TargetLives(w: World, s: Script)
    requires Targets(w) && s.Step? && !s.source.Fresh?
    ensures var target := Resolve(w, s.source).1;
      target.Some? ==> target.value < |w.cells| && w.cells[target.value].phase != Gone
  {
  }

  lemma MovedHas(w: World, s: Script, x: nat)
    requires LastOwner(w, s, x)
    ensures s.Step? && s.slot < |w.slots| && w.slots[s.slot].target == Some(x)
  {
  }

  lemma LoweredFlag(w: World, x: nat)
    requires x < |w.cells| && w.cells[x].phase == Idle
    requires Kept(WithPhase(w, x, Clearing))
    ensures Lowered(w.cells[x]).objData >= INVALID
  {
    hide Count, OfKind, Times;
    var w0 := WithPhase(w, x, Clearing);
    assert Counted(w0, x);
    Bounds(w0.slots, x);
    ReadClearing(w0.cells[x], Count(w0.slots, x, Ref), Count(w0.slots, x, Obj), Count(w0.slots, x, Multi));
  }

  lemma RefKeepsFlag(w: World, x: nat, body: Body)
    requires x < |w.cells| && w.cells[x].objData >= INVALID
    ensures Release(w, x, Ref, body).cells[x].objData >= INVALID || Release(w, x, Ref, body).cells[x].phase == Gone
  {
    hide Delete;
    var w1 := Noted(Put(w, x, Bump(w.cells[x], Ref, -1)), x, Ref);
    DeletedIsGone(w1, x, body);
  }

  lemma DeletedIsGone(w: World, x: nat, body: Body)
    requires x < |w.cells|
    ensures x < |Delete(w, x, body).cells| && Delete(w, x, body).cells[x].phase == Gone
  {
    hide Run;
  }
}
