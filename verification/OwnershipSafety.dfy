/** What every run of pointer assignments keeps: the two words of every object count its
    pointers, an object is deleted once, with no pointer left, outside its DestroyContents. */
module OwnershipSafety {
  import opened Wrappers
  import opened Ownership

  // ---- the invariant ----

  function OfKind(slots: seq<Slot>, k: Kind): (n: nat)
    ensures n <= |slots|
  {
    if slots == [] then 0
    else OfKind(slots[..|slots| - 1], k) + if slots[|slots| - 1].kind == k then 1 else 0
  }

  /** So few pointers of each kind that no count leaves its bit field; the clearing of an object
      takes one more reference. */
  ghost predicate Room(slots: seq<Slot>) {
    OfKind(slots, Ref) < WORD - 1 && OfKind(slots, Obj) < MULTI && OfKind(slots, Multi) < 0x400
  }

  /** The words of a cell that `r`, `o` and `m` pointers hold. While DestroyContents runs there is
      one reference more and both flags are up; in its constructor half the words are short of
      what the local variables keep. */
  ghost predicate Balanced(c: Cell, r: nat, o: nat, m: nat) {
    var objs := o + MULTI * m;
    match c.phase
    case Clearing => c.refData == r + 1 && c.objData == INVALID + BUSY + objs
    case Building(refs, held) =>
      && c.refData < WORD && c.objData < WORD
      && Word(c.refData + refs) == r + 1
      && Word(c.objData + held) == INVALID + BUSY + objs
    case _ => c.refData == r && (c.objData == objs || c.objData == INVALID + objs)
  }

  ghost predicate Counted(w: World, x: nat)
    requires x < |w.cells|
  {
    Balanced(w.cells[x], Count(w.slots, x, Ref), Count(w.slots, x, Obj), Count(w.slots, x, Multi))
  }

  function Times(trace: seq<Mark>, x: nat): nat {
    if trace == [] then 0
    else
      var last := trace[|trace| - 1];
      Times(trace[..|trace| - 1], x) + if last.Deleted? && last.x == x then 1 else 0
  }

  /** Deleted or cleared only with nothing running for the object, deleted and freed only with no
      pointers. */
  ghost predicate Sound(m: Mark) {
    match m
    case Deleted(_, pointers, running) => pointers == 0 && !running
    case Freed(_, pointers) => pointers == 0
    case Destroying(_, running) => !running
    case _ => true
  }

  ghost predicate AllSound(trace: seq<Mark>) {
    forall i | 0 <= i < |trace| :: Sound(trace[i])
  }

  /** Every deletion and every clearing happens at a right moment, no object dies twice. */
  ghost predicate Safe(trace: seq<Mark>) {
    AllSound(trace) && forall x: nat :: Times(trace, x) <= 1
  }

  /** No object is emptied by its constructors or its last destructor, and none is taken in its
      last destructor. */
  ghost predicate Quiet(trace: seq<Mark>) {
    forall x: nat :: Emptied(x) !in trace && Taken(x) !in trace
  }

  /** Either side of the law, as long as a run lasts. */
  ghost predicate Right(trace: seq<Mark>) {
    Quiet(trace) || AllSound(trace)
  }

  ghost predicate Dead(c: Cell) {
    c.phase == Dying || c.phase == Gone
  }

  ghost predicate Logged(w: World) {
    && AllSound(w.trace) && (forall x: nat :: Emptied(x) !in w.trace)
    && forall x: nat :: Times(w.trace, x) == if x < |w.cells| && Dead(w.cells[x]) then 1 else 0
  }

  ghost predicate Targets(w: World) {
    forall s | 0 <= s < |w.slots| && w.slots[s].target.Some? ::
      var x := w.slots[s].target.value; x < |w.cells| && w.cells[x].phase != Gone
  }

  ghost predicate Kept(w: World) {
    && Room(w.slots) && Targets(w) && Logged(w)
    && forall x | 0 <= x < |w.cells| && w.cells[x].phase != Gone :: Counted(w, x)
  }

  /** Every object left alone has a pointer, and a dying one has pointers exactly when it was
      taken; but for one object that is just being released. */
  ghost predicate Held(w: World, but: Option<nat>) {
    forall x: nat :: HeldAt(w, but, x)
  }

  ghost predicate HeldAt(w: World, but: Option<nat>, x: nat) {
    && (Taken(x) in w.trace ==> x < |w.cells| && w.cells[x].phase == Dying)
    && (x < |w.cells| && w.cells[x].phase == Dying && Pointers(w.slots, x) > 0 ==> Taken(x) in w.trace)
    && (x < |w.cells| && but != Some(x) && (w.cells[x].phase == Idle || Taken(x) in w.trace) ==>
         Pointers(w.slots, x) > 0)
  }

  /** What a run leaves of an object's phase. */
  ghost predicate Stays(c: Cell, c': Cell) {
    c'.phase == c.phase || (c.phase == Idle && c'.phase == Gone)
  }

  ghost predicate Stable(w: World, w': World) {
    && |w.cells| <= |w'.cells|
    && (forall x | 0 <= x < |w.cells| :: Stays(w.cells[x], w'.cells[x]))
    && (forall x | |w.cells| <= x < |w'.cells| :: w'.cells[x].phase == Idle || w'.cells[x].phase == Gone)
  }

  // ---- counting ----

  lemma {:induction false} CountPut(slots: seq<Slot>, i: nat, s: Slot, x: nat, k: Kind)
    requires i < |slots|
    ensures Count(slots[i := s], x, k) + (if slots[i] == Slot(k, Some(x)) then 1 else 0)
         == Count(slots, x, k) + if s == Slot(k, Some(x)) then 1 else 0
  {
    var n := |slots| - 1;
    if i < n {
      assert slots[i := s][..n] == slots[..n][i := s];
      CountPut(slots[..n], i, s, x, k);
    } else {
      assert slots[i := s][..n] == slots[..n];
    }
  }

  lemma {:induction false} CountOfKind(slots: seq<Slot>, x: nat, k: Kind)
    ensures Count(slots, x, k) <= OfKind(slots, k)
  {
    if slots != [] {
      CountOfKind(slots[..|slots| - 1], x, k);
    }
  }

  lemma {:induction false} OfKindPut(slots: seq<Slot>, i: nat, s: Slot, k: Kind)
    requires i < |slots| && s.kind == slots[i].kind
    ensures OfKind(slots[i := s], k) == OfKind(slots, k)
  {
    var n := |slots| - 1;
    if i < n {
      assert slots[i := s][..n] == slots[..n][i := s];
      OfKindPut(slots[..n], i, s, k);
    } else {
      assert slots[i := s][..n] == slots[..n];
    }
  }

  lemma {:induction false} CountZero(slots: seq<Slot>, x: nat, k: Kind)
    requires forall s | 0 <= s < |slots| :: slots[s].target != Some(x)
    ensures Count(slots, x, k) == 0
  {
    if slots != [] {
      CountZero(slots[..|slots| - 1], x, k);
    }
  }

  lemma {:induction false} CountSome(slots: seq<Slot>, s: nat, x: nat)
    requires s < |slots| && slots[s].target == Some(x)
    ensures Pointers(slots, x) > 0
  {
    var n := |slots| - 1;
    if s < n {
      CountSome(slots[..n], s, x);
    } else {
      assert slots[n] == Slot(slots[n].kind, Some(x));
      match slots[n].kind case Ref => case Obj => case Multi =>
    }
  }

  // ---- one word at a time ----

  function Plus(n: int, k: Kind, k': Kind, d: int): int {
    if k == k' then n + d else n
  }

  lemma BumpBalanced(c: Cell, r: nat, o: nat, m: nat, k: Kind, d: int)
    requires Balanced(c, r, o, m) && (d == 1 || d == -1)
    requires r < WORD - 1 && o < MULTI && m < 0x400
    requires 0 <= Plus(r, k, Ref, d) < WORD - 1 && 0 <= Plus(o, k, Obj, d) < MULTI && 0 <= Plus(m, k, Multi, d) < 0x400
    ensures Balanced(Bump(c, k, d), Plus(r, k, Ref, d), Plus(o, k, Obj, d), Plus(m, k, Multi, d))
  {
    hide Word;
    var moved := if k.Ref? then 0 else d * Unit(k);
    assert moved == Plus(o, k, Obj, d) + MULTI * Plus(m, k, Multi, d) - o - MULTI * m;
    match c.phase
    case Building(refs, held) =>
      if k.Ref? {
        WordPlus(c.refData, refs, d, r + 1);
      } else {
        WordPlus(c.objData, held, moved, INVALID + BUSY + o + MULTI * m);
      }
    case _ =>
      WordOf(c.refData + d);
      WordOf(c.objData + moved);
  }

  lemma WordOf(i: int)
    ensures 0 <= i < WORD ==> Word(i) == i
  {
  }

  /** Counting on in a word that is short of `held` makes the sum count on, wrapped or not. */
  lemma WordPlus(a: nat, held: nat, d: int, sum: nat)
    requires Word(a + held) == sum && 0 <= sum + d < WORD
    ensures Word(Word(a + d) + held) == sum + d
  {
  }

  lemma BumpBack(c: Cell, k: Kind)
    requires c.refData < WORD && c.objData < WORD
    ensures Bump(Bump(c, k, 1), k, -1) == c
  {
  }

  /** Whether the words are just the counts, the invalid flag aside. */
  ghost predicate Plain(c: Cell) {
    c.phase == Idle || c.phase == Born || c.phase == Dying
  }

  lemma ReadPlain(c: Cell, r: nat, o: nat, m: nat)
    requires Balanced(c, r, o, m) && Plain(c) && o < MULTI && m < 0x400
    ensures c.objData % BUSY == o + MULTI * m && !IsBusy(c.objData)
    ensures Field(c.objData, Obj) == o && Field(c.objData, Multi) == m
  {
  }

  lemma ReadClearing(c: Cell, r: nat, o: nat, m: nat)
    requires Balanced(c, r, o, m) && c.phase == Clearing && o < MULTI && m < 0x400
    ensures IsBusy(c.objData) && c.refData > 0
    ensures IsBusy(c.objData) && c.objData - BUSY == INVALID + o + MULTI * m
  {
  }

  lemma Bounds(slots: seq<Slot>, x: nat)
    requires Room(slots)
    ensures Count(slots, x, Ref) < WORD - 1 && Count(slots, x, Obj) < MULTI && Count(slots, x, Multi) < 0x400
  {
    CountOfKind(slots, x, Ref);
    CountOfKind(slots, x, Obj);
    CountOfKind(slots, x, Multi);
  }

  // ---- the steps, each on a world in which only one object changes ----

  /** A new cell for `x` that counts the same pointers, with the same fate. */
  lemma PutKept(w: World, x: nat, c: Cell)
    requires Kept(w) && x < |w.cells| && Dead(c) == Dead(w.cells[x])
    requires c.phase == Gone <==> w.cells[x].phase == Gone
    requires c.phase != Gone ==> Balanced(c, Count(w.slots, x, Ref), Count(w.slots, x, Obj), Count(w.slots, x, Multi))
    ensures Kept(Put(w, x, c))
  {
    hide Times, Count, OfKind, Balanced;
    var w' := Put(w, x, c);
    assert forall y | 0 <= y < |w.cells| && w.cells[y].phase != Gone :: Counted(w, y);
    forall y: nat ensures Times(w'.trace, y) == if y < |w'.cells| && Dead(w'.cells[y]) then 1 else 0 {
      assert Times(w.trace, y) == if y < |w.cells| && Dead(w.cells[y]) then 1 else 0;
    }
  }

  /** A phase that nobody waits for, or that was waited for already. */
  lemma PutHeld(w: World, x: nat, c: Cell, but: Option<nat>)
    requires Held(w, but) && x < |w.cells|
    requires w.cells[x].phase != Dying && c.phase != Dying
    requires c.phase == Idle ==> w.cells[x].phase == Idle || but == Some(x) || Pointers(w.slots, x) > 0
    ensures Held(Put(w, x, c), but)
  {
    hide Pointers;
    forall y: nat ensures HeldAt(Put(w, x, c), but, y) {
      assert HeldAt(w, but, y);
    }
  }

  lemma TimesMore(trace: seq<Mark>, m: Mark, x: nat)
    ensures Times(trace + [m], x) == Times(trace, x) + if m.Deleted? && m.x == x then 1 else 0
  {
    assert (trace + [m])[..|trace|] == trace;
  }

  lemma SayKept(w: World, m: Mark)
    requires Kept(w) && Sound(m) && !m.Deleted? && !m.Emptied?
    ensures Kept(Say(w, m))
    ensures forall but :: Held(w, but) && !m.Taken? ==> Held(Say(w, m), but)
  {
    hide Times, Count, OfKind, Balanced, Pointers;
    forall x: nat ensures Times(w.trace + [m], x) == Times(w.trace, x) {
      TimesMore(w.trace, m, x);
    }
    forall x | 0 <= x < |w.cells| && w.cells[x].phase != Gone ensures Counted(Say(w, m), x) {
      assert Counted(w, x);
    }
    forall but | Held(w, but) && !m.Taken? ensures Held(Say(w, m), but) {
      forall y: nat ensures HeldAt(Say(w, m), but, y) {
        assert HeldAt(w, but, y);
      }
    }
  }

  lemma RightBefore(w: World, w': World)
    requires Extends(w, w') && Right(w'.trace)
    ensures Right(w.trace)
  {
    assert forall i | 0 <= i < |w.trace| :: w.trace[i] == w'.trace[i];
  }

  lemma StableRefl(w: World)
    ensures Stable(w, w)
  {
  }

  lemma StableTwice(w: World, w1: World, w2: World)
    requires Stable(w, w1) && Stable(w1, w2)
    ensures Stable(w, w2)
  {
    forall x | 0 <= x < |w.cells| ensures Stays(w.cells[x], w2.cells[x]) {
      assert Stays(w.cells[x], w1.cells[x]) && Stays(w1.cells[x], w2.cells[x]);
    }
    forall x | |w.cells| <= x < |w2.cells| ensures w2.cells[x].phase == Idle || w2.cells[x].phase == Gone {
      if x < |w1.cells| {
        assert Stays(w1.cells[x], w2.cells[x]);
      }
    }
  }

  lemma NewKept(w: World)
    requires Kept(w) && Held(w, None)
    ensures Kept(WithNew(w)) && Held(WithNew(w), None)
  {
    var x := |w.cells|;
    var w' := WithNew(w);
    CountZero(w.slots, x, Ref);
    CountZero(w.slots, x, Obj);
    CountZero(w.slots, x, Multi);
    hide Times, Count, OfKind, Balanced;
    forall y | 0 <= y < |w'.cells| && w'.cells[y].phase != Gone ensures Counted(w', y) {
      if y < x {
        assert Counted(w, y);
      } else {
        NewBalanced(w', y);
      }
    }
    forall y: nat ensures Times(w'.trace, y) == if y < |w'.cells| && Dead(w'.cells[y]) then 1 else 0 {
      assert Times(w.trace, y) == if y < |w.cells| && Dead(w.cells[y]) then 1 else 0;
    }
    forall y: nat ensures HeldAt(w', None, y) {
      assert HeldAt(w, None, y);
    }
  }

  lemma NewBalanced(w: World, x: nat)
    requires x < |w.cells| && w.cells[x] == Cell(0, 0, Born)
    requires Count(w.slots, x, Ref) == Count(w.slots, x, Obj) == Count(w.slots, x, Multi) == 0
    ensures Counted(w, x)
  {
  }

  /** One step of `Redirect` and the decrement of the old object, for the object `x`. */
  function Both(c: Cell, k: Kind, gains: bool, loses: bool): Cell {
    var c1 := if gains then Bump(c, k, 1) else c;
    if loses then Bump(c1, k, -1) else c1
  }

  lemma BothBalanced(w: World, slot: nat, target: Option<nat>, x: nat)
    requires Kept(w) && slot < |w.slots| && x < |w.cells| && w.cells[x].phase != Gone
    requires Room(w.slots[slot := Slot(w.slots[slot].kind, target)])
    ensures var k, slots := w.slots[slot].kind, w.slots[slot := Slot(w.slots[slot].kind, target)];
      Balanced(Both(w.cells[x], k, target == Some(x), w.slots[slot].target == Some(x)),
               Count(slots, x, Ref), Count(slots, x, Obj), Count(slots, x, Multi))
  {
    hide Count, OfKind, Bump, Logged, Targets, Balanced;
    var k, c := w.slots[slot].kind, w.cells[x];
    var s := Slot(k, target);
    var slots := w.slots[slot := s];
    assert w.slots[slot] == Slot(k, w.slots[slot].target);
    CountPut(w.slots, slot, s, x, Ref);
    CountPut(w.slots, slot, s, x, Obj);
    CountPut(w.slots, slot, s, x, Multi);
    Bounds(w.slots, x);
    Bounds(slots, x);
    assert Counted(w, x);
    if target == Some(x) && w.slots[slot].target == Some(x) {
      BalancedWords(c, Count(w.slots, x, Ref), Count(w.slots, x, Obj), Count(w.slots, x, Multi));
      BumpBack(c, k);
    } else if target == Some(x) {
      BumpBalanced(c, Count(w.slots, x, Ref), Count(w.slots, x, Obj), Count(w.slots, x, Multi), k, 1);
    } else if w.slots[slot].target == Some(x) {
      BumpBalanced(c, Count(w.slots, x, Ref), Count(w.slots, x, Obj), Count(w.slots, x, Multi), k, -1);
    }
  }

  lemma BalancedWords(c: Cell, r: nat, o: nat, m: nat)
    requires Balanced(c, r, o, m) && r < WORD - 1 && o < MULTI && m < 0x400
    ensures c.refData < WORD && c.objData < WORD
  {
  }

  lemma RoomPut(slots: seq<Slot>, i: nat, s: Slot)
    requires Room(slots) && i < |slots| && s.kind == slots[i].kind
    ensures Room(slots[i := s])
  {
    OfKindPut(slots, i, s, Ref);
    OfKindPut(slots, i, s, Obj);
    OfKindPut(slots, i, s, Multi);
  }

  /** The world an assignment has made just before it looks at the old object's counts. */
  function Moved(w: World, slot: nat, target: Option<nat>): World
    requires slot < |w.slots|
    requires target.Some? ==> target.value < |w.cells|
  {
    var k, old_, w2 := w.slots[slot].kind, w.slots[slot].target, Redirect(w, slot, target);
    if old_.Some? && old_.value < |w2.cells| then Put(w2, old_.value, Bump(w2.cells[old_.value], k, -1)) else w2
  }

  /** What moving a pointer does to each part of the world. */
  lemma MovedIs(w: World, slot: nat, target: Option<nat>)
    requires slot < |w.slots| && Targets(w)
    requires target.Some? ==> target.value < |w.cells|
    ensures var w', k := Moved(w, slot, target), w.slots[slot].kind;
      && w'.slots == w.slots[slot := Slot(k, target)] && |w'.cells| == |w.cells|
      && w'.trace == w.trace
        + (if target.Some? && w.cells[target.value].phase == Dying then [Taken(target.value)] else [])
      && forall x | 0 <= x < |w.cells| ::
           && w'.cells[x] == Both(w.cells[x], k, target == Some(x), w.slots[slot].target == Some(x))
           && w'.cells[x].phase == w.cells[x].phase
  {
  }

  lemma MovedKept(w: World, slot: nat, target: Option<nat>)
    requires Kept(w) && slot < |w.slots|
    requires target.Some? ==> target.value < |w.cells| && w.cells[target.value].phase != Gone
    ensures Kept(Moved(w, slot, target)) && Stable(w, Moved(w, slot, target))
  {
    hide Redirect, Moved, Room, Count, Balanced, Bump, Times, OfKind, Both;
    var w', s := Moved(w, slot, target), Slot(w.slots[slot].kind, target);
    RoomPut(w.slots, slot, s);
    MovedIs(w, slot, target);
    forall x | 0 <= x < |w.cells| && w.cells[x].phase != Gone ensures Counted(w', x) {
      BothBalanced(w, slot, target, x);
    }
    forall x: nat ensures Times(w'.trace, x) == Times(w.trace, x) {
      if target.Some? {
        TimesMore(w.trace, Taken(target.value), x);
      }
      assert w.trace + [] == w.trace;
    }
    forall x: nat ensures Times(w'.trace, x) == if x < |w'.cells| && Dead(w'.cells[x]) then 1 else 0 {
      assert Times(w.trace, x) == if x < |w.cells| && Dead(w.cells[x]) then 1 else 0;
    }
  }

  lemma MovedHeld(w: World, slot: nat, target: Option<nat>, but: Option<nat>)
    requires Targets(w) && Held(w, but) && slot < |w.slots|
    requires target.Some? ==> target.value < |w.cells|
    requires but.None? || but == target
    ensures Held(Moved(w, slot, target), w.slots[slot].target)
    ensures var old_ := w.slots[slot].target;
      old_.Some? && w.cells[old_.value].phase == Dying ==> Taken(old_.value) in Moved(w, slot, target).trace
  {
    hide Redirect, Moved, Count;
    var w', s := Moved(w, slot, target), Slot(w.slots[slot].kind, target);
    MovedIs(w, slot, target);
    forall x: nat ensures HeldAt(w', w.slots[slot].target, x) {
      assert HeldAt(w, but, x);
      PointersMoved(w.slots, slot, s, x);
    }
    var old_ := w.slots[slot].target;
    if old_.Some? {
      CountSome(w.slots, slot, old_.value);
      assert HeldAt(w, but, old_.value);
    }
  }

  lemma PointersMoved(slots: seq<Slot>, slot: nat, s: Slot, x: nat)
    requires slot < |slots| && s.kind == slots[slot].kind
    ensures s.target == Some(x) ==> Pointers(slots[slot := s], x) > 0
    ensures s.target != Some(x) && slots[slot].target != Some(x) ==> Pointers(slots[slot := s], x) == Pointers(slots, x)
    ensures s.target != Some(x) ==> Pointers(slots[slot := s], x) <= Pointers(slots, x)
  {
    CountPut(slots, slot, s, x, Ref);
    CountPut(slots, slot, s, x, Obj);
    CountPut(slots, slot, s, x, Multi);
    if s.target == Some(x) {
      CountSome(slots[slot := s], slot, x);
    }
  }

  // ---- the run ----

  /** The invariant is kept by every run of which one side of the law holds: then the words count
      the pointers again, every object left has a pointer, and what was running still is. */
  lemma {:induction false} RunSafe(w: World, s: Script)
    requires Kept(w) && Held(w, None) && Right(Run(w, s).trace)
    ensures Kept(Run(w, s)) && Held(Run(w, s), None) && Stable(w, Run(w, s))
    decreases s, 1
  {
    hide Kept, Held, Stable, Assign, Right;
    if s.Step? {
      var w1 := Assign(w, s);
      RightBefore(w1, Run(w1, s.rest));
      AssignSafe(w, s);
      RunSafe(w1, s.rest);
      StableTwice(w, w1, Run(w1, s.rest));
    } else {
      StableRefl(w);
    }
  }

  /** An object's first constructor runs, and then the object waits for its first pointer. */
  lemma {:induction false} ResolveSafe(w: World, source: Source)
    requires Kept(w) && Held(w, None) && Right(Resolve(w, source).0.trace)
    ensures var (w0, target) := Resolve(w, source);
      && Kept(w0) && Stable(w, w0)
      && Held(w0, if source.Fresh? then target else None)
      && (target.Some? ==> target.value < |w0.cells| && w0.cells[target.value].phase != Gone)
    decreases source
  {
    StableRefl(w);
    if source.Fresh? {
      var x, w1 := |w.cells|, Run(WithNew(w), source.init);
      hide Run, Kept, Held, Right;
      NewKept(w);
      RightAs(w1, Resolve(w, source).0);
      RunSafe(WithNew(w), source.init);
      assert Stays(WithNew(w).cells[x], w1.cells[x]);
      BornKept(w1, x);
      BornStable(w, w1, x);
    }
  }

  lemma RightAs(w: World, w': World)
    requires Right(w'.trace) && w.trace == w'.trace
    ensures Right(w.trace)
  {
  }

  lemma BornKept(w: World, x: nat)
    requires Kept(w) && Held(w, None) && x < |w.cells| && w.cells[x].phase == Born
    ensures Kept(WithPhase(w, x, Idle)) && Held(WithPhase(w, x, Idle), Some(x))
  {
    hide Count;
    assert Counted(w, x);
    PutKept(w, x, w.cells[x].(phase := Idle));
    HeldBut(w, x);
    PutHeld(w, x, w.cells[x].(phase := Idle), Some(x));
  }

  lemma HeldBut(w: World, x: nat)
    requires Held(w, None)
    ensures Held(w, Some(x))
  {
    forall y: nat ensures HeldAt(w, Some(x), y) {
      assert HeldAt(w, None, y);
    }
  }

  lemma BornStable(w: World, w1: World, x: nat)
    requires x == |w.cells| && Stable(WithNew(w), w1)
    ensures Stable(w, WithPhase(w1, x, Idle))
  {
    forall y | 0 <= y < |w.cells| ensures Stays(w.cells[y], w1.cells[y]) {
      assert Stays(WithNew(w).cells[y], w1.cells[y]);
    }
  }

  lemma AssignIs(w: World, s: Script)
    requires s.Step? && s.slot < |w.slots| && Targets(Resolve(w, s.source).0)
    ensures var (w0, target) := Resolve(w, s.source);
      var k, old_, w2 := w0.slots[s.slot].kind, w0.slots[s.slot].target, Redirect(w0, s.slot, target);
      if old_.None? then Assign(w, s) == Moved(w0, s.slot, target)
      else
        && old_.value < |w2.cells| && w2.cells[old_.value].phase != Gone
        && Assign(w, s) == Release(w2, old_.value, k, s.body)
        && Moved(w0, s.slot, target) == Put(w2, old_.value, Bump(w2.cells[old_.value], k, -1))
        && Moved(w0, s.slot, target).trace == w2.trace && w2.cells[old_.value].phase == w0.cells[old_.value].phase
  {
    hide Release, Resolve;
  }

  lemma ResolveExtends(w: World, s: Script)
    requires s.Step? && s.slot < |w.slots|
    ensures Extends(Resolve(w, s.source).0, Assign(w, s))
  {
    hide Release, Resolve;
  }

  lemma {:induction false} AssignSafe(w: World, s: Script)
    requires s.Step? && Kept(w) && Held(w, None) && Right(Assign(w, s).trace)
    ensures Kept(Assign(w, s)) && Held(Assign(w, s), None) && Stable(w, Assign(w, s))
    decreases s, 0
  {
    hide Kept, Stable, Held, Redirect, Release, Resolve, Moved, Bump, Right;
    StableRefl(w);
    if s.slot < |w.slots| {
      var (w0, target) := Resolve(w, s.source);
      ResolveExtends(w, s);
      RightBefore(w0, Assign(w, s));
      ResolveSafe(w, s.source);
      KeptTargets(w0);
      AssignIs(w, s);
      hide Assign;
      var k, pOld, w2, w3 := w0.slots[s.slot].kind, w0.slots[s.slot].target, Redirect(w0, s.slot, target), Moved(w0, s.slot, target);
      MovedKept(w0, s.slot, target);
      MovedHeld(w0, s.slot, target, if s.source.Fresh? then target else None);
      StableTwice(w, w0, w3);
      if pOld.Some? {
        ReleaseSafe(w2, pOld.value, k, s.body);
        StableTwice(w, w3, Release(w2, pOld.value, k, s.body));
      }
    }
  }

  lemma KeptTargets(w: World)
    requires Kept(w)
    ensures Targets(w)
  {
  }

  /** What a release of `x` needs, said of the world with the count already taken down. */
  ghost predicate Released(w: World, x: nat, k: Kind)
    requires x < |w.cells|
  {
    var w1 := Put(w, x, Bump(w.cells[x], k, -1));
    && Kept(w1) && Held(w1, Some(x)) && w.cells[x].phase != Gone
    && (w.cells[x].phase == Dying ==> Taken(x) in w.trace)
  }

  lemma ReleasedParts(w: World, x: nat, k: Kind)
    requires x < |w.cells| && Released(w, x, k)
    ensures var w1 := Put(w, x, Bump(w.cells[x], k, -1));
      && Kept(w1) && Held(w1, Some(x)) && w1.cells[x].phase == w.cells[x].phase != Gone
      && (w.cells[x].phase == Dying ==> Taken(x) in w1.trace)
  {
  }

  lemma {:induction false} ReleaseSafe(w: World, x: nat, k: Kind, body: Body)
    requires x < |w.cells| && Released(w, x, k) && Right(Release(w, x, k, body).trace)
    ensures var w' := Release(w, x, k, body);
      Kept(w') && Held(w', None) && Stable(Put(w, x, Bump(w.cells[x], k, -1)), w')
    decreases body, if k.Ref? then 2 else 5
  {
    var c := Bump(w.cells[x], k, -1);
    var w1 := Put(w, x, c);
    StableRefl(w1);
    hide Right, Bump, Stable, Kept, Held;
    ReleasedParts(w, x, k);
    NotEmptied(w, x, k, body);
    ReleaseIs(w, x, k, body);
    if k.Ref? && c.refData == 0 {
      RefCompleteSafe(w1, x, body);
    } else if !k.Ref? && Field(c.objData, k) == 0 {
      ObjCompleteSafe(w1, x, k, body);
    } else {
      StillHeld(w1, x, k);
    }
  }

  lemma ReleaseIs(w: World, x: nat, k: Kind, body: Body)
    requires x < |w.cells| && !Empties(Bump(w.cells[x], k, -1), k)
    ensures var c := Bump(w.cells[x], k, -1);
      var w1 := Put(w, x, c);
      Release(w, x, k, body) ==
        if k.Ref? then (if c.refData == 0 then ReleaseRefComplete(w1, x, body) else w1)
        else if Field(c.objData, k) == 0 then ReleaseObjComplete(w1, x, k, body)
        else w1
  {
    hide ReleaseRefComplete, ReleaseObjComplete, Bump;
  }

  /** A release that empties its object is marked, and what follows it is not sound. */
  lemma NotEmptied(w: World, x: nat, k: Kind, body: Body)
    requires x < |w.cells| && Right(Release(w, x, k, body).trace)
    ensures !Empties(Bump(w.cells[x], k, -1), k)
  {
    hide Bump, Release;
    if Empties(Bump(w.cells[x], k, -1), k) {
      EmptiedUnsound(w, x, k, body);
    }
  }

  lemma EmptiedUnsound(w: World, x: nat, k: Kind, body: Body)
    requires x < |w.cells| && Empties(Bump(w.cells[x], k, -1), k)
    ensures !Right(Release(w, x, k, body).trace)
  {
    hide Bump, Delete, ReleaseObjComplete;
    var c := Bump(w.cells[x], k, -1);
    var w1 := Say(Put(w, x, c), Emptied(x));
    var w' := Release(w, x, k, body);
    assert Noted(Put(w, x, c), x, k) == w1 && w1.cells[x] == c;
    if k.Ref? || (c.objData % BUSY == 0 && c.refData == 0) {
      CompleteDeletes(w1, x, k, body);
      assert w' == Delete(w1, x, body);
      DeleteUnsound(w1, x, body);
    } else {
      ClearUnsound(w1, x, k, body);
    }
    assert w1.trace[|w.trace|] == Emptied(x);
    assert w'.trace[|w.trace|] == w1.trace[|w.trace|];
    assert Emptied(x) in w'.trace;
  }

  lemma CompleteDeletes(w: World, x: nat, k: Kind, body: Body)
    requires x < |w.cells| && w.cells[x].objData % BUSY == 0 && w.cells[x].refData == 0
    ensures ReleaseRefComplete(w, x, body) == Delete(w, x, body)
    ensures ReleaseObjComplete(w, x, k, body) == Delete(w, x, body)
  {
  }

  lemma DeleteUnsound(w: World, x: nat, body: Body)
    requires x < |w.cells| && w.cells[x].phase != Idle
    ensures Extends(w, Delete(w, x, body)) && !AllSound(Delete(w, x, body).trace)
  {
    var mark := Deleted(x, Pointers(w.slots, x), true);
    var w1 := WithPhase(Say(w, mark), x, Dying);
    assert w1.trace[|w.trace|] == mark;
    var w2 := Run(w1, body.finalizer);
    hide Run;
    var w' := Delete(w, x, body);
    assert w'.trace[|w.trace|] == mark;
  }

  lemma ClearUnsound(w: World, x: nat, k: Kind, body: Body)
    requires x < |w.cells| && w.cells[x].phase != Idle && !k.Ref? && Field(w.cells[x].objData, k) == 0
    requires !(w.cells[x].objData % BUSY == 0 && w.cells[x].refData == 0) && !IsBusy(w.cells[x].objData)
    ensures Extends(w, ReleaseObjComplete(w, x, k, body)) && !AllSound(ReleaseObjComplete(w, x, k, body).trace)
  {
    var w0 := Put(w, x, Raised(w.cells[x]));
    var w1 := WithPhase(Say(w0, Destroying(x, true)), x, Clearing);
    assert w1.trace[|w.trace|] == Destroying(x, true);
    var w2 := DestroyContents(w0, x, body);
    assert Extends(w1, w2) by { hide Release; }
    var w3 := Put(w2, x, Lowered(w2.cells[x]));
    var w' := Release(w3, x, Ref, body);
    assert w'.trace[|w.trace|] == Destroying(x, true);
  }

  lemma StillHeld(w: World, x: nat, k: Kind)
    requires Kept(w) && Held(w, Some(x)) && x < |w.cells| && w.cells[x].phase != Gone
    requires if k.Ref? then w.cells[x].refData != 0 else Field(w.cells[x].objData, k) != 0
    ensures Held(w, None)
  {
    hide Count;
    assert Counted(w, x);
    if Plain(w.cells[x]) {
      Bounds(w.slots, x);
      ReadPlain(w.cells[x], Count(w.slots, x, Ref), Count(w.slots, x, Obj), Count(w.slots, x, Multi));
    }
    HeldAll(w, x);
  }

  /** The last object that `Held` left out. */
  lemma HeldAll(w: World, x: nat)
    requires Held(w, Some(x)) && x < |w.cells|
    requires w.cells[x].phase == Idle || w.cells[x].phase == Dying ==> Pointers(w.slots, x) > 0
    ensures Held(w, None)
  {
    hide Pointers;
    forall y: nat ensures HeldAt(w, None, y) {
      assert HeldAt(w, Some(x), y);
    }
  }

  lemma {:induction false} RefCompleteSafe(w: World, x: nat, body: Body)
    requires Kept(w) && Held(w, Some(x)) && x < |w.cells| && w.cells[x].phase != Gone
    requires w.cells[x].refData == 0 && !Empties(w.cells[x], Ref)
    requires Right(ReleaseRefComplete(w, x, body).trace)
    ensures var w' := ReleaseRefComplete(w, x, body); Kept(w') && Held(w', None) && Stable(w, w')
    decreases body, 1
  {
    hide Count, OfKind, Times, Stable, Delete, Room, Targets, Logged, Right, Held;
    assert Counted(w, x);
    Bounds(w.slots, x);
    var c := w.cells[x];
    var r, o, m := Count(w.slots, x, Ref), Count(w.slots, x, Obj), Count(w.slots, x, Multi);
    StableRefl(w);
    match c.phase
    case Idle =>
      ReadPlain(c, r, o, m);
      if c.objData % BUSY == 0 {
        assert Pointers(w.slots, x) == 0;
        hide Kept;
        DeleteSafe(w, x, body);
      } else {
        HeldAll(w, x);
      }
    case Dying =>
      ReadPlain(c, r, o, m);
      HeldAll(w, x);
    case Clearing => ReadClearing(c, r, o, m); assert false;
    case _ => HeldAll(w, x);
  }

  lemma {:induction false} DeleteSafe(w: World, x: nat, body: Body)
    requires Kept(w) && Held(w, Some(x)) && x < |w.cells|
    requires w.cells[x].phase == Idle && Pointers(w.slots, x) == 0
    requires Right(Delete(w, x, body).trace)
    ensures var w' := Delete(w, x, body); Kept(w') && Held(w', None) && Stable(w, w')
    decreases body, 0
  {
    hide Kept, Held, Stable, Right, Pointers, Run;
    var w1 := WithPhase(Say(w, Deleted(x, 0, false)), x, Dying);
    var w2 := Run(w1, body.finalizer);
    var w3 := Say(w2, Freed(x, Pointers(w2.slots, x)));
    DyingKept(w, x);
    RightAs(w3, Delete(w, x, body));
    RightBefore(w2, w3);
    RunSafe(w1, body.finalizer);
    DyingStays(w1, w2, x);
    GoneKept(w2, x);
    GoneStable(w, w1, w2, x);
  }

  lemma DyingStays(w1: World, w2: World, x: nat)
    requires Stable(w1, w2) && x < |w1.cells| && w1.cells[x].phase == Dying
    ensures x < |w2.cells| && w2.cells[x].phase == Dying
  {
    assert Stays(w1.cells[x], w2.cells[x]);
  }

  lemma DyingKept(w: World, x: nat)
    requires Kept(w) && Held(w, Some(x)) && x < |w.cells|
    requires w.cells[x].phase == Idle && Pointers(w.slots, x) == 0
    ensures var w1 := WithPhase(Say(w, Deleted(x, 0, false)), x, Dying); Kept(w1) && Held(w1, None)
  {
    hide Count, OfKind, Pointers;
    var w1 := WithPhase(Say(w, Deleted(x, 0, false)), x, Dying);
    forall y: nat ensures Times(w1.trace, y) == if y < |w1.cells| && Dead(w1.cells[y]) then 1 else 0 {
      TimesMore(w.trace, Deleted(x, 0, false), y);
      hide Times;
    }
    hide Times;
    forall y | 0 <= y < |w1.cells| && w1.cells[y].phase != Gone ensures Counted(w1, y) {
      assert Counted(w, y);
    }
    forall y: nat ensures HeldAt(w1, None, y) {
      assert HeldAt(w, Some(x), y);
    }
  }

  /** The memory goes when no pointer is left, and that is what either side of the law says. */
  lemma GoneKept(w: World, x: nat)
    requires Kept(w) && Held(w, None) && x < |w.cells| && w.cells[x].phase == Dying
    requires Right(Say(w, Freed(x, Pointers(w.slots, x))).trace)
    ensures var w' := WithPhase(Say(w, Freed(x, Pointers(w.slots, x))), x, Gone);
      Kept(w') && Held(w', None)
  {
    hide Count, OfKind, Pointers, Times, Balanced;
    var mark := Freed(x, Pointers(w.slots, x));
    var w1 := Say(w, mark);
    assert HeldAt(w, None, x);
    assert w1.trace[|w.trace|] == mark;
    assert forall i | 0 <= i < |w.trace| :: w1.trace[i] == w.trace[i];
    assert Pointers(w.slots, x) == 0;
    SayKept(w, mark);
    forall s | 0 <= s < |w.slots| ensures w.slots[s].target != Some(x) {
      if w.slots[s].target == Some(x) {
        CountSome(w.slots, s, x);
      }
    }
    var w' := WithPhase(w1, x, Gone);
    forall y: nat ensures HeldAt(w', None, y) {
      assert HeldAt(w1, None, y);
    }
    forall y: nat ensures Times(w'.trace, y) == if y < |w'.cells| && Dead(w'.cells[y]) then 1 else 0 {
      assert Times(w1.trace, y) == if y < |w1.cells| && Dead(w1.cells[y]) then 1 else 0;
    }
    forall y | 0 <= y < |w'.cells| && w'.cells[y].phase != Gone ensures Counted(w', y) {
      assert Counted(w1, y);
    }
  }

  lemma GoneStable(w: World, w1: World, w2: World, x: nat)
    requires x < |w.cells| && w.cells[x].phase == Idle && Stable(w1, w2)
    requires |w1.cells| == |w.cells| && forall y | 0 <= y < |w.cells| && y != x :: w1.cells[y] == w.cells[y]
    ensures forall m :: Stable(w, WithPhase(Say(w2, m), x, Gone))
  {
    forall y | 0 <= y < |w.cells| && y != x ensures Stays(w.cells[y], w2.cells[y]) {
      assert Stays(w1.cells[y], w2.cells[y]);
    }
  }

  lemma {:induction false} ObjCompleteSafe(w: World, x: nat, k: Kind, body: Body)
    requires Kept(w) && Held(w, Some(x)) && x < |w.cells| && w.cells[x].phase != Gone
    requires !k.Ref? && Field(w.cells[x].objData, k) == 0 && !Empties(w.cells[x], k)
    requires Right(ReleaseObjComplete(w, x, k, body).trace)
    ensures var w' := ReleaseObjComplete(w, x, k, body); Kept(w') && Held(w', None) && Stable(w, w')
    decreases body, 4
  {
    hide Count, OfKind, Times, Stable, Delete, Room, Targets, Logged, Right, DestroyContents, Release, Held;
    assert Counted(w, x);
    Bounds(w.slots, x);
    var c := w.cells[x];
    var r, o, m := Count(w.slots, x, Ref), Count(w.slots, x, Obj), Count(w.slots, x, Multi);
    StableRefl(w);
    if c.phase == Clearing {
      ReadClearing(c, r, o, m);
      HeldAll(w, x);
    } else if c.phase.Building? {
      HeldAll(w, x);
    } else {
      ReadPlain(c, r, o, m);
      assert c.phase == Idle;
      if c.objData % BUSY == 0 && c.refData == 0 {
        assert Pointers(w.slots, x) == 0;
        hide Kept;
        DeleteSafe(w, x, body);
      } else {
        ClearSafe(w, x, k, body);
      }
    }
  }

  lemma RaisedBalanced(c: Cell, r: nat, o: nat, m: nat)
    requires Balanced(c, r, o, m) && c.phase == Idle && r < WORD - 1 && o < MULTI && m < 0x400
    ensures Balanced(Raised(c).(phase := Clearing), r, o, m)
  {
    ReadPlain(c, r, o, m);
    WordOf(r + 1);
  }

  lemma LoweredBalanced(c: Cell, r: nat, o: nat, m: nat)
    requires Balanced(c.(phase := Clearing), r, o, m) && r < WORD - 1 && o < MULTI && m < 0x400
    ensures Balanced(Bump(Lowered(c), Ref, -1).(phase := Idle), r, o, m)
  {
    ReadClearing(c.(phase := Clearing), r, o, m);
    WordOf(r);
  }

  lemma RebuiltBalanced(c: Cell, r: nat, o: nat, m: nat)
    requires Balanced(c, r, o, m) && c.phase == Clearing && r < WORD - 1 && o < MULTI && m < 0x400
    ensures Balanced(Rebuilt(c), r, o, m)
  {
  }

  /** A clearing, begun on an object whose words allow for it, ends with words that still do. */
  lemma {:induction false} DestroySafe(w: World, x: nat, body: Body)
    requires x < |w.cells| && w.cells[x].phase == Idle
    requires Kept(WithPhase(w, x, Clearing)) && Held(WithPhase(w, x, Clearing), None)
    requires Right(DestroyContents(w, x, body).trace)
    ensures var w' := DestroyContents(w, x, body);
      && w'.cells[x].phase == Idle
      && Kept(WithPhase(w', x, Clearing)) && Held(WithPhase(w', x, Clearing), None)
      && Stable(WithPhase(w, x, Clearing), WithPhase(w', x, Clearing))
    decreases body, 0
  {
    hide Run, Right, Rebuilt, Restored, Kept, Held;
    var w0 := WithPhase(w, x, Clearing);
    var w1 := Say(w0, Destroying(x, false));
    assert w1 == WithPhase(Say(w, Destroying(x, false)), x, Clearing);
    var w2 := Run(w1, body.destructor);
    var hold := w2.cells[x];
    var w3 := Put(w2, x, Rebuilt(hold));
    var w4 := Run(w3, body.constructor_);
    var w' := DestroyContents(w, x, body);
    assert w' == Put(w4, x, Restored(w4.cells[x], hold));
    var w5 := WithPhase(w', x, Clearing);
    assert w5 == Put(w4, x, Restored(w4.cells[x], hold).(phase := Clearing));
    RightAs(w4, w');
    RightBefore(w3, w4);
    RightAs(w2, w3);
    SayKept(w0, Destroying(x, false));
    RunSafe(w1, body.destructor);
    assert Stays(w1.cells[x], w2.cells[x]);
    RebuiltKept(w2, x);
    RunSafe(w3, body.constructor_);
    assert Stays(w3.cells[x], w4.cells[x]);
    RestoredKept(w4, x, hold);
    StableThrough(w0, w1, w2, w3, w4, w5, x);
  }

  lemma RebuiltKept(w: World, x: nat)
    requires x < |w.cells| && w.cells[x].phase == Clearing && Kept(w) && Held(w, None)
    ensures Kept(Put(w, x, Rebuilt(w.cells[x]))) && Held(Put(w, x, Rebuilt(w.cells[x])), None)
    ensures Rebuilt(w.cells[x]).phase == Building(w.cells[x].refData, w.cells[x].objData)
  {
    hide Count;
    assert Counted(w, x);
    Bounds(w.slots, x);
    RebuiltBalanced(w.cells[x], Count(w.slots, x, Ref), Count(w.slots, x, Obj), Count(w.slots, x, Multi));
    PutKept(w, x, Rebuilt(w.cells[x]));
    PutHeld(w, x, Rebuilt(w.cells[x]), None);
  }

  lemma RestoredKept(w: World, x: nat, hold: Cell)
    requires x < |w.cells| && w.cells[x].phase == Building(hold.refData, hold.objData)
    requires Kept(w) && Held(w, None)
    ensures var w' := Put(w, x, Restored(w.cells[x], hold).(phase := Clearing)); Kept(w') && Held(w', None)
    ensures Restored(w.cells[x], hold).phase == Idle
  {
    hide Count;
    assert Counted(w, x);
    PutKept(w, x, Restored(w.cells[x], hold).(phase := Clearing));
    PutHeld(w, x, Restored(w.cells[x], hold).(phase := Clearing), None);
  }

  lemma StableThrough(w0: World, w1: World, w2: World, w3: World, w4: World, w5: World, x: nat)
    requires x < |w0.cells| && w1.cells == w0.cells && Stable(w1, w2) && Stable(w3, w4)
    requires |w3.cells| == |w2.cells| && forall y | 0 <= y < |w2.cells| && y != x :: w3.cells[y] == w2.cells[y]
    requires |w5.cells| == |w4.cells| && forall y | 0 <= y < |w4.cells| && y != x :: w5.cells[y] == w4.cells[y]
    requires Stays(w0.cells[x], w5.cells[x])
    ensures Stable(w0, w5)
  {
    forall y | 0 <= y < |w0.cells| && y != x ensures Stays(w0.cells[y], w5.cells[y]) {
      assert Stays(w1.cells[y], w2.cells[y]) && Stays(w3.cells[y], w4.cells[y]);
    }
    forall y | |w0.cells| <= y < |w5.cells| ensures w5.cells[y].phase == Idle || w5.cells[y].phase == Gone {
      if y < |w2.cells| {
        assert Stays(w3.cells[y], w4.cells[y]);
      }
    }
  }

  /** The last owner of its kind goes: the object is cleared behind both flags, and the
      reference that kept it is released. */
  lemma {:induction false} ClearSafe(w: World, x: nat, k: Kind, body: Body)
    requires Kept(w) && Held(w, Some(x)) && x < |w.cells| && w.cells[x].phase == Idle
    requires !k.Ref? && Field(w.cells[x].objData, k) == 0 && !IsBusy(w.cells[x].objData)
    requires !(w.cells[x].objData % BUSY == 0 && w.cells[x].refData == 0)
    requires Right(ReleaseObjComplete(w, x, k, body).trace)
    ensures var w' := ReleaseObjComplete(w, x, k, body); Kept(w') && Held(w', None) && Stable(w, w')
    decreases body, 3
  {
    hide ReleaseObjComplete, DestroyContents, Release, Right, Bump, Raised, Lowered, Kept, Held, Stable, Released;
    ClearIs(w, x, k, body);
    var w1 := Put(w, x, Raised(w.cells[x]));
    var w2 := DestroyContents(w1, x, body);
    var w3 := Put(w2, x, Lowered(w2.cells[x]));
    var w4 := Put(w3, x, Bump(w3.cells[x], Ref, -1));
    var w' := Release(w3, x, Ref, body);
    RightBefore(w3, w');
    RightAs(w2, w3);
    BumpFields(w3.cells[x], Ref, -1);
    RaisedKept(w, x);
    DestroySafe(w1, x, body);
    LoweredKept(w2, x);
    ReleaseSafe(w3, x, Ref, body);
    ClearStable(w, w1, w2, w4, w', x);
  }

  lemma ClearIs(w: World, x: nat, k: Kind, body: Body)
    requires x < |w.cells| && Field(w.cells[x].objData, k) == 0 && !IsBusy(w.cells[x].objData)
    requires !(w.cells[x].objData % BUSY == 0 && w.cells[x].refData == 0)
    ensures var w2 := DestroyContents(Put(w, x, Raised(w.cells[x])), x, body);
      ReleaseObjComplete(w, x, k, body) == Release(Put(w2, x, Lowered(w2.cells[x])), x, Ref, body)
  {
    hide DestroyContents, Release, Field, IsBusy;
  }

  lemma BumpFields(c: Cell, k: Kind, d: int)
    ensures Bump(c, k, d).phase == c.phase
  {
  }

  lemma RaisedKept(w: World, x: nat)
    requires Kept(w) && Held(w, Some(x)) && x < |w.cells| && w.cells[x].phase == Idle
    ensures var w1 := Put(w, x, Raised(w.cells[x]));
      && w1.cells[x].phase == Idle
      && Kept(WithPhase(w1, x, Clearing)) && Held(WithPhase(w1, x, Clearing), None)
  {
    hide Count;
    assert Counted(w, x);
    Bounds(w.slots, x);
    var c := Raised(w.cells[x]).(phase := Clearing);
    var w' := WithPhase(Put(w, x, Raised(w.cells[x])), x, Clearing);
    assert w' == Put(w, x, c);
    RaisedBalanced(w.cells[x], Count(w.slots, x, Ref), Count(w.slots, x, Obj), Count(w.slots, x, Multi));
    PutKept(w, x, c);
    PutHeld(w, x, c, Some(x));
    HeldAll(w', x);
  }

  lemma LoweredKept(w: World, x: nat)
    requires x < |w.cells| && w.cells[x].phase == Idle
    requires Kept(WithPhase(w, x, Clearing)) && Held(WithPhase(w, x, Clearing), None)
    ensures Released(Put(w, x, Lowered(w.cells[x])), x, Ref)
    ensures Put(w, x, Lowered(w.cells[x])).cells[x].phase == Idle
  {
    hide Count;
    var w0 := WithPhase(w, x, Clearing);
    var c := Bump(Lowered(w.cells[x]), Ref, -1);
    var w3 := Put(w, x, Lowered(w.cells[x]));
    assert Put(w3, x, Bump(w3.cells[x], Ref, -1)) == Put(w0, x, c);
    assert c == c.(phase := Idle) && w0.cells[x] == w.cells[x].(phase := Clearing);
    assert Counted(w0, x);
    Bounds(w.slots, x);
    LoweredBalanced(w.cells[x], Count(w.slots, x, Ref), Count(w.slots, x, Obj), Count(w.slots, x, Multi));
    PutKept(w0, x, c);
    HeldBut(w0, x);
    PutHeld(w0, x, c, Some(x));
  }

  lemma ClearStable(w: World, w1: World, w2: World, w4: World, w': World, x: nat)
    requires x < |w.cells| == |w1.cells| && x < |w2.cells| == |w4.cells|
    requires w.cells[x].phase == Idle && w4.cells[x].phase == Idle
    requires forall y | 0 <= y < |w.cells| && y != x :: w1.cells[y] == w.cells[y]
    requires forall y | 0 <= y < |w2.cells| && y != x :: w4.cells[y] == w2.cells[y]
    requires Stable(WithPhase(w1, x, Clearing), WithPhase(w2, x, Clearing)) && Stable(w4, w')
    ensures Stable(w, w')
  {
    var a, b := WithPhase(w1, x, Clearing), WithPhase(w2, x, Clearing);
    forall y | 0 <= y < |w.cells| ensures Stays(w.cells[y], w'.cells[y]) {
      assert Stays(a.cells[y], b.cells[y]) && Stays(w4.cells[y], w'.cells[y]);
    }
    forall y | |w.cells| <= y < |w'.cells| ensures w'.cells[y].phase == Idle || w'.cells[y].phase == Gone {
      if y < |w4.cells| {
        assert (b.cells[y].phase == Idle || b.cells[y].phase == Gone) && Stays(w4.cells[y], w'.cells[y]);
      }
    }
  }

  // ---- the law ----

  /** No objects yet, and no pointer holds anything. */
  ghost predicate Start(w: World) {
    w.cells == [] && w.trace == [] && Room(w.slots) && forall s | 0 <= s < |w.slots| :: w.slots[s].target == None
  }

  lemma StartKept(w: World)
    requires Start(w)
    ensures Kept(w) && Held(w, None)
  {
  }

  /** What both sides of the law come to. */
  lemma RunIsRight(w: World, s: Script)
    requires Start(w) && Right(Run(w, s).trace)
    ensures var w' := Run(w, s);
      && Kept(w') && Held(w', None) && Quiet(w'.trace) && Safe(w'.trace)
      && forall x | 0 <= x < |w'.cells| :: w'.cells[x].phase == Idle || w'.cells[x].phase == Gone
  {
    hide Run, Right, Times, Count, OfKind;
    StartKept(w);
    RunSafe(w, s);
    var w' := Run(w, s);
    forall x: nat ensures Taken(x) !in w'.trace {
      assert HeldAt(w', None, x);
    }
  }

  /** Every run from the start deletes each object at most once, with no pointer of any kind left,
      frees it with none left, and never while it is constructed, cleared or deleted already,
      exactly when no object is emptied by its constructors or its last destructor and none is
      taken in its last destructor. */
  lemma RunsAreSafe(w: World, s: Script)
    requires Start(w)
    ensures Safe(Run(w, s).trace) <==> Quiet(Run(w, s).trace)
  {
    hide Run, Quiet, AllSound, Kept, Held, Start;
    if Right(Run(w, s).trace) {
      RunIsRight(w, s);
    }
  }

  /** After such a run nothing leaks and nothing dangles: the objects gone are those that no
      pointer holds, each deleted exactly once, and the words of the others count their
      pointers. */
  lemma RunsFreeExactly(w: World, s: Script, x: nat)
    requires Start(w) && Quiet(Run(w, s).trace) && x < |Run(w, s).cells|
    ensures var w' := Run(w, s); var c := w'.cells[x];
      && (c.phase == Gone <==> Pointers(w'.slots, x) == 0)
      && Times(w'.trace, x) == (if c.phase == Gone then 1 else 0)
      && (c.phase != Gone ==>
           && c.refData == Count(w'.slots, x, Ref)
           && c.objData % 0x10_0000 == Count(w'.slots, x, Obj)
           && c.objData / 0x10_0000 % 0x400 == Count(w'.slots, x, Multi))
  {
    hide Run, Count, OfKind, Times;
    RunIsRight(w, s);
    var w' := Run(w, s);
    var c := w'.cells[x];
    if c.phase == Gone {
      forall i | 0 <= i < |w'.slots| ensures w'.slots[i].target != Some(x) {}
      CountZero(w'.slots, x, Ref);
      CountZero(w'.slots, x, Obj);
      CountZero(w'.slots, x, Multi);
    } else {
      assert Counted(w', x) && HeldAt(w', None, x);
      Bounds(w'.slots, x);
      ReadPlain(c, Count(w'.slots, x, Ref), Count(w'.slots, x, Obj), Count(w'.slots, x, Multi));
    }
  }
}
