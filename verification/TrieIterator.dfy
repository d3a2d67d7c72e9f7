/** TConstIterator: the ordered iterator over saved bytes, a stack of forks moved in place. */
module TrieIterator {
  import opened Wrappers
  import opened Bytes
  import opened Packers
  import opened TrieRoundTrip
  import opened TrieSearch
  import opened TrieForks
  import opened TrieOrder
  import opened TrieBounds

  /** A fork read from the bytes, its directions and which of them is taken. */
  datatype TFork = TFork(node: TNode, directions: seq<Dir>, current: nat)

  function DirectionsOf(node: TNode): seq<Dir> {
    (if node.left != 0 then [L] else []) + (if node.leaf.Some? then [F] else [])
      + (if node.forward != 0 then [N] else []) + (if node.right != 0 then [R] else [])
  }

  /** Where a direction comes among those a fork has. */
  function PlaceOf(f: Forks, d: Dir): nat
    requires f.Fork?
  {
    match d
    case L => 0
    case F => if f.left.Fork? then 1 else 0
    case N => (if f.left.Fork? then 1 else 0) + (if f.leaf.Some? then 1 else 0)
    case R => (if f.left.Fork? then 1 else 0) + (if f.leaf.Some? then 1 else 0) + (if f.next.Fork? then 1 else 0)
  }

  function Concrete(turn: Turn): TFork
    requires turn.fork.Fork?
  {
    TFork(NodeOf(turn.fork), Dirs(turn.fork), PlaceOf(turn.fork, turn.dir))
  }

  /** The forks of the iterator are those of a stack. */
  ghost predicate Represents(forks: seq<TFork>, stack: seq<Turn>) {
    && |forks| == |stack| && Good(stack)
    && forall k | 0 <= k < |forks| :: stack[k].fork.Fork? && forks[k] == Concrete(stack[k])
  }

  lemma DirectionsMatch(s: Schema, data: seq<byte>, f: Forks)
    requires f.Fork? && Holds(s, data, f)
    ensures DirectionsOf(NodeOf(f)) == Dirs(f) && f.pos + 1 < |data| && ReadNode(s, data, f.pos) == NodeOf(f)
  {
    hide ReadNode;
  }

  lemma Places(f: Forks, d: Dir)
    requires f.Fork? && Has(f, d)
    ensures PlaceOf(f, d) < |Dirs(f)| && Dirs(f)[PlaceOf(f, d)] == d
    ensures Later(f, d).None? <==> PlaceOf(f, d) + 1 == |Dirs(f)|
    ensures Later(f, d).Some? ==> Has(f, Later(f, d).value) && PlaceOf(f, Later(f, d).value) == PlaceOf(f, d) + 1
    ensures Earlier(f, d).None? <==> PlaceOf(f, d) == 0
    ensures Earlier(f, d).Some? ==> Has(f, Earlier(f, d).value) && PlaceOf(f, Earlier(f, d).value) == PlaceOf(f, d) - 1
  {
  }

  lemma FirstPlace(f: Forks)
    requires f.Fork? && (f.leaf.Some? || f.next.Fork?)
    ensures Has(f, FirstDir(f)) && PlaceOf(f, FirstDir(f)) == 0
    ensures Has(f, LastDir(f)) && PlaceOf(f, LastDir(f)) == |Dirs(f)| - 1
  {
  }

  function LastDir(f: Forks): Dir
    requires f.Fork?
  {
    if f.right.Fork? then R else if f.next.Fork? then N else F
  }

  /** The forks of a stack are read from the bytes. */
  ghost predicate AllRead(s: Schema, data: seq<byte>, stack: seq<Turn>) {
    Good(stack) && forall k | 0 <= k < |stack| :: Holds(s, data, stack[k].fork)
  }

  lemma TopIs(s: Schema, data: seq<byte>, forks: seq<TFork>, stack: seq<Turn>)
    requires Represents(forks, stack) && stack != [] && AllRead(s, data, stack)
    ensures |forks| == |stack| && Good(stack)
    ensures var n := |stack| - 1; var top := stack[n];
      && GoodTurn(top) && forks[n] == Concrete(top) && Holds(s, data, top.fork)
      && forks[n].current < |forks[n].directions| && forks[n].directions[forks[n].current] == top.dir
      && Represents(forks[..n], stack[..n]) && AllRead(s, data, stack[..n])
  {
    hide Holds, Full;
    var top := stack[|stack| - 1];
    assert GoodTurn(top);
    Places(top.fork, top.dir);
  }

  lemma PushRepresents(s: Schema, data: seq<byte>, forks: seq<TFork>, stack: seq<Turn>, turn: Turn)
    requires Represents(forks, stack) && AllRead(s, data, stack) && GoodTurn(turn) && Holds(s, data, turn.fork)
    ensures Represents(forks + [Concrete(turn)], stack + [turn]) && AllRead(s, data, stack + [turn])
  {
    hide Holds, Full;
  }

  /** What is below the top. */
  lemma Below(turn: Turn)
    requires GoodTurn(turn) && turn.dir != F
    ensures var f := Child(turn.fork, turn.dir);
      && f.Fork? && Full(f) && |Items(f)| > 0
      && FirstIn(turn.fork, turn.dir) == [turn] + StackAt(f, 0)
      && LastIn(turn.fork, turn.dir) == [turn] + StackAt(f, |Items(f)| - 1)
  {
    hide StackAt, Items;
    FullChild(turn.fork, turn.dir);
    SomeItems(Child(turn.fork, turn.dir));
  }

  lemma CompletedIs(stack: seq<Turn>)
    requires Good(stack) && stack != []
    ensures var n := |stack| - 1; var top := stack[n];
      && GoodTurn(top) && Completed(stack) == stack[..n] + FirstIn(top.fork, top.dir)
      && CompletedLast(stack) == stack[..n] + LastIn(top.fork, top.dir)
  {
    hide FirstIn, LastIn;
    assert GoodTurn(stack[|stack| - 1]);
  }

  /** One fork further down, on the way to the first key or to the last one. */
  lemma DownOne(s: Schema, data: seq<byte>, stack: seq<Turn>)
    requires Good(stack) && stack != [] && stack[|stack| - 1].dir != F && AllRead(s, data, stack)
    ensures var top := stack[|stack| - 1];
      && top.fork.Fork? && var f := Child(top.fork, top.dir);
      && f.Fork? && Full(f) && Holds(s, data, f)
      && GoodTurn(Turn(f, FirstDir(f))) && Good(stack + [Turn(f, FirstDir(f))])
      && Completed(stack + [Turn(f, FirstDir(f))]) == Completed(stack)
      && GoodTurn(Turn(f, LastDir(f))) && Good(stack + [Turn(f, LastDir(f))])
      && CompletedLast(stack + [Turn(f, LastDir(f))]) == CompletedLast(stack)
  {
    hide StackAt, Items, Completed, CompletedLast, FirstIn, LastIn, Full, Good, Holds, Has;
    var n := |stack| - 1;
    var top := stack[n];
    CompletedIs(stack);
    Below(top);
    HoldsBelow(s, data, stack);
    var f := Child(top.fork, top.dir);
    FullHas(f);
    FirstIs(f, FirstDir(f));
    LastIs(f, LastDir(f));
    Extremes(f);
    OneGood(stack, f, FirstDir(f));
    OneGoodLast(stack, f, LastDir(f));
    OnTop(stack, StackAt(f, 0));
    OnTop(stack, StackAt(f, |Items(f)| - 1));
  }

  lemma OnTop(stack: seq<Turn>, more: seq<Turn>)
    requires stack != []
    ensures var n := |stack| - 1; stack[..n] + ([stack[n]] + more) == stack + more
  {
  }

  lemma FullHas(f: Forks)
    requires f.Fork? && Full(f)
    ensures Has(f, FirstDir(f)) && Has(f, LastDir(f))
    ensures GoodTurn(Turn(f, FirstDir(f))) && GoodTurn(Turn(f, LastDir(f))) && (f.leaf.Some? || f.next.Fork?)
  {
    FirstPlace(f);
  }

  lemma HoldsBelow(s: Schema, data: seq<byte>, stack: seq<Turn>)
    requires AllRead(s, data, stack) && stack != []
    ensures var top := stack[|stack| - 1]; top.fork.Fork? && Holds(s, data, Child(top.fork, top.dir))
  {
    assert GoodTurn(stack[|stack| - 1]);
  }

  /** The first direction comes first and the last one last. */
  lemma Extremes(f: Forks)
    requires f.Fork? && Full(f)
    ensures Before(f, FirstDir(f)) == 0
    ensures Before(f, LastDir(f)) + TrieOrder.Under(f, LastDir(f)) == |Items(f)| > 0
  {
    hide Items;
    CountItems(f);
    SomeItems(f);
    SomeItems(f.left);
    SomeItems(f.next);
    SomeItems(f.right);
  }

  function CompletedLast(stack: seq<Turn>): seq<Turn>
    requires Good(stack) && stack != []
  {
    var n := |stack| - 1;
    assert GoodTurn(stack[n]);
    stack[..n] + LastIn(stack[n].fork, stack[n].dir)
  }

  lemma OneGoodLast(pre: seq<Turn>, f: Forks, d: Dir)
    requires Good(pre) && f.Fork? && Full(f) && Has(f, d)
    ensures Good(pre + [Turn(f, d)])
    ensures CompletedLast(pre + [Turn(f, d)]) == pre + LastIn(f, d)
  {
    hide LastIn, Full;
    assert GoodTurn(Turn(f, d));
    assert (pre + [Turn(f, d)])[..|pre|] == pre;
  }

  lemma AtKey(stack: seq<Turn>)
    requires Good(stack) && stack != [] && stack[|stack| - 1].dir == F
    ensures Completed(stack) == stack && CompletedLast(stack) == stack
  {
    var n := |stack| - 1;
    assert GoodTurn(stack[n]);
    assert stack == stack[..n] + [stack[n]];
  }

  /** Where the last direction of the top leads on, or what is left without the top. */
  lemma NextIs(stack: seq<Turn>)
    requires Good(stack) && stack != []
    ensures var n := |stack| - 1; var top := stack[n];
      && GoodTurn(top) && Good(stack[..n])
      && match Later(top.fork, top.dir)
         case None => Next(stack) == Next(stack[..n])
         case Some(d) =>
           && Has(top.fork, d) && GoodTurn(Turn(top.fork, d)) && Good(stack[..n] + [Turn(top.fork, d)])
           && Next(stack) == Completed(stack[..n] + [Turn(top.fork, d)])
  {
    hide FirstIn, Completed, Full;
    var n := |stack| - 1;
    var top := stack[n];
    assert GoodTurn(top);
    Places(top.fork, top.dir);
    if Later(top.fork, top.dir).Some? {
      OneGood(stack[..n], top.fork, Later(top.fork, top.dir).value);
    }
  }

  lemma PreviousIs(stack: seq<Turn>)
    requires Good(stack) && stack != []
    ensures var n := |stack| - 1; var top := stack[n];
      && GoodTurn(top) && Good(stack[..n])
      && match Earlier(top.fork, top.dir)
         case None => Previous(stack) == Previous(stack[..n])
         case Some(d) =>
           && Has(top.fork, d) && GoodTurn(Turn(top.fork, d)) && Good(stack[..n] + [Turn(top.fork, d)])
           && Previous(stack) == CompletedLast(stack[..n] + [Turn(top.fork, d)])
  {
    hide LastIn, CompletedLast, Full;
    var n := |stack| - 1;
    var top := stack[n];
    assert GoodTurn(top);
    Places(top.fork, top.dir);
    if Earlier(top.fork, top.dir).Some? {
      OneGoodLast(stack[..n], top.fork, Earlier(top.fork, top.dir).value);
    }
  }

  lemma NothingMoves()
    ensures Next([]) == [] && Previous([]) == [] && Represents([], [])
  {
  }

  /** The symbols of a key's bytes, most significant byte first; missing bytes count as 0. */
  function Widen(w: nat, raw: seq<byte>): seq<nat>
    requires w > 0
    decreases |raw|
  {
    if raw == [] then [] else [Decode(0, raw, 0, w)] + if |raw| <= w then [] else Widen(w, raw[w..])
  }

  lemma WidenNothing(w: nat)
    requires w > 0
    ensures Widen(w, []) == []
  {
  }

  lemma WidenOne(w: nat, raw: seq<byte>)
    requires w > 0 && raw != []
    ensures Widen(w, raw) == [Decode(0, raw, 0, w)] + if |raw| <= w then [] else Widen(w, raw[w..])
  {
  }

  lemma {:induction false} WidenFlat(w: nat, key: seq<nat>)
    requires IsAnyKey(w, key)
    ensures Widen(w, Flat(SymbolBytes(w, key))) == key
  {
    hide Flat, SymbolBytes, BigEndian, High;
    var raw := Flat(SymbolBytes(w, key));
    FlatLength(w, key);
    if key != [] {
      FirstSymbol(w, key);
      FlatLength(w, key[1..]);
      HighZero(key[0], w);
      DecodeBigEndian(raw, 0, key[0], w);
      WidenFlat(w, key[1..]);
      SomeLength(w, |key[1..]|);
      assert raw[w..] == Flat(SymbolBytes(w, key[1..]));
      assert key == [key[0]] + key[1..];
      if key[1..] == [] {
        assert w * |key[1..]| == 0;
      }
    }
  }

  /** A single zero byte is the empty key. */
  function Shown(raw: seq<byte>): seq<byte> {
    if raw == [0] then [] else raw
  }

  lemma LeastIsFirst(a: seq<byte>, b: seq<byte>)
    ensures a != [] && Less(a, b) ==> b != [0]
  {
    var zero: seq<byte> := [0];
    assert zero[1..] == [];
    if a != [] {
      assert !Less(a[1..], zero[1..]);
      assert !Less(a, zero);
    }
  }

  /** The forks of the bytes, and a key of one zero byte only as the empty key. */
  ghost predicate Fits(s: Schema, data: seq<byte>, emptyValue: Option<nat>, f: Forks) {
    && Holds(s, data, f) && Searchable(f, -1, 256) && PosOf(f) == 0 && (f.Nil? <==> data == [])
    && (Items(f) != [] && Items(f)[0].key == [0] ==> emptyValue.Some?)
  }

  class TImpl {
    const packer: Schema
    const width: nat
    const data: seq<byte>
    const emptyValue: Option<nat>
    var forks: seq<TFork>
    var atEmptyValue: bool
    ghost const root: Forks

    /** TFork's constructor; every fork of saved bytes meets its check of the limit. */
    method MakeFork(offset: nat, ghost f: Forks) returns (fork: TFork)
      requires f.Fork? && Holds(packer, data, f) && f.pos == offset && Full(f)
      ensures fork == Concrete(Turn(f, FirstDir(f)))
    {
      DirectionsMatch(packer, data, f);
      FirstPlace(f);
      assert offset + 1 < |data|;
      var node := ReadNode(packer, data, offset);
      fork := TFork(node, DirectionsOf(node), 0);
    }

    method NextFork(fork: TFork, ghost turn: Turn) returns (next: TFork)
      requires GoodTurn(turn) && fork == Concrete(turn) && turn.dir != F && Holds(packer, data, turn.fork)
      ensures var f := Child(turn.fork, turn.dir); f.Fork? && next == Concrete(Turn(f, FirstDir(f)))
    {
      Places(turn.fork, turn.dir);
      FullChild(turn.fork, turn.dir);
      var offset := match fork.directions[fork.current]
        case L => fork.node.left
        case R => fork.node.right
        case _ => fork.node.forward;
      next := MakeFork(offset, Child(turn.fork, turn.dir));
    }

    /** The fork below the top, in its first direction or its last one. */
    method PushBelow(last: bool, ghost stack: seq<Turn>) returns (ghost more: seq<Turn>)
      requires Ready(stack) && stack[|stack| - 1].dir != F
      modifies this`forks
      ensures Ready(more)
      ensures Child(more[|more| - 1].fork, more[|more| - 1].dir)
        < Child(stack[|stack| - 1].fork, stack[|stack| - 1].dir)
      ensures if last then CompletedLast(more) == CompletedLast(stack) else Completed(more) == Completed(stack)
    {
      hide Represents, AllRead, Completed, CompletedLast, Good, Full, Holds;
      TopIs(packer, data, forks, stack);
      var next := NextFork(forks[|forks| - 1], stack[|stack| - 1]);
      DownOne(packer, data, stack);
      ghost var f := Child(stack[|stack| - 1].fork, stack[|stack| - 1].dir);
      if last {
        next := LastDirection(next, f);
      }
      ghost var turn := Turn(f, if last then LastDir(f) else FirstDir(f));
      PushRepresents(packer, data, forks, stack, turn);
      forks, more := forks + [next], stack + [turn];
      TopIs(packer, data, forks, more);
    }

    /** The top is a fork with a direction. */
    ghost predicate Ready(stack: seq<Turn>)
      reads this`forks
    {
      && stack != [] && |forks| == |stack| && Represents(forks, stack) && AllRead(packer, data, stack) && Good(stack)
      && var top := stack[|stack| - 1];
         && GoodTurn(top) && forks[|forks| - 1].current < |forks[|forks| - 1].directions|
         && forks[|forks| - 1].directions[forks[|forks| - 1].current] == top.dir
    }

    /** Down to the first key below the top. */
    method GoDown(ghost stack: seq<Turn>) returns (ghost done: seq<Turn>)
      requires stack != [] && Represents(forks, stack) && AllRead(packer, data, stack)
      modifies this`forks
      ensures done == Completed(stack) && Represents(forks, done) && AllRead(packer, data, done)
    {
      hide Represents, AllRead, Completed, Good, Full, Holds;
      done := stack;
      TopIs(packer, data, forks, done);
      while forks[|forks| - 1].directions[forks[|forks| - 1].current] != F
        invariant Ready(done) && Completed(done) == Completed(stack)
        decreases Child(done[|done| - 1].fork, done[|done| - 1].dir)
      {
        done := PushBelow(false, done);
      }
      AtKey(done);
    }

    /** Down to the last key below the top. */
    method GoDownLast(ghost stack: seq<Turn>) returns (ghost done: seq<Turn>)
      requires stack != [] && Represents(forks, stack) && AllRead(packer, data, stack)
      modifies this`forks
      ensures done == CompletedLast(stack) && Represents(forks, done) && AllRead(packer, data, done)
    {
      hide Represents, AllRead, CompletedLast, Good, Full, Holds;
      done := stack;
      TopIs(packer, data, forks, done);
      while forks[|forks| - 1].directions[forks[|forks| - 1].current] != F
        invariant Ready(done) && CompletedLast(done) == CompletedLast(stack)
        decreases Child(done[|done| - 1].fork, done[|done| - 1].dir)
      {
        done := PushBelow(true, done);
      }
      AtKey(done);
    }

    static method NextDirection(fork: TFork) returns (ok: bool, next: TFork)
      requires fork.current < |fork.directions|
      ensures next == fork.(current := fork.current + 1) && ok == (next.current < |next.directions|)
    {
      next := fork.(current := fork.current + 1);
      ok := next.current < |next.directions|;
    }

    static method PrevDirection(fork: TFork) returns (ok: bool, next: TFork)
      ensures ok == (fork.current > 0) && next == if ok then fork.(current := fork.current - 1) else fork
    {
      if fork.current > 0 {
        return true, fork.(current := fork.current - 1);
      }
      return false, fork;
    }

    method LastDirection(fork: TFork, ghost f: Forks) returns (last: TFork)
      requires f.Fork? && Full(f) && fork == Concrete(Turn(f, FirstDir(f)))
      ensures last == Concrete(Turn(f, LastDir(f)))
    {
      hide Full;
      FullHas(f);
      FirstPlace(f);
      last := fork;
      var ok := true;
      while ok
        invariant last == fork.(current := last.current)
        invariant if ok then last.current < |last.directions| else last.current == |last.directions|
        decreases |last.directions| - last.current, ok
      {
        ok, last := NextDirection(last);
      }
      ok, last := PrevDirection(last);
    }

    /** On to the next direction of the top, past tops that have none. */
    method MoveOn(ghost stack: seq<Turn>) returns (res: bool, ghost done: seq<Turn>)
      requires stack != [] && Represents(forks, stack) && AllRead(packer, data, stack) && Good(stack)
      modifies this`forks
      ensures Represents(forks, done) && AllRead(packer, data, done) && Good(done) && res == (done != [])
      ensures Next(stack) == if done == [] then [] else Completed(done)
    {
      hide Represents, AllRead, Completed, Good, Full, Holds, Next, Concrete;
      done := stack;
      NothingMoves();
      while true
        invariant done != [] && Represents(forks, done) && AllRead(packer, data, done) && Good(done)
        invariant Next(done) == Next(stack)
        decreases |done|
      {
        TopIs(packer, data, forks, done);
        NextIs(done);
        ghost var n, top := |done| - 1, done[|done| - 1];
        var last := |forks| - 1;
        var ok, fork := NextDirection(forks[last]);
        Places(top.fork, top.dir);
        ConcreteIs(top);
        forks, done := forks[..last], done[..n];
        if ok {
          ghost var turn := Turn(top.fork, Later(top.fork, top.dir).value);
          ConcreteIs(turn);
          PushRepresents(packer, data, forks, done, turn);
          forks, done := forks + [fork], done + [turn];
          return true, done;
        }
        if forks == [] {
          EmptyStack(forks, done);
          return false, done;
        }
        EmptyStack(forks, done);
      }
    }

    /** Back to the previous direction of the top, past tops that have none. */
    method MoveBack(ghost stack: seq<Turn>) returns (res: bool, ghost done: seq<Turn>)
      requires stack != [] && Represents(forks, stack) && AllRead(packer, data, stack) && Good(stack)
      modifies this`forks
      ensures Represents(forks, done) && AllRead(packer, data, done) && Good(done) && res == (done != [])
      ensures Previous(stack) == if done == [] then [] else CompletedLast(done)
    {
      hide Represents, AllRead, CompletedLast, Good, Full, Holds, Previous, Concrete;
      done := stack;
      NothingMoves();
      while true
        invariant done != [] && Represents(forks, done) && AllRead(packer, data, done) && Good(done)
        invariant Previous(done) == Previous(stack)
        decreases |done|
      {
        TopIs(packer, data, forks, done);
        PreviousIs(done);
        ghost var n, top := |done| - 1, done[|done| - 1];
        var last := |forks| - 1;
        var ok, fork := PrevDirection(forks[last]);
        Places(top.fork, top.dir);
        ConcreteIs(top);
        forks, done := forks[..last], done[..n];
        if ok {
          ghost var turn := Turn(top.fork, Earlier(top.fork, top.dir).value);
          ConcreteIs(turn);
          PushRepresents(packer, data, forks, done, turn);
          forks, done := forks + [fork], done + [turn];
          return true, done;
        }
        if forks == [] {
          EmptyStack(forks, done);
          return false, done;
        }
        EmptyStack(forks, done);
      }
    }

    // ---- positions ----

    ghost predicate Valid() {
      Fits(packer, data, emptyValue, root)
    }

    ghost predicate ZeroFirst() {
      Items(root) != [] && Items(root)[0].key == [0]
    }

    /** The empty key of its own comes before all forks. */
    ghost function Shift(): nat {
      if emptyValue.Some? && !ZeroFirst() then 1 else 0
    }

    ghost function Count(): nat {
      |Items(root)| + Shift()
    }

    /** The iterator stands on the `i`-th key, or behind the last. */
    ghost predicate At(i: nat)
      reads this
    {
      && Valid() && i <= Count()
      && if atEmptyValue then i == 0 && forks == [] && emptyValue.Some?
         else if i == Count() then forks == []
         else i >= Shift() && Represents(forks, StackAt(root, i - Shift()))
    }

    lemma RootIs()
      requires Valid()
      ensures Full(root) && (root.Fork? <==> Items(root) != []) && (root.Fork? <==> data != [])
    {
      SearchableIsFull(root, -1, 256);
      SomeItems(root);
    }

    /** The stack of a key is read from the bytes. */
    lemma StackIsRead(f: Forks, i: nat)
      requires Holds(packer, data, f) && Full(f) && i < |Items(f)|
      ensures AllRead(packer, data, StackAt(f, i))
      decreases f
    {
      hide Items, StackAt, Full, Holds;
      ItemsIs(f);
      StackIsGood(f, i);
      StackUnfolds(f, i);
      var d := DirOf(f, i);
      HoldsChild(f, d);
      if d == F {
        assert StackAt(f, i) == [Turn(f, F)];
      } else {
        FullChild(f, d);
        StackIsRead(Child(f, d), i - Before(f, d));
      }
    }

    lemma HoldsChild(f: Forks, d: Dir)
      requires f.Fork? && Holds(packer, data, f)
      ensures Holds(packer, data, Child(f, d))
    {
      hide ReadNode;
    }

    /** On the first key. */
    method ToFirst()
      requires Valid() && root.Fork?
      modifies this`forks
      ensures Items(root) != [] && Represents(forks, StackAt(root, 0))
    {
      hide Items, StackAt, Full, Holds, Represents, AllRead, Completed;
      RootIs();
      var fork := MakeFork(0, root);
      FullHas(root);
      ghost var turn := Turn(root, FirstDir(root));
      NothingRead();
      NothingMoves();
      PushRepresents(packer, data, [], [], turn);
      forks := [fork];
      assert [] + [turn] == [turn] && [] + [Concrete(turn)] == [Concrete(turn)];
      ghost var done := GoDown([turn]);
      OneGood([], root, FirstDir(root));
      FirstIs(root, FirstDir(root));
      Extremes(root);
      assert [] + StackAt(root, 0) == StackAt(root, 0);
    }

    lemma NothingRead()
      ensures AllRead(packer, data, [])
    {
    }

    /** On the last key. */
    method ToLast()
      requires Valid() && root.Fork?
      modifies this`forks
      ensures Items(root) != [] && Represents(forks, StackAt(root, |Items(root)| - 1))
    {
      hide Items, StackAt, Full, Holds, Represents, AllRead, CompletedLast;
      RootIs();
      var fork := MakeFork(0, root);
      FullHas(root);
      fork := LastDirection(fork, root);
      ghost var turn := Turn(root, LastDir(root));
      NothingRead();
      NothingMoves();
      PushRepresents(packer, data, [], [], turn);
      forks := [fork];
      assert [] + [turn] == [turn] && [] + [Concrete(turn)] == [Concrete(turn)];
      ghost var done := GoDownLast([turn]);
      OneGoodLast([], root, LastDir(root));
      LastIs(root, LastDir(root));
      Extremes(root);
      assert [] + StackAt(root, |Items(root)| - 1) == StackAt(root, |Items(root)| - 1);
    }

    /** The stack of the next key, or none behind the last. */
    lemma NextAt(j: nat)
      requires Valid() && j < |Items(root)|
      ensures Good(StackAt(root, j)) && AllRead(packer, data, StackAt(root, j))
      ensures Next(StackAt(root, j)) == if j + 1 < |Items(root)| then StackAt(root, j + 1) else []
    {
      hide Items, StackAt, Full, Holds, AllRead, Next;
      RootIs();
      StackIsRead(root, j);
      StackIsGood(root, j);
      NothingMoves();
      NextStack([], root, j);
      assert [] + StackAt(root, j) == StackAt(root, j);
      if j + 1 < |Items(root)| {
        assert [] + StackAt(root, j + 1) == StackAt(root, j + 1);
      }
    }

    /** From any stack on, and from none to the first key. */
    method ForwardForks(ghost stack: seq<Turn>) returns (res: bool)
      requires Valid() && Represents(forks, stack) && AllRead(packer, data, stack) && Good(stack)
      modifies this`forks
      ensures data == [] ==> !res && forks == old(forks)
      ensures data != [] && stack == [] ==> res && Items(root) != [] && Represents(forks, StackAt(root, 0))
      ensures data != [] && stack != [] ==> res == (Next(stack) != []) && Represents(forks, Next(stack))
    {
      hide Items, StackAt, Full, Holds, Represents, AllRead, Completed, Next;
      RootIs();
      NothingMoves();
      EmptyStack(forks, stack);
      if data == [] {
        return false;
      }
      if forks == [] {
        ToFirst();
        return true;
      }
      ghost var done;
      res, done := MoveOn(stack);
      EmptyStack(forks, done);
      if res {
        SomeStack(done);
        done := GoDown(done);
      }
    }

    lemma SomeStack(stack: seq<Turn>)
      requires Good(stack) && stack != []
      ensures Completed(stack) != [] && CompletedLast(stack) != []
    {
      hide FirstIn, LastIn;
      CompletedIs(stack);
      FirstLastSome(stack[|stack| - 1]);
    }

    lemma FirstLastSome(turn: Turn)
      requires GoodTurn(turn)
      ensures FirstIn(turn.fork, turn.dir) != [] && LastIn(turn.fork, turn.dir) != []
    {
    }

    /** From one key to the previous one. */
    method ToPrevious(ghost j: nat) returns (res: bool)
      requires Valid() && j < |Items(root)| && Represents(forks, StackAt(root, j))
      modifies this`forks
      ensures res == (j > 0)
      ensures if res then Represents(forks, StackAt(root, j - 1)) else forks == []
    {
      hide Items, StackAt, Full, Holds, Represents, AllRead, CompletedLast, Previous;
      RootIs();
      StackIsRead(root, j);
      StackIsGood(root, j);
      NothingMoves();
      PreviousStack([], root, j);
      assert [] + StackAt(root, j) == StackAt(root, j);
      ghost var done;
      res, done := MoveBack(StackAt(root, j));
      EmptyStack(forks, done);
      if res {
        SomeStack(done);
        done := GoDownLast(done);
        if j > 0 {
          assert [] + StackAt(root, j - 1) == StackAt(root, j - 1);
        }
      }
    }

    /** What GetKeyImpl shows on the `j`-th key of the forks. */
    lemma KeyAt(j: nat)
      requires Valid() && j < |Items(root)|
      ensures Good(StackAt(root, j)) && Labels(StackAt(root, j)) == Items(root)[j].key
      ensures Items(root)[j].key != [] && (Items(root)[j].key == [0] ==> j == 0)
    {
      hide Items, StackAt, Full, Holds, Labels;
      RootIs();
      StackSpells(root, j);
      ItemsAscend(root, -1, 256);
      if j > 0 {
        LeastIsFirst(Items(root)[0].key, Items(root)[j].key);
      }
    }

    /** `i` is where the iterator stands. At the end it starts again. */
    method Forward(ghost i: nat) returns (res: bool)
      requires At(i)
      modifies this
      ensures !atEmptyValue
      ensures if i < Count() then At(i + 1) && res == (i + 1 < Count())
              else if data != [] then At(Shift()) && res else At(Count()) && !res
      decreases if atEmptyValue then 1 else 0
    {
      hide Items, StackAt, Full, Holds, Represents, Searchable, Labels;
      RootIs();
      ghost var here := i;
      if atEmptyValue {
        atEmptyValue := false;
        res := Forward(Count());
        var key: seq<byte> := [];
        if res {
          KeyAt(0);
          key := GetKeyImpl(StackAt(root, 0));
        }
        if res && key != [] {
          return res;
        }
        here := Shift();
      }
      ghost var stack := [];
      if forks == [] {
        NoStack(here);
        NothingMoves();
        NothingRead();
      } else {
        SomeForks(here);
        NextAt(here - Shift());
        stack := StackAt(root, here - Shift());
      }
      NoneRepresented();
      res := ForwardForks(stack);
    }

    lemma NoneRepresented()
      ensures forall all :: Represents(all, []) ==> all == []
    {
    }

    lemma NoStack(i: nat)
      requires At(i) && forks == [] && !atEmptyValue
      ensures i == Count()
    {
    }

    lemma SomeForks(i: nat)
      requires At(i) && forks != []
      ensures !atEmptyValue && Shift() <= i < Count() && Represents(forks, StackAt(root, i - Shift()))
    {
    }

    /** Back to the key before; from the first one to the empty key, if there is one, else off the
        keys. */
    method Backward(ghost i: nat) returns (res: bool)
      requires At(i)
      modifies this
      ensures res == (!old(atEmptyValue) && (i > 0 || emptyValue.Some?))
      ensures At(if res then if i == 0 then 0 else i - 1 else if old(atEmptyValue) then 0 else Count())
    {
      hide Items, StackAt, Full, Holds, Represents, Searchable, Labels;
      RootIs();
      if atEmptyValue {
        return false;
      }
      if data == [] {
        NoStackYet(i);
        if emptyValue.Some? {
          forks, atEmptyValue := [], true;
          return true;
        }
        return false;
      }
      ghost var j := 0;
      if forks == [] {
        NoStack(i);
        ToLast();
        j := |Items(root)| - 1;
      } else {
        SomeForks(i);
        j := i - Shift();
        res := ToPrevious(j);
        if !res {
          if emptyValue.None? {
            return false;
          }
          atEmptyValue := true;
          return true;
        }
        j := j - 1;
      }
      KeyAt(j);
      var key := GetKeyImpl(StackAt(root, j));
      if key == [] {
        forks, atEmptyValue := [], true;
      }
      res := true;
    }

    lemma NoStackYet(i: nat)
      requires At(i) && data == [] && !atEmptyValue
      ensures i == Count() == Shift() && forks == []
    {
      RootIs();
    }

    // ---- the upper bound ----

    method SetDirection(fork: TFork, direction: Dir, ghost f: Forks) returns (ok: bool, turned: TFork)
      requires f.Fork? && fork == Concrete(Turn(f, FirstDir(f)))
      ensures ok == Has(f, direction) && turned == if ok then Concrete(Turn(f, direction)) else fork
    {
      hide Concrete;
      ConcreteIs(Turn(f, FirstDir(f)));
      ConcreteIs(Turn(f, direction));
      PlaceIs(f, direction);
      var pos := 0;
      while pos < |fork.directions| && fork.directions[pos] != direction
        invariant pos <= |fork.directions| && forall k | 0 <= k < pos :: fork.directions[k] != direction
      {
        pos := pos + 1;
      }
      if pos < |fork.directions| {
        return true, fork.(current := pos);
      }
      return false, fork;
    }

    lemma PlaceIs(f: Forks, d: Dir)
      requires f.Fork?
      ensures Has(f, d) <==> d in Dirs(f)
      ensures Has(f, d) ==> PlaceOf(f, d) < |Dirs(f)| && Dirs(f)[PlaceOf(f, d)] == d
      ensures forall k | 0 <= k < |Dirs(f)| && Dirs(f)[k] == d :: k == PlaceOf(f, d)
    {
    }

    /** The search of `q` from the fork `f` on, below `stack`, is all that is left of a search. */
    ghost predicate Seeking(stack: seq<Turn>, f: Forks, q: seq<byte>, all: Search) {
      f.Fork? && q != [] && all == Search(stack + Longest(f, q).stack, Longest(f, q).defect)
    }

    lemma SeekOn(stack: seq<Turn>, f: Forks, q: seq<byte>, all: Search, d: Dir)
      requires Seeking(stack, f, q, all) && Has(f, d)
      ensures d == L && q[0] < f.label_ ==> Seeking(stack + [Turn(f, d)], f.left, q, all)
      ensures d == R && q[0] > f.label_ ==> Seeking(stack + [Turn(f, d)], f.right, q, all)
      ensures d == N && q[0] == f.label_ && |q| > 1 ==> Seeking(stack + [Turn(f, d)], f.next, q[1..], all)
    {
      hide Longest;
      LongestIs(f, q);
      forall more: seq<Turn> ensures stack + ([Turn(f, d)] + more) == stack + [Turn(f, d)] + more {}
    }

    lemma SeekEnds(stack: seq<Turn>, f: Forks, q: seq<byte>, all: Search)
      requires Seeking(stack, f, q, all)
      ensures q[0] < f.label_ && f.left.Nil? ==> all == Search(stack + [Turn(f, FirstDir(f))], 1)
      ensures q[0] > f.label_ && f.right.Nil? ==> all == Search(stack, -1)
      ensures q[0] == f.label_ && |q| == 1 && f.leaf.Some? ==> all == Search(stack + [Turn(f, F)], 0)
      ensures q[0] == f.label_ && |q| == 1 && f.leaf.None? ==> all == Search(stack + [Turn(f, N)], 1)
      ensures q[0] == f.label_ && |q| > 1 && f.next.Nil? ==> all == Search(stack + [Turn(f, F)], -1)
    {
      assert stack + [] == stack;
    }

    /** The forks on the way to a key, and the search's defect. */
    method LongestPrefix(key: seq<nat>) returns (defect: int, ghost found: seq<Turn>)
      requires Valid() && root.Fork? && width > 0
      modifies this`forks
      ensures Represents(forks, found) && AllRead(packer, data, found)
      ensures Search(found, defect) ==
        if key == [] then Search([Turn(root, FirstDir(root))], 1) else Longest(root, Flat(SymbolBytes(width, key)))
    {
      hide Longest, Represents, AllRead, Full, Holds, Concrete, Flat, SymbolBytes, Items, Searchable, Seeking, SymbolByte;
      RootIs();
      ghost var bytes := Flat(SymbolBytes(width, key));
      FlatLength(width, key);
      SomeLength(width, |key|);
      ghost var f, all := root, if key == [] then Search([], 0) else Longest(root, bytes);
      forks, found := [], [];
      NothingRead();
      NothingMoves();
      SeekStarts(root, bytes);
      var next := MakeFork(0, root);
      for i := 0 to |key|
        invariant Represents(forks, found) && AllRead(packer, data, found)
        invariant f.Fork? && Full(f) && Holds(packer, data, f) && next == Concrete(Turn(f, FirstDir(f)))
        invariant key == [] ==> f == root && found == []
        invariant key != [] ==> width * i < |bytes| && Seeking(found, f, bytes[width * i..], all)
      {
        for j := 0 to width
          invariant Represents(forks, found) && AllRead(packer, data, found)
          invariant f.Fork? && Full(f) && Holds(packer, data, f) && next == Concrete(Turn(f, FirstDir(f)))
          invariant width * i + j < |bytes| && Seeking(found, f, bytes[width * i + j..], all)
        {
          NextByte(width, key, i, j);
          LastByte(width, key, i, j);
          var label_, isLastByte := SymbolByte(key[i], width, j), i + 1 == |key| && j + 1 == width;
          var done;
          done, defect, next, found, f := OneByte(label_, isLastByte, next, found, f, bytes[width * i + j..], all);
          if done {
            return;
          }
          assert bytes[width * i + j..][1..] == bytes[width * i + j + 1..];
        }
        assert width * (i + 1) == width * i + width;
      }
      FullHas(f);
      PushRepresents(packer, data, forks, found, Turn(f, FirstDir(f)));
      forks, found := forks + [next], found + [Turn(f, FirstDir(f))];
      defect := 1;
    }

    lemma SeekStarts(f: Forks, bytes: seq<byte>)
      requires f.Fork?
      ensures bytes != [] ==> Seeking([], f, bytes, Longest(f, bytes))
      ensures bytes[0..] == bytes
    {
      if bytes != [] {
        assert [] + Longest(f, bytes).stack == Longest(f, bytes).stack;
      }
    }

    lemma LastByte(w: nat, key: seq<nat>, i: nat, j: nat)
      requires i < |key| && j < w
      ensures |Flat(SymbolBytes(w, key))| == w * |key|
      ensures w * i + j + 1 <= w * |key| && (w * i + j + 1 == w * |key| <==> i + 1 == |key| && j + 1 == w)
    {
      FlatLength(w, key);
      assert w * (i + 1) == w * i + w;
      MulMonotone(w, i + 1, |key|);
    }

    method Push(fork: TFork, ghost stack: seq<Turn>, ghost f: Forks, ghost d: Dir)
      requires Represents(forks, stack) && AllRead(packer, data, stack)
      requires f.Fork? && Full(f) && Has(f, d) && Holds(packer, data, f) && fork == Concrete(Turn(f, d))
      modifies this`forks
      ensures GoodTurn(Turn(f, d))
      ensures Represents(forks, stack + [Turn(f, d)]) && AllRead(packer, data, stack + [Turn(f, d)])
    {
      hide Represents, AllRead, Full, Holds, Concrete;
      assert GoodTurn(Turn(f, d));
      PushRepresents(packer, data, forks, stack, Turn(f, d));
      forks := forks + [fork];
    }

    /** The inner loop: left and right until the label is the byte or there is no way. */
    method OneByte(label_: byte, isLastByte: bool, next: TFork, ghost stack: seq<Turn>, ghost f: Forks, ghost q: seq<byte>,
        ghost all: Search) returns (done: bool, defect: int, next': TFork, ghost stack': seq<Turn>, ghost f': Forks)
      requires Represents(forks, stack) && AllRead(packer, data, stack) && Seeking(stack, f, q, all)
      requires f.Fork? && Full(f) && Holds(packer, data, f) && next == Concrete(Turn(f, FirstDir(f)))
      requires q != [] && q[0] == label_ && (isLastByte <==> |q| == 1)
      modifies this`forks
      ensures Represents(forks, stack') && AllRead(packer, data, stack')
      ensures done ==> Search(stack', defect) == all
      ensures !done ==> !isLastByte && Seeking(stack', f', q[1..], all)
      ensures f'.Fork? && Full(f') && Holds(packer, data, f') && next' == Concrete(Turn(f', FirstDir(f')))
    {
      hide Represents, AllRead, Full, Holds, Concrete, Seeking, Searchable;
      done, defect, next', stack', f' := false, 0, next, stack, f;
      while true
        invariant Represents(forks, stack') && AllRead(packer, data, stack') && Seeking(stack', f', q, all)
        invariant f'.Fork? && Full(f') && Holds(packer, data, f') && next' == Concrete(Turn(f', FirstDir(f')))
        decreases f'
      {
        var ok, top;
        FullHas(f');
        SeekEnds(stack', f', q, all);
        ConcreteIs(Turn(f', FirstDir(f')));
        var d := L;
        if label_ < next'.node.label_ {
          ok, top := SetDirection(next', L, f');
          if !ok {
            Push(next', stack', f', FirstDir(f'));
            return true, 1, next', stack' + [Turn(f', FirstDir(f'))], f';
          }
        } else if label_ > next'.node.label_ {
          ok, top := SetDirection(next', R, f');
          if !ok {
            return true, -1, next', stack', f';
          }
          d := R;
        } else if isLastByte {
          ok, top := SetDirection(next', F, f');
          if ok {
            Push(top, stack', f', F);
            return true, 0, next', stack' + [Turn(f', F)], f';
          }
          ok, top := SetDirection(next', N, f');
          Push(top, stack', f', N);
          return true, 1, next', stack' + [Turn(f', N)], f';
        } else {
          ok, top := SetDirection(next', N, f');
          if !ok {
            ok, top := SetDirection(next', F, f');
            Push(top, stack', f', F);
            return true, -1, next', stack' + [Turn(f', F)], f';
          }
          d := N;
        }
        SeekOn(stack', f', q, all, d);
        Push(top, stack', f', d);
        var below := NextFork(top, Turn(f', d));
        HoldsChild(f', d);
        FullChild(f', d);
        stack', f', next' := stack' + [Turn(f', d)], Child(f', d), below;
        if d == N {
          return;
        }
      }
    }

    /** The search has left the last fork to the right at once: Forward then finds no forks and
        starts with the first key. */
    ghost predicate Restarts(key: seq<nat>)
      requires width > 0
    {
      && key != [] && root.Fork? && root.right.Nil?
      && Flat(SymbolBytes(width, key)) != [] && Flat(SymbolBytes(width, key))[0] > root.label_
    }

    /** Where the search for the smallest key not below `key` ends. */
    ghost function UpperIndex(key: seq<nat>): nat
      requires width > 0
    {
      var q := Flat(SymbolBytes(width, key));
      if key == [] || q == [] then 0 else if Restarts(key) then Shift() else LowerIndex(root, q) + Shift()
    }

    lemma BoundAt(key: seq<nat>)
      requires Valid() && root.Fork? && width > 0 && key != []
      ensures var q := Flat(SymbolBytes(width, key));
        && q != [] && var found := Longest(root, q);
        && Good(found.stack) && (found.defect >= 0 ==> found.stack != [])
        && LowerIndex(root, q) <= |Items(root)|
        && (found.stack == [] <==> Restarts(key))
        && Outcome(found.stack, found.defect)
           == (if LowerIndex(root, q) < |Items(root)| then StackAt(root, LowerIndex(root, q)) else [])
        && (found.defect == 0 <==> FindItem(root, q).Some?)
        && (found.stack == [] ==> found.defect < 0)
    {
      hide Items, StackAt, Full, Holds, Next, Flat, SymbolBytes, LowerIndex, FindItem, Completed, Outcome, Longest;
      RootIs();
      FlatSome(width, key);
      var q := Flat(SymbolBytes(width, key));
      NothingMoves();
      BoundStack([], root, q);
      LowerFits(root, q);
      LongestIs(root, q);
      assert [] + Longest(root, q).stack == Longest(root, q).stack;
      if LowerIndex(root, q) < |Items(root)| {
        assert [] + StackAt(root, LowerIndex(root, q)) == StackAt(root, LowerIndex(root, q));
      }
    }

    method UpperBound(key: seq<nat>) returns (matched: bool)
      requires Valid() && root.Fork? && width > 0 && !atEmptyValue && (key == [] ==> emptyValue.None?)
      modifies this`forks
      ensures At(UpperIndex(key))
      ensures matched <==> key != [] && Flat(SymbolBytes(width, key)) != [] && FindItem(root, Flat(SymbolBytes(width, key))).Some?
    {
      hide Items, StackAt, Full, Holds, Represents, AllRead, Completed, Next, Longest, LowerIndex, Flat, SymbolBytes, FindItem, Searchable;
      RootIs();
      var defect;
      ghost var found;
      defect, found := LongestPrefix(key);
      if key == [] {
        FirstWay();
      } else {
        BoundAt(key);
      }
      GoodRead(found);
      NothingMoves();
      NoneRepresented();
      if defect > 0 {
        ghost var done := GoDown(found);
      } else if defect < 0 {
        var res := ForwardForks(found);
      }
      matched := defect == 0;
    }

    lemma GoodRead(stack: seq<Turn>)
      requires AllRead(packer, data, stack)
      ensures Good(stack)
    {
    }

    lemma FirstWay()
      requires Valid() && root.Fork?
      ensures Good([Turn(root, FirstDir(root))]) && Items(root) != []
      ensures Completed([Turn(root, FirstDir(root))]) == StackAt(root, 0)
    {
      hide Items, StackAt, Full, Holds, Completed;
      RootIs();
      FullHas(root);
      NothingMoves();
      OneGood([], root, FirstDir(root));
      FirstIs(root, FirstDir(root));
      Extremes(root);
      assert [] + [Turn(root, FirstDir(root))] == [Turn(root, FirstDir(root))];
      assert [] + StackAt(root, 0) == StackAt(root, 0);
    }

    // ---- as the trie makes them ----

    /** Begin and End. */
    constructor (packer: Schema, width: nat, data: seq<byte>, emptyValue: Option<nat>, atend: bool, ghost root: Forks)
      requires Fits(packer, data, emptyValue, root)
      ensures this.packer == packer && this.width == width && this.data == data && this.emptyValue == emptyValue && this.root == root
      ensures Valid() && At(if atend then Count() else 0)
    {
      this.packer, this.width, this.data, this.emptyValue, this.root := packer, width, data, emptyValue, root;
      forks, atEmptyValue := [], emptyValue.Some? && !atend;
      new;
      RootIs();
      if !atEmptyValue && !atend {
        var _ := Forward(Count());
      }
    }

    constructor FromKey(packer: Schema, width: nat, data: seq<byte>, emptyValue: Option<nat>, key: seq<nat>, ghost root: Forks)
      requires Fits(packer, data, emptyValue, root) && width > 0
      ensures this.packer == packer && this.width == width && this.data == data && this.emptyValue == emptyValue && this.root == root
      ensures Valid() && At(UpperIndex(key))
    {
      this.packer, this.width, this.data, this.emptyValue, this.root := packer, width, data, emptyValue, root;
      forks, atEmptyValue := [], emptyValue.Some? && key == [];
      new;
      RootIs();
      if !atEmptyValue && data != [] {
        var _ := UpperBound(key);
      } else if key != [] {
        NoLower(key);
      }
    }

    lemma NoLower(key: seq<nat>)
      requires Valid() && width > 0 && key != [] && data == []
      ensures UpperIndex(key) == Count()
    {
      FlatSome(width, key);
    }

    /** The labels of the way, unless they are the empty key. */
    method GetKeyImpl(ghost stack: seq<Turn>) returns (result: seq<byte>)
      requires Represents(forks, stack)
      ensures result == Shown(Labels(stack))
    {
      result := [];
      for i := 0 to |forks|
        invariant result == Labels(stack[..i])
      {
        assert GoodTurn(stack[i]);
        Places(stack[i].fork, stack[i].dir);
        assert stack[..i + 1][..i] == stack[..i];
        if forks[i].directions[forks[i].current] == N || forks[i].directions[forks[i].current] == F {
          result := result + [forks[i].node.label_];
        }
      }
      assert stack[..|forks|] == stack;
      if |result| == 1 && result[0] == 0 {
        result := [];
      }
    }

    static method WidenKey(width: nat, rawkey: seq<byte>) returns (result: seq<nat>)
      requires width > 0
      ensures result == Widen(width, rawkey)
    {
      hide Widen, Decode;
      result := [];
      var i := 0;
      WidenNothing(width);
      assert rawkey[0..] == rawkey;
      while i < |rawkey|
        invariant result + (if i < |rawkey| then Widen(width, rawkey[i..]) else []) == Widen(width, rawkey)
      {
        WidenOne(width, rawkey[i..]);
        var sym := ReadSymbol(width, rawkey, i);
        result := result + [sym];
        assert i + width < |rawkey| ==> rawkey[i..][width..] == rawkey[i + width..];
        i := i + width;
      }
    }

    static method ReadSymbol(width: nat, rawkey: seq<byte>, i: nat) returns (sym: nat)
      requires i < |rawkey|
      ensures sym == Decode(0, rawkey[i..], 0, width)
    {
      sym := 0;
      for j := 0 to width
        invariant sym == Decode(0, rawkey[i..], 0, j)
      {
        sym := 256 * sym;
        if i + j < |rawkey| {
          sym := sym + rawkey[i + j];
        }
      }
    }

    /** The bytes of the key that the iterator stands on. */
    ghost function RawKey(i: nat): seq<byte>
      requires Shift() <= i ==> i - Shift() < |Items(root)|
    {
      if i < Shift() then [] else Shown(Items(root)[i - Shift()].key)
    }

    method GetKey(ghost i: nat) returns (key: seq<nat>)
      requires At(i) && i < Count() && width > 0
      ensures key == Widen(width, RawKey(i))
    {
      hide Items, StackAt, Full, Holds, Represents, Searchable, Labels;
      RootIs();
      ghost var stack := [];
      if forks == [] {
        NothingMoves();
        NothingSpelled();
        NoForksHere(i);
      } else {
        SomeForks(i);
        KeyAt(i - Shift());
        stack := StackAt(root, i - Shift());
      }
      var raw := GetKeyImpl(stack);
      key := WidenKey(width, raw);
    }

    /** At the end, and only there, the iterator has no forks and is not at the empty key. */
    lemma Ended(i: nat)
      requires At(i)
      ensures i == Count() <==> forks == [] && !atEmptyValue
    {
      hide Items, Holds, Searchable;
      RootIs();
      forall j: nat | j < |Items(root)| ensures forks == [] ==> !Represents(forks, StackAt(root, j)) {}
    }

    lemma EmptyIsFirst(i: nat)
      requires At(i)
      ensures i <= Count() && (atEmptyValue ==> i == 0)
    {
    }

    lemma NothingSpelled()
      ensures Labels([]) == []
    {
    }

    lemma NoForksHere(i: nat)
      requires At(i) && i < Count() && forks == []
      ensures atEmptyValue && i == 0
      ensures Shift() == 0 ==> Items(root) != [] && Items(root)[0].key == [0]
    {
      hide Items, Holds, Searchable;
      RootIs();
      forall j: nat | j < |Items(root)| ensures forks == [] ==> !Represents(forks, StackAt(root, j)) {}
    }

    /** The place of the value: the empty key's own, or that of the last fork. */
    method GetValuePtr(ghost i: nat) returns (ptr: Option<nat>)
      requires At(i) && i < Count()
      ensures ptr == if atEmptyValue then emptyValue else if i >= Shift() then Some(Items(root)[i - Shift()].pos) else None
      ensures ptr.Some?
    {
      hide Items, StackAt, Full, Holds, Represents, Searchable;
      RootIs();
      if forks != [] {
        SomeForks(i);
        StackIsGood(root, i - Shift());
        StackIsRead(root, i - Shift());
        TopIs(packer, data, forks, StackAt(root, i - Shift()));
        return forks[|forks| - 1].node.leaf;
      }
      NoForksHere(i);
      ptr := emptyValue;
    }

    method GetValue(ghost i: nat) returns (value: Value)
      requires At(i) && i < Count()
      ensures var ptr := if atEmptyValue then emptyValue else if i >= Shift() then Some(Items(root)[i - Shift()].pos) else None;
        ptr.Some? && value == Unpack(packer, data, ptr.value)
    {
      var ptr := GetValuePtr(i);
      value := Unpack(packer, data, ptr.value);
    }

    method Equals(that: TImpl) returns (r: bool)
      ensures r <==> data == that.data && forks == that.forks && emptyValue == that.emptyValue && atEmptyValue == that.atEmptyValue
    {
      r := data == that.data && forks == that.forks && emptyValue == that.emptyValue && atEmptyValue == that.atEmptyValue;
    }
  }

  lemma ConcreteIs(turn: Turn)
    requires turn.fork.Fork?
    ensures Concrete(turn) == TFork(NodeOf(turn.fork), Dirs(turn.fork), PlaceOf(turn.fork, turn.dir))
  {
  }

  lemma EmptyStack(forks: seq<TFork>, stack: seq<Turn>)
    requires Represents(forks, stack)
    ensures forks == [] <==> stack == []
    ensures Good(stack)
  {
  }
}
