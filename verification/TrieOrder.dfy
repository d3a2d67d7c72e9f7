/** The order in which forks are gone through: the keys below them in ascending order, the stack of
    forks that stands for each, and how one stack follows another. */
module TrieOrder {
  import opened Wrappers
  import opened Bytes
  import opened TrieForks

  // ---- keys in order ----

  /** A key and where its value stands. */
  datatype Item = Item(key: seq<byte>, pos: nat)

  function Prefixed(b: byte, items: seq<Item>): (r: seq<Item>)
    ensures |r| == |items| && forall i | 0 <= i < |r| :: r[i] == Item([b] + items[i].key, items[i].pos)
  {
    if items == [] then [] else [Item([b] + items[0].key, items[0].pos)] + Prefixed(b, items[1..])
  }

  function Own(f: Forks): (r: seq<Item>)
    requires f.Fork?
    ensures |r| <= 1
  {
    if f.leaf.Some? then [Item([f.label_], f.leaf.value)] else []
  }

  function Items(f: Forks): seq<Item> {
    if f.Nil? then [] else Items(f.left) + Own(f) + Prefixed(f.label_, Items(f.next)) + Items(f.right)
  }

  /** Byte strings in unsigned order. */
  predicate Less(a: seq<byte>, b: seq<byte>) {
    b != [] && (a == [] || a[0] < b[0] || (a[0] == b[0] && Less(a[1..], b[1..])))
  }

  lemma {:induction false} LessIrreflexive(a: seq<byte>)
    ensures !Less(a, a)
  {
    if a != [] {
      LessIrreflexive(a[1..]);
    }
  }

  lemma {:induction false} LessTransitive(a: seq<byte>, b: seq<byte>, c: seq<byte>)
    requires Less(a, b) && Less(b, c)
    ensures Less(a, c)
  {
    if a != [] && a[0] == b[0] == c[0] {
      LessTransitive(a[1..], b[1..], c[1..]);
    }
  }

  lemma {:induction false} LessTotal(a: seq<byte>, b: seq<byte>)
    ensures a == b || Less(a, b) || Less(b, a)
  {
    if a != [] && b != [] && a[0] == b[0] {
      LessTotal(a[1..], b[1..]);
      assert a == [a[0]] + a[1..] && b == [b[0]] + b[1..];
    }
  }

  ghost predicate Ascending(items: seq<Item>) {
    forall i, j | 0 <= i < j < |items| :: Less(items[i].key, items[j].key)
  }

  /** First bytes strictly between the bounds. */
  ghost predicate Within(items: seq<Item>, lo: int, hi: int) {
    forall i | 0 <= i < |items| :: items[i].key != [] && lo < items[i].key[0] as int < hi
  }

  lemma Joined(a: seq<Item>, b: seq<Item>, lo: int, mid: int, hi: int)
    requires Ascending(a) && Ascending(b) && Within(a, lo, mid) && Within(b, mid - 1, hi) && lo < mid <= hi
    ensures Ascending(a + b) && Within(a + b, lo, hi)
  {
    forall i, j | 0 <= i < j < |a + b| ensures Less((a + b)[i].key, (a + b)[j].key) {
      if i < |a| <= j {
        assert (a + b)[i] == a[i] && (a + b)[j] == b[j - |a|];
      }
    }
  }

  lemma LessBehind(b: byte, x: seq<byte>, y: seq<byte>)
    ensures Less([b] + x, [b] + y) <==> Less(x, y)
    ensures Less([b], [b] + y) <==> y != []
  {
    assert ([b] + x)[1..] == x && ([b] + y)[1..] == y && [b][1..] == [];
  }

  lemma OwnThenNext(b: byte, own: seq<Item>, next: seq<Item>)
    requires Ascending(next) && Within(next, -1, 256) && |own| <= 1 && (own != [] ==> own[0].key == [b])
    ensures Ascending(own + Prefixed(b, next)) && Within(own + Prefixed(b, next), b as int - 1, b as int + 1)
  {
    hide Less;
    var all, n := own + Prefixed(b, next), |own|;
    forall k | n <= k < |all| ensures all[k].key == [b] + next[k - n].key {}
    forall i, j | 0 <= i < j < |all| ensures Less(all[i].key, all[j].key) {
      LessBehind(b, if i < n then [] else next[i - n].key, next[j - n].key);
    }
  }

  lemma ItemsIs(f: Forks)
    ensures f.Nil? ==> Items(f) == [] && Ascending([]) && forall lo, hi :: Within([], lo, hi)
    ensures f.Fork? ==> Items(f) == Items(f.left) + (Own(f) + Prefixed(f.label_, Items(f.next))) + Items(f.right)
  {
  }

  lemma {:induction false} ItemsAscend(f: Forks, lo: int, hi: int)
    requires Searchable(f, lo, hi) && lo < hi
    ensures Ascending(Items(f)) && Within(Items(f), lo, hi)
  {
    hide Less, Items, Ascending, Within;
    ItemsIs(f);
    if f.Fork? {
      var b := f.label_ as int;
      ItemsAscend(f.left, lo, b);
      ItemsAscend(f.next, -1, 256);
      ItemsAscend(f.right, b, hi);
      var own := Own(f) + Prefixed(f.label_, Items(f.next));
      OwnThenNext(f.label_, Own(f), Items(f.next));
      Joined(Items(f.left), own, lo, b, b + 1);
      Joined(Items(f.left) + own, Items(f.right), lo, b + 1, hi);
    }
  }

  // ---- looking a key up ----

  /** The fork with the label `b`, going left and right. */
  function ForkOf(f: Forks, b: byte): Forks {
    if f.Nil? || b == f.label_ then f else if b < f.label_ then ForkOf(f.left, b) else ForkOf(f.right, b)
  }

  function FindItem(f: Forks, key: seq<byte>): Option<nat>
    requires key != []
    decreases |key|
  {
    var g := ForkOf(f, key[0]);
    if g.Nil? then None else if |key| == 1 then g.leaf else FindItem(g.next, key[1..])
  }

  lemma {:induction false} ItemsFound(f: Forks, lo: int, hi: int, key: seq<byte>, pos: nat)
    requires Searchable(f, lo, hi) && lo < hi && key != []
    ensures Item(key, pos) in Items(f) <==> FindItem(f, key) == Some(pos)
    decreases f
  {
    hide Less, Items, Ascending, Within;
    ItemsIs(f);
    if f.Fork? {
      var b := f.label_ as int;
      ItemsFound(f.left, lo, b, key, pos);
      ItemsFound(f.right, b, hi, key, pos);
      if |key| > 1 {
        ItemsFound(f.next, -1, 256, key[1..], pos);
      }
      ItemsAscend(f.left, lo, b);
      ItemsAscend(f.right, b, hi);
      NotWithin(Items(f.left), lo, b, key, pos);
      NotWithin(Items(f.right), b, hi, key, pos);
      ItemsAscend(f.next, -1, 256);
      InPrefixed(f.label_, Items(f.next), key, pos);
      NotWithin(Items(f.next), -1, 256, [], pos);
      InOwn(f, key, pos);
      InParts(Items(f.left), Own(f), Prefixed(f.label_, Items(f.next)), Items(f.right), Item(key, pos));
      FindBeside(f, key);
    }
  }

  lemma InParts(a: seq<Item>, b: seq<Item>, c: seq<Item>, d: seq<Item>, x: Item)
    ensures x in a + (b + c) + d <==> x in a || x in b || x in c || x in d
  {
  }

  lemma InOwn(f: Forks, key: seq<byte>, pos: nat)
    requires f.Fork?
    ensures Item(key, pos) in Own(f) <==> key == [f.label_] && f.leaf == Some(pos)
  {
  }

  lemma NotWithin(items: seq<Item>, lo: int, hi: int, key: seq<byte>, pos: nat)
    requires Within(items, lo, hi)
    ensures Item(key, pos) in items ==> key != [] && lo < key[0] as int < hi
  {
  }

  lemma FindBeside(f: Forks, key: seq<byte>)
    requires f.Fork? && key != []
    ensures FindItem(f, key) == if key[0] < f.label_ then FindItem(f.left, key) else if key[0] > f.label_ then FindItem(f.right, key)
      else if |key| == 1 then f.leaf else FindItem(f.next, key[1..])
  {
  }

  lemma InPrefixed(b: byte, items: seq<Item>, key: seq<byte>, pos: nat)
    requires key != []
    ensures Item(key, pos) in Prefixed(b, items) <==> key[0] == b && Item(key[1..], pos) in items
  {
    var all := Prefixed(b, items);
    if key[0] == b && Item(key[1..], pos) in items {
      var i :| 0 <= i < |items| && items[i] == Item(key[1..], pos);
      assert key == [b] + key[1..];
      assert all[i] == Item(key, pos);
    }
    if Item(key, pos) in all {
      var i :| 0 <= i < |all| && all[i] == Item(key, pos);
      assert key[1..] == items[i].key;
    }
  }

  // ---- stacks of forks ----

  /** 'L', 'F', 'N' and 'R': to the left, the key that ends here, behind the label, to the right. */
  datatype Dir = L | F | N | R

  datatype Turn = Turn(fork: Forks, dir: Dir)

  predicate Has(f: Forks, d: Dir)
    requires f.Fork?
  {
    match d
    case L => f.left.Fork?
    case F => f.leaf.Some?
    case N => f.next.Fork?
    case R => f.right.Fork?
  }

  function Child(f: Forks, d: Dir): Forks
    requires f.Fork?
  {
    match d case L => f.left case F => Nil case N => f.next case R => f.right
  }

  /** A key ends at or behind every fork. */
  predicate Full(f: Forks) {
    f.Fork? ==> (f.leaf.Some? || f.next.Fork?) && Full(f.left) && Full(f.next) && Full(f.right)
  }

  lemma {:induction false} SearchableIsFull(f: Forks, lo: int, hi: int)
    requires Searchable(f, lo, hi)
    ensures Full(f)
  {
    if f.Fork? {
      SearchableIsFull(f.left, lo, f.label_ as int);
      SearchableIsFull(f.next, -1, 256);
      SearchableIsFull(f.right, f.label_ as int, hi);
    }
  }

  lemma {:induction false} SomeItems(f: Forks)
    requires Full(f)
    ensures f.Fork? <==> |Items(f)| > 0
  {
    if f.Fork? {
      SomeItems(f.next);
    }
  }

  /** The directions of a fork in their order. */
  function Dirs(f: Forks): seq<Dir>
    requires f.Fork?
  {
    (if f.left.Fork? then [L] else []) + (if f.leaf.Some? then [F] else [])
      + (if f.next.Fork? then [N] else []) + (if f.right.Fork? then [R] else [])
  }

  /** The keys that come before those in a direction, and those in it. */
  function Before(f: Forks, d: Dir): nat
    requires f.Fork?
  {
    match d
    case L => 0
    case F => |Items(f.left)|
    case N => |Items(f.left)| + |Own(f)|
    case R => |Items(f.left)| + |Own(f)| + |Items(f.next)|
  }

  function Under(f: Forks, d: Dir): nat
    requires f.Fork?
  {
    if d == F then |Own(f)| else |Items(Child(f, d))|
  }

  lemma CountItems(f: Forks)
    requires f.Fork?
    ensures |Items(f)| == |Items(f.left)| + |Own(f)| + |Items(f.next)| + |Items(f.right)|
  {
  }

  /** The direction in which the `i`-th key lies. */
  function DirOf(f: Forks, i: nat): Dir
    requires f.Fork?
  {
    if i < Before(f, F) then L else if i < Before(f, N) then F else if i < Before(f, R) then N else R
  }

  /** The forks on the way to the `i`-th key. */
  function StackAt(f: Forks, i: nat): (r: seq<Turn>)
    requires i < |Items(f)|
    ensures r != []
    decreases f
  {
    var d := DirOf(f, i);
    if d == F then [Turn(f, F)]
    else [Turn(f, d)] + StackAt(Child(f, d), i - Before(f, d))
  }

  ghost predicate Good(stack: seq<Turn>) {
    forall k | 0 <= k < |stack| :: GoodTurn(stack[k])
  }

  ghost predicate GoodTurn(turn: Turn) {
    turn.fork.Fork? && Full(turn.fork) && Has(turn.fork, turn.dir)
  }

  lemma StackUnfolds(f: Forks, i: nat)
    requires f.Fork? && i < |Items(f)|
    ensures var d := DirOf(f, i); var j := i - Before(f, d);
      && j >= 0 && j < Under(f, d)
      && StackAt(f, i) == [Turn(f, d)] + if d == F then [] else StackAt(Child(f, d), j)
  {
    hide Items;
    CountItems(f);
  }

  lemma {:induction false} StackIsGood(f: Forks, i: nat)
    requires Full(f) && i < |Items(f)|
    ensures Good(StackAt(f, i)) && StackAt(f, i)[0].fork == f
    ensures var top := StackAt(f, i)[|StackAt(f, i)| - 1];
      top.dir == F && GoodTurn(top) && Items(f)[i].pos == top.fork.leaf.value
    decreases f
  {
    hide Items, StackAt, Full;
    ItemsIs(f);
    StackUnfolds(f, i);
    ItemAt(f, i);
    var d := DirOf(f, i);
    HasSome(f, d);
    if d == F {
      assert StackAt(f, i) == [Turn(f, F)];
    } else {
      var j := i - Before(f, d);
      FullChild(f, d);
      StackIsGood(Child(f, d), j);
      OneOnTop(Turn(f, d), StackAt(Child(f, d), j));
    }
  }

  lemma HasSome(f: Forks, d: Dir)
    requires f.Fork? && Full(f) && Under(f, d) > 0
    ensures GoodTurn(Turn(f, d))
  {
    FullChild(f, d);
    SomeItems(Child(f, d));
  }

  lemma OneOnTop(turn: Turn, stack: seq<Turn>)
    requires GoodTurn(turn) && Good(stack) && stack != []
    ensures Good([turn] + stack) && ([turn] + stack)[|[turn] + stack| - 1] == stack[|stack| - 1]
  {
    hide GoodTurn;
  }

  lemma FullChild(f: Forks, d: Dir)
    requires f.Fork? && Full(f)
    ensures Full(Child(f, d))
  {
  }

  /** The `i`-th key, by its direction. */
  lemma ItemAt(f: Forks, i: nat)
    requires f.Fork? && i < |Items(f)|
    ensures var d := DirOf(f, i); var j := i - Before(f, d);
      && j >= 0 && j < Under(f, d)
      && Items(f)[i] ==
           if d == F then Item([f.label_], f.leaf.value)
           else if d == N then Item([f.label_] + Items(f.next)[j].key, Items(f.next)[j].pos)
           else Items(Child(f, d))[j]
  {
    hide Items;
    CountItems(f);
    ItemsIs(f);
    InFour(Items(f.left), Own(f), Prefixed(f.label_, Items(f.next)), Items(f.right), i);
  }

  lemma InFour(a: seq<Item>, b: seq<Item>, c: seq<Item>, d: seq<Item>, i: nat)
    requires i < |a| + |b| + |c| + |d|
    ensures (a + (b + c) + d)[i] == if i < |a| then a[i] else if i < |a| + |b| then b[i - |a|]
      else if i < |a| + |b| + |c| then c[i - |a| - |b|] else d[i - |a| - |b| - |c|]
  {
  }

  /** The labels on the way that belong to the key. */
  function Labels(stack: seq<Turn>): seq<byte>
    requires forall k | 0 <= k < |stack| :: stack[k].fork.Fork?
  {
    if stack == [] then []
    else
      var n := |stack| - 1;
      Labels(stack[..n]) + if stack[n].dir == N || stack[n].dir == F then [stack[n].fork.label_] else []
  }

  lemma {:induction false} LabelsJoin(a: seq<Turn>, b: seq<Turn>)
    requires Good(a) && Good(b)
    ensures Good(a + b) && Labels(a + b) == Labels(a) + Labels(b)
    decreases |b|
  {
    if b == [] {
      assert a + b == a;
    } else {
      var n := |b| - 1;
      assert (a + b)[..|a| + n] == a + b[..n];
      LabelsJoin(a, b[..n]);
    }
  }

  lemma {:induction false} StackSpells(f: Forks, i: nat)
    requires Full(f) && i < |Items(f)|
    ensures Good(StackAt(f, i)) && Labels(StackAt(f, i)) == Items(f)[i].key
    decreases f
  {
    hide Items, StackAt, Full, Labels;
    ItemsIs(f);
    StackIsGood(f, i);
    StackUnfolds(f, i);
    ItemAt(f, i);
    var d := DirOf(f, i);
    HasSome(f, d);
    OneLabel(Turn(f, d));
    if d == F {
      assert StackAt(f, i) == [Turn(f, F)];
    } else {
      FullChild(f, d);
      StackSpells(Child(f, d), i - Before(f, d));
      LabelsJoin([Turn(f, d)], StackAt(Child(f, d), i - Before(f, d)));
    }
  }

  lemma OneLabel(turn: Turn)
    requires GoodTurn(turn)
    ensures Good([turn]) && Labels([turn]) == if turn.dir == N || turn.dir == F then [turn.fork.label_] else []
  {
    assert [turn][..0] == [];
  }

  // ---- from one stack to the next ----

  function Later(f: Forks, d: Dir): Option<Dir>
    requires f.Fork?
  {
    if d == L && f.leaf.Some? then Some(F)
    else if (d == L || d == F) && f.next.Fork? then Some(N)
    else if d != R && f.right.Fork? then Some(R)
    else None
  }

  function Earlier(f: Forks, d: Dir): Option<Dir>
    requires f.Fork?
  {
    if d == R && f.next.Fork? then Some(N)
    else if (d == R || d == N) && f.leaf.Some? then Some(F)
    else if d != L && f.left.Fork? then Some(L)
    else None
  }

  /** Into a direction, and then as far forward or back as it goes. */
  function FirstIn(f: Forks, d: Dir): seq<Turn>
    requires f.Fork? && Full(f) && Has(f, d)
  {
    if d == F then [Turn(f, F)]
    else
      FullChild(f, d);
      SomeItems(Child(f, d));
      [Turn(f, d)] + StackAt(Child(f, d), 0)
  }

  function LastIn(f: Forks, d: Dir): seq<Turn>
    requires f.Fork? && Full(f) && Has(f, d)
  {
    if d == F then [Turn(f, F)]
    else
      FullChild(f, d);
      SomeItems(Child(f, d));
      [Turn(f, d)] + StackAt(Child(f, d), |Items(Child(f, d))| - 1)
  }

  function Next(stack: seq<Turn>): seq<Turn>
    requires Good(stack)
  {
    if stack == [] then []
    else
      var n := |stack| - 1;
      assert GoodTurn(stack[n]);
      var d := Later(stack[n].fork, stack[n].dir);
      if d.Some? then stack[..n] + FirstIn(stack[n].fork, d.value) else Next(stack[..n])
  }

  function Previous(stack: seq<Turn>): seq<Turn>
    requires Good(stack)
  {
    if stack == [] then []
    else
      var n := |stack| - 1;
      assert GoodTurn(stack[n]);
      var d := Earlier(stack[n].fork, stack[n].dir);
      if d.Some? then stack[..n] + LastIn(stack[n].fork, d.value) else Previous(stack[..n])
  }

  lemma Counted(f: Forks, d: Dir)
    requires f.Fork? && Full(f)
    ensures |Items(f)| == |Items(f.left)| + |Own(f)| + |Items(f.next)| + |Items(f.right)|
    ensures Has(f, d) <==> Under(f, d) > 0
    ensures Before(f, d) + Under(f, d) <= |Items(f)|
  {
    hide Items, Full;
    CountItems(f);
    FullChild(f, d);
    SomeItems(Child(f, d));
  }

  lemma LaterIs(f: Forks, d: Dir)
    requires f.Fork? && Full(f) && Has(f, d)
    ensures match Later(f, d)
      case Some(e) => Has(f, e) && Before(f, e) == Before(f, d) + Under(f, d)
      case None => Before(f, d) + Under(f, d) == |Items(f)|
  {
    hide Items, Full;
    Counted(f, L);
    Counted(f, F);
    Counted(f, N);
    Counted(f, R);
  }

  lemma EarlierIs(f: Forks, d: Dir)
    requires f.Fork? && Full(f) && Has(f, d)
    ensures match Earlier(f, d)
      case Some(e) => Has(f, e) && Before(f, e) + Under(f, e) == Before(f, d)
      case None => Before(f, d) == 0
  {
    hide Items, Full;
    Counted(f, L);
    Counted(f, F);
    Counted(f, N);
    Counted(f, R);
  }

  lemma DirIs(f: Forks, d: Dir, i: nat)
    requires f.Fork? && Before(f, d) <= i < Before(f, d) + Under(f, d)
    ensures DirOf(f, i) == d
  {
    hide Items;
  }

  lemma FirstIs(f: Forks, d: Dir)
    requires f.Fork? && Full(f) && Has(f, d)
    ensures Before(f, d) < |Items(f)| && FirstIn(f, d) == StackAt(f, Before(f, d))
  {
    hide Items, Full, StackAt;
    Counted(f, d);
    DirIs(f, d, Before(f, d));
    StackUnfolds(f, Before(f, d));
  }

  lemma LastIs(f: Forks, d: Dir)
    requires f.Fork? && Full(f) && Has(f, d)
    ensures 0 < Before(f, d) + Under(f, d) <= |Items(f)| && LastIn(f, d) == StackAt(f, Before(f, d) + Under(f, d) - 1)
  {
    hide Items, Full, StackAt;
    Counted(f, d);
    DirIs(f, d, Before(f, d) + Under(f, d) - 1);
    StackUnfolds(f, Before(f, d) + Under(f, d) - 1);
  }

  lemma {:induction false} NextStack(pre: seq<Turn>, f: Forks, i: nat)
    requires Good(pre) && Full(f) && i < |Items(f)|
    ensures Good(pre + StackAt(f, i))
    ensures Next(pre + StackAt(f, i)) == if i + 1 < |Items(f)| then pre + StackAt(f, i + 1) else Next(pre)
    decreases f
  {
    hide Items, Next, FirstIn, StackAt, Full, Before, Under, DirOf;
    StackIsGood(f, i);
    StackUnfolds(f, i);
    var d := DirOf(f, i);
    var j := i - Before(f, d);
    HasSome(f, d);
    Counted(f, d);
    LaterIs(f, d);
    NextFrom(pre, f, d);
    if d != F {
      ChildCount(f, d);
      FullChild(f, d);
      NextStack(pre + [Turn(f, d)], Child(f, d), j);
      assert pre + StackAt(f, i) == pre + [Turn(f, d)] + StackAt(Child(f, d), j);
    } else {
      ChildCount(f, d);
      assert pre + StackAt(f, i) == pre + [Turn(f, d)];
    }
    if j + 1 < Under(f, d) {
      DirIs(f, d, i + 1);
      StackUnfolds(f, i + 1);
      assert pre + StackAt(f, i + 1) == pre + [Turn(f, d)] + StackAt(Child(f, d), j + 1);
    } else if Later(f, d).Some? {
      FirstIs(f, Later(f, d).value);
    }
  }

  lemma ChildCount(f: Forks, d: Dir)
    requires f.Fork?
    ensures d != F ==> Under(f, d) == |Items(Child(f, d))|
    ensures d == F ==> Under(f, d) <= 1
  {
  }

  lemma NextFrom(pre: seq<Turn>, f: Forks, d: Dir)
    requires Good(pre) && f.Fork? && Full(f) && Has(f, d)
    ensures Good(pre + [Turn(f, d)])
    ensures Next(pre + [Turn(f, d)]) == match Later(f, d) case None => Next(pre) case Some(e) => pre + FirstIn(f, e)
  {
    hide FirstIn, Full;
    var all := pre + [Turn(f, d)];
    assert GoodTurn(Turn(f, d));
    assert all[..|pre|] == pre;
  }

  lemma {:induction false} PreviousStack(pre: seq<Turn>, f: Forks, i: nat)
    requires Good(pre) && Full(f) && i < |Items(f)|
    ensures Good(pre + StackAt(f, i))
    ensures Previous(pre + StackAt(f, i)) == if i > 0 then pre + StackAt(f, i - 1) else Previous(pre)
    decreases f
  {
    hide Items, Previous, LastIn, StackAt, Full, Before, Under, DirOf;
    StackIsGood(f, i);
    StackUnfolds(f, i);
    var d := DirOf(f, i);
    var j := i - Before(f, d);
    HasSome(f, d);
    Counted(f, d);
    EarlierIs(f, d);
    PreviousFrom(pre, f, d);
    ChildCount(f, d);
    if d != F {
      FullChild(f, d);
      PreviousStack(pre + [Turn(f, d)], Child(f, d), j);
      assert pre + StackAt(f, i) == pre + [Turn(f, d)] + StackAt(Child(f, d), j);
    } else {
      assert pre + StackAt(f, i) == pre + [Turn(f, d)];
    }
    if j > 0 {
      DirIs(f, d, i - 1);
      StackUnfolds(f, i - 1);
      assert pre + StackAt(f, i - 1) == pre + [Turn(f, d)] + StackAt(Child(f, d), j - 1);
    } else if Earlier(f, d).Some? {
      LastIs(f, Earlier(f, d).value);
    }
  }

  lemma PreviousFrom(pre: seq<Turn>, f: Forks, d: Dir)
    requires Good(pre) && f.Fork? && Full(f) && Has(f, d)
    ensures Good(pre + [Turn(f, d)])
    ensures Previous(pre + [Turn(f, d)]) == match Earlier(f, d) case None => Previous(pre) case Some(e) => pre + LastIn(f, e)
  {
    hide LastIn, Full;
    var all := pre + [Turn(f, d)];
    assert GoodTurn(Turn(f, d));
    assert all[..|pre|] == pre;
  }
}
