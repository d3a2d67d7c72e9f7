/** The smallest key not below another: the search that the iterator makes for it. */
module TrieBounds {
  import opened Wrappers
  import opened Bytes
  import opened TrieForks
  import opened TrieOrder

  // ---- how many keys are below ----

  function LowerIndex(f: Forks, q: seq<byte>): nat
    requires q != []
    decreases f
  {
    if f.Nil? then 0
    else if q[0] < f.label_ then LowerIndex(f.left, q)
    else if q[0] > f.label_ then Before(f, R) + LowerIndex(f.right, q)
    else if |q| == 1 then Before(f, F)
    else Before(f, N) + LowerIndex(f.next, q[1..])
  }

  /** The first `k` of the items are below `q` and the others are not. */
  ghost predicate Splits(items: seq<Item>, q: seq<byte>, k: nat) {
    && k <= |items|
    && (forall i | 0 <= i < k :: Less(items[i].key, q))
    && (forall i | k <= i < |items| :: !Less(items[i].key, q))
  }

  lemma AllBelow(items: seq<Item>, lo: int, hi: int, q: seq<byte>)
    requires Within(items, lo, hi) && q != [] && hi <= q[0] as int
    ensures Splits(items, q, |items|)
  {
  }

  lemma NoneBelow(items: seq<Item>, lo: int, hi: int, q: seq<byte>)
    requires Within(items, lo, hi) && q != [] && q[0] as int <= lo
    ensures Splits(items, q, 0)
  {
  }

  lemma SplitsLater(a: seq<Item>, b: seq<Item>, q: seq<byte>, k: nat)
    requires Splits(a, q, |a|) && Splits(b, q, k)
    ensures Splits(a + b, q, |a| + k)
  {
    hide Less;
  }

  lemma SplitsEarlier(a: seq<Item>, b: seq<Item>, q: seq<byte>, k: nat)
    requires Splits(a, q, k) && Splits(b, q, 0)
    ensures Splits(a + b, q, k)
  {
    hide Less;
  }

  lemma OwnSplits(f: Forks, q: seq<byte>)
    requires f.Fork? && q != [] && q[0] == f.label_
    ensures Splits(Own(f), q, if |q| == 1 then 0 else |Own(f)|)
  {
    assert [f.label_][1..] == [];
    assert |q| == 1 ==> q[1..] == [];
    assert |q| > 1 ==> q[1..] != [];
  }

  lemma PrefixedSplits(b: byte, next: seq<Item>, q: seq<byte>, k: nat)
    requires q != [] && q[0] == b && Within(next, -1, 256)
    requires if |q| == 1 then k == 0 else Splits(next, q[1..], k)
    ensures Splits(Prefixed(b, next), q, k)
  {
    hide Less;
    assert q == [b] + q[1..];
    forall i | 0 <= i < |next| ensures Less(Prefixed(b, next)[i].key, q) <==> |q| > 1 && Less(next[i].key, q[1..]) {
      LessBehind(b, next[i].key, q[1..]);
      NothingLess(next[i].key);
    }
  }

  lemma NothingLess(a: seq<byte>)
    ensures !Less(a, [])
  {
  }

  lemma {:induction false} LowerIs(f: Forks, lo: int, hi: int, q: seq<byte>)
    requires Searchable(f, lo, hi) && lo < hi && q != []
    ensures Splits(Items(f), q, LowerIndex(f, q))
    decreases f
  {
    hide Less, Items, Ascending, Within, Splits;
    ItemsIs(f);
    if f.Nil? {
      NothingSplits(q);
    } else {
      var b := f.label_ as int;
      var left, own, next, right := Items(f.left), Own(f), Prefixed(f.label_, Items(f.next)), Items(f.right);
      ItemsAscend(f.left, lo, b);
      ItemsAscend(f.right, b, hi);
      ItemsAscend(f.next, -1, 256);
      OwnThenNext(f.label_, own, Items(f.next));
      var k := LowerIndex(f, q);
      if q[0] < f.label_ {
        LowerIs(f.left, lo, b, q);
        NoneBelow(own + next, b - 1, b + 1, q);
        NoneBelow(right, b, hi, q);
        SplitsEarlier(left, own + next, q, k);
        SplitsEarlier(left + (own + next), right, q, k);
      } else if q[0] > f.label_ {
        LowerIs(f.right, b, hi, q);
        AllBelow(left, lo, b, q);
        AllBelow(own + next, b - 1, b + 1, q);
        SplitsLater(left, own + next, q, |own + next|);
        SplitsLater(left + (own + next), right, q, LowerIndex(f.right, q));
      } else {
        var j := if |q| == 1 then 0 else LowerIndex(f.next, q[1..]);
        if |q| > 1 {
          LowerIs(f.next, -1, 256, q[1..]);
        }
        AllBelow(left, lo, b, q);
        NoneBelow(right, b, hi, q);
        OwnSplits(f, q);
        PrefixedSplits(f.label_, Items(f.next), q, j);
        if |q| == 1 {
          SplitsEarlier(own, next, q, 0);
        } else {
          SplitsLater(own, next, q, j);
        }
        SplitsLater(left, own + next, q, k - |left|);
        SplitsEarlier(left + (own + next), right, q, k);
      }
    }
  }

  lemma NothingSplits(q: seq<byte>)
    ensures Splits([], q, 0)
  {
  }

  // ---- the search ----

  /** The stack so far; the defect is 0 for the key itself, positive if the stack has to be gone
      down, negative if the next key is wanted. */
  datatype Search = Search(stack: seq<Turn>, defect: int)

  function FirstDir(f: Forks): Dir
    requires f.Fork?
  {
    if f.left.Fork? then L else if f.leaf.Some? then F else N
  }

  function Longest(f: Forks, q: seq<byte>): Search
    requires f.Fork? && q != []
    decreases f
  {
    if q[0] < f.label_ then
      if f.left.Nil? then Search([Turn(f, FirstDir(f))], 1) else Pushed(Turn(f, L), Longest(f.left, q))
    else if q[0] > f.label_ then
      if f.right.Nil? then Search([], -1) else Pushed(Turn(f, R), Longest(f.right, q))
    else if |q| == 1 then
      if f.leaf.Some? then Search([Turn(f, F)], 0) else Search([Turn(f, N)], 1)
    else if f.next.Nil? then Search([Turn(f, F)], -1)
    else Pushed(Turn(f, N), Longest(f.next, q[1..]))
  }

  function Pushed(turn: Turn, found: Search): Search {
    Search([turn] + found.stack, found.defect)
  }

  function Completed(stack: seq<Turn>): seq<Turn>
    requires Good(stack) && stack != []
  {
    var n := |stack| - 1;
    assert GoodTurn(stack[n]);
    stack[..n] + FirstIn(stack[n].fork, stack[n].dir)
  }

  /** What the iterator makes of the search. */
  function Outcome(stack: seq<Turn>, defect: int): seq<Turn>
    requires Good(stack) && (defect > 0 ==> stack != [])
  {
    if defect == 0 then stack else if defect > 0 then Completed(stack) else Next(stack)
  }

  /** The stack of the smallest key not below `q`, or what follows `pre` if all are below. */
  function Bound(pre: seq<Turn>, f: Forks, q: seq<byte>): seq<Turn>
    requires Good(pre) && q != []
  {
    if LowerIndex(f, q) < |Items(f)| then pre + StackAt(f, LowerIndex(f, q)) else Next(pre)
  }

  lemma OneGood(pre: seq<Turn>, f: Forks, d: Dir)
    requires Good(pre) && f.Fork? && Full(f) && Has(f, d)
    ensures Good(pre + [Turn(f, d)])
    ensures Completed(pre + [Turn(f, d)]) == pre + FirstIn(f, d)
  {
    hide FirstIn, Full;
    assert GoodTurn(Turn(f, d));
    assert (pre + [Turn(f, d)])[..|pre|] == pre;
  }

  lemma {:induction false} BoundStack(pre: seq<Turn>, f: Forks, q: seq<byte>)
    requires Good(pre) && f.Fork? && Full(f) && q != []
    ensures Good(pre + Longest(f, q).stack) && (Longest(f, q).defect >= 0 ==> Longest(f, q).stack != [])
    ensures Outcome(pre + Longest(f, q).stack, Longest(f, q).defect) == Bound(pre, f, q)
    ensures Longest(f, q).defect == 0 <==> FindItem(f, q).Some?
    decreases f
  {
    hide Items, StackAt, Full, Next, FirstIn, Completed, Longest, LowerIndex, Good, FindItem;
    FindBeside(f, q);
    LongestIs(f, q);
    LowerUnfolds(f, q);
    ItemsIs(f);
    if q[0] < f.label_ {
      if f.left.Nil? {
        FindNil(q);
        AtFirst(pre, f);
      } else {
        BoundBelow(pre, f, L, q);
      }
    } else if q[0] > f.label_ {
      if f.right.Nil? {
        FindNil(q);
        AllPassed(pre, f);
      } else {
        BoundBelow(pre, f, R, q);
      }
    } else if |q| == 1 {
      AtOwn(pre, f);
    } else if f.next.Nil? {
      FindNil(q[1..]);
      PastOwn(pre, f);
    } else {
      BoundBelow(pre, f, N, q[1..]);
    }
  }

  lemma FindNil(q: seq<byte>)
    requires q != []
    ensures FindItem(Nil, q) == None && LowerIndex(Nil, q) == 0 && Items(Nil) == []
  {
  }

  lemma LongestIs(f: Forks, q: seq<byte>)
    requires f.Fork? && q != []
    ensures Longest(f, q) ==
      if q[0] < f.label_ then
        if f.left.Nil? then Search([Turn(f, FirstDir(f))], 1) else Pushed(Turn(f, L), Longest(f.left, q))
      else if q[0] > f.label_ then
        if f.right.Nil? then Search([], -1) else Pushed(Turn(f, R), Longest(f.right, q))
      else if |q| == 1 then
        if f.leaf.Some? then Search([Turn(f, F)], 0) else Search([Turn(f, N)], 1)
      else if f.next.Nil? then Search([Turn(f, F)], -1)
      else Pushed(Turn(f, N), Longest(f.next, q[1..]))
  {
  }

  lemma LowerUnfolds(f: Forks, q: seq<byte>)
    requires f.Fork? && q != []
    ensures LowerIndex(f, q) ==
      if q[0] < f.label_ then LowerIndex(f.left, q)
      else if q[0] > f.label_ then Before(f, R) + LowerIndex(f.right, q)
      else if |q| == 1 then Before(f, F)
      else Before(f, N) + LowerIndex(f.next, q[1..])
  {
  }

  /** The search goes on in a direction. */
  lemma {:induction false} BoundBelow(pre: seq<Turn>, f: Forks, d: Dir, q: seq<byte>)
    requires Good(pre) && f.Fork? && Full(f) && d != F && Has(f, d) && q != []
    ensures var found := Longest(Child(f, d), q);
      var all := pre + ([Turn(f, d)] + found.stack);
      && Good(all) && (found.defect >= 0 ==> found.stack != [])
      && Outcome(all, found.defect) ==
           (if Before(f, d) + LowerIndex(Child(f, d), q) < |Items(f)| then pre + StackAt(f, Before(f, d) + LowerIndex(Child(f, d), q))
            else Next(pre))
      && (found.defect == 0 <==> FindItem(Child(f, d), q).Some?)
    decreases f, 0
  {
    hide Items, StackAt, Full, Next, FirstIn, Completed, Longest, LowerIndex, Good, FindItem, Before;
    var g, here := Child(f, d), pre + [Turn(f, d)];
    OneGood(pre, f, d);
    FullChild(f, d);
    BoundStack(here, g, q);
    var found := Longest(g, q);
    assert pre + ([Turn(f, d)] + found.stack) == here + found.stack;
    var k := LowerIndex(g, q);
    Counted(f, d);
    ChildCount(f, d);
    LowerFits(g, q);
    if k < |Items(g)| {
      DirIs(f, d, Before(f, d) + k);
      StackUnfolds(f, Before(f, d) + k);
      assert pre + StackAt(f, Before(f, d) + k) == here + StackAt(g, k);
    } else {
      NextFrom(pre, f, d);
      LaterIs(f, d);
      if Later(f, d).Some? {
        FirstIs(f, Later(f, d).value);
      }
    }
  }

  lemma {:induction false} LowerFits(f: Forks, q: seq<byte>)
    requires q != []
    ensures LowerIndex(f, q) <= |Items(f)|
    decreases f
  {
    hide Items;
    ItemsIs(f);
    if f.Fork? {
      CountItems(f);
      LowerFits(f.left, q);
      LowerFits(f.right, q);
      if |q| > 1 {
        LowerFits(f.next, q[1..]);
      }
    }
  }

  lemma AtFirst(pre: seq<Turn>, f: Forks)
    requires Good(pre) && f.Fork? && Full(f) && f.left.Nil?
    ensures Good(pre + [Turn(f, FirstDir(f))]) && |Items(f)| > 0
    ensures Completed(pre + [Turn(f, FirstDir(f))]) == pre + StackAt(f, 0)
  {
    hide StackAt, FirstIn, Completed, Good;
    OneGood(pre, f, FirstDir(f));
    FirstIs(f, FirstDir(f));
  }

  lemma AllPassed(pre: seq<Turn>, f: Forks)
    requires Good(pre) && f.Fork? && f.right.Nil?
    ensures Good(pre + []) && Next(pre + []) == Next(pre) && Before(f, R) == |Items(f)|
  {
    hide Next;
    CountItems(f);
    assert pre + [] == pre;
  }

  lemma AtOwn(pre: seq<Turn>, f: Forks)
    requires Good(pre) && f.Fork? && Full(f)
    ensures Before(f, F) < |Items(f)|
    ensures f.leaf.Some? ==> Good(pre + [Turn(f, F)]) && pre + [Turn(f, F)] == pre + StackAt(f, Before(f, F))
    ensures f.leaf.None? ==> Good(pre + [Turn(f, N)]) && Completed(pre + [Turn(f, N)]) == pre + StackAt(f, Before(f, F))
  {
    hide StackAt, Completed, Items, Good;
    var d := if f.leaf.Some? then F else N;
    OneGood(pre, f, d);
    FirstIs(f, d);
    Counted(f, d);
  }

  lemma PastOwn(pre: seq<Turn>, f: Forks)
    requires Good(pre) && f.Fork? && Full(f) && f.next.Nil?
    ensures Good(pre + [Turn(f, F)])
    ensures Next(pre + [Turn(f, F)]) == if Before(f, N) < |Items(f)| then pre + StackAt(f, Before(f, N)) else Next(pre)
  {
    hide StackAt, Next, Items, Good, FirstIn;
    OneGood(pre, f, F);
    NextFrom(pre, f, F);
    LaterIs(f, F);
    Counted(f, F);
    if Later(f, F).Some? {
      FirstIs(f, Later(f, F).value);
    }
  }
}
