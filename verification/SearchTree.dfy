/** TSearchTree (searchtree.h): word-by-word phrase search, with a bound on the branches held. */
module SearchTree {
  import Bytes
  import opened Wrappers
  import opened PhraseBranches

  // ---- pruning ----

  /** The branches of at least `len` words. */
  function AtLeast<Id, W>(bs: seq<Branch<Id, W>>, len: nat): (n: nat)
    ensures n <= |bs|
  {
    if bs == [] then 0 else AtLeast(bs[..|bs| - 1], len) + if bs[|bs| - 1].size >= len then 1 else 0
  }

  function Longest<Id, W>(bs: seq<Branch<Id, W>>): (n: nat)
    ensures forall i | 0 <= i < |bs| :: bs[i].size <= n
  {
    if bs == [] then 0
    else
      var m := Longest(bs[..|bs| - 1]);
      var last := bs[|bs| - 1];
      assert forall i | 0 <= i < |bs| - 1 :: bs[i] == bs[..|bs| - 1][i];
      if last.size > m then last.size else m
  }

  /** The cut: the greatest length, halved until what is shorter fits `goal`. */
  function CutFrom<Id, W>(bs: seq<Branch<Id, W>>, goal: nat, len: nat): (cut: nat)
    ensures |bs| <= goal + AtLeast(bs, cut)
    decreases len
  {
    AllAtLeast(bs);
    if |bs| <= goal + AtLeast(bs, len) then len else CutFrom(bs, goal, len / 2)
  }

  lemma {:induction false} AllAtLeast<Id, W>(bs: seq<Branch<Id, W>>)
    ensures AtLeast(bs, 0) == |bs|
  {
    if bs != [] {
      AllAtLeast(bs[..|bs| - 1]);
    }
  }

  /** The places of the branches shorter than `len`. */
  ghost function Below<Id, W>(bs: seq<Branch<Id, W>>, len: nat): set<nat> {
    set i: nat | i < |bs| && bs[i].size < len
  }

  lemma {:induction false} AtLeastCounts<Id, W>(bs: seq<Branch<Id, W>>, len: nat)
    ensures |Below(bs, len)| == |bs| - AtLeast(bs, len)
  {
    if bs == [] {
      assert Below(bs, len) == {};
    } else {
      var n := |bs| - 1;
      AtLeastCounts(bs[..n], len);
      assert Below(bs, len) == Below(bs[..n], len) + if bs[n].size < len then {n} else {};
    }
  }

  ghost function Halved(n: nat, times: nat): nat {
    n / Bytes.Pow(2, times)
  }

  /** The cut is the greatest length of a branch, divided by two as often as more than `goal`
      branches are shorter, and no more often. */
  lemma CutIs<Id, W>(bs: seq<Branch<Id, W>>, goal: nat) returns (longest: nat, k: nat)
    requires bs != []
    ensures (exists i :: 0 <= i < |bs| && bs[i].size == longest) && forall i | 0 <= i < |bs| :: bs[i].size <= longest
    ensures Cut(bs, goal) == Halved(longest, k) && |Below(bs, Cut(bs, goal))| <= goal
    ensures forall j: nat | j < k :: |Below(bs, Halved(longest, j))| > goal
  {
    hide CutFrom, Longest, AtLeast, Halved;
    NotHalved(Longest(bs));
    longest := Longest(bs);
    LongestIsOne(bs);
    k := HalvedUntil(bs, goal, longest, longest, 0);
    AtLeastCounts(bs, Cut(bs, goal));
  }

  lemma {:induction false} HalvedUntil<Id, W>(bs: seq<Branch<Id, W>>, goal: nat, longest: nat, len: nat, m: nat) returns (k: nat)
    requires len == Halved(longest, m)
    requires forall j: nat | j < m :: |Below(bs, Halved(longest, j))| > goal
    ensures CutFrom(bs, goal, len) == Halved(longest, k)
    ensures forall j: nat | j < k :: |Below(bs, Halved(longest, j))| > goal
    decreases len
  {
    hide CutFrom, Below, Halved;
    CutFromIs(bs, goal, len);
    k := m;
    if |Below(bs, len)| > goal {
      HalvedAgain(longest, m);
      k := HalvedUntil(bs, goal, longest, len / 2, m + 1);
    }
  }

  lemma CutFromIs<Id, W>(bs: seq<Branch<Id, W>>, goal: nat, len: nat)
    ensures |Below(bs, len)| <= goal ==> CutFrom(bs, goal, len) == len
    ensures |Below(bs, len)| > goal ==> len > 0 && CutFrom(bs, goal, len) == CutFrom(bs, goal, len / 2)
  {
    hide AtLeast, Below;
    AtLeastCounts(bs, len);
    AllAtLeast(bs);
  }

  lemma NotHalved(n: nat)
    ensures Halved(n, 0) == n
  {
  }

  lemma HalvedAgain(n: nat, times: nat)
    ensures Halved(n, times) / 2 == Halved(n, times + 1)
  {
    Bytes.DivideTwice(n, Bytes.Pow(2, times), 2);
  }

  lemma {:induction false} LongestIsOne<Id, W>(bs: seq<Branch<Id, W>>)
    requires bs != []
    ensures exists i :: 0 <= i < |bs| && bs[i].size == Longest(bs)
  {
    var n := |bs| - 1;
    if bs[n].size < Longest(bs) {
      LongestIsOne(bs[..n]);
      var i :| 0 <= i < n && bs[..n][i].size == Longest(bs[..n]);
      assert bs[i].size == Longest(bs);
    }
  }

  function Cut<Id, W>(bs: seq<Branch<Id, W>>, goal: nat): nat {
    CutFrom(bs, goal, Longest(bs))
  }

  /** The branches below the cut and the first `survive` of the others, in order. */
  function Survivors<Id, W>(bs: seq<Branch<Id, W>>, cut: nat, survive: nat): (r: seq<Branch<Id, W>>) {
    if bs == [] then []
    else
      var rest, last := bs[..|bs| - 1], bs[|bs| - 1];
      Survivors(rest, cut, survive) + if last.size < cut || AtLeast(rest, cut) < survive then [last] else []
  }

  function Pruned<Id, W>(bs: seq<Branch<Id, W>>, goal: nat): (r: seq<Branch<Id, W>>) {
    var cut := Cut(bs, goal);
    Survivors(bs, cut, goal - (|bs| - AtLeast(bs, cut)))
  }

  lemma {:induction false} CountSurvivors<Id, W>(bs: seq<Branch<Id, W>>, cut: nat, survive: nat)
    ensures var above := AtLeast(bs, cut);
      |Survivors(bs, cut, survive)| == |bs| - above + if above < survive then above else survive
  {
    if bs != [] {
      CountSurvivors(bs[..|bs| - 1], cut, survive);
    }
  }

  /** Exactly `goal` branches are left of more than `goal`. */
  lemma PrunedToGoal<Id, W>(bs: seq<Branch<Id, W>>, goal: nat)
    requires |bs| > goal
    ensures |Pruned(bs, goal)| == goal
  {
    CountSurvivors(bs, Cut(bs, goal), goal - (|bs| - AtLeast(bs, Cut(bs, goal))));
  }

  /** `at` finds every branch left at its old place, in the old order, and what is not found is at
      or above the cut, with `survive` others like it before it. */
  ghost predicate KeptInOrder<Id, W>(bs: seq<Branch<Id, W>>, r: seq<Branch<Id, W>>, cut: nat, survive: nat, at: seq<nat>) {
    && |at| == |r|
    && (forall i | 0 <= i < |at| :: at[i] < |bs| && bs[at[i]] == r[i])
    && (forall i, j | 0 <= i < j < |at| :: at[i] < at[j])
    && (forall k: nat | k < |bs| && k !in at :: bs[k].size >= cut && AtLeast(bs[..k], cut) >= survive)
    && (forall k: nat | k < |bs| && k in at :: bs[k].size < cut || AtLeast(bs[..k], cut) < survive)
  }

  lemma {:induction false} SurvivorsKept<Id, W>(bs: seq<Branch<Id, W>>, cut: nat, survive: nat) returns (at: seq<nat>)
    ensures KeptInOrder(bs, Survivors(bs, cut, survive), cut, survive, at)
  {
    at := [];
    if bs != [] {
      var n := |bs| - 1;
      var at' := SurvivorsKept(bs[..n], cut, survive);
      at := at' + if bs[n].size < cut || AtLeast(bs[..n], cut) < survive then [n] else [];
      OneMoreKept(bs, Survivors(bs[..n], cut, survive), cut, survive, at');
    }
  }

  lemma OneMoreKept<Id, W>(bs: seq<Branch<Id, W>>, r: seq<Branch<Id, W>>, cut: nat, survive: nat, at: seq<nat>)
    requires bs != [] && KeptInOrder(bs[..|bs| - 1], r, cut, survive, at)
    ensures var n := |bs| - 1;
      var stays := bs[n].size < cut || AtLeast(bs[..n], cut) < survive;
      KeptInOrder(bs, r + (if stays then [bs[n]] else []), cut, survive, at + if stays then [n] else [])
  {
    hide AtLeast;
    var n := |bs| - 1;
    var stays := bs[n].size < cut || AtLeast(bs[..n], cut) < survive;
    var at' := at + if stays then [n] else [];
    forall k: nat | k < |bs|
      ensures k !in at' ==> bs[k].size >= cut && AtLeast(bs[..k], cut) >= survive
      ensures k in at' ==> bs[k].size < cut || AtLeast(bs[..k], cut) < survive
    {
      if k < n {
        assert bs[..n][k] == bs[k] && bs[..n][..k] == bs[..k];
      }
    }
  }

  /** What pruning keeps and drops. */
  lemma PrunedKeeps<Id, W>(bs: seq<Branch<Id, W>>, goal: nat) returns (cut: nat, survive: nat, at: seq<nat>)
    ensures KeptInOrder(bs, Pruned(bs, goal), cut, survive, at)
    ensures forall k: nat | k < |bs| && bs[k].size < cut :: k in at
    ensures cut == Cut(bs, goal) && |Below(bs, cut)| <= goal
    ensures survive == goal - |Below(bs, cut)|
  {
    cut := Cut(bs, goal);
    survive := goal - (|bs| - AtLeast(bs, cut));
    hide AtLeast, CutFrom, Longest, Below, Survivors;
    AtLeastCounts(bs, cut);
    at := SurvivorsKept(bs, cut, survive);
  }

  // ---- the tree ----

  const MAX_BRANCHES: nat := 10000

  /** One more branch for the next state, after pruning when there are too many. */
  function Added<Id, W>(bs: seq<Branch<Id, W>>, b: Branch<Id, W>): (r: seq<Branch<Id, W>>)
  {
    (if |bs| > MAX_BRANCHES then Pruned(bs, MAX_BRANCHES / 10) else bs) + [b]
  }

  /** The tails behind the sub-tokens of a multitoken, all of which must be found. */
  function TailsOf<Id(==)>(tails: seq<seq<Id>>, ids: seq<Id>): Option<seq<seq<Id>>>
    requires ids != []
    decreases |ids|
  {
    var t := FindTails(tails, ids[0]);
    if t.None? || |ids| == 1 then t else TailsOf(t.value, ids[1..])
  }

  /** Every one of the branches that the ids continue, continued, in order. */
  function Continued<Id(==), W>(branches: seq<Branch<Id, W>>, ids: seq<Id>, word: W, next: seq<Branch<Id, W>>)
      : seq<Branch<Id, W>>
    requires ids != []
  {
    if branches == [] then next
    else
      var n := |branches| - 1;
      var so := Continued(branches[..n], ids, word, next);
      match TailsOf(branches[n].tails, ids)
      case None => so
      case Some(t) => Added(so, Append(branches[n].(tails := t), LinkedWord(word, |ids|)))
  }

  lemma OneId<Id>(tails: seq<seq<Id>>, id: Id)
    ensures TailsOf(tails, [id]) == FindTails(tails, id)
  {
  }

  lemma OneMoreContinued<Id, W>(branches: seq<Branch<Id, W>>, i: nat, ids: seq<Id>, word: W, next: seq<Branch<Id, W>>)
    requires ids != [] && i < |branches|
    ensures Continued(branches[..0], ids, word, next) == next
    ensures Continued(branches[..i + 1], ids, word, next) ==
      var so := Continued(branches[..i], ids, word, next);
      match TailsOf(branches[i].tails, ids)
      case None => so
      case Some(t) => Added(so, Append(branches[i].(tails := t), LinkedWord(word, |ids|)))
  {
    hide Added, TailsOf, Append;
    assert branches[..i + 1][..i] == branches[..i];
  }

  /** Never more than one branch over the limit. */
  lemma {:induction false} ContinuedBounded<Id, W>(branches: seq<Branch<Id, W>>, ids: seq<Id>, word: W, next: seq<Branch<Id, W>>)
    requires ids != [] && |next| <= 10_001
    ensures |Continued(branches, ids, word, next)| <= 10_001
  {
    hide Pruned;
    if branches != [] {
      var n := |branches| - 1;
      ContinuedBounded(branches[..n], ids, word, next);
      var so := Continued(branches[..n], ids, word, next);
      if |so| > MAX_BRANCHES {
        PrunedToGoal(so, MAX_BRANCHES / 10);
      }
    }
  }

  /** The branches that the ids continue, continued, none left out. */
  function Extensions<Id(==), W>(branches: seq<Branch<Id, W>>, ids: seq<Id>, word: W): (r: seq<Branch<Id, W>>)
    ensures |r| <= |branches|
  {
    if branches == [] then []
    else
      var n := |branches| - 1;
      var t := Tails(branches[n].tails, ids);
      Extensions(branches[..n], ids, word)
      + if t == [] then [] else [Append(branches[n].(tails := t), LinkedWord(word, |ids|))]
  }

  /** Sub-token by sub-token or at once, the same keys are left. */
  lemma {:induction false} TailsOfIs<Id>(tails: seq<seq<Id>>, ids: seq<Id>)
    requires ids != []
    ensures TailsOf(tails, ids) == if Tails(tails, ids) == [] then None else Some(Tails(tails, ids))
    decreases |ids|
  {
    TailsFirst(tails, ids);
    if |ids| > 1 {
      if Behind(tails, ids[0]) == [] {
        TailsOfNone(ids[1..]);
      } else {
        TailsOfIs(Behind(tails, ids[0]), ids[1..]);
      }
    } else {
      assert ids[1..] == [];
    }
  }

  lemma {:induction false} TailsFirst<Id>(tails: seq<seq<Id>>, ids: seq<Id>)
    requires ids != []
    ensures Tails(tails, ids) == Tails(Behind(tails, ids[0]), ids[1..])
  {
    var n := |ids| - 1;
    if n > 0 {
      TailsFirst(tails, ids[..n]);
      assert ids[..n][1..] == ids[1..][..n - 1];
    } else {
      assert ids[..0] == [] && ids[1..] == [];
    }
  }

  lemma {:induction false} TailsOfNone<Id>(ids: seq<Id>)
    ensures Tails([], ids) == []
  {
    if ids != [] {
      TailsOfNone(ids[..|ids| - 1]);
    }
  }

  /** As long as there is room, a word continues exactly the branches that it can. */
  lemma {:induction false} NothingPruned<Id, W>(branches: seq<Branch<Id, W>>, ids: seq<Id>, word: W, next: seq<Branch<Id, W>>)
    requires ids != [] && |next| + |Extensions(branches, ids, word)| <= 10_001
    ensures Continued(branches, ids, word, next) == next + Extensions(branches, ids, word)
  {
    hide TailsOf, Tails, Pruned, Append;
    if branches != [] {
      var n := |branches| - 1;
      NothingPruned(branches[..n], ids, word, next);
      TailsOfIs(branches[n].tails, ids);
    }
  }

  class TSearchTree<Id(==), W> {
    var branches: seq<Branch<Id, W>>
    var nextBranches: seq<Branch<Id, W>>
    var root: seq<seq<Id>>

    constructor (root: seq<seq<Id>>)
      ensures branches == nextBranches == [] && this.root == root
    {
      branches, nextBranches, this.root := [], [], root;
    }

    method AppendRoot()
      modifies this`branches
      ensures branches == old(branches) + [Root(root)]
    {
      branches := branches + [Root(root)];
    }

    method TryAppendWord(id: Id, word: W)
      modifies this`nextBranches
      ensures nextBranches == Continued(branches, [id], word, old(nextBranches))
    {
      for i := 0 to |branches|
        invariant nextBranches == Continued(branches[..i], [id], word, old(nextBranches))
      {
        hide Added, Continued, TailsOf, Append, FindTails;
        OneMoreContinued(branches, i, [id], word, old(nextBranches));
        OneId(branches[i].tails, id);
        var t := FindTails(branches[i].tails, id);
        if t.Some? {
          AddNextStateNewBranch(branches[i], t.value, word, 1);
        }
      }
      assert branches[..|branches|] == branches;
    }

    method TryAppendMultitoken(ids: seq<Id>, word: W) returns (any: bool)
      requires ids != []
      modifies this`nextBranches
      ensures nextBranches == Continued(branches, ids, word, old(nextBranches))
      ensures any <==> |nextBranches| != old(|nextBranches|)
    {
      var startSize := |nextBranches|;
      for i := 0 to |branches|
        invariant nextBranches == Continued(branches[..i], ids, word, old(nextBranches))
      {
        hide Added, Continued, TailsOf, Append;
        OneMoreContinued(branches, i, ids, word, old(nextBranches));
        TryAppendMultitokenTo(branches[i], ids, word);
      }
      assert branches[..|branches|] == branches;
      any := |nextBranches| != startSize;
    }

    method TryAppendMultitokenTo(branch: Branch<Id, W>, ids: seq<Id>, word: W)
      requires ids != []
      modifies this`nextBranches
      ensures nextBranches == match TailsOf(branch.tails, ids) {
        case None => old(nextBranches)
        case Some(t) => Added(old(nextBranches), Append(branch.(tails := t), LinkedWord(word, |ids|)))
      }
    {
      var tmp := FindTails(branch.tails, ids[0]);
      if tmp.Some? {
        var size := 1;
        while size < |ids|
          invariant 1 <= size <= |ids| && tmp.Some?
          invariant TailsOf(branch.tails, ids) == if size == |ids| then tmp else TailsOf(tmp.value, ids[size..])
        {
          tmp := FindTails(tmp.value, ids[size]);
          if tmp.None? {
            return;
          }
          assert ids[size..][1..] == ids[size + 1..];
          size := size + 1;
        }
        AddNextStateNewBranch(branch, tmp.value, word, size);
      }
    }

    method AddNextStateNewBranch(parent: Branch<Id, W>, tails: seq<seq<Id>>, word: W, multitokenSize: nat)
      modifies this`nextBranches
      ensures nextBranches == Added(old(nextBranches), Append(parent.(tails := tails), LinkedWord(word, multitokenSize)))
      ensures nextBranches ==
        (if old(|nextBranches|) > 10_000 then Pruned(old(nextBranches), 1_000) else old(nextBranches))
        + [Append(parent.(tails := tails), LinkedWord(word, multitokenSize))]
    {
      if |nextBranches| > MAX_BRANCHES {
        ClearLongestBranches(MAX_BRANCHES / 10);
      }
      nextBranches := nextBranches + [Append(parent.(tails := tails), LinkedWord(word, multitokenSize))];
    }

    /** Removes some of the longest branches, so that no more than `goalSize` are left. */
    method ClearLongestBranches(goalSize: nat)
      modifies this`nextBranches
      ensures nextBranches == Pruned(old(nextBranches), goalSize)
    {
      hide AtLeast, Longest, CutFrom, Survivors;
      var dropLen, dropCount := FindCut(nextBranches, goalSize);
      var clearedSize := |nextBranches| - dropCount;
      var survive: nat := if clearedSize < goalSize then goalSize - clearedSize else 0;
      nextBranches := DropFrom(nextBranches, dropLen, survive);
    }

    method FindCut(bs: seq<Branch<Id, W>>, goalSize: nat) returns (dropLen: nat, dropCount: nat)
      ensures dropLen == Cut(bs, goalSize) && dropCount == AtLeast(bs, dropLen)
    {
      dropLen, dropCount := FindLongest(bs);
      while |bs| > goalSize + dropCount
        invariant dropCount == AtLeast(bs, dropLen)
        invariant CutFrom(bs, goalSize, dropLen) == Cut(bs, goalSize)
        decreases dropLen
      {
        AllAtLeast(bs);
        hide AtLeast, Longest;
        dropLen := dropLen / 2;
        dropCount := CountAtLeast(bs, dropLen);
      }
    }

    method FindLongest(bs: seq<Branch<Id, W>>) returns (maxLen: nat, maxLenCount: nat)
      ensures maxLen == Longest(bs) && maxLenCount == AtLeast(bs, maxLen)
    {
      maxLen, maxLenCount := 0, 0;
      for i := 0 to |bs|
        invariant maxLen == Longest(bs[..i]) && maxLenCount == AtLeast(bs[..i], maxLen)
      {
        assert bs[..i + 1][..i] == bs[..i];
        if bs[i].size > maxLen {
          NoneAtLeast(bs[..i], bs[i].size);
          maxLen, maxLenCount := bs[i].size, 1;
        } else if bs[i].size == maxLen {
          maxLenCount := maxLenCount + 1;
        }
      }
      assert bs[..|bs|] == bs;
    }

    /** The first `whole` of the branches of at least `dropLen` words, and all shorter ones. */
    method DropFrom(bs: seq<Branch<Id, W>>, dropLen: nat, whole: nat) returns (tmpBranches: seq<Branch<Id, W>>)
      ensures tmpBranches == Survivors(bs, dropLen, whole)
    {
      var survive := whole;
      tmpBranches := [];
      for i := 0 to |bs|
        invariant tmpBranches == Survivors(bs[..i], dropLen, whole)
        invariant survive == if AtLeast(bs[..i], dropLen) < whole then whole - AtLeast(bs[..i], dropLen) else 0
      {
        assert bs[..i + 1][..i] == bs[..i];
        if bs[i].size >= dropLen {
          if survive > 0 {
            survive := survive - 1;
          } else {
            continue;
          }
        }
        tmpBranches := tmpBranches + [bs[i]];
      }
      assert bs[..|bs|] == bs;
    }

    method CountAtLeast(bs: seq<Branch<Id, W>>, len: nat) returns (n: nat)
      ensures n == AtLeast(bs, len)
    {
      n := 0;
      for i := 0 to |bs|
        invariant n == AtLeast(bs[..i], len)
      {
        assert bs[..i + 1][..i] == bs[..i];
        if bs[i].size >= len {
          n := n + 1;
        }
      }
      assert bs[..|bs|] == bs;
    }

    lemma {:induction false} NoneAtLeast(bs: seq<Branch<Id, W>>, len: nat)
      requires Longest(bs) < len
      ensures AtLeast(bs, len) == 0
    {
      if bs != [] {
        NoneAtLeast(bs[..|bs| - 1], len);
      }
    }

    method SwitchNextState()
      modifies this`branches, this`nextBranches
      ensures branches == old(nextBranches) && nextBranches == []
    {
      branches, nextBranches := nextBranches, [];
    }
  }
}
