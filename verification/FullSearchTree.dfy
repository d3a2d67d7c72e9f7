/** TFullSearchTree (searchtree.h): compound search over calls that may come in any order and
    overlap, each a phrase id with the words it covers. Its branches are exactly the chains of
    calls that naive enumeration finds. */
module FullSearchTree {
  import opened Wrappers
  import opened PhraseBranches

  /** One TryAppendSequence: `words` stand at `start` and are `count` long in the input. */
  datatype Call<Id, W> = Call(id: Id, words: seq<W>, start: nat, count: nat)

  // ---- naive enumeration ----

  ghost predicate Known<Id, W>(calls: seq<Call<Id, W>>, chain: seq<nat>) {
    forall i | 0 <= i < |chain| :: chain[i] < |calls|
  }

  /** Calls, by number, in the order they were made, each beginning where the one before it ends.
      Only a call of no length can follow itself. */
  ghost predicate Contiguous<Id, W>(calls: seq<Call<Id, W>>, chain: seq<nat>) {
    && chain != [] && Known(calls, chain)
    && (forall i | 0 < i < |chain| :: Follows(calls, chain[i - 1], chain[i]))
  }

  ghost predicate Follows<Id, W>(calls: seq<Call<Id, W>>, a: nat, b: nat) {
    && a < |calls| && b < |calls|
    && a <= b && (a == b ==> calls[b].count == 0)
    && calls[a].start + calls[a].count == calls[b].start
  }

  ghost function Ids<Id, W>(calls: seq<Call<Id, W>>, chain: seq<nat>): (ids: seq<Id>)
    requires Known(calls, chain)
    ensures |ids| == |chain|
  {
    if chain == [] then [] else Ids(calls, chain[..|chain| - 1]) + [calls[chain[|chain| - 1]].id]
  }

  /** The phrases it spells lead somewhere in the trie. */
  ghost predicate IsChain<Id, W>(keys: seq<seq<Id>>, calls: seq<Call<Id, W>>, chain: seq<nat>) {
    chain != [] && Known(calls, chain) && Contiguous(calls, chain) && Tails(keys, Ids(calls, chain)) != []
  }

  ghost function End<Id, W>(calls: seq<Call<Id, W>>, chain: seq<nat>): nat
    requires Contiguous(calls, chain)
  {
    calls[chain[|chain| - 1]].start + calls[chain[|chain| - 1]].count
  }

  function Links<W>(words: seq<W>, after: seq<LinkedWord<W>>): seq<LinkedWord<W>> {
    if words == [] then after
    else [LinkedWord(words[|words| - 1], 1)] + Links(words[..|words| - 1], after)
  }

  /** The branch that stands for a chain. */
  ghost function BranchOf<Id, W>(keys: seq<seq<Id>>, calls: seq<Call<Id, W>>, chain: seq<nat>): (b: Branch<Id, W>)
    requires Known(calls, chain)
  {
    if chain == [] then Root(keys)
    else
      var b, c := BranchOf(keys, calls, chain[..|chain| - 1]), calls[chain[|chain| - 1]];
      Branch(Behind(b.tails, c.id), Links(c.words, b.words), b.size + |c.words|)
  }

  lemma {:induction false} BranchTails<Id, W>(keys: seq<seq<Id>>, calls: seq<Call<Id, W>>, chain: seq<nat>)
    requires Known(calls, chain)
    ensures BranchOf(keys, calls, chain).tails == Tails(keys, Ids(calls, chain))
  {
    if chain != [] {
      BranchTails(keys, calls, chain[..|chain| - 1]);
      var ids := Ids(calls, chain);
      assert ids[..|ids| - 1] == Ids(calls, chain[..|chain| - 1]);
    }
  }

  /** A branch is final exactly when its phrases are a key of the trie. */
  lemma FinalIsKey<Id, W>(keys: seq<seq<Id>>, calls: seq<Call<Id, W>>, chain: seq<nat>)
    requires Known(calls, chain)
    ensures IsFinal(BranchOf(keys, calls, chain)) <==> Ids(calls, chain) in keys
  {
    BranchTails(keys, calls, chain);
    TailsKeys(keys, Ids(calls, chain), []);
    assert Ids(calls, chain) + [] == Ids(calls, chain);
  }

  /** The words of the calls of a chain, call after call. */
  ghost function Covered<Id, W>(calls: seq<Call<Id, W>>, chain: seq<nat>): (words: seq<W>)
    requires Known(calls, chain)
  {
    if chain == [] then []
    else Covered(calls, chain[..|chain| - 1]) + calls[chain[|chain| - 1]].words
  }

  /** Copying out the branch of a chain gives the words of its calls in their order, each a token
      by itself, so there is no table. */
  lemma {:induction false} BranchSays<Id, W>(keys: seq<seq<Id>>, calls: seq<Call<Id, W>>, chain: seq<nat>)
    requires Known(calls, chain)
    ensures var b := BranchOf(keys, calls, chain);
      && Words(Reverse(b.words)) == Covered(calls, chain)
      && b.size == |b.words| == |Covered(calls, chain)| == FullSize(b.words)
      && (forall i | 0 <= i < |b.words| :: b.words[i].multitokenSize == 1)
  {
    hide Links, FullSize;
    if chain != [] {
      var n := |chain| - 1;
      BranchSays(keys, calls, chain[..n]);
      LinksSay(calls[chain[n]].words, BranchOf(keys, calls, chain[..n]).words);
    }
    NoMultitokens(BranchOf(keys, calls, chain).words);
  }

  lemma {:induction false} LinksSay<W>(words: seq<W>, after: seq<LinkedWord<W>>)
    ensures Words(Reverse(Links(words, after))) == Words(Reverse(after)) + words
    ensures |Links(words, after)| == |after| + |words|
    ensures (forall i | 0 <= i < |after| :: after[i].multitokenSize == 1)
        ==> forall i | 0 <= i < |Links(words, after)| :: Links(words, after)[i].multitokenSize == 1
  {
    if words != [] {
      var n := |words| - 1;
      LinksSay(words[..n], after);
      AppendSays(LinkedWord(words[n], 1), Links(words[..n], after));
      assert words == words[..n] + [words[n]];
    } else {
      assert Words(Reverse(after)) + words == Words(Reverse(after));
    }
  }

  lemma KeyIsChain<Id, W>(keys: seq<seq<Id>>, calls: seq<Call<Id, W>>, chain: seq<nat>)
    requires Contiguous(calls, chain) && Known(calls, chain) && Ids(calls, chain) in keys
    ensures IsChain(keys, calls, chain)
  {
    TailsKeys(keys, Ids(calls, chain), []);
    assert Ids(calls, chain) + [] == Ids(calls, chain);
  }

  /** When every call covers a word, no call repeats in a chain. */
  lemma {:induction false} ChainAscends<Id, W>(calls: seq<Call<Id, W>>, chain: seq<nat>, i: nat, j: nat)
    requires Contiguous(calls, chain) && i < j < |chain|
    requires forall k | 0 <= k < |calls| :: calls[k].count > 0
    ensures chain[i] < chain[j]
    decreases j
  {
    assert Follows(calls, chain[j - 1], chain[j]);
    if i < j - 1 {
      ChainAscends(calls, chain, i, j - 1);
    }
  }

  // ---- the state, and what it means ----

  datatype State<Id, W> = State(branches: seq<Branch<Id, W>>, positionIndex: seq<seq<nat>>)

  /** Each branch stands for one chain, in `chains`, and every chain has its branch. */
  ghost predicate Enumerates<Id, W>(keys: seq<seq<Id>>, calls: seq<Call<Id, W>>, chains: seq<seq<nat>>, st: State<Id, W>) {
    && |chains| == |st.branches|
    && (forall i, j | 0 <= i < j < |chains| :: chains[i] != chains[j])
    && (forall i | 0 <= i < |chains| ::
          IsChain(keys, calls, chains[i]) && st.branches[i] == BranchOf(keys, calls, chains[i]))
  }

  ghost predicate EndsAt<Id, W>(calls: seq<Call<Id, W>>, chains: seq<seq<nat>>, i: nat, p: nat) {
    i < |chains| && Contiguous(calls, chains[i]) && End(calls, chains[i]) == p
  }

  /** Every branch is listed once, under the end of its chain. */
  ghost predicate Indexed<Id, W>(calls: seq<Call<Id, W>>, chains: seq<seq<nat>>, index: seq<seq<nat>>) {
    && (forall i | 0 <= i < |chains| ::
          Contiguous(calls, chains[i]) && End(calls, chains[i]) < |index| && i in index[End(calls, chains[i])])
    && (forall p, i | 0 <= p < |index| && i in index[p] :: EndsAt(calls, chains, i, p))
    && (forall p, m, n | 0 <= p < |index| && 0 <= m < n < |index[p]| :: index[p][m] < index[p][n])
  }

  ghost predicate Complete<Id, W>(keys: seq<seq<Id>>, calls: seq<Call<Id, W>>, chains: seq<seq<nat>>) {
    forall c | IsChain(keys, calls, c) :: c in chains
  }

  // ---- one more call ----

  /** Nothing said of the calls so far changes with one more. */
  lemma {:induction false} SameBranch<Id, W>(keys: seq<seq<Id>>, calls: seq<Call<Id, W>>, call: Call<Id, W>, chain: seq<nat>)
    requires Known(calls, chain)
    ensures Ids(calls + [call], chain) == Ids(calls, chain)
    ensures BranchOf(keys, calls + [call], chain) == BranchOf(keys, calls, chain)
    ensures Contiguous(calls + [call], chain) == Contiguous(calls, chain)
  {
    if chain != [] {
      SameBranch(keys, calls, call, chain[..|chain| - 1]);
    }
  }

  /** Which chains of all the calls, the last one being `k`, have their branch after the root and
      the first `i` branches that end at its start were tried. */
  ghost predicate Tried<Id, W>(keys: seq<seq<Id>>, calls: seq<Call<Id, W>>, chains: seq<seq<nat>>, list: seq<nat>, i: nat)
    requires |calls| > 0 && forall m | 0 <= m < |list| :: list[m] < |chains|
    requires i <= |list|
  {
    forall c | IsChain(keys, calls, c) :: c in chains <==> Due(|calls| - 1, c, chains, list, i)
  }

  ghost predicate Due(k: nat, c: seq<nat>, chains: seq<seq<nat>>, list: seq<nat>, i: nat)
    requires forall m | 0 <= m < |list| :: list[m] < |chains|
    requires i <= |list| && c != []
  {
    var n := |c| - 1;
    c[n] < k || n == 0 || exists m :: 0 <= m < i && chains[list[m]] == c[..n]
  }

  /** A beginning of a chain is a chain, and ends where its rest begins. */
  lemma ChainBefore<Id, W>(keys: seq<seq<Id>>, calls: seq<Call<Id, W>>, c: seq<nat>)
    requires IsChain(keys, calls, c) && |c| > 1
    ensures IsChain(keys, calls, c[..|c| - 1])
    ensures End(calls, c[..|c| - 1]) == calls[c[|c| - 1]].start
  {
    var n := |c| - 1;
    var ids := Ids(calls, c);
    assert ids[..n] == Ids(calls, c[..n]);
    assert Follows(calls, c[n - 1], c[n]);
    assert Behind([], ids[n]) == [];
  }

  /** One more call behind a chain that ends at its start, or behind none. */
  lemma ChainMore<Id, W>(keys: seq<seq<Id>>, calls: seq<Call<Id, W>>, p: seq<nat>, k: nat)
    requires k + 1 == |calls|
    requires p == [] || (Contiguous(calls, p) && End(calls, p) == calls[k].start)
    ensures Contiguous(calls, p + [k])
    ensures Tails(keys, Ids(calls, p + [k])) == Behind(Tails(keys, Ids(calls, p)), calls[k].id)
    ensures End(calls, p + [k]) == calls[k].start + calls[k].count
  {
    var c := p + [k];
    assert c[..|c| - 1] == p;
    forall i | 0 < i < |c| ensures Follows(calls, c[i - 1], c[i]) {
      if i == |p| {
        assert c[i - 1] <= k && (c[i - 1] == k ==> calls[k].count == 0);
      } else {
        assert Follows(calls, p[i - 1], p[i]);
      }
    }
    assert Ids(calls, c)[..|p|] == Ids(calls, p);
  }

  /** Once all have been tried, every chain has its branch. */
  lemma {:induction false} AllTried<Id, W>(keys: seq<seq<Id>>, calls: seq<Call<Id, W>>, chains: seq<seq<nat>>,
                                           index: seq<seq<nat>>, list: seq<nat>, c: seq<nat>)
    requires |calls| > 0 && Indexed(calls, chains, index)
    requires var start := calls[|calls| - 1].start; list == if start < |index| then index[start] else []
    requires forall m | 0 <= m < |list| :: list[m] < |chains|
    requires Tried(keys, calls, chains, list, |list|)
    requires IsChain(keys, calls, c)
    ensures c in chains
    decreases |c|
  {
    var k, n := |calls| - 1, |c| - 1;
    if n > 0 && c[n] == k {
      var p := c[..n];
      ChainBefore(keys, calls, c);
      AllTried(keys, calls, chains, index, list, p);
      var j: nat :| j < |chains| && chains[j] == p;
      assert End(calls, chains[j]) == calls[k].start < |index|;
      assert j in index[calls[k].start];
      var m :| 0 <= m < |list| && list[m] == j;
      assert Due(k, c, chains, list, |list|);
    }
  }

  // ---- one more branch ----

  function Resized(index: seq<seq<nat>>, size: nat): (r: seq<seq<nat>>)
    ensures |r| == if |index| < size then size else |index|
    ensures forall p | 0 <= p < |r| :: r[p] == if p < |index| then index[p] else []
  {
    if |index| < size then index + seq(size - |index|, i => []) else index
  }

  function Push<Id, W>(st: State<Id, W>, b: Branch<Id, W>, next: nat): (st': State<Id, W>) {
    var index := Resized(st.positionIndex, next + 1);
    State(st.branches + [b], index[next := index[next] + [|st.branches|]])
  }

  lemma PushIndexed<Id, W>(calls: seq<Call<Id, W>>, chains: seq<seq<nat>>, c: seq<nat>, st: State<Id, W>, b: Branch<Id, W>)
    requires Indexed(calls, chains, st.positionIndex) && |chains| == |st.branches|
    requires Contiguous(calls, c)
    ensures Indexed(calls, chains + [c], Push(st, b, End(calls, c)).positionIndex)
  {
    var next := End(calls, c);
    var old_, index := st.positionIndex, Push(st, b, next).positionIndex;
    var all := chains + [c];
    forall p, i | 0 <= p < |index| && i in index[p] ensures EndsAt(calls, all, i, p) {
      if i < |chains| {
        assert i in Resized(old_, next + 1)[p];
      }
    }
    forall i | 0 <= i < |all|
      ensures Contiguous(calls, all[i]) && End(calls, all[i]) < |index| && i in index[End(calls, all[i])]
    {
      if i < |chains| {
        assert i in old_[End(calls, chains[i])];
      }
    }
    forall p, m, n | 0 <= p < |index| && 0 <= m < n < |index[p]| ensures index[p][m] < index[p][n] {
      var was: seq<nat> := if p < |old_| then old_[p] else [];
      assert index[p] == was || index[p] == was + [|chains|];
      Ascending(old_, chains, calls, p, m, n);
    }
  }

  lemma Ascending<Id, W>(index: seq<seq<nat>>, chains: seq<seq<nat>>, calls: seq<Call<Id, W>>, p: nat, m: nat, n: nat)
    requires Indexed(calls, chains, index)
    ensures p < |index| && m < n < |index[p]| ==> index[p][m] < index[p][n]
    ensures p < |index| && m < |index[p]| ==> index[p][m] < |chains|
  {
    if p < |index| && m < |index[p]| {
      var i := index[p][m];
      assert i in index[p];
      assert i < |chains|;
    }
  }

  lemma PushEnumerates<Id, W>(keys: seq<seq<Id>>, calls: seq<Call<Id, W>>, chains: seq<seq<nat>>, c: seq<nat>, st: State<Id, W>, b: Branch<Id, W>, next: nat)
    requires Enumerates(keys, calls, chains, st) && IsChain(keys, calls, c) && c !in chains
    requires b == BranchOf(keys, calls, c)
    ensures Enumerates(keys, calls, chains + [c], Push(st, b, next))
  {
    hide BranchOf, IsChain;
  }

  lemma ChainBasics<Id, W>(keys: seq<seq<Id>>, calls: seq<Call<Id, W>>, c: seq<nat>)
    requires IsChain(keys, calls, c)
    ensures Known(calls, c) && Contiguous(calls, c)
  {
  }

  lemma NewBranch<Id, W>(keys: seq<seq<Id>>, calls: seq<Call<Id, W>>, p: seq<nat>, tails: seq<seq<Id>>)
    requires calls != [] && Known(calls, p)
    requires FindTails(BranchOf(keys, calls, p).tails, calls[|calls| - 1].id) == Some(tails)
    ensures var call, src := calls[|calls| - 1], BranchOf(keys, calls, p);
      Known(calls, p + [|calls| - 1])
      && BranchOf(keys, calls, p + [|calls| - 1]) == Branch(tails, Links(call.words, src.words), src.size + |call.words|)
  {
    hide Behind, Links;
    var c := p + [|calls| - 1];
    assert c[..|c| - 1] == p;
  }

  // ---- termination ----

  /** What the branches still to be tried can read, themselves counted. */
  ghost function Pending<Id, W>(branches: seq<Branch<Id, W>>, list: seq<nat>): nat
    requires forall m | 0 <= m < |list| :: list[m] < |branches|
  {
    if list == [] then 0 else 1 + Weight(branches[list[0]].tails) + Pending(branches, list[1..])
  }

  lemma {:induction false} PendingMore<Id, W>(branches: seq<Branch<Id, W>>, b: Branch<Id, W>, list: seq<nat>)
    requires forall m | 0 <= m < |list| :: list[m] < |branches|
    ensures Pending(branches + [b], list) == Pending(branches, list)
    ensures Pending(branches + [b], list + [|branches|]) == Pending(branches, list) + 1 + Weight(b.tails)
  {
    var all := branches + [b];
    assert all[|branches|] == b;
    if list == [] {
      assert ([|branches|])[1..] == [];
      assert list + [|branches|] == [|branches|];
      assert Pending(all, [|branches|]) == 1 + Weight(b.tails) + Pending(all, []);
    } else {
      PendingMore(branches, b, list[1..]);
      assert (list + [|branches|])[1..] == list[1..] + [|branches|];
    }
  }

  lemma PendingStep<Id, W>(branches: seq<Branch<Id, W>>, list: seq<nat>, i: nat)
    requires i < |list| && forall m | 0 <= m < |list| :: list[m] < |branches|
    ensures Pending(branches, list[i..]) == 1 + Weight(branches[list[i]].tails) + Pending(branches, list[i + 1..])
  {
    assert list[i..][1..] == list[i + 1..];
  }

  lemma OneMoreToTry<Id, W>(branches: seq<Branch<Id, W>>, list: seq<nat>, i: nat, b: Branch<Id, W>)
    requires i < |list| && forall m | 0 <= m < |list| :: list[m] < |branches|
    requires 1 + Weight(b.tails) <= Weight(branches[list[i]].tails)
    ensures Pending(branches + [b], list[i + 1..]) < Pending(branches, list[i..])
    ensures Pending(branches + [b], (list + [|branches|])[i + 1..]) < Pending(branches, list[i..])
  {
    hide Pending, Weight;
    PendingStep(branches, list, i);
    PendingMore(branches, b, list[i + 1..]);
    assert (list + [|branches|])[i + 1..] == list[i + 1..] + [|branches|];
  }

  /** A chain made longer has less to read, but something. */
  lemma ChainStep<Id, W>(keys: seq<seq<Id>>, calls: seq<Call<Id, W>>, p: seq<nat>)
    requires calls != [] && Known(calls, p) && IsChain(keys, calls, p + [|calls| - 1])
    ensures 1 + Weight(BranchOf(keys, calls, p + [|calls| - 1]).tails) <= Weight(BranchOf(keys, calls, p).tails)
  {
    var c := p + [|calls| - 1];
    assert c[..|c| - 1] == p;
    BranchTails(keys, calls, c);
    BehindWeighsLess(BranchOf(keys, calls, p).tails, calls[|calls| - 1].id);
  }

  // ---- the loop over the branches that end where a call starts ----

  /** The next branch to try gives a chain that has no branch yet. */
  lemma NotTriedYet<Id, W>(keys: seq<seq<Id>>, calls: seq<Call<Id, W>>, chains: seq<seq<nat>>, list: seq<nat>, i: nat)
    requires |calls| > 0 && (forall m | 0 <= m < |list| :: list[m] < |chains|) && i < |list|
    requires Tried(keys, calls, chains, list, i)
    requires forall a, b | 0 <= a < b < |chains| :: chains[a] != chains[b]
    requires forall m, n | 0 <= m < n < |list| :: list[m] < list[n]
    requires chains[list[i]] != []
    requires IsChain(keys, calls, chains[list[i]] + [|calls| - 1])
    ensures chains[list[i]] + [|calls| - 1] !in chains
  {
    var p := chains[list[i]];
    var c := p + [|calls| - 1];
    assert c[..|c| - 1] == p;
  }

  lemma TriedOne<Id, W>(keys: seq<seq<Id>>, calls: seq<Call<Id, W>>, chains: seq<seq<nat>>, list: seq<nat>, i: nat,
                        chains': seq<seq<nat>>, list': seq<nat>)
    requires |calls| > 0 && (forall m | 0 <= m < |list| :: list[m] < |chains|) && i < |list|
    requires Tried(keys, calls, chains, list, i)
    requires var c := chains[list[i]] + [|calls| - 1];
      chains' == if IsChain(keys, calls, c) then chains + [c] else chains
    requires |list| <= |list'| && list'[..|list|] == list && forall m | 0 <= m < |list'| :: list'[m] < |chains'|
    ensures Tried(keys, calls, chains', list', i + 1)
  {
    hide Tails, Ids, Contiguous, Due;
    var k := |calls| - 1;
    var p := chains[list[i]];
    assert forall m | 0 <= m < |list| :: list'[m] == list[m] && chains'[list'[m]] == chains[list[m]];
    forall c | IsChain(keys, calls, c) ensures c in chains' <==> Due(k, c, chains', list', i + 1) {
      assert c in chains <==> Due(k, c, chains, list, i);
      assert c[..|c| - 1] == p && c[|c| - 1] == k <==> c == p + [k] by {
        assert c == c[..|c| - 1] + [c[|c| - 1]];
      }
      DueOne(k, c, chains, list, i, chains', list');
      assert c in chains' <==> c in chains || c == p + [k];
    }
  }

  lemma DueOne(k: nat, c: seq<nat>, chains: seq<seq<nat>>, list: seq<nat>, i: nat, chains': seq<seq<nat>>, list': seq<nat>)
    requires (forall m | 0 <= m < |list| :: list[m] < |chains|) && (forall m | 0 <= m < |list'| :: list'[m] < |chains'|)
    requires i < |list| <= |list'| && c != [] && c[|c| - 1] <= k
    requires forall m | 0 <= m < |list| :: list'[m] == list[m] && chains'[list'[m]] == chains[list[m]]
    ensures Due(k, c, chains', list', i + 1)
       <==> Due(k, c, chains, list, i) || (c[|c| - 1] == k && c[..|c| - 1] == chains[list[i]])
  {
    var n := |c| - 1;
    if Due(k, c, chains, list, i) && c[n] == k && n > 0 {
      var m :| 0 <= m < i && chains[list[m]] == c[..n];
      assert chains'[list'[m]] == c[..n];
    }
    assert chains'[list'[i]] == chains[list[i]];
    if Due(k, c, chains', list', i + 1) && c[n] == k && n > 0 {
      var m :| 0 <= m < i + 1 && chains'[list'[m]] == c[..n];
      assert m < i ==> chains[list[m]] == c[..n];
    }
  }

  /** A chain stays what it is. */
  lemma OldChain<Id, W>(keys: seq<seq<Id>>, calls: seq<Call<Id, W>>, call: Call<Id, W>, c: seq<nat>)
    requires IsChain(keys, calls, c)
    ensures IsChain(keys, calls + [call], c) && BranchOf(keys, calls + [call], c) == BranchOf(keys, calls, c)
    ensures Contiguous(calls + [call], c) && End(calls + [call], c) == End(calls, c)
    ensures c[|c| - 1] < |calls|
  {
    SameBranch(keys, calls, call, c);
  }

  lemma StillEnumerates<Id, W>(keys: seq<seq<Id>>, calls: seq<Call<Id, W>>, call: Call<Id, W>, chains: seq<seq<nat>>, st: State<Id, W>)
    requires Enumerates(keys, calls, chains, st)
    ensures Enumerates(keys, calls + [call], chains, st)
  {
    hide Contiguous, Ids, Tails, BranchOf;
    forall i | 0 <= i < |chains|
      ensures IsChain(keys, calls + [call], chains[i]) && st.branches[i] == BranchOf(keys, calls + [call], chains[i])
    {
      OldChain(keys, calls, call, chains[i]);
    }
  }

  lemma StillIndexed<Id, W>(keys: seq<seq<Id>>, calls: seq<Call<Id, W>>, call: Call<Id, W>, chains: seq<seq<nat>>, st: State<Id, W>)
    requires Enumerates(keys, calls, chains, st) && Indexed(calls, chains, st.positionIndex)
    ensures Indexed(calls + [call], chains, st.positionIndex)
  {
    hide IsChain, BranchOf, Contiguous;
    forall i | 0 <= i < |chains|
      ensures Contiguous(calls + [call], chains[i]) && End(calls + [call], chains[i]) == End(calls, chains[i])
    {
      OldChain(keys, calls, call, chains[i]);
    }
    var index := st.positionIndex;
    forall p, i | 0 <= p < |index| && i in index[p] ensures EndsAt(calls + [call], chains, i, p) {
      assert EndsAt(calls, chains, i, p);
    }
  }

  lemma NewChain<Id, W>(keys: seq<seq<Id>>, calls: seq<Call<Id, W>>, call: Call<Id, W>, chains: seq<seq<nat>>, st: State<Id, W>, c: seq<nat>)
    requires Enumerates(keys, calls, chains, st) && Complete(keys, calls, chains)
    requires IsChain(keys, calls + [call], c)
    ensures c in chains <==> c[|c| - 1] < |calls|
  {
    hide Tails, Ids, BranchOf;
    if c[|c| - 1] < |calls| {
      AllBelow(calls + [call], c, |calls|, |c| - 1);
      SameBranch(keys, calls, call, c);
    }
    forall i | 0 <= i < |chains| ensures chains[i] != [] && chains[i][|chains[i]| - 1] < |calls| {
      assert IsChain(keys, calls, chains[i]);
    }
  }

  /** The calls of a chain come in order. */
  lemma {:induction false} AllBelow<Id, W>(calls: seq<Call<Id, W>>, c: seq<nat>, k: nat, i: nat)
    requires Contiguous(calls, c) && i < |c| && c[i] < k
    ensures forall j | 0 <= j <= i :: c[j] < k
  {
    if i > 0 {
      assert Follows(calls, c[i - 1], c[i]);
      AllBelow(calls, c, k, i - 1);
    }
  }

  class TFullSearchTree<Id(==), W> {
    var root: seq<seq<Id>>
    var branches: seq<Branch<Id, W>>
    var positionIndex: seq<seq<nat>>
    ghost var calls: seq<Call<Id, W>>
    ghost var chains: seq<seq<nat>>

    ghost function Now(): State<Id, W>
      reads this
    {
      State(branches, positionIndex)
    }

    /** After any calls the branches are their chains, each once, found by where they end. */
    ghost predicate Valid()
      reads this
    {
      && Enumerates(root, calls, chains, Now())
      && Indexed(calls, chains, positionIndex)
      && Complete(root, calls, chains)
    }

    constructor (root: seq<seq<Id>>)
      ensures Valid() && this.root == root && calls == []
    {
      this.root, branches, positionIndex, calls, chains := root, [], [], [], [];
    }

    /** The lists stay, but are empty. */
    method Reset(root: seq<seq<Id>>)
      modifies this
      ensures Valid() && this.root == root && calls == []
    {
      for p := 0 to |positionIndex|
        modifies this`positionIndex
        invariant |positionIndex| == old(|positionIndex|)
        invariant forall q | 0 <= q < p :: positionIndex[q] == []
      {
        positionIndex := positionIndex[p := []];
      }
      this.root, branches, calls, chains := root, [], [], [];
    }

    /** Inside TryAppendSequence: the call is on record, and all but its own chains are found. */
    ghost predicate Trying()
      reads this
    {
      && calls != []
      && Enumerates(root, calls, chains, Now())
      && Indexed(calls, chains, positionIndex)
    }

    ghost function Starting(): seq<nat>
      reads this
      requires calls != []
    {
      var start := calls[|calls| - 1].start;
      if start < |positionIndex| then positionIndex[start] else []
    }

    ghost predicate TriedUpTo(i: nat)
      reads this
      requires Trying()
    {
      StartingExist();
      i <= |Starting()| && Tried(root, calls, chains, Starting(), i)
    }

    lemma StartingExist()
      requires Trying()
      ensures forall m | 0 <= m < |Starting()| :: Starting()[m] < |chains| == |branches|
      ensures forall m, n | 0 <= m < n < |Starting()| :: Starting()[m] < Starting()[n]
    {
      forall m | 0 <= m < |Starting()| ensures Starting()[m] < |chains| {
        Ascending(positionIndex, chains, calls, calls[|calls| - 1].start, m, m);
      }
    }

    /** What the branches from number `i` of those that end at the call's start can still read. */
    ghost function PendingFrom(i: nat): nat
      reads this
      requires Trying() && i <= |Starting()|
    {
      StartingExist();
      Pending(branches, Starting()[i..])
    }

    method TryAppendSequence(call: Call<Id, W>)
      requires Valid()
      modifies this
      ensures Valid() && calls == old(calls) + [call] && root == old(root)
    {
      hide Trying, Valid, Fresh, Tried, Pending;
      Begin(call);
      TryRoot(call);
      if call.start < |positionIndex| {
        var i := 0;
        while i < |positionIndex[call.start]|
          invariant Trying() && calls == old(calls) + [call] && root == old(root)
          invariant call.start < |positionIndex| && i <= |positionIndex[call.start]|
          invariant TriedUpTo(i)
          decreases PendingFrom(i)
        {
          Turn(call, i);
          i := i + 1;
        }
      }
      Found();
    }

    /** No chain that ends in the last call has its branch, every other has. */
    ghost predicate Fresh()
      reads this
    {
      calls != [] && forall c | IsChain(root, calls, c) :: c in chains <==> c[|c| - 1] < |calls| - 1
    }

    ghost method Begin(call: Call<Id, W>)
      requires Valid()
      modifies this`calls
      ensures Trying() && Fresh() && calls == old(calls) + [call]
    {
      hide Enumerates, Indexed, Complete, Contiguous, Tails, Ids;
      var before := calls;
      calls := calls + [call];
      StillEnumerates(root, before, call, chains, Now());
      StillIndexed(root, before, call, chains, Now());
      forall c | IsChain(root, calls, c) ensures c in chains <==> c[|c| - 1] < |before| {
        NewChain(root, before, call, chains, Now(), c);
      }
    }

    /** The root first: a call is a chain by itself. */
    method TryRoot(call: Call<Id, W>)
      requires Trying() && Fresh() && call == calls[|calls| - 1]
      modifies this`branches, this`positionIndex, this`chains
      ensures Trying() && TriedUpTo(0)
    {
      hide Trying, Contiguous, Tails, Ids, Push, Tried;
      ghost var k, was := |calls| - 1, chains;
      assert [] + [k] == [k];
      TryAppendTo(Root(root), call, []);
      RootTried(was);
    }

    lemma RootTried(was: seq<seq<nat>>)
      requires Trying()
      requires forall c | IsChain(root, calls, c) :: c in was <==> c[|c| - 1] < |calls| - 1
      requires chains == if IsChain(root, calls, [|calls| - 1]) then was + [[|calls| - 1]] else was
      ensures TriedUpTo(0)
    {
      hide Contiguous, Tails, Ids, Enumerates, Indexed;
      var k := |calls| - 1;
      StartingExist();
      forall c | IsChain(root, calls, c) ensures c in chains <==> Due(k, c, chains, Starting(), 0) {
        assert c in was <==> c[|c| - 1] < k;
        assert |c| == 1 && c[0] == k <==> c == [k];
      }
    }

    /** One turn of the loop, for the branch number `i` of those that end where the call starts. */
    method Turn(call: Call<Id, W>, i: nat)
      requires Trying() && call == calls[|calls| - 1]
      requires call.start < |positionIndex| && i < |positionIndex[call.start]|
      requires TriedUpTo(i)
      modifies this`branches, this`positionIndex, this`chains
      ensures Trying() && call.start < |positionIndex| && i < |positionIndex[call.start]|
      ensures TriedUpTo(i + 1) && PendingFrom(i + 1) < old(PendingFrom(i))
    {
      hide Enumerates, Indexed, IsChain, Contiguous, BranchOf, Tails, Ids, Behind, Push, Weight, Due;
      Next(i);
      StartingExist();
      var j := positionIndex[call.start][i];
      ghost var was, before, list := chains, Now(), Starting();
      TryAppendTo(branches[j], call, chains[j]);
      Turned(was, before, list, i);
    }

    /** Branch `j` ends where the call starts, and has not been tried. */
    ghost predicate CanTurn(j: nat)
      reads this
    {
      && calls != [] && calls[|calls| - 1].start < |positionIndex|
      && Starting() == positionIndex[calls[|calls| - 1].start]
      && j < |chains| == |branches|
      && chains[j] in chains && Contiguous(calls, chains[j]) && End(calls, chains[j]) == calls[|calls| - 1].start
      && Known(calls, chains[j]) && branches[j] == BranchOf(root, calls, chains[j])
      && (IsChain(root, calls, chains[j] + [|calls| - 1]) ==> chains[j] + [|calls| - 1] !in chains)
    }

    /** What the next turn needs to know of its branch. */
    lemma Next(i: nat)
      requires Trying() && i < |Starting()| && TriedUpTo(i)
      ensures CanTurn(Starting()[i])
    {
      hide Tails, Ids, BranchOf, Tried;
      StartingExist();
      var k, j := |calls| - 1, Starting()[i];
      assert j in positionIndex[calls[k].start];
      assert EndsAt(calls, chains, j, calls[k].start);
      assert IsChain(root, calls, chains[j]);
      if IsChain(root, calls, chains[j] + [k]) {
        NotTriedYet(root, calls, chains, Starting(), i);
      }
    }

    /** After the turn one branch more is tried, and less is left to read. */
    lemma Turned(was: seq<seq<nat>>, before: State<Id, W>, list: seq<nat>, i: nat)
      requires Trying() && Turning(was, before, list, i) && Tried(root, calls, was, list, i)
      ensures i < |Starting()| && TriedUpTo(i + 1) && PendingFrom(i + 1) < Pending(before.branches, list[i..])
    {
      hide Enumerates, Indexed, Contiguous, Tails, Ids, Known, BranchOf, Tried, Pending, Weight, Behind;
      StartingExist();
      TriedOne(root, calls, was, list, i, chains, Starting());
      LessPending(was, before, list, i);
    }

    /** `list` were the branches that end where the call starts, number `i` has been extended. */
    ghost predicate Turning(was: seq<seq<nat>>, before: State<Id, W>, list: seq<nat>, i: nat)
      reads this
    {
      && calls != [] && |was| == |before.branches|
      && i < |list| && (forall m | 0 <= m < |list| :: list[m] < |was|)
      && calls[|calls| - 1].start < |before.positionIndex| && list == before.positionIndex[calls[|calls| - 1].start]
      && Known(calls, was[list[i]]) && before.branches[list[i]] == BranchOf(root, calls, was[list[i]])
      && Extended(was, before, was[list[i]])
    }

    lemma StartingAfter(was: seq<seq<nat>>, before: State<Id, W>, list: seq<nat>, i: nat)
      requires Turning(was, before, list, i)
      ensures var c := was[list[i]] + [|calls| - 1];
        if IsChain(root, calls, c) then
          && branches == before.branches + [BranchOf(root, calls, c)]
          && (Starting() == list || Starting() == list + [|before.branches|])
        else branches == before.branches && Starting() == list
    {
      hide Contiguous, Tails, Ids, BranchOf;
    }

    lemma LessPending(was: seq<seq<nat>>, before: State<Id, W>, list: seq<nat>, i: nat)
      requires Trying() && Turning(was, before, list, i) && i < |Starting()|
      ensures PendingFrom(i + 1) < Pending(before.branches, list[i..])
    {
      hide Enumerates, Indexed, Contiguous, Tails, Ids, BranchOf, Pending, Weight, Behind, Starting, Extended;
      var k := |calls| - 1;
      var p := was[list[i]];
      StartingExist();
      StartingAfter(was, before, list, i);
      if IsChain(root, calls, p + [k]) {
        ChainStep(root, calls, p);
        OneMoreToTry(before.branches, list, i, BranchOf(root, calls, p + [k]));
      } else {
        PendingStep(before.branches, list, i);
      }
    }

    /** The call joined on to `p` where the trie allows it, from an earlier state. */
    ghost predicate Extended(was: seq<seq<nat>>, before: State<Id, W>, p: seq<nat>)
      reads this
      requires calls != []
    {
      var c, call := p + [|calls| - 1], calls[|calls| - 1];
      if IsChain(root, calls, c) then
        chains == was + [c] && Now() == Push(before, BranchOf(root, calls, c), call.start + call.count)
      else
        chains == was && Now() == before
    }

    method TryAppendTo(src: Branch<Id, W>, call: Call<Id, W>, ghost p: seq<nat>)
      requires Trying() && call == calls[|calls| - 1]
      requires Known(calls, p)
      requires p == [] || (p in chains && Contiguous(calls, p) && End(calls, p) == call.start)
      requires src == BranchOf(root, calls, p)
      requires IsChain(root, calls, p + [|calls| - 1]) ==> p + [|calls| - 1] !in chains
      modifies this`branches, this`positionIndex, this`chains
      ensures Trying()
      ensures Extended(old(chains), old(Now()), p)
    {
      hide Indexed, IsChain, Contiguous, BranchOf, Tails, Ids, Behind, Push, Links, Resized;
      ghost var before := Now();
      ghost var k := |calls| - 1;
      Fits(p);
      var tmp := FindTails(src.tails, call.id);
      if tmp.Some? {
        var branchIndex := |branches|;
        CopyAndAppend(src, tmp.value, call.words);
        AddToIndex(branchIndex, call.start + call.count);
        Pushed(before, p, tmp.value);
        chains := chains + [p + [k]];
      }
    }

    /** The source's question to the trie is whether the longer chain is one. */
    lemma Fits(p: seq<nat>)
      requires Trying() && Known(calls, p)
      requires p == [] || (p in chains && Contiguous(calls, p) && End(calls, p) == calls[|calls| - 1].start)
      ensures var c := p + [|calls| - 1];
        && Known(calls, c)
        && (IsChain(root, calls, c) <==> FindTails(BranchOf(root, calls, p).tails, calls[|calls| - 1].id).Some?)
    {
      BranchTails(root, calls, p);
      ChainMore(root, calls, p, |calls| - 1);
    }

    /** The two vectors after CopyAndAppend and AddToIndex, with the chain still to be recorded. */
    lemma Pushed(before: State<Id, W>, p: seq<nat>, tails: seq<seq<Id>>)
      requires calls != [] && |chains| == |before.branches|
      requires Enumerates(root, calls, chains, before) && Indexed(calls, chains, before.positionIndex)
      requires Known(calls, p) && IsChain(root, calls, p + [|calls| - 1]) && p + [|calls| - 1] !in chains
      requires var call, src := calls[|calls| - 1], BranchOf(root, calls, p);
        && FindTails(src.tails, call.id) == Some(tails)
        && branches == before.branches + [Branch(tails, Links(call.words, src.words), src.size + |call.words|)]
        && positionIndex ==
          var index := Resized(before.positionIndex, call.start + call.count + 1);
          index[call.start + call.count := index[call.start + call.count] + [|before.branches|]]
      ensures var c := p + [|calls| - 1];
        && Enumerates(root, calls, chains + [c], Now()) && Indexed(calls, chains + [c], positionIndex)
        && Known(calls, c)
        && Now() == Push(before, BranchOf(root, calls, c), calls[|calls| - 1].start + calls[|calls| - 1].count)
    {
      hide Enumerates, Indexed, Tails, Behind, Contiguous, IsChain, BranchOf, Resized, Links;
      var call, c := calls[|calls| - 1], p + [|calls| - 1];
      ChainBasics(root, calls, c);
      NewBranch(root, calls, p, tails);
      PushIndexed(calls, chains, c, before, BranchOf(root, calls, c));
      PushEnumerates(root, calls, chains, c, before, BranchOf(root, calls, c), call.start + call.count);
    }

    method CopyAndAppend(src: Branch<Id, W>, tails: seq<seq<Id>>, words: seq<W>)
      modifies this`branches
      ensures branches == old(branches) + [Branch(tails, Links(words, src.words), src.size + |words|)]
    {
      var newBranch := src.(tails := tails);
      for i := 0 to |words|
        invariant newBranch == Branch(tails, Links(words[..i], src.words), src.size + i)
      {
        assert words[..i + 1][..i] == words[..i];
        newBranch := Append(newBranch, LinkedWord(words[i], 1));
      }
      assert words[..|words|] == words;
      branches := branches + [newBranch];
    }

    method AddToIndex(branchIndex: nat, nextWordIndex: nat)
      modifies this`positionIndex
      ensures positionIndex ==
        var index := Resized(old(positionIndex), nextWordIndex + 1);
        index[nextWordIndex := index[nextWordIndex] + [branchIndex]]
    {
      if |positionIndex| <= nextWordIndex {
        positionIndex := positionIndex + seq(nextWordIndex + 1 - |positionIndex|, i => []);
      }
      positionIndex := positionIndex[nextWordIndex := positionIndex[nextWordIndex] + [branchIndex]];
    }

    /** After any calls: the branches that are final are exactly the chains that spell a key, each
        found once and with the words of its calls in order. */
    lemma FinalBranches()
      requires Valid()
      ensures |chains| == |branches|
      ensures forall i, j | 0 <= i < j < |chains| :: chains[i] != chains[j]
      ensures forall i | 0 <= i < |branches| ::
        && Contiguous(calls, chains[i]) && Known(calls, chains[i])
        && Words(Reverse(branches[i].words)) == Covered(calls, chains[i])
        && (IsFinal(branches[i]) <==> Ids(calls, chains[i]) in root)
      ensures forall c | Contiguous(calls, c) && Known(calls, c) && Ids(calls, c) in root ::
        exists i :: 0 <= i < |chains| && chains[i] == c
    {
      hide Contiguous, Ids, BranchOf, Tails, Reverse, Indexed, Covered;
      forall i | 0 <= i < |branches|
        ensures Contiguous(calls, chains[i]) && Known(calls, chains[i])
        ensures Words(Reverse(branches[i].words)) == Covered(calls, chains[i])
        ensures IsFinal(branches[i]) <==> Ids(calls, chains[i]) in root
      {
        assert IsChain(root, calls, chains[i]);
        BranchSays(root, calls, chains[i]);
        FinalIsKey(root, calls, chains[i]);
      }
      forall c | Contiguous(calls, c) && Known(calls, c) && Ids(calls, c) in root
        ensures exists i :: 0 <= i < |chains| && chains[i] == c
      {
        KeyIsChain(root, calls, c);
        assert c in chains;
      }
    }

    lemma Found()
      requires Trying() && TriedUpTo(|Starting()|)
      ensures Valid()
    {
      hide IsChain, Tried, Enumerates, Indexed;
      StartingExist();
      forall c | IsChain(root, calls, c) ensures c in chains {
        AllTried(root, calls, chains, positionIndex, Starting(), c);
      }
    }
  }
}
