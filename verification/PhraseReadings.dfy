/** What a phrase search finds (articleiter.h, TakeNextWord): for every input word some forms of it
    are tried, and after each word the branches are exactly the ways to read the last words, one
    form for each, as the beginning of a phrase. */
module PhraseReadings {
  import opened Wrappers
  import opened PhraseBranches
  import opened SearchTree

  /** One form of an input word: a token, or sub-tokens that must all follow each other. */
  datatype Form<Id, W> = Token(id: Id, word: W) | Multitoken(ids: seq<Id>, word: W)

  function IdsOf<Id, W>(f: Form<Id, W>): seq<Id> {
    match f
    case Token(id, _) => [id]
    case Multitoken(ids, _) => ids
  }

  /** The forms tried for one word, none without a token. */
  type Forms<Id, W> = fs: seq<Form<Id, W>> | forall i | 0 <= i < |fs| :: IdsOf(fs[i]) != [] witness []

  // ---- naive enumeration ----

  /** One form for each of the last words. */
  ghost predicate Fits<Id, W>(input: seq<Forms<Id, W>>, picks: seq<nat>) {
    && |picks| <= |input|
    && forall i | 0 <= i < |picks| :: picks[i] < |input[|input| - |picks| + i]|
  }

  ghost function Pick<Id, W>(input: seq<Forms<Id, W>>, picks: seq<nat>, i: nat): Form<Id, W>
    requires Fits(input, picks) && i < |picks|
  {
    input[|input| - |picks| + i][picks[i]]
  }

  ghost function Spelled<Id, W>(input: seq<Forms<Id, W>>, picks: seq<nat>): seq<Id>
    requires Fits(input, picks)
  {
    if picks == [] then []
    else
      Spelled(input[..|input| - 1], picks[..|picks| - 1]) + IdsOf(Pick(input, picks, |picks| - 1))
  }

  /** The tokens begin some phrase. */
  ghost predicate IsReading<Id, W>(root: seq<seq<Id>>, input: seq<Forms<Id, W>>, picks: seq<nat>) {
    && picks != [] && Fits(input, picks)
    && exists k :: 0 <= k < |root| && Spelled(input, picks) <= root[k]
  }

  /** The branch of a reading: its words in order, with their numbers of tokens, and the rests of
      the phrases that begin so. */
  ghost predicate Stands<Id, W>(b: Branch<Id, W>, root: seq<seq<Id>>, input: seq<Forms<Id, W>>, picks: seq<nat>)
    requires Fits(input, picks)
  {
    && b.size == |b.words| == |picks|
    && b.tails == Tails(root, Spelled(input, picks))
    && forall i | 0 <= i < |picks| ::
         Reverse(b.words)[i] == LinkedWord(Pick(input, picks, i).word, |IdsOf(Pick(input, picks, i))|)
  }

  /** The readings among `ps` with form `k` of the last word behind them, in order. */
  ghost function Longer<Id, W>(root: seq<seq<Id>>, input: seq<Forms<Id, W>>, ps: seq<seq<nat>>, k: nat): seq<seq<nat>> {
    if ps == [] then []
    else
      var n := |ps| - 1;
      Longer(root, input, ps[..n], k) + if IsReading(root, input, ps[n] + [k]) then [ps[n] + [k]] else []
  }

  /** With one of the first `n` forms of the last word. */
  ghost function WithForms<Id, W>(root: seq<seq<Id>>, input: seq<Forms<Id, W>>, ps: seq<seq<nat>>, n: nat): seq<seq<nat>> {
    if n == 0 then [] else WithForms(root, input, ps, n - 1) + Longer(root, input, ps, n - 1)
  }

  ghost function Readings<Id, W>(root: seq<seq<Id>>, input: seq<Forms<Id, W>>): seq<seq<nat>> {
    if input == [] then []
    else
      var n := |input| - 1;
      WithForms(root, input, Readings(root, input[..n]) + [[]], |input[n]|)
  }

  lemma LastAndBefore(c: seq<nat>, p: seq<nat>, k: nat)
    ensures c == p + [k] <==> c != [] && c[|c| - 1] == k && c[..|c| - 1] == p
  {
  }

  lemma {:induction false} LongerHas<Id, W>(root: seq<seq<Id>>, input: seq<Forms<Id, W>>, ps: seq<seq<nat>>, k: nat, c: seq<nat>)
    ensures c in Longer(root, input, ps, k)
       <==> IsReading(root, input, c) && c[|c| - 1] == k && c[..|c| - 1] in ps
  {
    hide IsReading;
    NoInput(root, input, c);
    if ps != [] {
      var n := |ps| - 1;
      LongerHas(root, input, ps[..n], k, c);
      LastAndBefore(c, ps[n], k);
    }
  }

  lemma {:induction false} WithFormsHas<Id, W>(root: seq<seq<Id>>, input: seq<Forms<Id, W>>, ps: seq<seq<nat>>, n: nat, c: seq<nat>)
    ensures c in WithForms(root, input, ps, n)
       <==> IsReading(root, input, c) && c[|c| - 1] < n && c[..|c| - 1] in ps
  {
    hide IsReading, Longer;
    NoInput(root, input, c);
    if n > 0 {
      WithFormsHas(root, input, ps, n - 1, c);
      LongerHas(root, input, ps, n - 1, c);
    }
  }

  lemma ReadingBefore<Id, W>(root: seq<seq<Id>>, input: seq<Forms<Id, W>>, c: seq<nat>)
    requires IsReading(root, input, c)
    ensures var n := |input| - 1;
      && input != [] && c[|c| - 1] < |input[n]|
      && (c[..|c| - 1] == [] || IsReading(root, input[..n], c[..|c| - 1]))
  {
    var n, p := |input| - 1, c[..|c| - 1];
    assert Fits(input[..n], p);
    var k :| 0 <= k < |root| && Spelled(input, c) <= root[k];
    assert Spelled(input[..n], p) <= root[k];
  }

  /** All readings are enumerated, and nothing else. */
  lemma {:induction false} ReadingsAre<Id, W>(root: seq<seq<Id>>, input: seq<Forms<Id, W>>, c: seq<nat>)
    ensures c in Readings(root, input) <==> IsReading(root, input, c)
  {
    hide IsReading, Fits, Spelled;
    NoInput(root, input, c);
    if input != [] {
      var n := |input| - 1;
      var ps := Readings(root, input[..n]) + [[]];
      WithFormsHas(root, input, ps, |input[n]|, c);
      if IsReading(root, input, c) {
        ReadingBefore(root, input, c);
        ReadingsAre(root, input[..n], c[..|c| - 1]);
      }
    }
  }

  lemma NoInput<Id, W>(root: seq<seq<Id>>, input: seq<Forms<Id, W>>, c: seq<nat>)
    ensures IsReading(root, input, c) ==> input != [] && c != []
  {
  }

  ghost predicate Distinct<T>(s: seq<T>) {
    forall i, j | 0 <= i < j < |s| :: s[i] != s[j]
  }

  lemma DistinctJoin<T>(s: seq<T>, t: seq<T>)
    requires Distinct(s) && Distinct(t) && forall x | x in s :: x !in t
    ensures Distinct(s + t)
  {
    forall i, j | 0 <= i < j < |s + t| ensures (s + t)[i] != (s + t)[j] {
      if i < |s| <= j {
        assert s[i] in s && t[j - |s|] in t;
      }
    }
  }

  lemma {:induction false} LongerDistinct<Id, W>(root: seq<seq<Id>>, input: seq<Forms<Id, W>>, ps: seq<seq<nat>>, k: nat)
    requires Distinct(ps)
    ensures Distinct(Longer(root, input, ps, k))
  {
    hide IsReading;
    if ps != [] {
      var n := |ps| - 1;
      LongerDistinct(root, input, ps[..n], k);
      var c := ps[n] + [k];
      LongerHas(root, input, ps[..n], k, c);
      assert c[..|c| - 1] == ps[n];
    }
  }

  lemma {:induction false} WithFormsDistinct<Id, W>(root: seq<seq<Id>>, input: seq<Forms<Id, W>>, ps: seq<seq<nat>>, n: nat)
    requires Distinct(ps)
    ensures Distinct(WithForms(root, input, ps, n))
  {
    hide IsReading, Distinct, Longer;
    if n > 0 {
      WithFormsDistinct(root, input, ps, n - 1);
      LongerDistinct(root, input, ps, n - 1);
      var s, t := WithForms(root, input, ps, n - 1), Longer(root, input, ps, n - 1);
      forall x | x in s ensures x !in t {
        WithFormsHas(root, input, ps, n - 1, x);
        LongerHas(root, input, ps, n - 1, x);
      }
      DistinctJoin(s, t);
    } else {
      NothingDistinct<seq<nat>>();
    }
  }

  lemma NothingDistinct<T>()
    ensures Distinct<T>([])
  {
  }

  /** None is enumerated twice. */
  lemma {:induction false} ReadingsDistinct<Id, W>(root: seq<seq<Id>>, input: seq<Forms<Id, W>>)
    ensures Distinct(Readings(root, input))
  {
    hide IsReading, WithForms;
    if input != [] {
      var n := |input| - 1;
      ReadingsDistinct(root, input[..n]);
      forall c | c in Readings(root, input[..n]) ensures c != [] {
        ReadingsAre(root, input[..n], c);
        NoInput(root, input[..n], c);
      }
      DistinctJoin(Readings(root, input[..n]), [[]]);
      WithFormsDistinct(root, input, Readings(root, input[..n]) + [[]], |input[n]|);
    }
  }

  // ---- the search ----

  /** The next state once the first `n` forms have been tried. */
  function AfterForms<Id(==), W>(branches: seq<Branch<Id, W>>, forms: Forms<Id, W>, n: nat): seq<Branch<Id, W>>
    requires n <= |forms|
  {
    if n == 0 then []
    else Continued(branches, IdsOf(forms[n - 1]), forms[n - 1].word, AfterForms(branches, forms, n - 1))
  }

  function AfterWords<Id(==), W>(root: seq<seq<Id>>, input: seq<Forms<Id, W>>): seq<Branch<Id, W>> {
    if input == [] then []
    else
      var n := |input| - 1;
      AfterForms(AfterWords(root, input[..n]) + [Root(root)], input[n], |input[n]|)
  }

  /** One input word. */
  method TakeNextWord<Id, W>(tree: TSearchTree<Id, W>, forms: Forms<Id, W>)
    requires tree.nextBranches == []
    modifies tree
    ensures tree.nextBranches == [] && tree.root == old(tree.root)
    ensures tree.branches == AfterForms(old(tree.branches) + [Root(tree.root)], forms, |forms|)
  {
    hide Continued;
    tree.AppendRoot();
    for i := 0 to |forms|
      invariant tree.root == old(tree.root) && tree.branches == old(tree.branches) + [Root(tree.root)]
      invariant tree.nextBranches == AfterForms(tree.branches, forms, i)
    {
      match forms[i] {
        case Token(id, word) =>
          tree.TryAppendWord(id, word);
        case Multitoken(ids, word) =>
          var _ := tree.TryAppendMultitoken(ids, word);
      }
    }
    tree.SwitchNextState();
  }

  method TakeWords<Id, W>(root: seq<seq<Id>>, input: seq<Forms<Id, W>>) returns (tree: TSearchTree<Id, W>)
    ensures fresh(tree) && tree.root == root && tree.branches == AfterWords(root, input)
    ensures (forall n: nat | n <= |input| :: |Readings(root, input[..n])| <= 10_001)
        ==> AllStand(tree.branches, root, input, Readings(root, input))
  {
    hide AfterForms, Readings, AllStand;
    tree := new TSearchTree(root);
    for i := 0 to |input|
      invariant fresh(tree) && tree.root == root && tree.nextBranches == []
      invariant tree.branches == AfterWords(root, input[..i])
    {
      assert input[..i + 1][..i] == input[..i];
      TakeNextWord(tree, input[i]);
    }
    assert input[..|input|] == input;
    if forall n: nat | n <= |input| :: |Readings(root, input[..n])| <= 10_001 {
      SearchIsEnumeration(root, input);
    }
  }

  // ---- the search finds the readings ----

  ghost predicate AllStand<Id, W>(bs: seq<Branch<Id, W>>, root: seq<seq<Id>>, input: seq<Forms<Id, W>>, ps: seq<seq<nat>>) {
    && |bs| == |ps|
    && forall i | 0 <= i < |ps| :: Fits(input, ps[i]) && Stands(bs[i], root, input, ps[i])
  }

  lemma StandsFurther<Id, W>(b: Branch<Id, W>, root: seq<seq<Id>>, input: seq<Forms<Id, W>>, p: seq<nat>, k: nat)
    requires input != [] && k < |input[|input| - 1]|
    requires Fits(input[..|input| - 1], p) && Stands(b, root, input[..|input| - 1], p)
    ensures Fits(input, p + [k])
    ensures var f := input[|input| - 1][k];
      var t := Tails(b.tails, IdsOf(f));
      && (t != [] <==> IsReading(root, input, p + [k]))
      && Stands(Append(b.(tails := t), LinkedWord(f.word, |IdsOf(f)|)), root, input, p + [k])
  {
    hide Tails, Reverse;
    var n, c := |input| - 1, p + [k];
    var f := input[n][k];
    assert c[..|p|] == p;
    assert Pick(input, c, |p|) == f;
    TailsJoin(root, Spelled(input[..n], p), IdsOf(f));
    TailsLeft(root, Spelled(input, c));
    var w := LinkedWord(f.word, |IdsOf(f)|);
    forall i | 0 <= i < |c|
      ensures Reverse([w] + b.words)[i] == LinkedWord(Pick(input, c, i).word, |IdsOf(Pick(input, c, i))|)
    {
      assert i < |p| ==> Pick(input, c, i) == Pick(input[..n], p, i) && Reverse([w] + b.words)[i] == Reverse(b.words)[i];
    }
  }

  lemma {:induction false} TailsJoin<Id>(keys: seq<seq<Id>>, a: seq<Id>, b: seq<Id>)
    ensures Tails(Tails(keys, a), b) == Tails(keys, a + b)
  {
    if b == [] {
      assert a + b == a;
    } else {
      var n := |b| - 1;
      TailsJoin(keys, a, b[..n]);
      assert (a + b)[..|a| + n] == a + b[..n];
    }
  }

  /** One form, tried on every branch. */
  lemma {:induction false} FormTried<Id, W>(bs: seq<Branch<Id, W>>, root: seq<seq<Id>>, input: seq<Forms<Id, W>>, ps: seq<seq<nat>>, k: nat)
    requires input != [] && k < |input[|input| - 1]|
    requires AllStand(bs, root, input[..|input| - 1], ps)
    ensures var f := input[|input| - 1][k];
      AllStand(Extensions(bs, IdsOf(f), f.word), root, input, Longer(root, input, ps, k))
  {
    hide Stands, IsReading, Fits, Tails, Append;
    if ps != [] {
      var n := |ps| - 1;
      FormTried(bs[..n], root, input, ps[..n], k);
      StandsFurther(bs[n], root, input, ps[n], k);
    }
  }

  /** As long as there is room, nothing is pruned. */
  lemma {:induction false} FormsTried<Id, W>(bs: seq<Branch<Id, W>>, root: seq<seq<Id>>, input: seq<Forms<Id, W>>, ps: seq<seq<nat>>, n: nat)
    requires input != [] && n <= |input[|input| - 1]|
    requires AllStand(bs, root, input[..|input| - 1], ps)
    requires |WithForms(root, input, ps, n)| <= 10_001
    ensures AllStand(AfterForms(bs, input[|input| - 1], n), root, input, WithForms(root, input, ps, n))
  {
    hide Stands, Longer, Extensions, Continued;
    if n > 0 {
      var forms := input[|input| - 1];
      var f := forms[n - 1];
      FormsTried(bs, root, input, ps, n - 1);
      FormTried(bs, root, input, ps, n - 1);
      NothingPruned(bs, IdsOf(f), f.word, AfterForms(bs, forms, n - 1));
    }
  }

  /** After any words, the branches are the readings of the last words, in order and each once,
      while no word has more than 10001 of them. */
  lemma {:induction false} SearchIsEnumeration<Id, W>(root: seq<seq<Id>>, input: seq<Forms<Id, W>>)
    requires forall n: nat | n <= |input| :: |Readings(root, input[..n])| <= 10_001
    ensures AllStand(AfterWords(root, input), root, input, Readings(root, input))
  {
    hide Stands, WithForms, AfterForms;
    if input != [] {
      var n := |input| - 1;
      forall m: nat | m <= n ensures |Readings(root, input[..n][..m])| <= 10_001 {
        assert input[..n][..m] == input[..m];
      }
      SearchIsEnumeration(root, input[..n]);
      assert input[..|input|] == input;
      RootStands(root, input[..n]);
      FormsTried(AfterWords(root, input[..n]) + [Root(root)], root, input, Readings(root, input[..n]) + [[]], |input[n]|);
    }
  }

  lemma RootStands<Id, W>(root: seq<seq<Id>>, input: seq<Forms<Id, W>>)
    ensures Fits(input, []) && Stands(Root(root), root, input, [])
  {
  }

  lemma {:induction false} FormsBounded<Id, W>(branches: seq<Branch<Id, W>>, forms: Forms<Id, W>, n: nat)
    requires n <= |forms|
    ensures |AfterForms(branches, forms, n)| <= 10_001
  {
    if n > 0 {
      FormsBounded(branches, forms, n - 1);
      ContinuedBounded(branches, IdsOf(forms[n - 1]), forms[n - 1].word, AfterForms(branches, forms, n - 1));
    }
  }

  /** The search finds the readings behind every word exactly if there are never more than 10001. */
  lemma FindsAllReadings<Id, W>(root: seq<seq<Id>>, input: seq<Forms<Id, W>>)
    ensures (forall n: nat | n <= |input| ::
               AllStand(AfterWords(root, input[..n]), root, input[..n], Readings(root, input[..n])))
       <==> (forall n: nat | n <= |input| :: |Readings(root, input[..n])| <= 10_001)
  {
    hide Stands, WithForms, AfterForms, Readings;
    forall n: nat | n <= |input| ensures |AfterWords(root, input[..n])| <= 10_001 {
      if n > 0 {
        FormsBounded(AfterWords(root, input[..n][..n - 1]) + [Root(root)], input[n - 1], |input[n - 1]|);
      }
    }
    if forall n: nat | n <= |input| :: |Readings(root, input[..n])| <= 10_001 {
      forall n: nat | n <= |input|
        ensures AllStand(AfterWords(root, input[..n]), root, input[..n], Readings(root, input[..n]))
      {
        forall m: nat | m <= n ensures |Readings(root, input[..n][..m])| <= 10_001 {
          assert input[..n][..m] == input[..m];
        }
        SearchIsEnumeration(root, input[..n]);
      }
    }
  }

  /** A final branch is a reading that is a whole phrase; copied out it gives the words read, and
      the table sends every token back to its word. */
  lemma BranchTells<Id, W>(b: Branch<Id, W>, root: seq<seq<Id>>, input: seq<Forms<Id, W>>, picks: seq<nat>)
    requires Fits(input, picks) && Stands(b, root, input, picks)
    ensures IsFinal(b) <==> Spelled(input, picks) in root
    ensures Words(Reverse(b.words)) == seq(|picks|, i requires 0 <= i < |picks| => Pick(input, picks, i).word)
    ensures FullSize(b.words) == |Spelled(input, picks)|
  {
    TailsKeys(root, Spelled(input, picks), []);
    assert Spelled(input, picks) + [] == Spelled(input, picks);
    TokensCounted(b.words, input, picks);
  }

  lemma SamePicks<Id, W>(input: seq<Forms<Id, W>>, picks: seq<nat>)
    requires picks != [] && Fits(input, picks)
    ensures var m, n := |input| - 1, |picks| - 1;
      Fits(input[..m], picks[..n]) && forall i | 0 <= i < n :: Pick(input[..m], picks[..n], i) == Pick(input, picks, i)
  {
  }

  lemma {:induction false} TokensCounted<Id, W>(ws: seq<LinkedWord<W>>, input: seq<Forms<Id, W>>, picks: seq<nat>)
    requires Fits(input, picks) && |ws| == |picks|
    requires forall i | 0 <= i < |picks| :: Reverse(ws)[i].multitokenSize == |IdsOf(Pick(input, picks, i))|
    ensures FullSize(ws) == |Spelled(input, picks)|
  {
    hide Reverse, Pick;
    if picks != [] {
      var n, m := |picks| - 1, |input| - 1;
      SamePicks(input, picks);
      forall i | 0 <= i < n ensures Reverse(ws[1..])[i].multitokenSize == |IdsOf(Pick(input[..m], picks[..n], i))| {
        assert Reverse(ws[1..])[i] == Reverse(ws)[i];
      }
      TokensCounted(ws[1..], input[..m], picks[..n]);
      assert ws[0] == Reverse(ws)[n];
    }
  }
}
