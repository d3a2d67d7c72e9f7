/** Edit distance of two strings (str_metric.cpp): the table it fills, the common ends it strips
    first, and the quick lower bound. With `tr` two neighbours may swap for the price of one edit
    (Damerau), without it this is Levenshtein's distance. */
module EditDistance {

  // ---- what is computed: the cheapest edit of one string into the other ----

  datatype Edit<T> = Keep(c: T) | Replace(a: T, b: T) | Add(b: T) | Remove(a: T) | Swap(a: T, b: T)

  /** What one step takes from the source and gives to the target. */
  function Taken<T>(e: Edit<T>): seq<T> {
    match e
    case Keep(c) => [c]
    case Replace(a, _) => [a]
    case Add(_) => []
    case Remove(a) => [a]
    case Swap(a, b) => [a, b]
  }

  function Given<T>(e: Edit<T>): seq<T> {
    match e
    case Keep(c) => [c]
    case Replace(_, b) => [b]
    case Add(b) => [b]
    case Remove(_) => []
    case Swap(a, b) => [b, a]
  }

  function Source<T>(es: seq<Edit<T>>): seq<T> {
    if es == [] then [] else Source(es[..|es| - 1]) + Taken(es[|es| - 1])
  }

  function Target<T>(es: seq<Edit<T>>): seq<T> {
    if es == [] then [] else Target(es[..|es| - 1]) + Given(es[|es| - 1])
  }

  function Cost<T>(es: seq<Edit<T>>): nat {
    if es == [] then 0 else Cost(es[..|es| - 1]) + if es[|es| - 1].Keep? then 0 else 1
  }

  ghost predicate Edits<T>(tr: bool, es: seq<Edit<T>>, s: seq<T>, t: seq<T>) {
    Source(es) == s && Target(es) == t && (tr || forall k | 0 <= k < |es| :: !es[k].Swap?)
  }

  // ---- how: the recurrence ----

  function Min(a: int, b: int): int {
    if a < b then a else b
  }

  function Min3(a: int, b: int, c: int): int {
    Min(Min(a, b), c)
  }

  function Subst<T(==)>(a: T, b: T): nat {
    if a == b then 0 else 1
  }

  /** The last two characters of `s[..i]` and `t[..j]` are each other's, swapped. */
  predicate Swapped<T(==)>(tr: bool, s: seq<T>, t: seq<T>, i: nat, j: nat)
    requires i <= |s| && j <= |t|
  {
    tr && i > 1 && j > 1 && s[i - 2] == t[j - 1] && s[i - 1] == t[j - 2]
  }

  /** The distance of the first `i` characters of `s` and the first `j` of `t`. */
  function Dist<T(==)>(tr: bool, s: seq<T>, t: seq<T>, i: nat, j: nat): nat
    requires i <= |s| && j <= |t|
  {
    if i == 0 then j
    else if j == 0 then i
    else
      var d := Min3(Dist(tr, s, t, i, j - 1) + 1, Dist(tr, s, t, i - 1, j) + 1,
                    Dist(tr, s, t, i - 1, j - 1) + Subst(s[i - 1], t[j - 1]));
      if Swapped(tr, s, t, i, j) then Min(d, Dist(tr, s, t, i - 2, j - 2) + 1) else d
  }

  /** One turn of the recurrence, to use with the rest of it hidden. */
  lemma DistIs<T>(tr: bool, s: seq<T>, t: seq<T>, i: nat, j: nat)
    requires i <= |s| && j <= |t|
    ensures i == 0 ==> Dist(tr, s, t, i, j) == j
    ensures j == 0 ==> Dist(tr, s, t, i, j) == i
    ensures i > 0 && j > 0 ==>
      var d := Min3(Dist(tr, s, t, i, j - 1) + 1, Dist(tr, s, t, i - 1, j) + 1,
                    Dist(tr, s, t, i - 1, j - 1) + Subst(s[i - 1], t[j - 1]));
      Dist(tr, s, t, i, j) == if Swapped(tr, s, t, i, j) then Min(d, Dist(tr, s, t, i - 2, j - 2) + 1) else d
  {
    hide Min, Min3, Subst;
  }

  function Distance<T(==)>(tr: bool, s: seq<T>, t: seq<T>): nat {
    Dist(tr, s, t, |s|, |t|)
  }

  /** Only the first `i` and `j` characters matter. */
  lemma {:induction false} DistOfEnds<T>(tr: bool, s: seq<T>, t: seq<T>, s': seq<T>, t': seq<T>, i: nat, j: nat)
    requires i <= |s| && j <= |t| && i <= |s'| && j <= |t'|
    requires (forall k | 0 <= k < i :: s[k] == s'[k]) && (forall k | 0 <= k < j :: t[k] == t'[k])
    ensures Dist(tr, s, t, i, j) == Dist(tr, s', t', i, j)
  {
    hide Dist, Min, Min3, Subst;
    DistIs(tr, s, t, i, j);
    DistIs(tr, s', t', i, j);
    if i > 0 && j > 0 {
      DistOfEnds(tr, s, t, s', t', i, j - 1);
      DistOfEnds(tr, s, t, s', t', i - 1, j);
      DistOfEnds(tr, s, t, s', t', i - 1, j - 1);
      if i > 1 && j > 1 {
        DistOfEnds(tr, s, t, s', t', i - 2, j - 2);
      }
      assert Swapped(tr, s, t, i, j) == Swapped(tr, s', t', i, j);
    }
  }

  // ---- the recurrence gives the cheapest edit ----

  lemma {:induction false} NoEditIsCheaper<T>(tr: bool, es: seq<Edit<T>>, s: seq<T>, t: seq<T>)
    requires Edits(tr, es, s, t)
    ensures Distance(tr, s, t) <= Cost(es)
    decreases |es|
  {
    if es != [] {
      var rest, e := es[..|es| - 1], es[|es| - 1];
      var s', t' := Source(rest), Target(rest);
      NoEditIsCheaper(tr, rest, s', t');
      assert forall k | 0 <= k < |s'| :: s[k] == s'[k];
      assert forall k | 0 <= k < |t'| :: t[k] == t'[k];
      DistOfEnds(tr, s', t', s, t, |s'|, |t'|);
      assert tr || !e.Swap?;
      StepUp(tr, s, t, |s'|, |t'|, e);
    }
  }

  /** No single step of an edit brings the distance further up than it costs. */
  lemma StepUp<T>(tr: bool, s: seq<T>, t: seq<T>, i: nat, j: nat, e: Edit<T>)
    requires i <= |s| && j <= |t| && (e.Swap? ==> tr)
    requires s[i..] == Taken(e) && t[j..] == Given(e)
    ensures Distance(tr, s, t) <= Dist(tr, s, t, i, j) + if e.Keep? then 0 else 1
  {
    hide Dist;
    assert |s| == i + |s[i..]| && |t| == j + |t[j..]|;
    assert forall k | i <= k < |s| :: s[k] == s[i..][k - i];
    assert forall k | j <= k < |t| :: t[k] == t[j..][k - j];
    DistIs(tr, s, t, |s|, |t|);
    if i == 0 || j == 0 {
      DistIs(tr, s, t, i, j);
    }
  }

  /** The step `e` ends the two beginnings and makes up the difference in distance. */
  ghost predicate Fits<T>(tr: bool, s: seq<T>, t: seq<T>, i: nat, j: nat, e: Edit<T>)
    requires i <= |s| && j <= |t|
  {
    var a, b := |Taken(e)|, |Given(e)|;
    && a + b > 0 && a <= i && b <= j
    && s[i - a..i] == Taken(e) && t[j - b..j] == Given(e) && (e.Swap? ==> tr)
    && Dist(tr, s, t, i, j) == Dist(tr, s, t, i - a, j - b) + if e.Keep? then 0 else 1
  }

  /** The last step of a cheapest edit. */
  lemma LastStep<T>(tr: bool, s: seq<T>, t: seq<T>, i: nat, j: nat) returns (e: Edit<T>)
    requires i <= |s| && j <= |t| && i + j > 0
    ensures Fits(tr, s, t, i, j, e)
  {
    hide Dist, Min, Min3, Fits;
    if i == 0 || j == 0 {
      e := BorderStep(tr, s, t, i, j);
    } else {
      OneOf(tr, s, t, i, j);
      var d := Dist(tr, s, t, i, j);
      if d == Dist(tr, s, t, i, j - 1) + 1 {
        e := Add(t[j - 1]);
        FitsOne(tr, s, t, i, j, e);
      } else if d == Dist(tr, s, t, i - 1, j) + 1 {
        e := Remove(s[i - 1]);
        FitsOne(tr, s, t, i, j, e);
      } else if d == Dist(tr, s, t, i - 1, j - 1) + Subst(s[i - 1], t[j - 1]) {
        e := if s[i - 1] == t[j - 1] then Keep(s[i - 1]) else Replace(s[i - 1], t[j - 1]);
        FitsOne(tr, s, t, i, j, e);
      } else {
        e := Swap(s[i - 2], s[i - 1]);
        FitsSwap(tr, s, t, i, j, e);
      }
    }
  }

  lemma BorderStep<T>(tr: bool, s: seq<T>, t: seq<T>, i: nat, j: nat) returns (e: Edit<T>)
    requires i <= |s| && j <= |t| && i + j > 0 && (i == 0 || j == 0)
    ensures Fits(tr, s, t, i, j, e)
  {
    hide Dist, Min, Min3;
    DistIs(tr, s, t, i, j);
    if i == 0 {
      DistIs(tr, s, t, i, j - 1);
      e := Add(t[j - 1]);
    } else {
      DistIs(tr, s, t, i - 1, j);
      e := Remove(s[i - 1]);
    }
  }

  lemma FitsOne<T>(tr: bool, s: seq<T>, t: seq<T>, i: nat, j: nat, e: Edit<T>)
    requires 0 < i <= |s| && 0 < j <= |t|
    requires match e {
      case Keep(c) => s[i - 1] == c == t[j - 1] && Dist(tr, s, t, i, j) == Dist(tr, s, t, i - 1, j - 1)
      case Replace(a, b) =>
        s[i - 1] == a && t[j - 1] == b && Dist(tr, s, t, i, j) == Dist(tr, s, t, i - 1, j - 1) + 1
      case Add(b) => t[j - 1] == b && Dist(tr, s, t, i, j) == Dist(tr, s, t, i, j - 1) + 1
      case Remove(a) => s[i - 1] == a && Dist(tr, s, t, i, j) == Dist(tr, s, t, i - 1, j) + 1
      case Swap(_, _) => false
    }
    ensures Fits(tr, s, t, i, j, e)
  {
    hide Dist;
  }

  lemma FitsSwap<T>(tr: bool, s: seq<T>, t: seq<T>, i: nat, j: nat, e: Edit<T>)
    requires 1 < i <= |s| && 1 < j <= |t| && Swapped(tr, s, t, i, j) && e == Swap(s[i - 2], s[i - 1])
    requires Dist(tr, s, t, i, j) == Dist(tr, s, t, i - 2, j - 2) + 1
    ensures Fits(tr, s, t, i, j, e)
  {
    hide Dist;
  }

  lemma OneOf<T>(tr: bool, s: seq<T>, t: seq<T>, i: nat, j: nat)
    requires 0 < i <= |s| && 0 < j <= |t|
    ensures var d := Dist(tr, s, t, i, j);
      || d == Dist(tr, s, t, i, j - 1) + 1
      || d == Dist(tr, s, t, i - 1, j) + 1
      || d == Dist(tr, s, t, i - 1, j - 1) + Subst(s[i - 1], t[j - 1])
      || (Swapped(tr, s, t, i, j) && d == Dist(tr, s, t, i - 2, j - 2) + 1)
  {
    hide Dist;
    DistIs(tr, s, t, i, j);
  }

  lemma Upper<T>(tr: bool, s: seq<T>, t: seq<T>, i: nat, j: nat)
    requires i <= |s| && j <= |t|
    ensures i == 0 ==> Dist(tr, s, t, i, j) == j
    ensures j == 0 ==> Dist(tr, s, t, i, j) == i
    ensures j > 0 ==> Dist(tr, s, t, i, j) <= Dist(tr, s, t, i, j - 1) + 1
    ensures i > 0 ==> Dist(tr, s, t, i, j) <= Dist(tr, s, t, i - 1, j) + 1
    ensures i > 0 && j > 0 ==> Dist(tr, s, t, i, j) <= Dist(tr, s, t, i - 1, j - 1) + Subst(s[i - 1], t[j - 1])
    ensures Swapped(tr, s, t, i, j) ==> Dist(tr, s, t, i, j) <= Dist(tr, s, t, i - 2, j - 2) + 1
  {
    hide Dist;
    DistIs(tr, s, t, i, j);
    if j == 0 && i > 0 {
      DistIs(tr, s, t, i - 1, j);
    } else if i == 0 && j > 0 {
      DistIs(tr, s, t, i, j - 1);
    }
  }

  lemma Append<T>(tr: bool, es: seq<Edit<T>>, e: Edit<T>, s: seq<T>, t: seq<T>)
    requires Edits(tr, es, s, t) && (e.Swap? ==> tr)
    ensures Source(es + [e]) == s + Taken(e) && Target(es + [e]) == t + Given(e)
    ensures Edits(tr, es + [e], s + Taken(e), t + Given(e))
    ensures Cost(es + [e]) == Cost(es) + if e.Keep? then 0 else 1
  {
    hide Source, Target, Cost, Taken, Given;
    Unfold(es, e);
  }

  lemma Unfold<T>(es: seq<Edit<T>>, e: Edit<T>)
    ensures Source(es + [e]) == Source(es) + Taken(e) && Target(es + [e]) == Target(es) + Given(e)
    ensures Cost(es + [e]) == Cost(es) + if e.Keep? then 0 else 1
  {
    hide Taken, Given;
    assert (es + [e])[..|es|] == es;
  }

  /** The distance is the cost of some edit. */
  lemma {:induction false} SomeEditCosts<T>(tr: bool, s: seq<T>, t: seq<T>, i: nat, j: nat) returns (es: seq<Edit<T>>)
    requires i <= |s| && j <= |t|
    ensures Edits(tr, es, s[..i], t[..j]) && Cost(es) == Dist(tr, s, t, i, j)
    decreases i + j
  {
    hide Dist, Source, Target, Cost, Fits;
    es := [];
    if i + j > 0 {
      var e := LastStep(tr, s, t, i, j);
      FitsSizes(tr, s, t, i, j, e);
      var i', j' := i - |Taken(e)|, j - |Given(e)|;
      es := SomeEditCosts(tr, s, t, i', j');
      OneStepMore(tr, s, t, i, j, es, e);
      es := es + [e];
    } else {
      NoSteps(tr, s, t);
    }
  }

  lemma NoSteps<T>(tr: bool, s: seq<T>, t: seq<T>)
    ensures Edits(tr, [], s[..0], t[..0]) && Cost<T>([]) == Dist(tr, s, t, 0, 0)
  {
  }

  lemma FitsSizes<T>(tr: bool, s: seq<T>, t: seq<T>, i: nat, j: nat, e: Edit<T>)
    requires i <= |s| && j <= |t| && Fits(tr, s, t, i, j, e)
    ensures |Taken(e)| <= i && |Given(e)| <= j && |Taken(e)| + |Given(e)| > 0
  {
  }

  lemma OneStepMore<T>(tr: bool, s: seq<T>, t: seq<T>, i: nat, j: nat, es: seq<Edit<T>>, e: Edit<T>)
    requires i <= |s| && j <= |t| && Fits(tr, s, t, i, j, e) && |Taken(e)| <= i && |Given(e)| <= j
    requires Edits(tr, es, s[..i - |Taken(e)|], t[..j - |Given(e)|])
    requires Cost(es) == Dist(tr, s, t, i - |Taken(e)|, j - |Given(e)|)
    ensures Edits(tr, es + [e], s[..i], t[..j]) && Cost(es + [e]) == Dist(tr, s, t, i, j)
  {
    hide Dist, Source, Target, Cost, Taken, Given;
    var i', j' := i - |Taken(e)|, j - |Given(e)|;
    Append(tr, es, e, s[..i'], t[..j']);
    assert s[..i] == s[..i'] + s[i'..i] && t[..j] == t[..j'] + t[j'..j];
  }

  // ---- common ends do not count ----

  lemma {:induction false} DistSymmetric<T>(tr: bool, s: seq<T>, t: seq<T>, i: nat, j: nat)
    requires i <= |s| && j <= |t|
    ensures Dist(tr, s, t, i, j) == Dist(tr, t, s, j, i)
  {
    hide Dist;
    DistIs(tr, s, t, i, j);
    DistIs(tr, t, s, j, i);
    if i > 0 && j > 0 {
      DistSymmetric(tr, s, t, i, j - 1);
      DistSymmetric(tr, s, t, i - 1, j);
      DistSymmetric(tr, s, t, i - 1, j - 1);
      if i > 1 && j > 1 {
        DistSymmetric(tr, s, t, i - 2, j - 2);
      }
    }
  }

  /** One character less on one side changes the distance by one at most. */
  lemma {:induction false} OneLess<T>(tr: bool, s: seq<T>, t: seq<T>, i: nat, j: nat)
    requires i < |s| && j <= |t|
    ensures Dist(tr, s, t, i, j) <= Dist(tr, s, t, i + 1, j) + 1
  {
    hide Dist, Min, Min3;
    Upper(tr, s, t, i, j);
    DistIs(tr, s, t, i + 1, 0);
    if j > 0 {
      OneLess(tr, s, t, i, j - 1);
      OneOf(tr, s, t, i + 1, j);
      if Swapped(tr, s, t, i + 1, j) {
        Upper(tr, s, t, i - 1, j - 1);
      }
    }
  }

  lemma OneLessOfBoth<T>(tr: bool, s: seq<T>, t: seq<T>, i: nat, j: nat)
    requires i <= |s| && j <= |t|
    ensures i < |s| ==> Dist(tr, s, t, i, j) <= Dist(tr, s, t, i + 1, j) + 1
    ensures j < |t| ==> Dist(tr, s, t, i, j) <= Dist(tr, s, t, i, j + 1) + 1
  {
    hide Dist;
    if i < |s| {
      OneLess(tr, s, t, i, j);
    }
    if j < |t| {
      OneLess(tr, t, s, j, i);
      DistSymmetric(tr, s, t, i, j);
      DistSymmetric(tr, s, t, i, j + 1);
    }
  }

  lemma SameLast<T>(tr: bool, s: seq<T>, t: seq<T>, i: nat, j: nat)
    requires i < |s| && j < |t| && s[i] == t[j]
    ensures Dist(tr, s, t, i + 1, j + 1) == Dist(tr, s, t, i, j)
  {
    hide Dist;
    DistIs(tr, s, t, i + 1, j + 1);
    OneLessOfBoth(tr, s, t, i, j);
    if i > 0 && j > 0 {
      DistIs(tr, s, t, i, j);
    }
  }

  lemma {:induction false} SameFirst<T>(tr: bool, s: seq<T>, t: seq<T>, i: nat, j: nat)
    requires i < |s| && j < |t| && s[0] == t[0]
    ensures Dist(tr, s, t, i + 1, j + 1) == Dist(tr, s[1..], t[1..], i, j)
  {
    hide Dist, Min, Min3;
    var s', t' := s[1..], t[1..];
    if i == 0 || j == 0 {
      ShortFirst(tr, s, t, i, j);
    } else {
      SameFirst(tr, s, t, i - 1, j);
      SameFirst(tr, s, t, i, j - 1);
      SameFirst(tr, s, t, i - 1, j - 1);
      Upper(tr, s, t, i + 1, j + 1);
      Upper(tr, s', t', i, j);
      OneOf(tr, s', t', i, j);
      OneOf(tr, s, t, i + 1, j + 1);
      if i > 1 && j > 1 {
        SameFirst(tr, s, t, i - 2, j - 2);
      } else if Swapped(tr, s, t, i + 1, j + 1) {
        SwapAtFirst(tr, s, t, i, j);
      }
    }
  }

  lemma ShortFirst<T>(tr: bool, s: seq<T>, t: seq<T>, i: nat, j: nat)
    requires i < |s| && j < |t| && s[0] == t[0] && (i == 0 || j == 0)
    ensures Dist(tr, s, t, i + 1, j + 1) == Dist(tr, s[1..], t[1..], i, j)
  {
    hide Dist, Min, Min3;
    Upper(tr, s[1..], t[1..], i, j);
    LengthsApart(tr, s, t, i + 1, j + 1);
    Upper(tr, s, t, i + 1, j + 1);
    AllAdded(tr, s, t, i, j);
  }

  /** Characters added at the end of one side when the other has no more. */
  lemma {:induction false} AllAdded<T>(tr: bool, s: seq<T>, t: seq<T>, i: nat, j: nat)
    requires i < |s| && j < |t| && s[0] == t[0] && (i == 0 || j == 0)
    ensures Dist(tr, s, t, i + 1, j + 1) <= i + j
  {
    hide Dist, Min, Min3;
    Upper(tr, s, t, i + 1, j + 1);
    Upper(tr, s, t, 0, 0);
    if i > 0 {
      AllAdded(tr, s, t, i - 1, j);
    } else if j > 0 {
      AllAdded(tr, s, t, i, j - 1);
    }
  }

  lemma {:induction false} LengthsApart<T>(tr: bool, s: seq<T>, t: seq<T>, i: nat, j: nat)
    requires i <= |s| && j <= |t|
    ensures Dist(tr, s, t, i, j) >= i - j && Dist(tr, s, t, i, j) >= j - i
  {
    hide Dist, Min, Min3;
    DistIs(tr, s, t, i, j);
    if i > 0 && j > 0 {
      LengthsApart(tr, s, t, i, j - 1);
      LengthsApart(tr, s, t, i - 1, j);
      LengthsApart(tr, s, t, i - 1, j - 1);
      OneOf(tr, s, t, i, j);
      if i > 1 && j > 1 {
        LengthsApart(tr, s, t, i - 2, j - 2);
      }
    }
  }

  /** A swap of the common first characters saves nothing. */
  lemma SwapAtFirst<T>(tr: bool, s: seq<T>, t: seq<T>, i: nat, j: nat)
    requires 0 < i < |s| && 0 < j < |t| && s[0] == t[0] && (i == 1 || j == 1)
    requires Swapped(tr, s, t, i + 1, j + 1)
    ensures Dist(tr, s[1..], t[1..], i, j) <= Dist(tr, s, t, i - 1, j - 1) + 1
  {
    hide Dist, Min, Min3;
    var s', t' := s[1..], t[1..];
    DistIs(tr, s, t, i - 1, j - 1);
    Upper(tr, s', t', i, j);
    Upper(tr, s', t', i - 1, j - 1);
  }

  // ---- the ends stripped ----

  /** The last character but `k`. */
  function Back<T>(s: seq<T>, k: nat): T
    requires k < |s|
  {
    s[|s| - 1 - k]
  }

  /** `p` characters at the front and `q` at the back, common and not overlapping. */
  predicate CommonEnds<T(==)>(s: seq<T>, t: seq<T>, p: nat, q: nat) {
    && p + q <= |s| && p + q <= |t|
    && (forall k | 0 <= k < p :: s[k] == t[k])
    && (forall k | 0 <= k < q :: Back(s, k) == Back(t, k))
  }

  /** Without any common ends, overlapping or not, the distance is the same. */
  lemma {:induction false} StripEnds<T>(tr: bool, s: seq<T>, t: seq<T>, p: nat, q: nat)
    requires CommonEnds(s, t, p, q)
    ensures Distance(tr, s[p..|s| - q], t[p..|t| - q]) == Distance(tr, s, t)
    decreases p + q
  {
    hide Dist;
    var m, n := |s|, |t|;
    if q > 0 {
      assert Back(s, 0) == Back(t, 0);
      SameLast(tr, s, t, m - 1, n - 1);
      var s', t' := s[..m - 1], t[..n - 1];
      DistOfEnds(tr, s, t, s', t', m - 1, n - 1);
      assert s'[p..|s'| - (q - 1)] == s[p..m - q] && t'[p..|t'| - (q - 1)] == t[p..n - q];
      forall k | 0 <= k < q - 1 ensures Back(s', k) == Back(t', k) {
        assert Back(s, k + 1) == Back(t, k + 1);
      }
      StripEnds(tr, s', t', p, q - 1);
    } else if p > 0 {
      SameFirst(tr, s, t, m - 1, n - 1);
      var s', t' := s[1..], t[1..];
      assert s'[p - 1..|s'| - q] == s[p..m - q] && t'[p - 1..|t'| - q] == t[p..n - q];
      StripEnds(tr, s', t', p - 1, q);
    } else {
      assert s[0..m - 0] == s && t[0..n - 0] == t;
    }
  }

  // ---- prefsuff.cpp ----

  /** Whether prefix and suffix, when they would overlap, may keep their whole length. */
  datatype Mode = Mode(greedyPrefix: bool, greedySuffix: bool)

  /** PS_GREEDY_PREFIX, the default: an overlap is cut off the suffix. */
  const GREEDY_PREFIX := Mode(true, false)

  /** `p` is the length of the longest common prefix. */
  predicate LongestPrefix<T(==)>(s: seq<T>, t: seq<T>, p: nat) {
    && p <= |s| && p <= |t|
    && (forall k | 0 <= k < p :: s[k] == t[k])
    && (p < |s| && p < |t| ==> s[p] != t[p])
  }

  predicate LongestSuffix<T(==)>(s: seq<T>, t: seq<T>, q: nat) {
    && q <= |s| && q <= |t|
    && (forall k | 0 <= k < q :: Back(s, k) == Back(t, k))
    && (q < |s| && q < |t| ==> Back(s, q) != Back(t, q))
  }

  function PrefixLength<T(==)>(s: seq<T>, t: seq<T>): (p: nat)
    ensures LongestPrefix(s, t, p)
  {
    if s == [] || t == [] || s[0] != t[0] then 0 else 1 + PrefixLength(s[1..], t[1..])
  }

  function SuffixLength<T(==)>(s: seq<T>, t: seq<T>): (q: nat)
    ensures LongestSuffix(s, t, q)
  {
    if s == [] || t == [] || Back(s, 0) != Back(t, 0) then 0
    else
      var s', t' := s[..|s| - 1], t[..|t| - 1];
      assert forall k | 0 < k < |s| :: Back(s, k) == Back(s', k - 1);
      assert forall k | 0 < k < |t| :: Back(t, k) == Back(t', k - 1);
      1 + SuffixLength(s', t')
  }

  lemma LongestIsOne<T>(s: seq<T>, t: seq<T>, p: nat, q: nat)
    requires LongestPrefix(s, t, p) && LongestSuffix(s, t, q)
    ensures p == PrefixLength(s, t) && q == SuffixLength(s, t)
  {
    hide PrefixLength, SuffixLength;
    var p', q' := PrefixLength(s, t), SuffixLength(s, t);
  }

  method PrefSuff<T(==)>(s: seq<T>, t: seq<T>, mode: Mode) returns (prefix: nat, suffix: nat)
    ensures var minLen, pref, suff := Min(|s|, |t|), PrefixLength(s, t), SuffixLength(s, t);
      && prefix == (if mode.greedyPrefix then pref else Min(pref, minLen - suff))
      && suffix == (if mode.greedySuffix then suff else Min(suff, minLen - pref))
    ensures mode == GREEDY_PREFIX ==> CommonEnds(s, t, prefix, suffix)
  {
    hide PrefixLength, SuffixLength;
    var minLen := Min(|s|, |t|);
    var pref: nat := 0;
    while pref < minLen && s[pref] == t[pref]
      invariant pref <= minLen && forall k | 0 <= k < pref :: s[k] == t[k]
    {
      pref := pref + 1;
    }
    var suff: nat := 0;
    while suff < minLen && Back(s, suff) == Back(t, suff)
      invariant suff <= minLen && forall k | 0 <= k < suff :: Back(s, k) == Back(t, k)
    {
      suff := suff + 1;
    }
    LongestIsOne(s, t, pref, suff);
    prefix, suffix := pref, suff;
    if !mode.greedyPrefix {
      prefix := Min(pref, minLen - suff);
    }
    if !mode.greedySuffix {
      suffix := Min(suff, minLen - pref);
    }
  }

  // ---- the table ----

  method FillMatrix<T(==)>(tr: bool, d: array2<int>, s: seq<T>, t: seq<T>)
    requires d.Length0 == |s| + 1 && d.Length1 == |t| + 1
    modifies d
    ensures forall i, j | 0 <= i <= |s| && 0 <= j <= |t| :: d[i, j] == Dist(tr, s, t, i, j)
  {
    hide Dist;
    var m, n := |s|, |t|;
    d[0, 0] := 0;
    DistIs(tr, s, t, 0, 0);
    for j := 1 to n + 1
      invariant forall k | 0 <= k < j :: d[0, k] == Dist(tr, s, t, 0, k)
    {
      d[0, j] := j;
      DistIs(tr, s, t, 0, j);
    }
    for i := 1 to m + 1
      invariant forall k | 0 <= k <= n :: d[0, k] == Dist(tr, s, t, 0, k)
      invariant forall h | 0 <= h < i :: d[h, 0] == Dist(tr, s, t, h, 0)
    {
      d[i, 0] := i;
      DistIs(tr, s, t, i, 0);
    }
    for i := 1 to m + 1
      invariant forall h | 0 <= h <= m :: d[h, 0] == Dist(tr, s, t, h, 0)
      invariant forall h, k | 0 <= h < i && 0 <= k <= n :: d[h, k] == Dist(tr, s, t, h, k)
    {
      for j := 1 to n + 1
        invariant forall h | 0 <= h <= m :: d[h, 0] == Dist(tr, s, t, h, 0)
        invariant forall h, k | 0 <= h < i && 0 <= k <= n :: d[h, k] == Dist(tr, s, t, h, k)
        invariant forall k | 0 <= k < j :: d[i, k] == Dist(tr, s, t, i, k)
      {
        var substCost := if s[i - 1] == t[j - 1] then 0 else 1;
        d[i, j] := Min3(d[i, j - 1] + 1, d[i - 1, j] + 1, d[i - 1, j - 1] + substCost);
        if tr && i > 1 && j > 1 && s[i - 2] == t[j - 1] && s[i - 1] == t[j - 2] {
          d[i, j] := Min(d[i, j], d[i - 2, j - 2] + 1);
        }
        DistIs(tr, s, t, i, j);
      }
    }
  }

  /** The distance of the whole strings, computed on what is left between their common ends. */
  method DoDist<T(==)>(tr: bool, s: seq<T>, t: seq<T>) returns (dist: int)
    ensures dist == Distance(tr, s, t)
  {
    hide Dist;
    var pref, suff := PrefSuff(s, t, GREEDY_PREFIX);
    StripEnds(tr, s, t, pref, suff);
    var s', t' := s[pref..|s| - suff], t[pref..|t| - suff];
    DistIs(tr, s', t', |s'|, |t'|);
    if |s'| == 0 {
      return |t'|;
    }
    if |t'| == 0 {
      return |s'|;
    }
    var d := new int[|s'| + 1, |t'| + 1];
    FillMatrix(tr, d, s', t');
    dist := d[|s'|, |t'|];
  }
}
