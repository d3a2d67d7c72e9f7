/** The inheritance graph of the gazetteer's messages (protoparser.cpp): edges are added one at
    a time, each followed by a check that the message is not derived from itself. */
module Inheritance {
  import opened Wrappers

  type Graph<T> = map<T, T>

  /** The base reached by `n` steps up. */
  function Climb<T(==)>(g: Graph<T>, d: T, n: nat): Option<T> {
    if n == 0 then Some(d)
    else
      match Climb(g, d, n - 1)
      case None => None
      case Some(b) => if b in g then Some(g[b]) else None
  }

  ghost predicate SelfDerived<T>(g: Graph<T>, d: T) {
    exists n: nat :: n > 0 && Climb(g, d, n) == Some(d)
  }

  ghost predicate Acyclic<T(!new)>(g: Graph<T>) {
    forall d :: !SelfDerived(g, d)
  }

  function Without<T>(g: Graph<T>, m: T): Graph<T> {
    g - {m}
  }

  // ---- a walk up from a message ----

  /** `walk` goes up from `m` step by step and has not come back to it. */
  ghost predicate Walk<T>(g: Graph<T>, m: T, walk: seq<T>) {
    && walk != [] && walk[0] == m
    && (forall k | 0 < k < |walk| :: walk[k] != m)
    && forall k: nat | k < |walk| :: Climb(g, m, k) == Some(walk[k])
  }

  lemma {:induction false} WalkBelow<T>(g: Graph<T>, m: T, walk: seq<T>, i: nat, n: nat)
    requires Walk(g, m, walk) && 0 < i && i + n < |walk|
    ensures Climb(Without(g, m), walk[i], n) == Some(walk[i + n])
  {
    if n > 0 {
      WalkBelow(g, m, walk, i, n - 1);
      assert Climb(g, m, i + n) == Some(walk[i + n]);
      assert Climb(g, m, i + n - 1) == Some(walk[i + n - 1]);
    }
  }

  /** No message is met twice when the other edges are free of cycles. */
  lemma WalkDistinct<T(!new)>(g: Graph<T>, m: T, walk: seq<T>, i: nat, j: nat)
    requires Walk(g, m, walk) && Acyclic(Without(g, m)) && i < j < |walk|
    ensures walk[i] != walk[j]
  {
    if i > 0 {
      WalkBelow(g, m, walk, i, j - i);
      assert !SelfDerived(Without(g, m), walk[i]);
    }
  }

  lemma {:induction false} WalkFits<T>(walk: seq<T>, keys: set<T>)
    requires forall i, j | 0 <= i < j < |walk| :: walk[i] != walk[j]
    requires forall i | 0 <= i < |walk| :: walk[i] in keys
    ensures |walk| <= |keys|
  {
    if walk != [] {
      var n := |walk| - 1;
      WalkFits(walk[..n], keys - {walk[n]});
    }
  }

  lemma WalkLength<T(!new)>(g: Graph<T>, m: T, walk: seq<T>)
    requires Walk(g, m, walk) && Acyclic(Without(g, m)) && walk[|walk| - 1] in g
    ensures |walk| <= |g|
  {
    forall i, j | 0 <= i < j < |walk| ensures walk[i] != walk[j] {
      WalkDistinct(g, m, walk, i, j);
    }
    forall i | 0 <= i < |walk| ensures walk[i] in g.Keys {
      if i + 1 < |walk| {
        assert Climb(g, m, i + 1) == Some(walk[i + 1]);
        assert Climb(g, m, i) == Some(walk[i]);
      }
    }
    WalkFits(walk, g.Keys);
    assert |g.Keys| == |g|;
  }

  // ---- where a cycle can be ----

  lemma {:induction false} ClimbAdds<T>(g: Graph<T>, d: T, a: nat, b: nat)
    ensures Climb(g, d, a + b) == match Climb(g, d, a) case None => None case Some(e) => Climb(g, e, b)
  {
    if b > 0 {
      ClimbAdds(g, d, a, b - 1);
      assert a + b - 1 == a + (b - 1);
    }
  }

  /** A climb that never stands on `m` does not use its edge. */
  lemma {:induction false} ClimbWithout<T>(g: Graph<T>, m: T, d: T, n: nat)
    requires forall k: nat | k < n :: Climb(g, d, k) != Some(m)
    ensures Climb(Without(g, m), d, n) == Climb(g, d, n)
  {
    if n > 0 {
      ClimbWithout(g, m, d, n - 1);
      assert Climb(g, d, n - 1) != Some(m);
    }
  }

  /** With the other edges free of cycles, a cycle goes through `m`. */
  lemma CycleThrough<T(!new)>(g: Graph<T>, m: T)
    requires Acyclic(Without(g, m))
    ensures Acyclic(g) <==> !SelfDerived(g, m)
  {
    if d :| SelfDerived(g, d) {
      var n: nat :| n > 0 && Climb(g, d, n) == Some(d);
      if k: nat :| k < n && Climb(g, d, k) == Some(m) {
        ClimbAdds(g, d, k, n - k);
        ClimbAdds(g, m, n - k, k);
        assert Climb(g, m, n) == Some(m) by { assert n - k + k == n; }
      } else {
        ClimbWithout(g, m, d, n);
        assert SelfDerived(Without(g, m), d);
      }
    }
  }

  /** A walk that ends outside the graph shows that `m` is on no cycle. */
  lemma WalkEnds<T>(g: Graph<T>, m: T, walk: seq<T>)
    requires Walk(g, m, walk) && walk[|walk| - 1] !in g
    ensures !SelfDerived(g, m)
  {
    var last := |walk| - 1;
    forall n: nat | n > 0 ensures Climb(g, m, n) != Some(m) {
      if n <= last {
        assert Climb(g, m, n) == Some(walk[n]);
      } else {
        assert Climb(g, m, last) == Some(walk[last]) && Climb(g, m, last + 1) == None;
        ClimbAdds(g, m, last + 1, n - last - 1);
        assert last + 1 + (n - last - 1) == n;
      }
    }
  }

  /** Fewer edges, no new cycle. */
  lemma {:induction false} ClimbInPart<T>(g: Graph<T>, m: T, d: T, n: nat)
    requires Climb(Without(g, m), d, n).Some?
    ensures Climb(g, d, n) == Climb(Without(g, m), d, n)
  {
    if n > 0 {
      ClimbInPart(g, m, d, n - 1);
    }
  }

  lemma PartAcyclic<T(!new)>(g: Graph<T>, m: T)
    requires Acyclic(g)
    ensures Acyclic(Without(g, m))
  {
    forall d ensures !SelfDerived(Without(g, m), d) {
      if n: nat :| n > 0 && Climb(Without(g, m), d, n) == Some(d) {
        ClimbInPart(g, m, d, n);
        assert SelfDerived(g, d);
      }
    }
  }

  // ---- the parser ----

  class TProtoParser<T(==,!new)> {
    var rawMessageGraph: Graph<T>

    constructor ()
      ensures rawMessageGraph == map[]
    {
      rawMessageGraph := map[];
    }

    /** Walk up from the message; when the walk comes back, walk it once more to tell the way. */
    method CheckIfSelfDerived(m: T) returns (ok: bool, chain: seq<T>)
      requires Acyclic(Without(rawMessageGraph, m))
      ensures ok <==> Acyclic(rawMessageGraph)
      ensures !ok ==> |chain| > 1 && chain[0] == m && chain[|chain| - 1] == m
      ensures !ok ==> forall k: nat | k < |chain| :: Climb(rawMessageGraph, m, k) == Some(chain[k])
    {
      var g := rawMessageGraph;
      var at := m;
      ghost var walk := [m];
      CycleThrough(g, m);
      chain := [];
      while at in g
        invariant Walk(g, m, walk) && at == walk[|walk| - 1]
        decreases |g| + 1 - |walk|
      {
        WalkLength(g, m, walk);
        if g[at] == m {
          chain := RepeatPath(m, walk);
          assert Climb(g, m, |walk|) == Some(m);
          return false, chain;
        }
        at := g[at];
        walk := walk + [at];
      }
      WalkEnds(g, m, walk);
      ok := true;
    }

    method RepeatPath(m: T, ghost walk: seq<T>) returns (chain: seq<T>)
      requires Walk(rawMessageGraph, m, walk)
      requires var last := walk[|walk| - 1]; last in rawMessageGraph && rawMessageGraph[last] == m
      ensures chain == walk + [m]
      ensures forall k: nat | k < |chain| :: Climb(rawMessageGraph, m, k) == Some(chain[k])
    {
      var g := rawMessageGraph;
      chain := [m];
      var at := m;
      while true
        invariant 0 < |chain| <= |walk| && chain == walk[..|chain|] && at == chain[|chain| - 1]
        decreases |walk| - |chain|
      {
        ghost var n := |chain|;
        assert Climb(g, m, n - 1) == Some(walk[n - 1]);
        if n < |walk| {
          assert Climb(g, m, n) == Some(walk[n]);
        }
        chain := chain + [g[at]];
        if g[at] == m {
          return;
        }
        at := g[at];
      }
    }

    /** One message and the base that it names. */
    method AddBase(m: T, base: T) returns (ok: bool)
      requires Acyclic(rawMessageGraph)
      modifies this
      ensures rawMessageGraph == old(rawMessageGraph)[m := base]
      ensures ok <==> Acyclic(rawMessageGraph)
      ensures ok <==> !SelfDerived(rawMessageGraph, m)
    {
      PartAcyclic(rawMessageGraph, m);
      rawMessageGraph := rawMessageGraph[m := base];
      assert Without(rawMessageGraph, m) == Without(old(rawMessageGraph), m);
      CycleThrough(rawMessageGraph, m);
      var chain;
      ok, chain := CheckIfSelfDerived(m);
    }

    /** All messages in their order, until one is derived from itself. */
    method BuildMessageInheritanceGraph(edges: seq<(T, T)>) returns (ok: bool, ghost n: nat)
      modifies this
      ensures n <= |edges| && rawMessageGraph == GraphOf(edges[..n])
      ensures ok ==> n == |edges| && forall k | 0 <= k <= n :: Acyclic(GraphOf(edges[..k]))
      ensures !ok ==> n > 0 && !Acyclic(GraphOf(edges[..n])) && forall k | 0 <= k < n :: Acyclic(GraphOf(edges[..k]))
    {
      rawMessageGraph := map[];
      n := 0;
      NoEdges();
      for i := 0 to |edges|
        invariant n == i && rawMessageGraph == GraphOf(edges[..i])
        invariant forall k | 0 <= k <= i :: Acyclic(GraphOf(edges[..k]))
      {
        var more := AddBase(edges[i].0, edges[i].1);
        assert edges[..i + 1][..i] == edges[..i];
        n := i + 1;
        if !more {
          return false, n;
        }
      }
      assert edges[..|edges|] == edges;
      ok := true;
    }

    lemma NoEdges()
      ensures Acyclic<T>(map[])
    {
      forall d: T ensures !SelfDerived(map[], d) {
        if n: nat :| n > 0 && Climb(map[], d, n) == Some(d) {
          Stuck(d, n);
        }
      }
    }

    lemma {:induction false} Stuck(d: T, n: nat)
      requires n > 0
      ensures Climb(map[], d, n) == None
    {
      if n > 1 {
        Stuck(d, n - 1);
      }
    }
  }

  function GraphOf<T(==)>(edges: seq<(T, T)>): Graph<T> {
    if edges == [] then map[]
    else GraphOf(edges[..|edges| - 1])[edges[|edges| - 1].0 := edges[|edges| - 1].1]
  }
}
