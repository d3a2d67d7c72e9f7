/** The message hierarchy of a gazetteer's descriptor pool (descriptors.h, descriptors.cpp):
    every message has the index of its base, or its own when it has none. */
module Hierarchy {
  import opened Wrappers

  type Bases = seq<nat>

  /** Each base was there before the messages derived from it. */
  ghost predicate Forest(b: Bases) {
    forall i | 0 <= i < |b| :: b[i] <= i
  }

  /** How many bases there are above a message. */
  function Depth(b: Bases, i: nat): nat
    requires Forest(b) && i < |b|
  {
    if b[i] == i then 0 else 1 + Depth(b, b[i])
  }

  function NthParent(b: Bases, i: nat, n: nat): (r: nat)
    requires Forest(b) && i < |b|
    ensures r <= i
    decreases n
  {
    if n == 0 then i else NthParent(b, b[i], n - 1)
  }

  /** `a` is `i` or one of its bases. */
  ghost predicate Ancestor(b: Bases, a: nat, i: nat)
    requires Forest(b) && i < |b|
  {
    exists n: nat :: NthParent(b, i, n) == a
  }

  ghost predicate Related(b: Bases, i: nat, j: nat)
    requires Forest(b) && i < |b| && j < |b|
  {
    exists a: nat :: Ancestor(b, a, i) && Ancestor(b, a, j)
  }

  datatype Relation = UNRELATED | COMMON_PARENT | PARENT_CHILD | CHILD_PARENT | SAME

  /** What each relation means. */
  ghost predicate Means(b: Bases, r: Relation, i: nat, j: nat)
    requires Forest(b) && i < |b| && j < |b|
  {
    match r
    case SAME => i == j
    case CHILD_PARENT => i != j && Ancestor(b, j, i)
    case PARENT_CHILD => i != j && Ancestor(b, i, j)
    case COMMON_PARENT => !Ancestor(b, i, j) && !Ancestor(b, j, i) && Related(b, i, j)
    case UNRELATED => !Related(b, i, j)
  }

  // ---- climbing ----

  lemma {:induction false} ParentAdds(b: Bases, i: nat, m: nat, n: nat)
    requires Forest(b) && i < |b|
    ensures NthParent(b, i, m + n) == NthParent(b, NthParent(b, i, m), n)
    decreases m
  {
    if m > 0 {
      ParentAdds(b, b[i], m - 1, n);
      assert m + n - 1 == m - 1 + n;
    }
  }

  /** Up to the root each step takes one off the depth; there it stays. */
  lemma {:induction false} DepthAbove(b: Bases, i: nat, n: nat)
    requires Forest(b) && i < |b|
    ensures Depth(b, NthParent(b, i, n)) == if n <= Depth(b, i) then Depth(b, i) - n else 0
    decreases n
  {
    if n > 0 {
      DepthAbove(b, b[i], n - 1);
    }
  }

  /** Going beyond the root changes nothing. */
  lemma {:induction false} StaysAtRoot(b: Bases, i: nat, n: nat)
    requires Forest(b) && i < |b| && n >= Depth(b, i)
    ensures NthParent(b, i, n) == NthParent(b, i, Depth(b, i))
    decreases n
  {
    if n > 0 {
      if b[i] == i {
        StaysAtRoot(b, i, n - 1);
      } else {
        StaysAtRoot(b, b[i], n - 1);
      }
    }
  }

  /** An ancestor is the one at its own depth. */
  lemma AncestorAt(b: Bases, a: nat, i: nat)
    requires Forest(b) && i < |b| && Ancestor(b, a, i)
    ensures a < |b| && Depth(b, a) <= Depth(b, i)
    ensures a == NthParent(b, i, Depth(b, i) - Depth(b, a))
  {
    var n: nat :| NthParent(b, i, n) == a;
    DepthAbove(b, i, n);
    if n > Depth(b, i) {
      StaysAtRoot(b, i, n);
    }
  }

  lemma AncestorTwice(b: Bases, a: nat, c: nat, i: nat)
    requires Forest(b) && i < |b| && c < |b| && Ancestor(b, a, c) && Ancestor(b, c, i)
    ensures Ancestor(b, a, i)
  {
    var m: nat :| NthParent(b, i, m) == c;
    var n: nat :| NthParent(b, c, n) == a;
    ParentAdds(b, i, m, n);
    assert NthParent(b, i, m + n) == a;
  }

  // ---- "same or child" is a partial order ----

  ghost predicate Derives(b: Bases, i: nat, j: nat)
    requires Forest(b) && i < |b| && j < |b|
  {
    Means(b, SAME, i, j) || Means(b, CHILD_PARENT, i, j)
  }

  lemma DerivesIsAncestor(b: Bases, i: nat, j: nat)
    requires Forest(b) && i < |b| && j < |b|
    ensures Derives(b, i, j) <==> Ancestor(b, j, i)
  {
    assert NthParent(b, i, 0) == i;
  }

  lemma DerivesPartialOrder(b: Bases, i: nat, j: nat, k: nat)
    requires Forest(b) && i < |b| && j < |b| && k < |b|
    ensures Derives(b, i, i)
    ensures Derives(b, i, j) && Derives(b, j, i) ==> i == j
    ensures Derives(b, i, j) && Derives(b, j, k) ==> Derives(b, i, k)
  {
    DerivesIsAncestor(b, i, j);
    DerivesIsAncestor(b, j, i);
    DerivesIsAncestor(b, j, k);
    DerivesIsAncestor(b, i, k);
    if Derives(b, i, j) && Derives(b, j, i) {
      AncestorAt(b, j, i);
      AncestorAt(b, i, j);
    }
    if Derives(b, i, j) && Derives(b, j, k) {
      AncestorTwice(b, k, j, i);
    }
  }

  /** One relation and no other holds. */
  lemma MeansOne(b: Bases, i: nat, j: nat, r: Relation, r': Relation)
    requires Forest(b) && i < |b| && j < |b| && Means(b, r, i, j) && Means(b, r', i, j)
    ensures r == r'
  {
    assert NthParent(b, i, 0) == i && NthParent(b, j, 0) == j;
    if Ancestor(b, i, j) {
      if Ancestor(b, j, i) {
        AncestorAt(b, i, j);
        AncestorAt(b, j, i);
      }
      assert Ancestor(b, i, i) && Related(b, i, j);
    }
    if Ancestor(b, j, i) {
      assert Ancestor(b, j, j) && Related(b, i, j);
    }
  }

  // ---- going up side by side ----

  /** From the same depth the two ways up to a common base meet at the same step. */
  lemma RelatedMeet(b: Bases, i: nat, j: nat)
    requires Forest(b) && i < |b| && j < |b| && Depth(b, i) == Depth(b, j)
    ensures Related(b, i, j) ==> exists n: nat :: n <= Depth(b, i) && NthParent(b, i, n) == NthParent(b, j, n)
  {
    if Related(b, i, j) {
      var a: nat :| Ancestor(b, a, i) && Ancestor(b, a, j);
      AncestorAt(b, a, i);
      AncestorAt(b, a, j);
      var n := Depth(b, i) - Depth(b, a);
      assert NthParent(b, i, n) == NthParent(b, j, n);
    }
  }

  /** A base at most as deep as the message lifted is an ancestor of it still. */
  lemma LiftKeepsAncestor(b: Bases, a: nat, i: nat, n: nat)
    requires Forest(b) && i < |b| && Ancestor(b, a, i) && a < |b| && Depth(b, a) + n <= Depth(b, i)
    ensures Ancestor(b, a, NthParent(b, i, n))
  {
    AncestorAt(b, a, i);
    var rest := Depth(b, i) - Depth(b, a) - n;
    ParentAdds(b, i, n, rest);
    assert NthParent(b, NthParent(b, i, n), rest) == a;
  }

  /** Lifting the deeper message to the other's depth changes no relation to what is no deeper. */
  lemma LiftKeepsRelated(b: Bases, i: nat, j: nat, n: nat)
    requires Forest(b) && i < |b| && j < |b| && Depth(b, i) == Depth(b, j) + n
    ensures Related(b, NthParent(b, i, n), j) <==> Related(b, i, j)
    ensures Ancestor(b, j, i) <==> NthParent(b, i, n) == j
    ensures n > 0 ==> !Ancestor(b, i, j)
  {
    var l := NthParent(b, i, n);
    assert Ancestor(b, l, i);
    if a: nat :| Ancestor(b, a, l) && Ancestor(b, a, j) {
      AncestorTwice(b, a, l, i);
      assert Ancestor(b, a, i) && Ancestor(b, a, j);
    }
    if a: nat :| Ancestor(b, a, i) && Ancestor(b, a, j) {
      AncestorAt(b, a, j);
      LiftKeepsAncestor(b, a, i, n);
      assert Ancestor(b, a, l) && Ancestor(b, a, j);
    }
    if Ancestor(b, j, i) {
      AncestorAt(b, j, i);
    }
    if Ancestor(b, i, j) {
      AncestorAt(b, i, j);
    }
  }

  lemma RelatedSymmetric(b: Bases, i: nat, j: nat)
    requires Forest(b) && i < |b| && j < |b|
    ensures Related(b, i, j) <==> Related(b, j, i)
  {
  }

  class THierarchy {
    var baseIndex: Bases

    constructor ()
      ensures baseIndex == []
    {
      baseIndex := [];
    }

    method GrowUpto(n: nat)
      modifies this
      ensures baseIndex == Grown(old(baseIndex), n)
    {
      while n > |baseIndex|
        invariant |baseIndex| <= n || baseIndex == old(baseIndex)
        invariant Grown(baseIndex, n) == Grown(old(baseIndex), n)
      {
        assert Grown(baseIndex + [|baseIndex|], n) == Grown(baseIndex, n);
        baseIndex := baseIndex + [|baseIndex|];
      }
    }

    method SetBase(derived: nat, base: nat)
      modifies this
      ensures baseIndex == Grown(old(baseIndex), (if derived < base then base else derived) + 1)[derived := base]
    {
      GrowUpto((if derived < base then base else derived) + 1);
      baseIndex := baseIndex[derived := base];
    }

    method GetParentCount(i: nat) returns (count: nat)
      requires Forest(baseIndex) && i < |baseIndex|
      ensures count == Depth(baseIndex, i)
    {
      count := 0;
      var index: nat := i;
      while baseIndex[index] != index
        invariant index < |baseIndex| && count + Depth(baseIndex, index) == Depth(baseIndex, i)
        decreases index
      {
        count := count + 1;
        index := baseIndex[index];
      }
    }

    method GetNthParent(i: nat, n: nat) returns (index: nat)
      requires Forest(baseIndex) && i < |baseIndex|
      ensures index == NthParent(baseIndex, i, n)
    {
      index := i;
      var left := n;
      while left > 0
        invariant index < |baseIndex| && NthParent(baseIndex, index, left) == NthParent(baseIndex, i, n)
      {
        index := baseIndex[index];
        left := left - 1;
      }
    }

    method GetRelation(i1: nat, i2: nat) returns (r: Relation)
      requires Forest(baseIndex) && i1 < |baseIndex| && i2 < |baseIndex|
      ensures Means(baseIndex, r, i1, i2)
    {
      hide NthParent, Depth;
      if i1 == i2 {
        return SAME;
      }
      var depth1 := GetParentCount(i1);
      var depth2 := GetParentCount(i2);
      var j1, j2 := i1, i2;
      ZeroSteps(i1);
      ZeroSteps(i2);
      if depth1 > depth2 {
        j1 := GetNthParent(i1, depth1 - depth2);
        LiftKeepsRelated(baseIndex, i1, i2, depth1 - depth2);
        if j1 == j2 {
          return CHILD_PARENT;
        }
        DepthAbove(baseIndex, i1, depth1 - depth2);
        depth1 := depth2;
      } else if depth2 > depth1 {
        j2 := GetNthParent(i2, depth2 - depth1);
        LiftKeepsRelated(baseIndex, i2, i1, depth2 - depth1);
        if j1 == j2 {
          return PARENT_CHILD;
        }
        DepthAbove(baseIndex, i2, depth2 - depth1);
      } else {
        LiftKeepsRelated(baseIndex, i1, i2, 0);
        LiftKeepsRelated(baseIndex, i2, i1, 0);
      }
      RelatedSymmetric(baseIndex, i1, i2);
      RelatedSymmetric(baseIndex, j1, j2);
      var meet := Meet(j1, j2, depth1);
      r := if meet then COMMON_PARENT else UNRELATED;
      NotBoth(i1, i2);
    }

    lemma ZeroSteps(i: nat)
      requires Forest(baseIndex) && i < |baseIndex|
      ensures NthParent(baseIndex, i, 0) == i
    {
    }

    /** Related messages are what ancestors are. */
    lemma NotBoth(i: nat, j: nat)
      requires Forest(baseIndex) && i < |baseIndex| && j < |baseIndex|
      ensures Ancestor(baseIndex, i, j) || Ancestor(baseIndex, j, i) ==> Related(baseIndex, i, j)
    {
      assert NthParent(baseIndex, i, 0) == i && NthParent(baseIndex, j, 0) == j;
      assert Ancestor(baseIndex, i, i) && Ancestor(baseIndex, j, j);
    }

    /** Both go up together until they meet or are at their roots. */
    method Meet(j1: nat, j2: nat, depth: nat) returns (meet: bool)
      requires Forest(baseIndex) && j1 < |baseIndex| && j2 < |baseIndex| && j1 != j2
      requires Depth(baseIndex, j1) == Depth(baseIndex, j2) == depth
      ensures meet <==> Related(baseIndex, j1, j2)
    {
      var i1, i2, left := j1, j2, depth;
      RelatedMeet(baseIndex, j1, j2);
      while left > 0
        invariant left <= depth
        invariant i1 == NthParent(baseIndex, j1, depth - left) && i2 == NthParent(baseIndex, j2, depth - left)
        invariant forall n: nat | n <= depth - left :: NthParent(baseIndex, j1, n) != NthParent(baseIndex, j2, n)
      {
        ParentAdds(baseIndex, j1, depth - left, 1);
        ParentAdds(baseIndex, j2, depth - left, 1);
        assert NthParent(baseIndex, i1, 1) == baseIndex[i1] && NthParent(baseIndex, i2, 1) == baseIndex[i2];
        i1, i2, left := baseIndex[i1], baseIndex[i2], left - 1;
        if i1 == i2 {
          assert Ancestor(baseIndex, i1, j1) && Ancestor(baseIndex, i1, j2);
          return true;
        }
      }
      meet := false;
    }
  }

  function Grown(b: Bases, n: nat): (b': Bases)
    ensures |b'| == if |b| < n then n else |b|
    ensures forall i | 0 <= i < |b'| :: b'[i] == if i < |b| then b[i] else i
  {
    if |b| < n then b + seq(n - |b|, i => |b| + i) else b
  }

  // ---- building it ----

  /** What AddMessage does with a descriptor: its full name and the base it names, if any. */
  datatype Message = Message(name: string, base: Option<string>)

  class TDescriptorCollectionBuilder {
    var fullNames: seq<string>
    var messageIndex: map<string, nat>
    var hierarchy: THierarchy

    ghost predicate Valid()
      reads this, hierarchy
    {
      && Forest(hierarchy.baseIndex)
      && |hierarchy.baseIndex| <= |fullNames|
      && forall s | s in messageIndex :: messageIndex[s] < |fullNames| && fullNames[messageIndex[s]] == s
    }

    constructor ()
      ensures Valid() && fullNames == [] && messageIndex == map[] && fresh(hierarchy)
    {
      fullNames, messageIndex := [], map[];
      hierarchy := new THierarchy();
    }

    /** The name counts as known for its own base; an unknown base is an error. */
    method AddMessage(m: Message) returns (ok: bool)
      requires Valid()
      modifies this, hierarchy
      ensures Valid() && hierarchy == old(hierarchy)
      ensures var idx := |old(fullNames)|;
        && fullNames == old(fullNames) + [m.name] && messageIndex == old(messageIndex)[m.name := idx]
        && ok == (m.base.None? || m.base.value in messageIndex)
        && if ok then
             && |hierarchy.baseIndex| == idx + 1
             && hierarchy.baseIndex[idx] == if m.base.None? then idx else messageIndex[m.base.value]
           else hierarchy.baseIndex == old(hierarchy.baseIndex)
      ensures forall i | 0 <= i < |old(hierarchy.baseIndex)| ::
        i < |hierarchy.baseIndex| && hierarchy.baseIndex[i] == old(hierarchy.baseIndex)[i]
    {
      var idx := |fullNames|;
      messageIndex := messageIndex[m.name := idx];
      fullNames := fullNames + [m.name];
      var baseIdx := idx;
      if m.base.Some? {
        if m.base.value !in messageIndex {
          return false;
        }
        baseIdx := messageIndex[m.base.value];
      }
      hierarchy.SetBase(idx, baseIdx);
      ok := true;
    }
  }
}
