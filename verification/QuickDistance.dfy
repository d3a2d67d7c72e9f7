/** The quick lower bound on the edit distance of two byte strings (QuickStrDist in
    str_metric.cpp): count the characters that only one of them has. */
module QuickDistance {
  import opened Bytes
  import opened EditDistance

  /** A 32-bit mask, lowest bit first. */
  type Word = w: seq<bool> | |w| == 32 witness seq(32, i => false)

  const BLANK: Word := seq(32, i => false)

  function AndNot(v: Word, w: Word): Word {
    seq(32, i requires 0 <= i < 32 => v[i] && !w[i])
  }

  /** The ones among the low `n` bits. */
  function Ones(w: Word, n: nat): nat
    requires n <= 32
  {
    if n == 0 then 0 else Ones(w, n - 1) + if w[n - 1] then 1 else 0
  }

  // ---- what is counted ----

  /** The characters below `n` that `s` has and `t` has not. Control characters are left out. */
  ghost function Only(s: seq<byte>, t: seq<byte>, n: nat): set<byte> {
    set c: byte | 32 <= c < n && c in s && c !in t
  }

  ghost function Excess(s: seq<byte>, t: seq<byte>): nat {
    |Only(s, t, 256)| + if |s| < |t| then |t| - |s| else 0
  }

  lemma OnlyAll(s: seq<byte>, t: seq<byte>)
    ensures Only(s, t, 256) == set c: byte | 32 <= c && c in s && c !in t
  {
  }

  ghost function QuickBound(s: seq<byte>, t: seq<byte>): nat {
    if Excess(s, t) < Excess(t, s) then Excess(t, s) else Excess(s, t)
  }

  // ---- it is a lower bound ----

  lemma {:induction false} Card<T>(a: set<T>, b: set<T>)
    requires a <= b
    ensures |a| <= |b|
  {
    if x :| x in a {
      Card(a - {x}, b - {x});
    }
  }

  /** Whichever way the last characters are edited, the excess falls by no more than it costs. */
  lemma {:induction false} ExcessOfEnds(tr: bool, s: seq<byte>, t: seq<byte>, i: nat, j: nat)
    requires i <= |s| && j <= |t|
    ensures Excess(s[..i], t[..j]) <= Dist(tr, s, t, i, j)
  {
    hide Dist, Min, Min3, Excess;
    if i == 0 || j == 0 {
      Border(tr, s, t, i, j);
    } else {
      ExcessOfEnds(tr, s, t, i - 1, j);
      ExcessOfEnds(tr, s, t, i, j - 1);
      ExcessOfEnds(tr, s, t, i - 1, j - 1);
      ExcessStep(s, t, i, j);
      OneOf(tr, s, t, i, j);
      if Swapped(tr, s, t, i, j) {
        ExcessOfEnds(tr, s, t, i - 2, j - 2);
        ExcessSwap(s, t, i, j);
      }
    }
  }

  lemma Border(tr: bool, s: seq<byte>, t: seq<byte>, i: nat, j: nat)
    requires i <= |s| && j <= |t| && (i == 0 || j == 0)
    ensures Excess(s[..i], t[..j]) <= Dist(tr, s, t, i, j)
  {
    hide Dist;
    DistIs(tr, s, t, i, j);
    var a := Only(s[..i], t[..j], 256);
    if i == 0 {
      assert a == {};
    } else {
      Distinct(s[..i]);
      Card(a, Chars(s[..i]));
    }
  }

  ghost function Chars(s: seq<byte>): set<byte> {
    set c | c in s
  }

  lemma {:induction false} Distinct(s: seq<byte>)
    ensures |Chars(s)| <= |s|
  {
    if s != [] {
      var n := |s| - 1;
      Distinct(s[..n]);
      assert s == s[..n] + [s[n]];
      assert Chars(s) == Chars(s[..n]) + {s[n]};
    } else {
      assert Chars(s) == {};
    }
  }

  lemma ExcessStep(s: seq<byte>, t: seq<byte>, i: nat, j: nat)
    requires 0 < i <= |s| && 0 < j <= |t|
    ensures Excess(s[..i], t[..j]) <= Excess(s[..i - 1], t[..j]) + 1
    ensures Excess(s[..i], t[..j]) <= Excess(s[..i], t[..j - 1]) + 1
    ensures Excess(s[..i], t[..j]) <= Excess(s[..i - 1], t[..j - 1]) + Subst(s[i - 1], t[j - 1])
  {
    var x, y := s[i - 1], t[j - 1];
    assert s[..i] == s[..i - 1] + [x] && t[..j] == t[..j - 1] + [y];
    var a := Only(s[..i], t[..j], 256);
    Card(a, Only(s[..i - 1], t[..j], 256) + {x});
    Card(a, Only(s[..i], t[..j - 1], 256));
    Card(a, Only(s[..i - 1], t[..j - 1], 256) + if x == y then {} else {x});
  }

  lemma ExcessSwap(s: seq<byte>, t: seq<byte>, i: nat, j: nat)
    requires 1 < i <= |s| && 1 < j <= |t| && s[i - 2] == t[j - 1] && s[i - 1] == t[j - 2]
    ensures Excess(s[..i], t[..j]) <= Excess(s[..i - 2], t[..j - 2])
  {
    assert s[..i] == s[..i - 2] + [s[i - 2], s[i - 1]] && t[..j] == t[..j - 2] + [t[j - 2], t[j - 1]];
    Card(Only(s[..i], t[..j], 256), Only(s[..i - 2], t[..j - 2], 256));
  }

  /** The quick distance is never above the edit distance, with swaps or without. */
  lemma QuickIsBelow(tr: bool, s: seq<byte>, t: seq<byte>)
    ensures QuickBound(s, t) <= Distance(tr, s, t)
  {
    hide Dist, Excess;
    assert s[..|s|] == s && t[..|t|] == t;
    ExcessOfEnds(tr, s, t, |s|, |t|);
    ExcessOfEnds(tr, t, s, |t|, |s|);
    DistSymmetric(tr, s, t, |s|, |t|);
  }

  // ---- how it is counted ----

  /** The bit of every character seen so far, and no other. */
  ghost predicate Marks(mask: seq<Word>, s: seq<byte>) {
    |mask| == 8 && forall c: byte :: mask[c / 32][c % 32] <==> c in s
  }

  method MaskOf(s: seq<byte>) returns (mask: seq<Word>)
    ensures Marks(mask, s)
  {
    mask := seq(8, i => BLANK);
    for i := 0 to |s|
      invariant Marks(mask, s[..i])
    {
      var b := s[i];
      ghost var before := mask;
      mask := mask[b / 32 := mask[b / 32][b % 32 := true]];
      assert s[..i + 1] == s[..i] + [b];
      forall c: byte ensures mask[c / 32][c % 32] <==> c in s[..i + 1] {
        assert c / 32 == b / 32 && c % 32 == b % 32 ==> c == b;
      }
    }
  }

  method CountBits32(w: Word) returns (n: nat)
    ensures n == Ones(w, 32)
  {
    n := 0;
    for i := 0 to 32
      invariant n == Ones(w, i)
    {
      if w[i] {
        n := n + 1;
      }
    }
  }

  lemma OnesIs(w: Word, n: nat)
    requires n <= 32
    ensures Ones(w, n) == if n == 0 then 0 else Ones(w, n - 1) + if w[n - 1] then 1 else 0
  {
  }

  lemma {:induction false} WordCounts(mask1: seq<Word>, mask2: seq<Word>, s: seq<byte>, t: seq<byte>, i: nat, n: nat)
    requires Marks(mask1, s) && Marks(mask2, t) && 1 <= i < 8 && n <= 32
    ensures |Only(s, t, 32 * i + n)| == |Only(s, t, 32 * i)| + Ones(AndNot(mask1[i], mask2[i]), n)
  {
    hide Ones;
    OnesIs(AndNot(mask1[i], mask2[i]), n);
    if n > 0 {
      WordCounts(mask1, mask2, s, t, i, n - 1);
      var c: byte := 32 * i + n - 1;
      assert c / 32 == i && c % 32 == n - 1;
      var a, b := Only(s, t, 32 * i + n - 1), Only(s, t, 32 * i + n);
      if c in s && c !in t {
        assert b == a + {c};
      } else {
        assert b == a;
      }
    }
  }

  lemma EqualWords(w: Word, n: nat)
    requires n <= 32
    ensures Ones(AndNot(w, w), n) == 0
  {
  }

  method QuickStrDist(s: seq<byte>, t: seq<byte>) returns (dist: int)
    ensures dist == QuickBound(s, t)
    ensures var a := |set c: byte | 32 <= c && c in s && c !in t| + if |s| < |t| then |t| - |s| else 0;
      var b := |set c: byte | 32 <= c && c in t && c !in s| + if |t| < |s| then |s| - |t| else 0;
      a <= dist && b <= dist && (dist == a || dist == b)
    ensures dist <= Distance(true, s, t) && dist <= Distance(false, s, t)
  {
    OnlyAll(s, t);
    OnlyAll(t, s);
    QuickIsBelow(true, s, t);
    QuickIsBelow(false, s, t);
    var mask1 := MaskOf(s);
    var mask2 := MaskOf(t);
    var dist1: nat, dist2: nat := 0, 0;
    for i: nat := 1 to 8
      invariant dist1 == |Only(s, t, 32 * i)| && dist2 == |Only(t, s, 32 * i)|
    {
      hide Ones, Only;
      WordCounts(mask1, mask2, s, t, i, 32);
      WordCounts(mask2, mask1, t, s, i, 32);
      if mask1[i] == mask2[i] {
        EqualWords(mask1[i], 32);
        continue;
      }
      var n1 := CountBits32(AndNot(mask1[i], mask2[i]));
      var n2 := CountBits32(AndNot(mask2[i], mask1[i]));
      dist1, dist2 := dist1 + n1, dist2 + n2;
    }
    if |s| != |t| {
      if |s| < |t| {
        dist1 := dist1 + |t| - |s|;
      } else {
        dist2 := dist2 + |s| - |t|;
      }
    }
    dist := if dist1 < dist2 then dist2 else dist1;
  }
}
