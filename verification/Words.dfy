/** 32-bit words and their bits: setting, clearing, shifting out, and the shift-and-mask count of
    mbitmap.cpp. */
module Words {
  import opened Bytes

  const TWO_32: nat := 0x1_0000_0000

  type ui32 = w: int | 0 <= w < TWO_32

  /** Whether `w & (1 << k)` is not zero. */
  predicate Bit(w: nat, k: nat) {
    if k == 0 then w % 2 == 1 else Bit(w / 2, k - 1)
  }

  /** `w & ~(1 << k)`. */
  function Cleared(w: nat, k: nat): nat {
    if k == 0 then w - w % 2 else w % 2 + 2 * Cleared(w / 2, k - 1)
  }

  lemma {:induction false} SetBitIs(w: nat, k: nat, j: nat)
    requires !Bit(w, k)
    ensures Bit(w + Pow(2, k), j) <==> j == k || Bit(w, j)
  {
    if k > 0 {
      assert (w + Pow(2, k)) / 2 == w / 2 + Pow(2, k - 1) && (w + Pow(2, k)) % 2 == w % 2;
      if j > 0 {
        SetBitIs(w / 2, k - 1, j - 1);
      }
    } else if j > 0 {
      assert (w + 1) / 2 == w / 2;
    }
  }

  lemma {:induction false} ClearedIs(w: nat, k: nat, j: nat)
    ensures Bit(Cleared(w, k), j) <==> j != k && Bit(w, j)
    ensures Cleared(w, k) <= w
  {
    if k > 0 {
      ClearedIs(w / 2, k - 1, if j > 0 then j - 1 else 0);
      assert Cleared(w, k) / 2 == Cleared(w / 2, k - 1) && Cleared(w, k) % 2 == w % 2;
    } else {
      assert (w - w % 2) / 2 == w / 2;
    }
  }

  lemma {:induction false} SetBitFits(w: nat, k: nat, n: nat)
    requires k < n && w < Pow(2, n) && !Bit(w, k)
    ensures w + Pow(2, k) < Pow(2, n)
  {
    if k > 0 {
      assert w / 2 < Pow(2, n - 1);
      SetBitFits(w / 2, k - 1, n - 1);
    } else {
      assert w + 1 < 2 * Pow(2, n - 1) by { assert w % 2 == 0; }
    }
  }

  /** A word that is not zero has a bit set. */
  lemma {:induction false} SomeBit(w: nat, n: nat) returns (k: nat)
    requires 0 < w < Pow(2, n)
    ensures k < n && Bit(w, k)
  {
    if w % 2 == 1 {
      k := 0;
    } else {
      k := SomeBit(w / 2, n - 1);
      k := k + 1;
    }
  }

  lemma {:induction false} ZeroBit(k: nat)
    ensures !Bit(0, k)
  {
    if k > 0 {
      ZeroBit(k - 1);
    }
  }

  lemma Pow32()
    ensures Pow(2, 32) == TWO_32
  {
    assert Pow(2, 8) == 256;
    PowAdd(8, 8);
    PowAdd(16, 16);
  }

  lemma {:induction false} PowAdd(a: nat, b: nat)
    ensures Pow(2, a + b) == Pow(2, a) * Pow(2, b)
  {
    if a > 0 {
      PowAdd(a - 1, b);
      assert Pow(2, a + b) == 2 * (Pow(2, a - 1) * Pow(2, b)) == (2 * Pow(2, a - 1)) * Pow(2, b);
    }
  }

  // ---- the bitwise and, and counting by it ----

  function And(a: nat, b: nat): (r: nat)
    ensures r <= a && r <= b
  {
    if a == 0 || b == 0 then 0 else (if a % 2 == 1 && b % 2 == 1 then 1 else 0) + 2 * And(a / 2, b / 2)
  }

  /** `u >> k`, `u << k` and the `k` low bits. */
  function Shr(u: nat, k: nat): nat {
    if k == 0 then u else Shr(u / 2, k - 1)
  }

  function Shl(u: nat, k: nat): nat {
    if k == 0 then u else 2 * Shl(u, k - 1)
  }

  function Low(u: nat, k: nat): (r: nat)
    ensures r < Pow(2, k)
  {
    if k == 0 then 0 else u % 2 + 2 * Low(u / 2, k - 1)
  }

  /** The low `k` bits of `x`, and `y` above them. */
  function Join(x: nat, y: nat, k: nat): nat {
    if k == 0 then y else x % 2 + 2 * Join(x / 2, y, k - 1)
  }

  /** The sum of `n` fields of `s` bits, from the lowest. */
  function Fields(w: nat, s: nat, n: nat): nat
    decreases n
  {
    if n == 0 then 0 else Low(w, s) + Fields(Shr(w, s), s, n - 1)
  }

  function Ones(s: nat): nat {
    if s == 0 then 0 else 1 + 2 * Ones(s - 1)
  }

  /** Every other field of `s` bits, `n` of them. */
  function Mask(s: nat, n: nat): nat {
    if n == 0 then 0 else Join(Ones(s), Mask(s, n - 1), 2 * s)
  }

  /** One line of the count: every second field added to the one below it. */
  function Halve(u: nat, s: nat, mask: nat): nat {
    And(Shr(u, s), mask) + And(u, mask)
  }

  function CountBits(u: nat): nat {
    var u1 := Halve(u, 1, 0x5555_5555);
    var u2 := Halve(u1, 2, 0x3333_3333);
    var u3 := Halve(u2, 4, 0x0f0f_0f0f);
    var u4 := Halve(u3, 8, 0x00ff_00ff);
    Shr(u4, 16) + And(u4, 0xffff)
  }

  lemma AndIs(a: nat, b: nat)
    ensures And(a, b) == (if a % 2 == 1 && b % 2 == 1 then 1 else 0) + 2 * And(a / 2, b / 2)
  {
  }

  /** An and splits into one of the low bits and one of the rest. */
  lemma {:induction false} AndSplit(u: nat, x: nat, y: nat, k: nat)
    ensures And(u, Join(x, y, k)) == Join(And(Low(u, k), Low(x, k)), And(Shr(u, k), y), k)
  {
    hide And, Low;
    LowIs(u, k);
    LowIs(x, k);
    if k > 0 {
      AndSplit(u / 2, x / 2, y, k - 1);
      AndIs(u, Join(x, y, k));
      AndIs(Low(u, k), Low(x, k));
    }
  }

  lemma LowIs(u: nat, k: nat)
    ensures Low(u, k) == if k == 0 then 0 else u % 2 + 2 * Low(u / 2, k - 1)
  {
  }

  lemma AndZero(a: nat)
    ensures And(a, 0) == 0
  {
  }

  lemma {:induction false} AndOnes(u: nat, s: nat, k: nat)
    requires s <= k
    ensures And(Low(u, k), Low(Ones(s), k)) == Low(u, s)
  {
    hide And;
    LowIs(u, k);
    LowIs(u, s);
    LowIs(Ones(s), k);
    AndIs(Low(u, k), Low(Ones(s), k));
    hide Low;
    if s > 0 {
      AndOnes(u / 2, s - 1, k - 1);
    } else {
      LowZero(k);
      AndZero(Low(u, k));
    }
  }

  lemma {:induction false} LowZero(k: nat)
    ensures Low(0, k) == 0
  {
    if k > 0 {
      LowZero(k - 1);
    }
  }

  lemma {:induction false} JoinParts(x: nat, y: nat, k: nat)
    requires x < Pow(2, k)
    ensures Low(Join(x, y, k), k) == x && Shr(Join(x, y, k), k) == y
    ensures Join(x, y, k) == x + Shl(y, k)
  {
    if k > 0 {
      JoinParts(x / 2, y, k - 1);
    }
  }

  lemma {:induction false} ShlAdds(x: nat, y: nat, k: nat)
    ensures Shl(x, k) + Shl(y, k) == Shl(x + y, k)
  {
    if k > 0 {
      ShlAdds(x, y, k - 1);
    }
  }

  lemma {:induction false} LowFits(u: nat, s: nat, k: nat)
    requires s <= k
    ensures Low(u, s) < Pow(2, k) && Pow(2, s) <= Pow(2, k)
  {
    if s < k {
      LowFits(u, s, k - 1);
    }
  }

  lemma {:induction false} ShrTwice(u: nat, a: nat, b: nat)
    ensures Shr(Shr(u, a), b) == Shr(u, a + b)
  {
    if a > 0 {
      ShrTwice(u / 2, a - 1, b);
    }
  }

  /** The lowest field of a halved word is the sum of the two lowest fields. */
  lemma HalveLow(u: nat, s: nat, n: nat)
    requires s > 0 && n > 0
    ensures Halve(u, s, Mask(s, n))
         == Join(Low(Shr(u, s), s) + Low(u, s), Halve(Shr(u, 2 * s), s, Mask(s, n - 1)), 2 * s)
    ensures Low(Shr(u, s), s) + Low(u, s) < Pow(2, 2 * s)
  {
    hide Low, Shr, And, Join, Shl, Ones;
    var m := Mask(s, n - 1);
    AndSplit(u, Ones(s), m, 2 * s);
    AndSplit(Shr(u, s), Ones(s), m, 2 * s);
    AndOnes(u, s, 2 * s);
    AndOnes(Shr(u, s), s, 2 * s);
    ShrTwice(u, s, 2 * s);
    ShrTwice(u, 2 * s, s);
    LowFits(u, s, 2 * s - 1);
    LowFits(Shr(u, s), s, 2 * s - 1);
    var a, b, y, z := Low(Shr(u, s), s), Low(u, s), And(Shr(Shr(u, s), 2 * s), m), And(Shr(u, 2 * s), m);
    JoinParts(a, y, 2 * s);
    JoinParts(b, z, 2 * s);
    JoinParts(a + b, y + z, 2 * s);
    ShlAdds(y, z, 2 * s);
  }

  /** Halving keeps the sum of the fields. */
  lemma {:induction false} HalveKeepsSum(u: nat, s: nat, n: nat)
    requires s > 0
    ensures Fields(Halve(u, s, Mask(s, n)), 2 * s, n) == Fields(u, s, 2 * n)
    decreases n
  {
    hide Low, Shr, And, Join, Halve, Mask;
    if n > 0 {
      HalveLow(u, s, n);
      var rest := Halve(Shr(u, 2 * s), s, Mask(s, n - 1));
      JoinParts(Low(Shr(u, s), s) + Low(u, s), rest, 2 * s);
      HalveKeepsSum(Shr(u, 2 * s), s, n - 1);
      ShrTwice(u, s, s);
      assert Fields(u, s, 2 * n) == Low(u, s) + Fields(Shr(u, s), s, 2 * n - 1);
    }
  }

  /** The bits that are set. */
  function Population(w: nat, n: nat): nat {
    if n == 0 then 0 else (if Bit(w, n - 1) then 1 else 0) + Population(w, n - 1)
  }

  lemma {:induction false} FieldsOfOne(w: nat, n: nat)
    ensures Fields(w, 1, n) == Population(w, n)
  {
    if n > 0 {
      FieldsOfOne(w / 2, n - 1);
      PopulationFromBelow(w, n);
      assert Low(w, 1) == w % 2 && Shr(w, 1) == w / 2;
    }
  }

  lemma {:induction false} PopulationFromBelow(w: nat, n: nat)
    requires n > 0
    ensures Population(w, n) == w % 2 + Population(w / 2, n - 1)
  {
    if n > 1 {
      PopulationFromBelow(w, n - 1);
    }
  }

  lemma {:induction false} LowOfSmall(w: nat, k: nat)
    requires w < Pow(2, k)
    ensures Low(w, k) == w
  {
    if k > 0 {
      LowOfSmall(w / 2, k - 1);
    }
  }

  lemma {:induction false} ShrFits(w: nat, a: nat, b: nat)
    requires w < Pow(2, a + b)
    ensures Shr(w, a) < Pow(2, b)
  {
    if a > 0 {
      ShrFits(w / 2, a - 1, b);
    }
  }

  lemma {:induction false} ShlTwice(x: nat, a: nat, b: nat)
    ensures Shl(Shl(x, a), b) == Shl(x, a + b)
  {
    if b > 0 {
      ShlTwice(x, a, b - 1);
    }
  }

  lemma ShlFour(x: nat)
    ensures Shl(x, 2) == 4 * x && Shl(x, 4) == 16 * x
  {
    assert Shl(x, 1) == 2 * Shl(x, 0) && Shl(x, 2) == 2 * Shl(x, 1);
    assert Shl(x, 3) == 2 * Shl(x, 2);
  }

  lemma SmallShifts(x: nat)
    ensures Shl(x, 2) == 4 * x && Shl(x, 4) == 16 * x && Shl(x, 8) == 256 * x && Shl(x, 16) == 65536 * x
    ensures Pow(2, 2) == 4 && Pow(2, 4) == 16 && Pow(2, 8) == 256 && Pow(2, 16) == 65536
    ensures Ones(1) == 1 && Ones(2) == 3 && Ones(4) == 15 && Ones(8) == 255 && Ones(16) == 65535
  {
    hide Shl, Pow, Ones;
    SmallPowers();
    ShlFour(x);
    ShlFour(16 * x);
    ShlTwice(x, 4, 4);
    ShlFour(256 * x);
    ShlFour(16 * (256 * x));
    ShlTwice(x, 8, 4);
    ShlTwice(x, 12, 4);
  }

  lemma SmallPowers()
    ensures Pow(2, 2) == 4 && Pow(2, 4) == 16 && Pow(2, 8) == 256 && Pow(2, 16) == 65536
    ensures Ones(1) == 1 && Ones(2) == 3 && Ones(4) == 15 && Ones(8) == 255 && Ones(16) == 65535
  {
    assert Pow(2, 4) == 16;
    PowAdd(4, 4);
    PowAdd(8, 8);
    OnesIs(16);
    OnesIs(8);
  }

  lemma {:induction false} OnesIs(s: nat)
    ensures Ones(s) + 1 == Pow(2, s)
  {
    if s > 0 {
      OnesIs(s - 1);
    }
  }

  /** A mask is a repunit: as a fraction of the whole word it is one over its factor. */
  lemma {:induction false} MaskTimes(s: nat, n: nat, factor: nat)
    requires (s, factor) in [(1, 3), (2, 5), (4, 17), (8, 257)]
    ensures factor * Mask(s, n) + 1 == Pow(2, 2 * s * n)
    decreases n
  {
    hide Shl, Ones, Join, Pow, Low, Shr;
    if n > 0 {
      MaskTimes(s, n - 1, factor);
      SmallShifts(Mask(s, n - 1));
      JoinParts(Ones(s), Mask(s, n - 1), 2 * s);
      PowAdd(2 * s, 2 * s * (n - 1));
      assert 2 * s + 2 * s * (n - 1) == 2 * s * n;
    } else {
      PowZero();
    }
  }

  lemma PowZero()
    ensures Pow(2, 0) == 1
  {
  }

  lemma Masks()
    ensures Mask(1, 16) == 0x5555_5555 && Mask(2, 8) == 0x3333_3333
    ensures Mask(4, 4) == 0x0f0f_0f0f && Mask(8, 2) == 0x00ff_00ff && Ones(16) == 0xffff
  {
    hide Mask, Pow, Ones;
    Pow32();
    SmallShifts(0);
    MaskTimes(1, 16, 3);
    MaskTimes(2, 8, 5);
    MaskTimes(4, 4, 17);
    MaskTimes(8, 2, 257);
  }

  /** Shifting and masking counts the bits that are set. */
  lemma CountBitsCounts(u: ui32)
    ensures CountBits(u) == Population(u, 32)
  {
    hide And, Shr, Low, Population, Mask, Ones;
    Masks();
    var u1 := Halve(u, 1, Mask(1, 16));
    var u2 := Halve(u1, 2, Mask(2, 8));
    var u3 := Halve(u2, 4, Mask(4, 4));
    var u4 := Halve(u3, 8, Mask(8, 2));
    HalveKeepsSum(u, 1, 16);
    HalveKeepsSum(u1, 2, 8);
    HalveKeepsSum(u2, 4, 4);
    HalveKeepsSum(u3, 8, 2);
    FieldsOfOne(u, 32);
    LastFields(u4);
  }

  lemma LastFields(w: nat)
    requires w <= 2 * 0x00ff_00ff
    ensures Shr(w, 16) + And(w, 0xffff) == Fields(w, 16, 2)
  {
    Pow32();
    ShrFits(w, 16, 16);
    LowOfSmall(Shr(w, 16), 16);
    assert Fields(w, 16, 2) == Low(w, 16) + Fields(Shr(w, 16), 16, 1);
    hide And, Shr, Low, Ones, Pow;
    OnesMask(w);
  }

  lemma OnesMask(w: nat)
    requires w < TWO_32
    ensures And(w, 0xffff) == Low(w, 16)
  {
    hide And, Shr, Low, Ones, Pow, Mask;
    Masks();
    Pow32();
    LowOfSmall(w, 32);
    LowOfSmall(Ones(16), 32);
    AndOnes(w, 16, 32);
  }
}
