/** Bytes, big-endian numbers and guarded reads, shared by the packers and the trie codec.

    A C++ `char` buffer is a `seq<byte>`. The originals read through raw pointers; a read
    outside the sequence is given the value 0 here, so that the readers are total. */
module Bytes {

  type byte = x: int | 0 <= x < 256

  function Pow(b: nat, e: nat): (p: nat)
    ensures b > 0 ==> p > 0
  {
    if e == 0 then 1 else b * Pow(b, e - 1)
  }

  function ByteAt(buf: seq<byte>, i: nat): byte {
    if i < |buf| then buf[i] else 0
  }

  function Slice(data: seq<byte>, p: nat, n: nat): seq<byte> {
    if p + n <= |data| then data[p..p + n] else []
  }

  /** `bs` stands in `data` at offset `p`. */
  ghost predicate StandsAt(data: seq<byte>, p: nat, bs: seq<byte>) {
    p + |bs| <= |data| && forall i :: 0 <= i < |bs| ==> data[p + i] == bs[i]
  }

  lemma StandsAtSplit(data: seq<byte>, p: nat, a: seq<byte>, b: seq<byte>)
    requires StandsAt(data, p, a + b)
    ensures StandsAt(data, p, a) && StandsAt(data, p + |a|, b)
  {
    forall i | 0 <= i < |a| ensures data[p + i] == a[i] {
      assert (a + b)[i] == a[i];
    }
    forall i | 0 <= i < |b| ensures data[p + |a| + i] == b[i] {
      assert (a + b)[|a| + i] == b[i];
    }
  }

  lemma StandsAtByte(data: seq<byte>, p: nat, bs: seq<byte>, i: nat)
    requires StandsAt(data, p, bs) && i < |bs|
    ensures p + i < |data| && ByteAt(data, p + i) == bs[i]
  {
  }

  lemma Associate(a: seq<byte>, b: seq<byte>, c: seq<byte>)
    ensures a + (b + c) == (a + b) + c
  {
  }

  /** The `n` low bytes of `v`, most significant first. */
  function BigEndian(v: nat, n: nat): (bs: seq<byte>)
    ensures |bs| == n
  {
    if n == 0 then [] else BigEndian(v / 256, n - 1) + [v % 256]
  }

  /** What is left of `v` above its `n` low bytes. */
  function High(v: nat, n: nat): nat {
    if n == 0 then v else High(v / 256, n - 1)
  }

  /** The number whose bytes above the last `n` are `acc` and whose last `n` bytes stand at
      offset `p`, most significant first. */
  function Decode(acc: nat, data: seq<byte>, p: nat, n: nat): nat {
    if n == 0 then acc else 256 * Decode(acc, data, p, n - 1) + ByteAt(data, p + n - 1)
  }

  lemma {:induction false} DecodeBigEndian(data: seq<byte>, p: nat, v: nat, n: nat)
    requires StandsAt(data, p, BigEndian(v, n))
    ensures Decode(High(v, n), data, p, n) == v
  {
    if n > 0 {
      StandsAtSplit(data, p, BigEndian(v / 256, n - 1), [v % 256]);
      StandsAtByte(data, p + n - 1, [v % 256], 0);
      DecodeBigEndian(data, p, v / 256, n - 1);
    }
  }

  lemma DivideTwice(a: nat, b: nat, c: nat)
    requires b > 0 && c > 0
    ensures c * b > 0 && a / b / c == a / (c * b)
  {
    var q, r := a / b, a % b;
    QuotientIs(a, b, q, r);
    var m, k := q / c, q % c;
    DigitBelow(k, c, r, b);
    assert a == (m * c + k) * b + r;
    assert (m * c + k) * b == m * (c * b) + k * b;
    QuotientIs(a, c * b, m, k * b + r);
  }

  lemma DigitBelow(k: nat, c: nat, r: nat, b: nat)
    requires k < c && r < b
    ensures k * b + r < c * b
  {
    var d: nat := c - 1 - k;
    assert c * b == (k + 1 + d) * b == k * b + b + d * b;
    assert d * b >= 0;
  }

  lemma QuotientIs(a: nat, d: nat, q: nat, r: nat)
    requires r < d
    ensures a == q * d + r ==> a / d == q
  {
    if a == q * d + r {
      var e := a / d - q;
      assert e * d == r - a % d;
      assert e > 0 ==> e * d >= d;
      assert e < 0 ==> e * d <= 0 - d;
    }
  }

  lemma {:induction false} HighIs(v: nat, n: nat)
    ensures High(v, n) == v / Pow(256, n)
  {
    if n > 0 {
      HighIs(v / 256, n - 1);
      DivideTwice(v, 256, Pow(256, n - 1));
    }
  }

  lemma {:induction false} HighZero(v: nat, n: nat)
    ensures High(v, n) == 0 <==> v < Pow(256, n)
  {
    if n > 0 {
      HighZero(v / 256, n - 1);
    }
  }

  lemma {:induction false} HighStep(v: nat, n: nat)
    ensures High(v, n) / 256 == High(v, n + 1)
  {
    if n > 0 {
      HighStep(v / 256, n - 1);
    }
  }

  lemma {:induction false} BigEndianAt(v: nat, n: nat, k: nat)
    requires k < n
    ensures BigEndian(v, n)[k] == High(v, n - 1 - k) % 256
  {
    if k < n - 1 {
      BigEndianAt(v / 256, n - 1, k);
    }
  }
}
