/** The read-only hash of chunked data (TPlainHashWriter and TPlainHash in chunked_helpers.h):
    pairs sorted into buckets by the low bits of the key, and found again by scanning one. */
module PlainHash {
  import opened Wrappers
  import opened Bytes
  import opened Words

  datatype Pair<V> = Pair(key: int, value: V)

  datatype Interval = Interval(offset: nat, length: nat)

  const VERSION: nat := 2

  /** What is saved: the version, the bytes of one pair, the bit count, the number of pairs, where
      each bucket lies, all pairs. */
  datatype File<V> = File(version: nat, pairSize: nat, bits: nat, size: nat, intervals: seq<Interval>, pairs: seq<Pair<V>>)

  /** `ui32(key) & ((1 << bits) - 1)`. */
  function KeyHash(key: int, bits: nat): (h: nat)
    ensures h < Pow(2, bits)
  {
    key % TWO_32 % Pow(2, bits)
  }

  /** The pairs of one bucket, in the order they were added. */
  function Bucket<V>(data: seq<Pair<V>>, bits: nat, h: nat): seq<Pair<V>> {
    if data == [] then []
    else
      var last := data[|data| - 1];
      Bucket(data[..|data| - 1], bits, h) + if KeyHash(last.key, bits) == h then [last] else []
  }

  /** The first `n` buckets one behind the other. */
  function Buckets<V>(data: seq<Pair<V>>, bits: nat, n: nat): seq<Pair<V>> {
    if n == 0 then [] else Buckets(data, bits, n - 1) + Bucket(data, bits, n - 1)
  }

  function IntervalOf<V>(data: seq<Pair<V>>, bits: nat, h: nat): Interval {
    Interval(|Buckets(data, bits, h)|, |Bucket(data, bits, h)|)
  }

  ghost predicate Saved<V>(f: File<V>, data: seq<Pair<V>>) {
    && f.version == VERSION && f.size == |data|
    && |f.intervals| == Pow(2, f.bits)
    && (forall h: nat | h < |f.intervals| :: f.intervals[h] == IntervalOf(data, f.bits, h))
    && f.pairs == Buckets(data, f.bits, Pow(2, f.bits))
  }

  /** The first pair added under a key. */
  function FirstWith<V>(data: seq<Pair<V>>, key: int): Option<V> {
    if data == [] then None
    else if data[0].key == key then Some(data[0].value) else FirstWith(data[1..], key)
  }

  // ---- the intervals tile the data ----

  /** The saved intervals lie one behind the other and cover all pairs, and these are the pairs
      added, each as often. */
  lemma IntervalsTile<V>(f: File<V>, data: seq<Pair<V>>)
    requires Saved(f, data)
    ensures f.intervals[0].offset == 0
    ensures forall h: nat | h + 1 < |f.intervals| ::
      f.intervals[h].offset + f.intervals[h].length == f.intervals[h + 1].offset
    ensures var last := f.intervals[|f.intervals| - 1]; last.offset + last.length == |f.pairs| == |data|
    ensures multiset(f.pairs) == multiset(data)
  {
    AllPairs(data, f.bits);
    assert |multiset(f.pairs)| == |multiset(data)|;
  }

  lemma {:induction false} AllPairs<V>(data: seq<Pair<V>>, bits: nat)
    ensures multiset(Buckets(data, bits, Pow(2, bits))) == multiset(data)
  {
    hide Bucket, Buckets, Pow;
    var n := |data| - 1;
    if data == [] {
      NoPairs<V>(bits, Pow(2, bits));
    } else {
      AllPairs(data[..n], bits);
      OnePairMore(data, bits, Pow(2, bits));
      assert data == data[..n] + [data[n]];
    }
  }

  lemma {:induction false} NoPairs<V>(bits: nat, n: nat)
    ensures Buckets<V>([], bits, n) == []
  {
    if n > 0 {
      NoPairs<V>(bits, n - 1);
    }
  }

  lemma {:induction false} OnePairMore<V>(data: seq<Pair<V>>, bits: nat, n: nat)
    requires data != []
    ensures var last := data[|data| - 1];
      multiset(Buckets(data, bits, n)) == multiset(Buckets(data[..|data| - 1], bits, n))
        + if KeyHash(last.key, bits) < n then multiset{last} else multiset{}
  {
    hide Bucket, Buckets, KeyHash;
    var rest, last := data[..|data| - 1], data[|data| - 1];
    BucketsIs(data, bits, n);
    BucketsIs(rest, bits, n);
    if n > 0 {
      OnePairMore(data, bits, n - 1);
      BucketIs(data, bits, n - 1);
      var before := if KeyHash(last.key, bits) < n - 1 then multiset{last} else multiset{};
      var here := if KeyHash(last.key, bits) == n - 1 then [last] else [];
      Sums(Buckets(data, bits, n - 1), Buckets(rest, bits, n - 1), Bucket(rest, bits, n - 1), here, before);
      hide *;
      assert before + multiset(here) == if KeyHash(last.key, bits) < n then multiset{last} else multiset{};
    }
  }

  lemma Sums<T>(p: seq<T>, a: seq<T>, b: seq<T>, c: seq<T>, x: multiset<T>)
    requires multiset(p) == multiset(a) + x
    ensures multiset(p + (b + c)) == multiset(a + b) + (x + multiset(c))
  {
  }

  lemma BucketsIs<V>(data: seq<Pair<V>>, bits: nat, n: nat)
    ensures Buckets(data, bits, n)
         == if n == 0 then [] else Buckets(data, bits, n - 1) + Bucket(data, bits, n - 1)
  {
  }

  lemma BucketIs<V>(data: seq<Pair<V>>, bits: nat, h: nat)
    requires data != []
    ensures Bucket(data, bits, h) == Bucket(data[..|data| - 1], bits, h)
      + if KeyHash(data[|data| - 1].key, bits) == h then [data[|data| - 1]] else []
  {
  }

  // ---- a bucket holds what is looked for in it ----

  lemma {:induction false} FirstInBucket<V>(data: seq<Pair<V>>, bits: nat, key: int)
    ensures FirstWith(Bucket(data, bits, KeyHash(key, bits)), key) == FirstWith(data, key)
  {
    if data != [] {
      var n := |data| - 1;
      FirstInBucket(data[..n], bits, key);
      assert data == data[..n] + [data[n]];
      FirstOfTwo(data[..n], [data[n]], key);
      FirstOfTwo(Bucket(data[..n], bits, KeyHash(key, bits)), [data[n]], key);
      var b := Bucket(data[..n], bits, KeyHash(key, bits));
      assert b + [] == b;
    }
  }

  lemma {:induction false} FirstOfTwo<V>(a: seq<Pair<V>>, b: seq<Pair<V>>, key: int)
    ensures FirstWith(a + b, key) == if FirstWith(a, key).Some? then FirstWith(a, key) else FirstWith(b, key)
  {
    if a == [] {
      assert a + b == b;
    } else {
      assert (a + b)[1..] == a[1..] + b;
      FirstOfTwo(a[1..], b, key);
    }
  }

  /** With distinct keys a key is found with its value exactly when the pair was added. */
  lemma {:induction false} FirstIsOnly<V>(data: seq<Pair<V>>, key: int, value: V)
    requires DistinctKeys(data)
    ensures FirstWith(data, key) == Some(value) <==> Pair(key, value) in data
  {
    if data != [] {
      FirstIsOnly(data[1..], key, value);
      assert data == [data[0]] + data[1..];
      assert forall i | 0 <= i < |data| - 1 :: data[1..][i] == data[i + 1] && data[i + 1].key != data[0].key;
    }
  }

  ghost predicate DistinctKeys<V>(data: seq<Pair<V>>) {
    forall i, j | 0 <= i < j < |data| :: data[i].key != data[j].key
  }

  ghost predicate DistinctBuckets<V>(data: seq<Pair<V>>, bits: nat) {
    forall h: nat | h < Pow(2, bits) :: DistinctKeys(Bucket(data, bits, h))
  }

  /** Keys clash in the list exactly when they clash in some bucket. */
  lemma {:induction false} DistinctInBuckets<V>(data: seq<Pair<V>>, bits: nat)
    ensures DistinctKeys(data) <==> DistinctBuckets(data, bits)
  {
    hide Bucket, KeyHash, Pow;
    if data == [] {
      assert data[..0] == data;
      NothingYet(data, bits);
    } else {
      var n := |data| - 1;
      var rest, last := data[..n], data[n];
      var home := KeyHash(last.key, bits);
      DistinctInBuckets(rest, bits);
      assert data == rest + [last];
      DistinctMore(rest, last);
      DistinctMore(Bucket(rest, bits, home), last);
      forall h: nat ensures Bucket(data, bits, h) == Bucket(rest, bits, h) + if h == home then [last] else [] {
        BucketIs(data, bits, h);
      }
      forall h: nat | h != home ensures Bucket(data, bits, h) == Bucket(rest, bits, h) {
        assert Bucket(rest, bits, h) + [] == Bucket(rest, bits, h);
      }
      forall p ensures p in Bucket(rest, bits, home) <==> p in rest && KeyHash(p.key, bits) == home {
        BucketMembers(rest, bits, home, p);
      }
      assert home < Pow(2, bits);
      if DistinctKeys(data) {
        forall h: nat | h < Pow(2, bits) ensures DistinctKeys(Bucket(data, bits, h)) {
          assert DistinctKeys(Bucket(rest, bits, h));
          assert h != home ==> Bucket(data, bits, h) == Bucket(rest, bits, h);
        }
      }
      if DistinctBuckets(data, bits) {
        forall h: nat | h < Pow(2, bits) ensures DistinctKeys(Bucket(rest, bits, h)) {
          assert DistinctKeys(Bucket(data, bits, h));
        }
        assert DistinctKeys(Bucket(data, bits, home));
        forall q | q in rest ensures q.key != last.key {
          assert q in Bucket(rest, bits, home) || KeyHash(q.key, bits) != home;
        }
      }
    }
  }

  lemma DistinctMore<V>(s: seq<Pair<V>>, p: Pair<V>)
    ensures DistinctKeys(s + [p]) <==> DistinctKeys(s) && forall q | q in s :: q.key != p.key
  {
    var t := s + [p];
    if DistinctKeys(t) {
      forall i, j | 0 <= i < j < |s| ensures s[i].key != s[j].key {
        assert t[i].key != t[j].key;
      }
      forall q | q in s ensures q.key != p.key {
        var i :| 0 <= i < |s| && s[i] == q;
        assert t[i].key != t[|s|].key;
      }
    }
  }

  lemma {:induction false} BucketMembers<V>(data: seq<Pair<V>>, bits: nat, h: nat, p: Pair<V>)
    ensures p in Bucket(data, bits, h) <==> p in data && KeyHash(p.key, bits) == h
  {
    if data != [] {
      BucketMembers(data[..|data| - 1], bits, h, p);
      assert data == data[..|data| - 1] + [data[|data| - 1]];
    }
  }

  /** Where a bucket stands among the saved pairs. */
  lemma {:induction false} BucketAt<V>(data: seq<Pair<V>>, bits: nat, h: nat, n: nat)
    requires h < n
    ensures var at := |Buckets(data, bits, h)|; var b := Bucket(data, bits, h);
      at + |b| <= |Buckets(data, bits, n)| && Buckets(data, bits, n)[at..at + |b|] == b
  {
    if h < n - 1 {
      BucketAt(data, bits, h, n - 1);
    }
  }

  // ---- the writer ----

  ghost predicate Plain<V>(data: seq<Pair<V>>, bits: nat) {
    forall h: nat | h < Pow(2, bits) :: |Bucket(data, bits, h)| <= 2
  }

  /** The fewest bits from `firstBits` on that leave at most two pairs to a bucket; 22, or the first
      count when it is more, if no fewer do; and none without pairs. */
  ghost predicate IsChoice<V>(data: seq<Pair<V>>, firstBits: nat, bits: nat) {
    if data == [] then bits == 0
    else
      && firstBits <= bits && (bits == firstBits || bits <= 22)
      && (Plain(data, bits) || bits >= 22)
      && (forall b | firstBits <= b < bits :: !Plain(data, b))
  }

  method IsPlainEnough<V>(data: seq<Pair<V>>, bits: nat) returns (plain: bool)
    ensures plain <==> Plain(data, bits)
  {
    hide KeyHash, Bucket;
    var counts := new nat[Pow(2, bits)](i => 0);
    NothingYet(data, bits);
    for i := 0 to |data|
      invariant forall h | 0 <= h < counts.Length :: counts[h] == |Bucket(data[..i], bits, h)| <= 2
    {
      var h := KeyHash(data[i].key, bits);
      counts[h] := counts[h] + 1;
      forall k: nat ensures |Bucket(data[..i + 1], bits, k)| == |Bucket(data[..i], bits, k)| + if k == h then 1 else 0 {
        OneMore(data, i, bits, k);
      }
      if counts[h] > 2 {
        BucketGrows(data, bits, h, i + 1);
        return false;
      }
    }
    assert data[..|data|] == data;
    plain := true;
  }

  lemma NothingYet<V>(data: seq<Pair<V>>, bits: nat)
    ensures forall h: nat :: Bucket(data[..0], bits, h) == []
  {
  }

  lemma OneMore<V>(data: seq<Pair<V>>, i: nat, bits: nat, h: nat)
    requires i < |data|
    ensures Bucket(data[..i + 1], bits, h)
         == Bucket(data[..i], bits, h) + if KeyHash(data[i].key, bits) == h then [data[i]] else []
  {
    assert data[..i + 1][..i] == data[..i];
  }

  lemma {:induction false} BucketGrows<V>(data: seq<Pair<V>>, bits: nat, h: nat, i: nat)
    requires i <= |data|
    ensures |Bucket(data[..i], bits, h)| <= |Bucket(data, bits, h)|
    decreases |data| - i
  {
    if i < |data| {
      OneMore(data, i, bits, h);
      BucketGrows(data, bits, h, i + 1);
    } else {
      assert data[..i] == data;
    }
  }

  class TPlainHashWriter<V> {
    var data: seq<Pair<V>>

    constructor ()
      ensures data == []
    {
      data := [];
    }

    method Add(key: int, value: V)
      modifies this
      ensures data == old(data) + [Pair(key, value)]
    {
      data := data + [Pair(key, value)];
    }

    /** `firstBits` is what the logarithm of the size gives; more bits are taken, up to 22, until
        no bucket has more than two pairs. A debug build refuses a key that was added twice. */
    method Save(firstBits: nat, pairSize: nat, debug: bool) returns (f: Option<File<V>>)
      requires |data| < TWO_32 - 1 && firstBits < 32
      ensures f == None <==> debug && !DistinctKeys(data)
      ensures f.Some? ==> Saved(f.value, data) && f.value.pairSize == pairSize
      ensures f.Some? ==> IsChoice(data, firstBits, f.value.bits)
    {
      hide Bucket, Buckets, Pow, DistinctKeys, IsChoice;
      var bits := ChooseBits(firstBits);
      var data2 := Sort(bits);
      var intervals := [];
      var pairs := [];
      var offset := 0;
      EmptyBuckets(bits);
      for i := 0 to |data2|
        invariant |intervals| == i && offset == |Buckets(data, bits, i)| && pairs == Buckets(data, bits, i)
        invariant forall h: nat | h < i :: intervals[h] == IntervalOf(data, bits, h)
      {
        NextBucket(bits, i);
        intervals := intervals + [Interval(offset, |data2[i]|)];
        offset := offset + |data2[i]|;
        pairs := pairs + data2[i];
      }
      if debug {
        var clash := KeyClash(bits, data2);
        if clash {
          return None;
        }
      }
      f := Some(File(VERSION, pairSize, bits, |data|, intervals, pairs));
    }

    /** Two pairs of one bucket with the same key. */
    method KeyClash(bits: nat, data2: seq<seq<Pair<V>>>) returns (clash: bool)
      requires |data2| == Pow(2, bits) && forall h: nat | h < |data2| :: data2[h] == Bucket(data, bits, h)
      ensures clash <==> !DistinctKeys(data)
    {
      hide Bucket, Pow, KeyHash;
      DistinctInBuckets(data, bits);
      for i := 0 to |data2|
        invariant forall h: nat | h < i :: DistinctKeys(data2[h])
      {
        for j := 0 to |data2[i]|
          invariant forall a, b | 0 <= a < j && a < b < |data2[i]| :: data2[i][a].key != data2[i][b].key
        {
          for k := j + 1 to |data2[i]|
            invariant forall b | j < b < k :: data2[i][j].key != data2[i][b].key
          {
            if data2[i][j].key == data2[i][k].key {
              assert data2[i] == Bucket(data, bits, i) && !DistinctKeys(Bucket(data, bits, i));
              return true;
            }
          }
        }
      }
      clash := false;
    }

    method ChooseBits(firstBits: nat) returns (bits: nat)
      requires firstBits < 32
      ensures bits < 32 && IsChoice(data, firstBits, bits)
    {
      hide Plain;
      bits := 0;
      if data != [] {
        bits := firstBits;
        var plain := IsPlainEnough(data, bits);
        while bits < 22 && !plain
          invariant firstBits <= bits < 32 && (bits == firstBits || bits <= 22)
          invariant plain == Plain(data, bits)
          invariant forall b | firstBits <= b < bits :: !Plain(data, b)
          decreases if bits < 22 then 22 - bits else 0, if plain then 0 else 1
        {
          bits := bits + 1;
          plain := IsPlainEnough(data, bits);
        }
      }
    }

    lemma EmptyBuckets(bits: nat)
      ensures Buckets(data, bits, 0) == []
    {
    }

    lemma NextBucket(bits: nat, i: nat)
      ensures Buckets(data, bits, i + 1) == Buckets(data, bits, i) + Bucket(data, bits, i)
    {
    }

    /** Each pair to the end of its bucket. */
    method Sort(bits: nat) returns (data2: seq<seq<Pair<V>>>)
      ensures |data2| == Pow(2, bits) && forall h: nat | h < |data2| :: data2[h] == Bucket(data, bits, h)
    {
      hide KeyHash, Bucket, Pow;
      data2 := seq(Pow(2, bits), i => []);
      NothingYet(data, bits);
      for i := 0 to |data|
        invariant |data2| == Pow(2, bits)
        invariant forall h: nat | h < |data2| :: data2[h] == Bucket(data[..i], bits, h)
      {
        var h := KeyHash(data[i].key, bits);
        forall k: nat
          ensures Bucket(data[..i + 1], bits, k) == Bucket(data[..i], bits, k) + if k == h then [data[i]] else []
        {
          OneMore(data, i, bits, k);
        }
        data2 := data2[h := data2[h] + [data[i]]];
      }
      assert data[..|data|] == data;
    }
  }

  // ---- the reader ----

  /** TPlainHash::Find scans the one bucket the key can be in. */
  method Find<V>(f: File<V>, ghost data: seq<Pair<V>>, key: int) returns (r: Option<V>)
    requires Saved(f, data)
    ensures r == FirstWith(data, key)
  {
    hide Bucket, Buckets, FirstWith, Pow;
    var hash := KeyHash(key, f.bits);
    var interval := f.intervals[hash];
    BucketAt(data, f.bits, hash, Pow(2, f.bits));
    FirstInBucket(data, f.bits, key);
    ghost var bucket := Bucket(data, f.bits, hash);
    assert f.pairs[interval.offset..interval.offset + interval.length] == bucket;
    assert bucket[0..] == bucket;
    for i := 0 to interval.length
      invariant FirstWith(bucket[i..], key) == FirstWith(bucket, key)
    {
      var pair := f.pairs[interval.offset + i];
      assert pair == bucket[i];
      FirstOrLater(bucket[i..], key);
      assert bucket[i..][1..] == bucket[i + 1..];
      if pair.key == key {
        return Some(pair.value);
      }
    }
    NoneLeft(bucket[interval.length..], key);
    r := None;
  }

  lemma FirstOrLater<V>(b: seq<Pair<V>>, key: int)
    requires b != []
    ensures FirstWith(b, key) == if b[0].key == key then Some(b[0].value) else FirstWith(b[1..], key)
  {
  }

  lemma NoneLeft<V>(b: seq<Pair<V>>, key: int)
    requires b == []
    ensures FirstWith(b, key) == None
  {
  }

  // ---- from the pairs to what is found ----

  /** Pairs added, saved and looked for: with distinct keys a key is found with its value exactly
      when the pair was added; in general the first pair added counts, or the debug build refuses. */
  method SaveAndFind<V>(pairs: seq<Pair<V>>, firstBits: nat, pairSize: nat, debug: bool, key: int)
      returns (saved: bool, r: Option<V>)
    requires |pairs| < TWO_32 - 1 && firstBits < 32
    ensures !saved <==> debug && !DistinctKeys(pairs)
    ensures saved ==> r == FirstWith(pairs, key)
    ensures DistinctKeys(pairs) ==> saved && forall value :: r == Some(value) <==> Pair(key, value) in pairs
  {
    hide FirstWith, Saved, DistinctKeys;
    var writer := new TPlainHashWriter<V>();
    for i := 0 to |pairs|
      invariant fresh(writer) && writer.data == pairs[..i]
    {
      writer.Add(pairs[i].key, pairs[i].value);
    }
    assert pairs[..|pairs|] == pairs;
    var f := writer.Save(firstBits, pairSize, debug);
    saved, r := f.Some?, None;
    if saved {
      r := Find(f.value, pairs, key);
      if DistinctKeys(pairs) {
        forall value ensures r == Some(value) <==> Pair(key, value) in pairs {
          FirstIsOnly(pairs, key, value);
        }
      }
    }
  }
}
