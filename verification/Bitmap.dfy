/** The paged bitmap (mbitmap.h, mbitmap.cpp), its count and its iterator. */
module Bitmap {
  import opened Bytes
  import opened Words

  const PAGE: nat := 131072
  const PER_PAGE: nat := 4194304  // 32 bits a word
  const PAGES: nat := 1024        // for all 32-bit ids

  /** The words of every page; a page that is not there has none. */
  type Memory = seq<seq<ui32>>

  ghost predicate Shaped(m: Memory) {
    forall p | 0 <= p < |m| :: m[p] == [] || |m[p]| == PAGE
  }

  /** bitmap_1::test. */
  predicate Has(m: Memory, id: nat) {
    var elh, i := id / PER_PAGE, id / 32 % PAGE;
    elh < |m| && i < |m[elh]| && Bit(m[elh][i], id % 32)
  }

  ghost predicate NoneIn(m: Memory, lo: nat, hi: nat) {
    forall id: nat | lo <= id < hi :: !Has(m, id)
  }

  // ---- where an id lies ----

  function IdOf(p: nat, i: nat, bit: nat): nat {
    p * PER_PAGE + i * 32 + bit
  }

  lemma Locate(p: nat, i: nat, bit: nat)
    requires i < PAGE && bit < 32
    ensures var id := IdOf(p, i, bit); id / PER_PAGE == p && id / 32 % PAGE == i && id % 32 == bit
  {
    var id, q := IdOf(p, i, bit), p * 131072 + i;
    assert id == q * 32 + bit;
    assert id / 32 == q && id % 32 == bit;
    assert q % 131072 == i;
    assert p * 4194304 <= id < p * 4194304 + 4194304;
  }

  lemma Located(id: nat)
    ensures id / 32 % PAGE < PAGE && IdOf(id / PER_PAGE, id / 32 % PAGE, id % 32) == id
  {
  }

  lemma InWord(m: Memory, p: nat, i: nat, bit: nat)
    requires p < |m| && i < |m[p]| && |m[p]| == PAGE && bit < 32
    ensures Has(m, IdOf(p, i, bit)) <==> Bit(m[p][i], bit)
  {
    Locate(p, i, bit);
  }

  lemma SameWord(p: nat, i: nat, id: nat)
    requires i < PAGE && IdOf(p, i, 0) <= id < IdOf(p, i, 0) + 32
    ensures id == IdOf(p, i, id % 32)
  {
    Locate(p, i, id - IdOf(p, i, 0));
  }

  lemma NoneInWord(m: Memory, p: nat, i: nat, from: nat)
    requires p < |m| && i < |m[p]| && |m[p]| == PAGE && from <= 32
    requires forall k: nat | from <= k < 32 :: !Bit(m[p][i], k)
    ensures NoneIn(m, IdOf(p, i, from), IdOf(p, i, 32))
  {
    forall id: nat | IdOf(p, i, from) <= id < IdOf(p, i, 32) ensures !Has(m, id) {
      SameWord(p, i, id);
      InWord(m, p, i, id % 32);
    }
  }

  lemma NoneInZeroWord(m: Memory, p: nat, i: nat)
    requires p < |m| && i < |m[p]| && |m[p]| == PAGE && m[p][i] == 0
    ensures NoneIn(m, IdOf(p, i, 0), IdOf(p, i, 32))
  {
    forall k: nat | k < 32 ensures !Bit(m[p][i], k) {
      ZeroBit(k);
    }
    NoneInWord(m, p, i, 0);
  }

  lemma NoneInMissingPage(m: Memory, p: nat)
    requires p < |m| && m[p] == []
    ensures NoneIn(m, p * PER_PAGE, (p + 1) * PER_PAGE)
  {
    forall id: nat | p * PER_PAGE <= id < (p + 1) * PER_PAGE ensures !Has(m, id) {
      assert id / PER_PAGE == p;
    }
  }

  // ---- shifting the current word out ----

  lemma {:induction false} ShrBit(w: nat, s: nat)
    ensures Shr(w, s) % 2 == 1 <==> Bit(w, s)
    ensures Shr(w, s) / 2 == Shr(w, s + 1)
  {
    if s > 0 {
      ShrBit(w / 2, s - 1);
    }
  }

  lemma {:induction false} ShrZero(w: nat, s: nat, k: nat)
    requires Shr(w, s) == 0 && s <= k
    ensures !Bit(w, k)
  {
    if s > 0 {
      ShrZero(w / 2, s - 1, k - 1);
    } else {
      ZeroBit(k);
    }
  }

  lemma ShrOfWord(w: ui32)
    ensures Shr(w, 32) == 0
  {
    Pow32();
    ShrFits(w, 32, 0);
  }

  // ---- counting ----

  ghost function IdsBelow(m: Memory, n: nat): set<nat> {
    set id: nat | id < n && Has(m, id)
  }

  ghost function Ids(m: Memory): set<nat> {
    IdsBelow(m, |m| * PER_PAGE)
  }

  lemma AllIds(m: Memory, id: nat)
    requires Has(m, id)
    ensures id in Ids(m)
  {
    assert id < (id / PER_PAGE + 1) * PER_PAGE;
  }

  lemma {:induction false} WordAdds(m: Memory, p: nat, i: nat, n: nat)
    requires p < |m| && i < |m[p]| && |m[p]| == PAGE && n <= 32
    ensures |IdsBelow(m, IdOf(p, i, n))| == |IdsBelow(m, IdOf(p, i, 0))| + Population(m[p][i], n)
  {
    if n > 0 {
      WordAdds(m, p, i, n - 1);
      var id := IdOf(p, i, n - 1);
      InWord(m, p, i, n - 1);
      assert IdsBelow(m, id + 1) == IdsBelow(m, id) + if Has(m, id) then {id} else {};
    }
  }

  lemma PageAddsNone(m: Memory, p: nat)
    requires p < |m| && m[p] == []
    ensures IdsBelow(m, (p + 1) * PER_PAGE) == IdsBelow(m, p * PER_PAGE)
  {
    NoneInMissingPage(m, p);
  }

  // ---- how many ids there can be ----

  /** No page lies beyond the 32-bit ids, but for a last one that is never made. */
  ghost predicate InRange(m: Memory) {
    |m| <= PAGES + 1 && (|m| == PAGES + 1 ==> m[PAGES] == [])
  }

  ghost predicate Full(m: Memory) {
    forall id: nat | id < TWO_32 :: Has(m, id)
  }

  ghost function Range(n: nat): (r: set<nat>)
    ensures forall i: nat :: i in r <==> i < n
  {
    if n == 0 then {} else Range(n - 1) + {n - 1}
  }

  lemma {:induction false} RangeSize(n: nat)
    ensures |Range(n)| == n
  {
    if n > 0 {
      RangeSize(n - 1);
    }
  }

  lemma Smaller(a: set<nat>, b: set<nat>)
    requires a <= b
    ensures |a| <= |b| && (|a| == |b| ==> a == b)
  {
    assert b == a + (b - a);
  }

  lemma IdsInRange(m: Memory, id: nat)
    requires InRange(m) && Has(m, id)
    ensures id < TWO_32
  {
    assert id / PER_PAGE < PAGES;
  }

  /** There are at most 2^32 ids, and so many only when none is missing. */
  lemma IdsFit(m: Memory)
    requires InRange(m)
    ensures |Ids(m)| <= TWO_32
    ensures |Ids(m)| < TWO_32 <==> !Full(m)
  {
    hide Has;
    forall id | id in Ids(m) ensures id in Range(TWO_32) {
      IdsInRange(m, id);
    }
    Smaller(Ids(m), Range(TWO_32));
    RangeSize(TWO_32);
    if Full(m) {
      forall id | id in Range(TWO_32) ensures id in Ids(m) {
        AllIds(m, id);
      }
      assert Ids(m) == Range(TWO_32);
    } else {
      var id: nat :| id < TWO_32 && !Has(m, id);
      assert id in Range(TWO_32) && id !in Ids(m);
    }
  }

  /** There is a bitmap with every id. */
  lemma FullBitmap() returns (m: Memory)
    ensures Shaped(m) && InRange(m) && Full(m) && |Ids(m)| == TWO_32
  {
    SmallPowers();
    Pow32();
    OnesIs(32);
    var w: ui32 := Ones(32);
    m := seq(PAGES, p => seq(PAGE, i => w));
    forall id: nat | id < TWO_32 ensures Has(m, id) {
      Located(id);
      OnesHasBit(32, id % 32);
      assert id / PER_PAGE < PAGES;
      assert m[id / PER_PAGE][id / 32 % PAGE] == w;
    }
    IdsFit(m);
  }

  lemma {:induction false} OnesHasBit(s: nat, k: nat)
    requires k < s
    ensures Bit(Ones(s), k)
  {
    if k > 0 {
      OnesHasBit(s - 1, k - 1);
      assert Ones(s) / 2 == Ones(s - 1);
    }
  }

  // ---- changing one word ----

  /** `set` grows the directory to two beyond the page and makes the page. */
  function WithPage(m: Memory, elh: nat): (m': Memory)
    ensures elh < |m'|
  {
    var m1 := if elh >= |m| then m + seq(elh + 2 - |m|, i => []) else m;
    if m1[elh] == [] then m1[elh := seq(PAGE, i => 0)] else m1
  }

  function WithWord(m: Memory, elh: nat, i: nat, w: ui32): Memory
    requires elh < |m| && i < |m[elh]|
  {
    var page: seq<ui32> := m[elh][i := w];
    m[elh := page]
  }

  lemma PageChangesNothing(m: Memory, elh: nat, id: nat)
    requires Shaped(m)
    ensures Shaped(WithPage(m, elh)) && |WithPage(m, elh)[elh]| == PAGE
    ensures Has(WithPage(m, elh), id) <==> Has(m, id)
  {
    ZeroBit(id % 32);
  }

  lemma WordChanges(m: Memory, at: nat, w: ui32, id: nat)
    requires Shaped(m) && at / PER_PAGE < |m| && |m[at / PER_PAGE]| == PAGE
    requires var w0 := m[at / PER_PAGE][at / 32 % PAGE];
      forall k: nat | k != at % 32 :: Bit(w, k) <==> Bit(w0, k)
    ensures var m' := WithWord(m, at / PER_PAGE, at / 32 % PAGE, w);
      Shaped(m') && (Has(m', id) <==> if id == at then Bit(w, at % 32) else Has(m, id))
  {
    Located(id);
    Located(at);
  }

  class Bitmap1 {
    var vect: seq<array?<ui32>>

    ghost predicate Valid()
      reads this, vect
    {
      && |vect| <= PAGES + 1 && (|vect| == PAGES + 1 ==> vect[PAGES] == null)
      && (forall p | 0 <= p < |vect| && vect[p] != null :: vect[p].Length == PAGE)
      && (forall p, q | 0 <= p < q < |vect| && vect[p] != null :: vect[p] != vect[q])
    }

    ghost function Now(): Memory
      reads this, vect
    {
      seq(|vect|, p requires 0 <= p < |vect| reads this, vect => if vect[p] == null then [] else vect[p][..])
    }

    constructor ()
      ensures Valid() && vect == [] && forall id :: !Has(Now(), id)
    {
      vect := [];
    }

    lemma NowShaped()
      requires Valid()
      ensures Shaped(Now())
    {
    }

    method Test(id: ui32) returns (r: bool)
      requires Valid()
      ensures r <==> Has(Now(), id)
    {
      var elh := id / PER_PAGE;
      var i := id / 32 % PAGE;
      if elh >= |vect| || vect[elh] == null {
        return false;
      }
      return Bit(vect[elh][i], id % 32);
    }

    /** True if the value changed. */
    method Set(id: ui32) returns (r: bool)
      requires Valid()
      modifies this, vect
      ensures Valid() && forall p | 0 <= p < |vect| && vect[p] != null :: fresh(vect[p]) || vect[p] in old(vect)
      ensures var page := id / 4_194_304;
        && |vect| == (if page < |old(vect)| then |old(vect)| else page + 2)
        && vect[page] != null && vect[page].Length == 131_072
      ensures r <==> !Has(old(Now()), id)
      ensures forall j: nat :: Has(Now(), j) <==> j == id || Has(old(Now()), j)
    {
      hide Bit, Has;
      ghost var was := Now();
      var elh := id / PER_PAGE;
      var i := id / 32 % PAGE;
      NowShaped();
      MakePage(elh);
      forall j ensures Has(Now(), j) <==> Has(was, j) {
        PageChangesNothing(was, elh, j);
      }
      PageChangesNothing(was, elh, id);
      Located(id);
      InWord(Now(), elh, i, id % 32);
      var v := vect[elh];
      assert v[i] == Now()[elh][i];
      if Bit(v[i], id % 32) {
        return false;
      }
      Pow32();
      SetBitFits(v[i], id % 32, 32);
      ghost var paged := Now();
      forall k: nat ensures Bit(v[i] + Pow(2, id % 32), k) <==> k == id % 32 || Bit(v[i], k) {
        SetBitIs(v[i], id % 32, k);
      }
      forall j ensures Has(WithWord(paged, elh, i, v[i] + Pow(2, id % 32)), j) <==> j == id || Has(paged, j) {
        WordChanges(paged, id, v[i] + Pow(2, id % 32), j);
      }
      PutWord(elh, i, v[i] + Pow(2, id % 32));
      r := true;
    }

    method MakePage(elh: nat)
      requires Valid() && elh < PAGES
      modifies this
      ensures Valid() && Now() == WithPage(old(Now()), elh)
      ensures elh < |vect| && vect[elh] != null
      ensures |vect| == if elh < |old(vect)| then |old(vect)| else elh + 2
      ensures forall p | 0 <= p < |vect| && vect[p] != null :: fresh(vect[p]) || vect[p] in old(vect)
    {
      if elh >= |vect| {
        vect := vect + seq(elh + 2 - |vect|, i => null);
      }
      if vect[elh] == null {
        var page := new ui32[PAGE](i => 0);
        assert page[..] == seq(PAGE, i => 0);
        vect := vect[elh := page];
      }
      ghost var m := old(Now());
      ghost var m1 := if elh >= |m| then m + seq(elh + 2 - |m|, i => []) else m;
      assert |Now()| == |m1| && forall p | 0 <= p < |m1| :: p != elh ==> Now()[p] == m1[p];
      assert Now()[elh] == WithPage(m, elh)[elh];
      assert Now() == WithPage(old(Now()), elh);
    }

    method PutWord(elh: nat, i: nat, w: ui32)
      requires Valid() && elh < |vect| && vect[elh] != null && i < PAGE
      modifies vect[elh]
      ensures Valid() && i < |old(Now())[elh]| && Now() == WithWord(old(Now()), elh, i, w)
    {
      vect[elh][i] := w;
      assert Now() == WithWord(old(Now()), elh, i, w);
    }

    /** True if the value changed. */
    method Reset(id: ui32) returns (r: bool)
      requires Valid()
      modifies vect
      ensures Valid() && vect == old(vect)
      ensures r <==> Has(old(Now()), id)
      ensures forall j: nat :: Has(Now(), j) <==> j != id && Has(old(Now()), j)
    {
      var elh := id / PER_PAGE;
      var i := id / 32 % PAGE;
      NowShaped();
      Located(id);
      if elh >= |vect| || vect[elh] == null {
        return false;
      }
      hide Bit, Has;
      var v := vect[elh];
      InWord(Now(), elh, i, id % 32);
      assert v[i] == Now()[elh][i];
      if !Bit(v[i], id % 32) {
        return false;
      }
      ghost var was := Now();
      forall k: nat ensures Cleared(v[i], id % 32) <= v[i]
                    ensures Bit(Cleared(v[i], id % 32), k) <==> k != id % 32 && Bit(v[i], k)
      {
        ClearedIs(v[i], id % 32, k);
      }
      ClearedIs(v[i], id % 32, 0);
      forall j ensures Has(WithWord(was, elh, i, Cleared(v[i], id % 32)), j) <==> j != id && Has(was, j) {
        WordChanges(was, id, Cleared(v[i], id % 32), j);
      }
      PutWord(elh, i, Cleared(v[i], id % 32));
      r := true;
    }

    /** The bits of one page, word by word with shifts and masks. */
    method CountPage(page: nat) returns (k: nat)
      requires Valid() && page < |vect|
      ensures |IdsBelow(Now(), (page + 1) * PER_PAGE)| == |IdsBelow(Now(), page * PER_PAGE)| + k
    {
      hide CountBits, Population, Has;
      k := 0;
      ghost var m := Now();
      var v := vect[page];
      if v == null {
        PageAddsNone(m, page);
        return 0;
      }
      for n: nat := 0 to PAGE
        invariant k + |IdsBelow(m, page * PER_PAGE)| == |IdsBelow(m, IdOf(page, n, 0))|
      {
        WordAdds(m, page, n, 32);
        CountBitsCounts(v[n]);
        assert v[n] == m[page][n] && IdOf(page, n, 32) == IdOf(page, n + 1, 0);
        k := k + CountBits(v[n]);
      }
    }

    lemma NowInRange()
      requires Valid()
      ensures InRange(Now())
    {
    }

    /** All the bits, in a 32-bit counter: their number, unless no id is missing, when it is 0. */
    method Count() returns (cnt: ui32)
      requires Valid()
      ensures cnt == if Full(Now()) then 0 else |Ids(Now())|
      ensures cnt == |Ids(Now())| <==> !Full(Now())
    {
      hide Full, Has, InRange;
      NowInRange();
      IdsFit(Now());
      ghost var total := 0;
      cnt := 0;
      for n := 0 to |vect|
        invariant total == |IdsBelow(Now(), n * PER_PAGE)| && cnt == total % TWO_32
      {
        var k := CountPage(n);
        total := total + k;
        cnt := (cnt + k) % TWO_32;
      }
    }
  }
}
