/** The iterator of the paged bitmap: it visits exactly the ids in the bitmap, in order. */
module BitmapIterator {
  import opened Words
  import opened Bitmap

  lemma NoneJoined(m: Memory, a: nat, b: nat, c: nat)
    requires NoneIn(m, a, b) && NoneIn(m, b, c)
    ensures NoneIn(m, a, c)
  {
  }

  lemma NoneBeyond(m: Memory, id: nat)
    requires id >= |m| * PER_PAGE
    ensures !Has(m, id)
  {
    assert id / PER_PAGE >= |m|;
  }

  class Bitmap1Iterator {
    const v: Bitmap1
    const numPages: nat
    var doc: nat
    var curPage: int  // -1 before the first page
    var pptr: nat
    var curMask: nat

    /** What is left of the word around `doc`, from `doc` on. */
    ghost predicate Standing()
      reads this, v, v.vect
    {
      var m := v.Now();
      && v.Valid() && numPages == |m|
      && 0 <= curPage < numPages && |m[curPage]| == PAGE && pptr < PAGE
      && IdOf(curPage, pptr, 0) <= doc < IdOf(curPage, pptr, 32)
      && curMask == Shr(m[curPage][pptr], doc - IdOf(curPage, pptr, 0))
    }

    ghost predicate AtEnd()
      reads this, v, v.vect
    {
      v.Valid() && numPages == |v.Now()| && curPage == numPages
    }

    function Eof(): bool
      reads this
    {
      curPage == numPages
    }

    /** `doc` is the first id from `from` on, or there is none and the iterator is at the end. */
    ghost predicate FirstFrom(from: nat)
      reads this, v, v.vect
    {
      if Eof() then AtEnd() && NoneIn(v.Now(), from, numPages * PER_PAGE)
      else Standing() && curMask % 2 == 1 && from <= doc && Has(v.Now(), doc) && NoneIn(v.Now(), from, doc)
    }

    lemma FirstIs(from: nat)
      requires FirstFrom(from)
      ensures if Eof() then NoneIn(v.Now(), from, |v.Now()| * PER_PAGE)
              else Standing() && curMask != 0 && from <= doc && Has(v.Now(), doc) && NoneIn(v.Now(), from, doc)
    {
      hide Has, NoneIn;
      v.NowShaped();
    }

    constructor (b: Bitmap1)
      requires b.Valid()
      ensures v == b && FirstFrom(0)
    {
      v, doc, curPage, numPages, pptr, curMask := b, 0, -1, |b.vect|, 0, 0;
      new;
      b.NowShaped();
      var more := NextPage();
      if more {
        HereIs();
        if curMask % 2 != 1 {
          ghost var base := doc;
          more := Advance();
          FromBefore(0, base);
        }
      }
    }

    /** On to the first page after this one that has a word with a bit in it. */
    method NextPage() returns (found: bool)
      requires v.Valid() && numPages == |v.Now()| && -1 <= curPage < numPages
      modifies this
      ensures found <==> !Eof()
      ensures found ==> Standing() && doc == IdOf(curPage, pptr, 0) && curMask != 0
      ensures found ==> (old(curPage) + 1) * PER_PAGE <= doc && NoneIn(v.Now(), (old(curPage) + 1) * PER_PAGE, doc)
      ensures !found ==> AtEnd() && NoneIn(v.Now(), (old(curPage) + 1) * PER_PAGE, numPages * PER_PAGE)
    {
      hide Has, Shr;
      v.NowShaped();
      ghost var m, from := v.Now(), curPage + 1;
      curPage := curPage + 1;
      while true
        invariant from <= curPage <= numPages
        invariant NoneIn(m, from * PER_PAGE, curPage * PER_PAGE)
        decreases numPages - curPage
      {
        while curPage < numPages && v.vect[curPage] == null
          invariant from <= curPage <= numPages
          invariant NoneIn(m, from * PER_PAGE, curPage * PER_PAGE)
        {
          NoneInMissingPage(m, curPage);
          NoneJoined(m, from * PER_PAGE, curPage * PER_PAGE, (curPage + 1) * PER_PAGE);
          curPage := curPage + 1;
        }
        if curPage == numPages {
          return false;
        }
        SkipZeroWords(0);
        assert m[curPage] == v.vect[curPage][..];
        NoneJoined(m, from * PER_PAGE, curPage * PER_PAGE, IdOf(curPage, pptr, 0));
        if pptr < PAGE {
          doc := curPage * PER_PAGE + pptr * 32;
          curMask := v.vect[curPage][pptr];
          ShrNone(curMask);
          return true;
        }
        curPage := curPage + 1;
      }
    }

    lemma ShrNone(w: nat)
      ensures Shr(w, 0) == w
    {
    }

    /** `pptr` to the next word of the page that is not zero, from word `i`. */
    method SkipZeroWords(i: nat)
      requires v.Valid() && 0 <= curPage < |v.vect| && v.vect[curPage] != null && i <= PAGE
      modifies this`pptr
      ensures i <= pptr <= PAGE && (pptr < PAGE ==> v.vect[curPage][pptr] != 0)
      ensures NoneIn(v.Now(), IdOf(curPage, i, 0), IdOf(curPage, pptr, 0))
    {
      hide Has;
      ghost var m := v.Now();
      pptr := i;
      while pptr < PAGE && v.vect[curPage][pptr] == 0
        invariant i <= pptr <= PAGE
        invariant NoneIn(m, IdOf(curPage, i, 0), IdOf(curPage, pptr, 0))
      {
        assert m[curPage][pptr] == v.vect[curPage][pptr];
        NoneInZeroWord(m, curPage, pptr);
        assert IdOf(curPage, pptr, 32) == IdOf(curPage, pptr + 1, 0);
        NoneJoined(m, IdOf(curPage, i, 0), IdOf(curPage, pptr, 0), IdOf(curPage, pptr + 1, 0));
        pptr := pptr + 1;
      }
    }

    /** The low bit left is the bit of `doc`, and with nothing left the rest of the word is empty. */
    lemma HereIs()
      requires Standing()
      ensures curMask % 2 == 1 <==> Has(v.Now(), doc)
      ensures curMask / 2 == 0 ==> NoneIn(v.Now(), doc + 1, IdOf(curPage, pptr, 32))
      ensures curMask == 0 ==> !Has(v.Now(), doc)
    {
      hide Has, Bit;
      var m, s := v.Now(), doc - IdOf(curPage, pptr, 0);
      var w := m[curPage][pptr];
      InWord(m, curPage, pptr, s);
      ShrBit(w, s);
      if curMask / 2 == 0 {
        forall k: nat | s + 1 <= k < 32 ensures !Bit(w, k) {
          ShrZero(w, s + 1, k);
        }
        NoneInWord(m, curPage, pptr, s + 1);
      }
    }

    lemma FromBefore(a: nat, b: nat)
      requires FirstFrom(b + 1) && a <= b && NoneIn(v.Now(), a, b) && !Has(v.Now(), b)
      ensures FirstFrom(a)
    {
      hide Has, Standing;
      NoneJoined(v.Now(), a, b, b + 1);
      if Eof() {
        NoneJoined(v.Now(), a, b + 1, numPages * PER_PAGE);
      } else {
        NoneJoined(v.Now(), a, b + 1, doc);
      }
    }

    /** operator++. */
    method Advance() returns (more: bool)
      requires Standing() && curMask != 0
      modifies this
      ensures FirstFrom(old(doc) + 1) && more == !Eof()
    {
      hide Has, Bit, Shr;
      HereIs();
      ghost var m, from := v.Now(), doc + 1;
      Shifted();
      curMask := curMask / 2;
      doc := doc + 1;
      if curMask == 0 {
        doc := (doc + 31) / 32 * 32;
        RoundedUp(curPage, pptr, from, doc);
        pptr := pptr + 1;
        more := NextWord(from);
        if !more {
          return;
        }
      }
      FindBit(from);
      more := true;
    }

    /** One shift more takes the word on to the next id, while there is something left. */
    lemma Shifted()
      requires Standing()
      ensures var s := doc - IdOf(curPage, pptr, 0); var w := v.Now()[curPage][pptr];
        && curMask / 2 == Shr(w, s + 1)
        && (curMask / 2 != 0 ==> s + 1 < 32)
    {
      var s := doc - IdOf(curPage, pptr, 0);
      var w := v.Now()[curPage][pptr];
      ShrBit(w, s);
      ShrOfWord(w);
    }

    lemma RoundedUp(p: nat, i: nat, from: nat, doc: nat)
      requires IdOf(p, i, 0) < from <= IdOf(p, i, 32) && doc == (from + 31) / 32 * 32
      ensures doc == IdOf(p, i, 32) == IdOf(p, i + 1, 0)
    {
      var q := p * 131072 + i;
      assert IdOf(p, i, 0) == 32 * q;
      assert (from + 31) / 32 == q + 1;
    }

    /** The next word that is not zero, in this page or in one behind it. */
    method NextWord(ghost from: nat) returns (found: bool)
      requires v.Valid() && numPages == |v.Now()| && 0 <= curPage < numPages && |v.Now()[curPage]| == PAGE
      requires 0 < pptr <= PAGE && doc == IdOf(curPage, pptr, 0) && from <= doc && NoneIn(v.Now(), from, doc)
      modifies this
      ensures found <==> !Eof()
      ensures found ==> Standing() && curMask != 0 && from <= doc && NoneIn(v.Now(), from, doc)
      ensures !found ==> AtEnd() && NoneIn(v.Now(), from, numPages * PER_PAGE)
    {
      hide Has, Bit, Shr;
      ghost var m := v.Now();
      while pptr < PAGE && v.vect[curPage][pptr] == 0
        invariant curPage == old(curPage) && 0 < pptr <= PAGE && doc == IdOf(curPage, pptr, 0) && from <= doc
        invariant NoneIn(m, from, doc)
      {
        assert m[curPage][pptr] == v.vect[curPage][pptr];
        NoneInZeroWord(m, curPage, pptr);
        assert IdOf(curPage, pptr, 32) == IdOf(curPage, pptr + 1, 0);
        NoneJoined(m, from, doc, IdOf(curPage, pptr, 32));
        pptr, doc := pptr + 1, doc + 32;
      }
      if pptr == PAGE {
        ghost var end := (curPage + 1) * PER_PAGE;
        assert doc == end;
        found := NextPage();
        NoneJoined(m, from, end, if found then doc else numPages * PER_PAGE);
      } else {
        curMask := v.vect[curPage][pptr];
        ShrNone(curMask);
        assert m[curPage][pptr] == v.vect[curPage][pptr];
        found := true;
      }
    }

    /** On to the lowest bit left in the word. */
    method FindBit(ghost from: nat)
      requires Standing() && curMask != 0 && from <= doc && NoneIn(v.Now(), from, doc)
      modifies this`doc, this`curMask
      ensures FirstFrom(from) && !Eof()
    {
      hide Has, Bit, Shr;
      while true
        invariant Standing() && curMask != 0 && from <= doc && NoneIn(v.Now(), from, doc)
        decreases curMask
      {
        HereIs();
        if curMask % 2 == 1 {
          return;
        }
        Shifted();
        NoneJoined(v.Now(), from, doc, doc + 1);
        curMask := curMask / 2;
        doc := doc + 1;
      }
    }
  }

  /** The ids below `from`, in ascending order. */
  ghost predicate Collected(m: Memory, docs: seq<nat>, from: nat) {
    && (forall i, j | 0 <= i < j < |docs| :: docs[i] < docs[j])
    && (forall i | 0 <= i < |docs| :: docs[i] < from)
    && forall id: nat | id < from :: id in docs <==> Has(m, id)
  }

  lemma CollectOne(m: Memory, docs: seq<nat>, from: nat, doc: nat)
    requires Collected(m, docs, from) && from <= doc && Has(m, doc) && NoneIn(m, from, doc)
    ensures Collected(m, docs + [doc], doc + 1)
  {
    hide Has;
    forall id: nat | id < doc + 1 ensures id in docs + [doc] <==> Has(m, id) {}
  }

  /** What a loop over the iterator sees: every id of the bitmap once, in ascending order. */
  method Visit(b: Bitmap1) returns (docs: seq<nat>)
    requires b.Valid()
    ensures forall i, j | 0 <= i < j < |docs| :: docs[i] < docs[j]
    ensures forall id: nat :: id in docs <==> Has(b.Now(), id)
  {
    hide Has, Collected, NoneIn, Bitmap1Iterator.FirstFrom, Bitmap1Iterator.Standing;
    var it := new Bitmap1Iterator(b);
    ghost var m, from := b.Now(), 0;
    docs := [];
    NothingCollected(m);
    while !it.Eof()
      invariant it.v == b && fresh(it) && it.FirstFrom(from) && b.Now() == m
      invariant Collected(m, docs, from)
      decreases |m| * PER_PAGE - from, if it.Eof() then 0 else 1
    {
      it.FirstIs(from);
      BelowPages(m, it.doc);
      CollectOne(m, docs, from, it.doc);
      docs := docs + [it.doc];
      from := it.doc + 1;
      var _ := it.Advance();
    }
    it.FirstIs(from);
    AllCollected(m, docs, from);
  }

  lemma NothingCollected(m: Memory)
    ensures Collected(m, [], 0)
  {
  }

  lemma AllCollected(m: Memory, docs: seq<nat>, from: nat)
    requires Collected(m, docs, from) && NoneIn(m, from, |m| * PER_PAGE)
    ensures forall i, j | 0 <= i < j < |docs| :: docs[i] < docs[j]
    ensures forall id: nat :: id in docs <==> Has(m, id)
  {
    hide Has;
    forall id: nat ensures id in docs <==> Has(m, id) {
      if id >= |m| * PER_PAGE {
        NoneBeyond(m, id);
      }
    }
  }

  lemma BelowPages(m: Memory, id: nat)
    requires Has(m, id)
    ensures id < |m| * PER_PAGE
  {
    assert id < (id / PER_PAGE + 1) * PER_PAGE;
  }

  /** The count is the number of ids visited, unless all are. */
  method VisitAndCount(b: Bitmap1) returns (docs: seq<nat>, cnt: ui32)
    requires b.Valid()
    ensures cnt == if Full(b.Now()) then 0 else |docs|
    ensures cnt == |docs| <==> !Full(b.Now())
  {
    hide Full;
    docs := Visit(b);
    cnt := b.Count();
    hide Has;
    forall id: nat ensures id in docs <==> id in Ids(b.Now()) {
      if Has(b.Now(), id) {
        BelowPages(b.Now(), id);
      }
    }
    CountVisited(docs, Ids(b.Now()));
  }

  lemma {:induction false} CountVisited(docs: seq<nat>, ids: set<nat>)
    requires forall i, j | 0 <= i < j < |docs| :: docs[i] < docs[j]
    requires forall id: nat :: id in docs <==> id in ids
    ensures |docs| == |ids|
  {
    if docs == [] {
      assert ids == {};
    } else {
      var n := |docs| - 1;
      assert forall id: nat :: id in docs[..n] <==> id in ids - {docs[n]};
      CountVisited(docs[..n], ids - {docs[n]});
    }
  }

  // ---- histories ----

  /** A call of `set`, or of `reset`. */
  datatype Call = Set(id: ui32) | Reset(id: ui32)

  /** Whether the last call for an id was `set`. */
  predicate IsIn(calls: seq<Call>, id: nat) {
    if calls == [] then false
    else
      var last := calls[|calls| - 1];
      if last.id == id then last.Set? else IsIn(calls[..|calls| - 1], id)
  }

  /** After any calls the iterator visits exactly the ids whose last call was `set`, in order;
      each call said whether it changed something. */
  method Replay(calls: seq<Call>) returns (docs: seq<nat>, changed: seq<bool>)
    ensures forall i, j | 0 <= i < j < |docs| :: docs[i] < docs[j]
    ensures forall id: nat :: id in docs <==> IsIn(calls, id)
    ensures |changed| == |calls|
    ensures forall k | 0 <= k < |calls| :: changed[k] == (IsIn(calls[..k], calls[k].id) != calls[k].Set?)
  {
    hide Has;
    var b := new Bitmap1();
    changed := [];
    for n := 0 to |calls|
      invariant fresh(b) && b.Valid() && forall p | 0 <= p < |b.vect| && b.vect[p] != null :: fresh(b.vect[p])
      invariant forall id: nat :: Has(b.Now(), id) <==> IsIn(calls[..n], id)
      invariant |changed| == n
      invariant forall k | 0 <= k < n :: changed[k] == (IsIn(calls[..k], calls[k].id) != calls[k].Set?)
    {
      var r := Apply(b, calls[n]);
      changed := changed + [r];
      assert calls[..n + 1][..n] == calls[..n];
    }
    assert calls[..|calls|] == calls;
    docs := Visit(b);
  }

  method Apply(b: Bitmap1, call: Call) returns (r: bool)
    requires b.Valid()
    modifies b, b.vect
    ensures b.Valid() && forall p | 0 <= p < |b.vect| && b.vect[p] != null ::
      fresh(b.vect[p]) || b.vect[p] in old(b.vect)
    ensures r == (Has(old(b.Now()), call.id) != call.Set?)
    ensures forall id: nat :: Has(b.Now(), id) <==> if id == call.id then call.Set? else Has(old(b.Now()), id)
  {
    hide Has;
    match call
    case Set(id) => r := b.Set(id);
    case Reset(id) => r := b.Reset(id);
  }
}
