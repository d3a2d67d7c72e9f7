/** The chunk container (library/chunks): blocks of bytes at aligned offsets, and a footer that
    says where they are. */
module Chunks {
  import opened Wrappers
  import opened Bytes

  // ---- little-endian numbers ----

  function Little(v: nat, n: nat): (bs: seq<byte>)
    ensures |bs| == n
  {
    if n == 0 then [] else [v % 256] + Little(v / 256, n - 1)
  }

  function ReadLittle(data: seq<byte>, p: nat, n: nat): nat
    decreases n
  {
    if n == 0 then 0 else ByteAt(data, p) + 256 * ReadLittle(data, p + 1, n - 1)
  }

  lemma {:induction false} LittleLaw(data: seq<byte>, p: nat, v: nat, n: nat)
    requires StandsAt(data, p, Little(v, n)) && v < Pow(256, n)
    ensures ReadLittle(data, p, n) == v
    decreases n
  {
    if n > 0 {
      StandsAtSplit(data, p, [v % 256], Little(v / 256, n - 1));
      StandsAtByte(data, p, [v % 256], 0);
      LittleLaw(data, p + 1, v / 256, n - 1);
    }
  }

  /** SavePodArray of words of `width` bytes. */
  function PodArray(ws: seq<nat>, width: nat): (bs: seq<byte>)
    ensures |bs| == width * |ws|
  {
    if ws == [] then []
    else
      var n := |ws| - 1;
      assert width * |ws| == width * n + width;
      PodArray(ws[..n], width) + Little(ws[n], width)
  }

  lemma {:induction false} PodArrayLaw(data: seq<byte>, p: nat, ws: seq<nat>, width: nat, i: nat)
    requires StandsAt(data, p, PodArray(ws, width)) && i < |ws| && ws[i] < Pow(256, width)
    ensures ReadLittle(data, p + width * i, width) == ws[i]
  {
    hide Little, ReadLittle, Pow;
    var n := |ws| - 1;
    StandsAtSplit(data, p, PodArray(ws[..n], width), Little(ws[n], width));
    if i < n {
      PodArrayLaw(data, p, ws[..n], width, i);
    } else {
      LittleLaw(data, p + width * n, ws[n], width);
    }
  }

  // ---- what a file is ----

  const VERSION: nat := 1

  function Footer(lengths: seq<nat>, offsets: seq<nat>): seq<byte> {
    PodArray(lengths, 8) + (PodArray(offsets, 8) + (Little(|offsets|, 8) + (Little(VERSION, 8) + Little(0, 8))))
  }

  /** The blocks stand in `data` at their offsets, which are aligned, one behind the other. */
  ghost predicate Laid(data: seq<byte>, offsets: seq<nat>, blocks: seq<seq<byte>>) {
    && |offsets| == |blocks|
    && (forall i | 0 <= i < |blocks| :: offsets[i] % 16 == 0 && StandsAt(data, offsets[i], blocks[i]))
    && (forall i, j | 0 <= i < j < |blocks| :: offsets[i] + |blocks[i]| <= offsets[j])
  }

  /** A finished file: the blocks, and behind them the footer that tells where they are. */
  ghost predicate IsFile(data: seq<byte>, offsets: seq<nat>, blocks: seq<seq<byte>>) {
    exists body :: Laid(body, offsets, blocks) && data == body + Footer(LengthsOf(blocks), offsets)
  }

  function LengthsOf(blocks: seq<seq<byte>>): (lengths: seq<nat>)
    ensures |lengths| == |blocks|
  {
    seq(|blocks|, i requires 0 <= i < |blocks| => |blocks[i]|)
  }

  lemma LaidStays(data: seq<byte>, more: seq<byte>, offsets: seq<nat>, blocks: seq<seq<byte>>)
    requires Laid(data, offsets, blocks)
    ensures Laid(data + more, offsets, blocks)
  {
    forall i | 0 <= i < |blocks| ensures StandsAt(data + more, offsets[i], blocks[i]) {
      assert StandsAt(data, offsets[i], blocks[i]);
    }
  }

  lemma LastLonger(data: seq<byte>, more: seq<byte>, offsets: seq<nat>, blocks: seq<seq<byte>>)
    requires Laid(data, offsets, blocks) && blocks != []
    requires offsets[|blocks| - 1] + |blocks[|blocks| - 1]| == |data|
    ensures Laid(data + more, offsets, blocks[|blocks| - 1 := blocks[|blocks| - 1] + more])
  {
    var n := |blocks| - 1;
    var blocks' := blocks[n := blocks[n] + more];
    forall i | 0 <= i < |blocks| ensures offsets[i] % 16 == 0 && StandsAt(data + more, offsets[i], blocks'[i]) {
      assert StandsAt(data, offsets[i], blocks[i]);
    }
  }

  // ---- the writer ----

  class TChunkedDataWriter {
    var out: seq<byte>
    var offset: nat
    var offsets: seq<nat>
    var lengths: seq<nat>
    ghost var blocks: seq<seq<byte>>

    /** The last block reaches to the end of the file, the lengths of the others are known. */
    ghost predicate Valid()
      reads this
    {
      && offset == |out| && Laid(out, offsets, blocks)
      && (blocks == [] ==> lengths == [])
      && (blocks != [] ==>
           && lengths == LengthsOf(blocks[..|blocks| - 1])
           && offsets[|blocks| - 1] + |blocks[|blocks| - 1]| == |out|)
    }

    constructor ()
      ensures Valid() && blocks == [] && out == []
    {
      out, offset, offsets, lengths, blocks := [], 0, [], [], [];
    }

    /** The fewest bytes that reach the boundary. */
    static function PaddingSize(size: nat, boundary: nat): (n: nat)
      requires boundary > 0
      ensures (size + n) % boundary == 0 && n < boundary
    {
      var boundaryViolation := size % boundary;
      assert boundaryViolation != 0 ==> (size + (boundary - boundaryViolation)) % boundary == 0 by {
        if boundaryViolation != 0 {
          NextMultiple(size, boundary);
        }
      }
      if boundaryViolation == 0 then 0 else boundary - boundaryViolation
    }

    static lemma NextMultiple(size: nat, boundary: nat)
      requires boundary > 0 && size % boundary != 0
      ensures (size + (boundary - size % boundary)) % boundary == 0
    {
      var q := size / boundary + 1;
      assert size + (boundary - size % boundary) == q * boundary + 0;
      RemainderZero(q, boundary);
    }

    static lemma RemainderZero(q: nat, boundary: nat)
      requires boundary > 0
      ensures q * boundary % boundary == 0
    {
      QuotientIs(q * boundary, boundary, q, 0);
    }

    /** Write, which a block is made of. */
    method Write(buf: seq<byte>)
      requires Valid()
      modifies this`out, this`offset, this`blocks
      ensures Valid() && out == old(out) + buf
      ensures blocks == if old(blocks) == [] then [] else
        old(blocks)[|old(blocks)| - 1 := old(blocks)[|old(blocks)| - 1] + buf]
    {
      if blocks != [] {
        LastLonger(out, buf, offsets, blocks);
        var n := |blocks| - 1;
        assert blocks[n := blocks[n] + buf][..n] == blocks[..n];
        blocks := blocks[n := blocks[n] + buf];
      }
      DoWrite(buf);
    }

    /** To the slave stream, counting. */
    method DoWrite(buf: seq<byte>)
      modifies this`out, this`offset
      ensures out == old(out) + buf && offset == old(offset) + |buf|
    {
      out := out + buf;
      offset := offset + |buf|;
    }

    method Pad(boundary: nat)
      requires boundary > 0 && offset == |out|
      modifies this`out, this`offset
      ensures offset == |out|
      ensures out == old(out) + seq(PaddingSize(old(offset), boundary), i => 0)
    {
      var newOffset := offset + PaddingSize(offset, boundary);
      ghost var zeros := [];
      while offset < newOffset
        invariant offset == |out| <= newOffset && out == old(out) + zeros
        invariant |zeros| == offset - old(offset) && forall i | 0 <= i < |zeros| :: zeros[i] == 0
      {
        DoWrite([0]);
        zeros := zeros + [0];
      }
      assert zeros == seq(PaddingSize(old(offset), boundary), i => 0);
    }

    method NewBlock()
      requires Valid()
      modifies this
      ensures Valid() && blocks == old(blocks) + [[]]
    {
      hide Laid, StandsAt, LengthsOf;
      LaidSizes(out, offsets, blocks);
      if |offsets| > 0 {
        lengths := lengths + [offset - offsets[|offsets| - 1]];
      }
      AllLengths(blocks);
      ghost var was := out;
      Pad(16);
      LaidStays(was, seq(PaddingSize(|was|, 16), i => 0), offsets, blocks);
      NewLast(out, offsets, blocks, |was|);
      offsets := offsets + [offset];
      assert (blocks + [[]])[..|blocks|] == blocks;
      blocks := blocks + [[]];
      NoLengths();
    }

    lemma NoLengths()
      ensures LengthsOf([]) == []
    {
    }

    lemma LaidSizes(data: seq<byte>, offs: seq<nat>, bs: seq<seq<byte>>)
      requires Laid(data, offs, bs)
      ensures |offs| == |bs|
    {
    }

    lemma NewLast(data: seq<byte>, offs: seq<nat>, bs: seq<seq<byte>>, end: nat)
      requires Laid(data, offs, bs) && |data| % 16 == 0 && end <= |data|
      requires bs != [] ==> offs[|bs| - 1] + |bs[|bs| - 1]| == end
      ensures Laid(data, offs + [|data|], bs + [[]])
    {
      var bs', offs' := bs + [[]], offs + [|data|];
      forall i, j | 0 <= i < j < |bs'| ensures offs'[i] + |bs'[i]| <= offs'[j] {
        if j == |bs| && i < |bs| - 1 {
          assert offs[i] + |bs[i]| <= offs[|bs| - 1];
        }
      }
    }

    lemma AllLengths(bs: seq<seq<byte>>)
      ensures bs != [] ==> LengthsOf(bs) == LengthsOf(bs[..|bs| - 1]) + [|bs[|bs| - 1]|]
    {
    }

    /** The last length, then the two arrays and the three words that end the file. */
    method WriteFooter()
      requires Valid() && blocks != []
      modifies this
      ensures out == old(out) + Footer(LengthsOf(old(blocks)), offsets)
      ensures offsets == old(offsets) && lengths == LengthsOf(old(blocks)) && blocks == old(blocks)
      ensures IsFile(out, offsets, blocks)
    {
      hide PodArray, Little;
      AllLengths(blocks);
      lengths := lengths + [offset - offsets[|offsets| - 1]];
      DoWrite(PodArray(lengths, 8));
      DoWrite(PodArray(offsets, 8));
      DoWrite(Little(|offsets|, 8));
      DoWrite(Little(VERSION, 8));
      DoWrite(Little(0, 8));
    }
  }

  // ---- the reader ----

  datatype Reader = Reader(version: nat, offsets: seq<nat>, lengths: seq<nat>, size: nat)

  datatype Failure = EmptyFile | InvalidVersion

  datatype Opened = Opened(reader: Reader) | Failed(why: Failure)

  /** `n` numbers of `width` bytes from `p` on. */
  function ReadArray(data: seq<byte>, p: nat, width: nat, n: nat): (ws: seq<nat>)
    ensures |ws| == n
  {
    if n == 0 then [] else ReadArray(data, p, width, n - 1) + [ReadLittle(data, p + width * (n - 1), width)]
  }

  function Minus(a: nat, b: nat): nat {
    if a >= b then a - b else 0
  }

  /** The footer decoded. Old files have four-byte offsets, their count last and no lengths. */
  function Decoded(data: seq<byte>): Opened {
    var size := |data|;
    if size < 4 then Failed(EmptyFile)
    else
      var last := ReadLittle(data, size - 4, 4);
      if last != 0 then
        var aux := Minus(size, 4 * (last + 1));
        Opened(Reader(0, ReadArray(data, aux, 4, last), [], aux))
      else
        var version := ReadLittle(data, Minus(size, 16), 8);
        if version == 0 then Failed(InvalidVersion)
        else
          var count := ReadLittle(data, Minus(size, 24), 8);
          var aux := Minus(size, 8 * (count + 3));
          Opened(Reader(version, ReadArray(data, aux, 8, count), ReadArray(data, Minus(aux, 8 * count), 8, count), 0))
  }

  method ReadAux(data: seq<byte>, p: nat, width: nat, count: nat) returns (result: seq<nat>)
    ensures result == ReadArray(data, p, width, count)
  {
    result := [];
    for i := 0 to count
      invariant result == ReadArray(data, p, width, i)
    {
      result := result + [ReadLittle(data, p + width * i, width)];
    }
  }

  /** The reader's constructor. */
  method Open(data: seq<byte>) returns (r: Opened)
    ensures r == Decoded(data)
  {
    hide ReadLittle, ReadArray;
    var size := |data|;
    if size < 4 {
      return Failed(EmptyFile);
    }
    var last := ReadLittle(data, size - 4, 4);
    if last != 0 {
      var aux := Minus(size, 4 * (last + 1));
      var offsets := ReadAux(data, aux, 4, last);
      return Opened(Reader(0, offsets, [], aux));
    }
    var version := ReadLittle(data, Minus(size, 16), 8);
    if version == 0 {
      return Failed(InvalidVersion);
    }
    var count := ReadLittle(data, Minus(size, 24), 8);
    var aux := Minus(size, 8 * (count + 3));
    var offsets := ReadAux(data, aux, 8, count);
    aux := Minus(aux, 8 * count);
    var lengths := ReadAux(data, aux, 8, count);
    return Opened(Reader(version, offsets, lengths, 0));
  }

  /** GetBlockLen, or none for an index that is too large. */
  function GetBlockLen(r: Reader, index: nat): Option<nat> {
    if index >= |r.offsets| then None
    else if r.version == 0 then
      if index + 1 < |r.offsets| then Some(Minus(r.offsets[index + 1], r.offsets[index]))
      else Some(Minus(r.size, Minus(r.offsets[|r.offsets| - 1], r.offsets[0])))
    else if index < |r.lengths| then Some(r.lengths[index])
    else None
  }

  /** The bytes of a block, from GetBlock on for GetBlockLen. */
  function GetBlock(data: seq<byte>, r: Reader, index: nat): Option<seq<byte>> {
    match GetBlockLen(r, index)
    case None => None
    case Some(n) =>
      var p := r.offsets[index];
      if p + n <= |data| then Some(data[p..p + n]) else None
  }

  // ---- reading what was written ----

  lemma {:induction false} ReadArrayIs(data: seq<byte>, p: nat, ws: seq<nat>, width: nat, n: nat)
    requires StandsAt(data, p, PodArray(ws, width)) && n <= |ws|
    requires forall i | 0 <= i < |ws| :: ws[i] < Pow(256, width)
    ensures ReadArray(data, p, width, n) == ws[..n]
  {
    hide ReadLittle, PodArray, Pow;
    if n > 0 {
      ReadArrayIs(data, p, ws, width, n - 1);
      PodArrayLaw(data, p, ws, width, n - 1);
      assert ws[..n] == ws[..n - 1] + [ws[n - 1]];
    }
  }

  lemma Behind(body: seq<byte>, rest: seq<byte>)
    ensures StandsAt(body + rest, |body|, rest)
  {
  }

  lemma LastFourZero(data: seq<byte>, p: nat)
    requires StandsAt(data, p, Little(0, 8)) && |data| == p + 8
    ensures ReadLittle(data, |data| - 4, 4) == 0
  {
    hide Little, ReadLittle, Pow;
    EightZeros();
    StandsAtSplit(data, p, Little(0, 4), Little(0, 4));
    SmallPowers();
    LittleLaw(data, p + 4, 0, 4);
  }

  lemma EightZeros()
    ensures Little(0, 8) == Little(0, 4) + Little(0, 4)
  {
    assert Little(0, 5) == [0] + Little(0, 4);
    assert Little(0, 6) == [0, 0] + Little(0, 4);
    assert Little(0, 7) == [0, 0, 0] + Little(0, 4);
    assert Little(0, 8) == [0, 0, 0, 0] + Little(0, 4);
    assert Little(0, 1) == [0];
    assert Little(0, 2) == [0, 0];
    assert Little(0, 3) == [0, 0, 0];
    assert Little(0, 4) == [0, 0, 0, 0];
  }

  lemma SmallPowers()
    ensures Pow(256, 4) > 1 && Pow(256, 8) > 1
  {
    assert Pow(256, 3) > 0 && Pow(256, 7) > 0;
  }

  /** Where the parts of the footer stand. */
  lemma FooterStands(body: seq<byte>, lengths: seq<nat>, offsets: seq<nat>)
    requires |lengths| == |offsets|
    ensures var data, n := body + Footer(lengths, offsets), |offsets|;
      && |data| == |body| + 16 * n + 24
      && StandsAt(data, |body|, PodArray(lengths, 8)) && StandsAt(data, |body| + 8 * n, PodArray(offsets, 8))
      && StandsAt(data, |data| - 24, Little(n, 8)) && StandsAt(data, |data| - 16, Little(VERSION, 8))
      && StandsAt(data, |data| - 8, Little(0, 8))
  {
    hide PodArray, Little, StandsAt;
    FiveParts(body, PodArray(lengths, 8), PodArray(offsets, 8), Little(|offsets|, 8), Little(VERSION, 8), Little(0, 8));
  }

  lemma FiveParts(body: seq<byte>, a: seq<byte>, b: seq<byte>, c: seq<byte>, d: seq<byte>, e: seq<byte>)
    ensures var data := body + (a + (b + (c + (d + e))));
      var p := |body|;
      && |data| == p + |a| + |b| + |c| + |d| + |e|
      && StandsAt(data, p, a) && StandsAt(data, p + |a|, b) && StandsAt(data, p + |a| + |b|, c)
      && StandsAt(data, p + |a| + |b| + |c|, d) && StandsAt(data, p + |a| + |b| + |c| + |d|, e)
  {
    hide StandsAt;
    var data := body + (a + (b + (c + (d + e))));
    var p := |body|;
    var rest := c + (d + e);
    Behind(body, a + (b + rest));
    ThreeParts(data, p, a, b, rest);
    ThreeParts(data, p + |a| + |b|, c, d, e);
  }

  lemma ThreeParts(data: seq<byte>, p: nat, a: seq<byte>, b: seq<byte>, c: seq<byte>)
    requires StandsAt(data, p, a + (b + c))
    ensures StandsAt(data, p, a) && StandsAt(data, p + |a|, b) && StandsAt(data, p + |a| + |b|, c)
  {
    hide StandsAt;
    StandsAtSplit(data, p, a, b + c);
    StandsAtSplit(data, p + |a|, b, c);
  }

  /** The footer gives back the offsets and the lengths. */
  lemma FooterLaw(body: seq<byte>, lengths: seq<nat>, offsets: seq<nat>)
    requires |lengths| == |offsets| < Pow(256, 8)
    requires forall i | 0 <= i < |offsets| :: offsets[i] < Pow(256, 8) && lengths[i] < Pow(256, 8)
    ensures Decoded(body + Footer(lengths, offsets)) == Opened(Reader(VERSION, offsets, lengths, 0))
  {
    hide PodArray, Little, ReadLittle, ReadArray, Footer, Pow;
    var data, n := body + Footer(lengths, offsets), |offsets|;
    FooterStands(body, lengths, offsets);
    SmallPowers();
    LastFourZero(data, |data| - 8);
    LittleLaw(data, |data| - 16, VERSION, 8);
    LittleLaw(data, |data| - 24, n, 8);
    ReadArrayIs(data, |body| + 8 * n, offsets, 8, n);
    ReadArrayIs(data, |body|, lengths, 8, n);
    assert offsets[..n] == offsets && lengths[..n] == lengths;
  }

  /** Every block of a finished file is read back with its exact bytes, and no others are. */
  lemma BlocksReadBack(data: seq<byte>, offsets: seq<nat>, blocks: seq<seq<byte>>, index: nat)
    requires IsFile(data, offsets, blocks) && |data| < Pow(256, 8)
    ensures Decoded(data).Opened?
    ensures var r := Decoded(data).reader;
      && |r.offsets| == |blocks|
      && GetBlock(data, r, index) == (if index < |blocks| then Some(blocks[index]) else None)
      && (index < |blocks| ==> r.offsets[index] % 16 == 0 && GetBlockLen(r, index) == Some(|blocks[index]|))
  {
    hide PodArray, Little, Footer, Decoded, Pow;
    var lengths := LengthsOf(blocks);
    var body :| Laid(body, offsets, blocks) && data == body + Footer(lengths, offsets);
    FooterStands(body, lengths, offsets);
    forall i | 0 <= i < |offsets| ensures offsets[i] < Pow(256, 8) && lengths[i] < Pow(256, 8) {
      assert StandsAt(body, offsets[i], blocks[i]);
    }
    FooterLaw(body, lengths, offsets);
    LaidStays(body, Footer(lengths, offsets), offsets, blocks);
    if index < |blocks| {
      assert StandsAt(data, offsets[index], blocks[index]);
      assert data[offsets[index]..offsets[index] + |blocks[index]|] == blocks[index];
    }
  }

  /** Where the numbers of the footer stand, counted from the end of the file. */
  lemma FooterPlaces(body: seq<byte>, lengths: seq<nat>, offsets: seq<nat>, i: nat)
    requires |lengths| == |offsets| < Pow(256, 8)
    requires forall i | 0 <= i < |offsets| :: offsets[i] < Pow(256, 8) && lengths[i] < Pow(256, 8)
    ensures var data, n := body + Footer(lengths, offsets), |offsets|;
      && |data| == |body| + 8 * n + 8 * n + 8 + 8 + 8
      && data[..|body|] == body
      && ReadLittle(data, |data| - 8, 8) == 0
      && ReadLittle(data, |data| - 16, 8) == 1
      && ReadLittle(data, |data| - 24, 8) == n
      && (i < n ==> ReadLittle(data, |data| - 24 - 8 * n + 8 * i, 8) == offsets[i])
      && (i < n ==> ReadLittle(data, |data| - 24 - 16 * n + 8 * i, 8) == lengths[i])
  {
    hide PodArray, Little, ReadLittle, Footer, Pow;
    var data, n := body + Footer(lengths, offsets), |offsets|;
    FooterStands(body, lengths, offsets);
    SmallPowers();
    LittleLaw(data, |data| - 8, 0, 8);
    LittleLaw(data, |data| - 16, VERSION, 8);
    LittleLaw(data, |data| - 24, n, 8);
    if i < n {
      PodArrayLaw(data, |body| + 8 * n, offsets, 8, i);
      PodArrayLaw(data, |body|, lengths, 8, i);
    }
  }

  // ---- files of the old version ----

  /** The blocks reach from one offset to the next, the last one to `size`. */
  ghost predicate OldLaid(data: seq<byte>, offsets: seq<nat>, blocks: seq<seq<byte>>, size: nat) {
    && |offsets| == |blocks| > 0
    && forall i | 0 <= i < |blocks| ::
         && StandsAt(data, offsets[i], blocks[i])
         && offsets[i] + |blocks[i]| == if i + 1 < |blocks| then offsets[i + 1] else size
  }

  /** Behind the blocks their offsets and how many they are, in words of four bytes. */
  ghost predicate IsOldFile(data: seq<byte>, offsets: seq<nat>, blocks: seq<seq<byte>>) {
    exists body ::
      OldLaid(body, offsets, blocks, |body|) && data == body + (PodArray(offsets, 4) + Little(|offsets|, 4))
  }

  /** Of an old file every block is read back but the last, which is exactly if the first one
      begins the file: otherwise its length is told too great by the first offset. */
  lemma OldBlocksReadBack(data: seq<byte>, offsets: seq<nat>, blocks: seq<seq<byte>>, index: nat)
    requires IsOldFile(data, offsets, blocks) && |data| < Pow(256, 4)
    ensures Decoded(data) == Opened(Reader(0, offsets, [], |data| - 4 * |offsets| - 4))
    ensures var r, n := Decoded(data).reader, |blocks|;
      && (index + 1 < n ==> GetBlock(data, r, index) == Some(blocks[index]))
      && (index >= n ==> GetBlock(data, r, index) == None)
      && GetBlockLen(r, n - 1) == Some(|blocks[n - 1]| + offsets[0])
      && (GetBlock(data, r, n - 1) == Some(blocks[n - 1]) <==> offsets[0] == 0)
  {
    hide PodArray, Little, Decoded, Pow, StandsAt, OldLaid;
    var n := |blocks|;
    var body :| OldLaid(body, offsets, blocks, |body|) && data == body + (PodArray(offsets, 4) + Little(|offsets|, 4));
    OldSizes(body, offsets, blocks, |body|);
    OldFooter(body, offsets, blocks);
    OldAscend(offsets, blocks, |body|, body, n - 1);
    OldEnds(body, offsets, blocks, |body|, n - 1);
    StoodAt(body, data, offsets[n - 1], blocks[n - 1]);
    var r := Decoded(data).reader;
    assert var b := GetBlock(data, r, n - 1); b.Some? ==> |b.value| == |blocks[n - 1]| + offsets[0];
    if index + 1 < n {
      OldEnds(body, offsets, blocks, |body|, index);
      StoodAt(body, data, offsets[index], blocks[index]);
    }
  }

  lemma OldSizes(data: seq<byte>, offsets: seq<nat>, blocks: seq<seq<byte>>, size: nat)
    requires OldLaid(data, offsets, blocks, size)
    ensures |offsets| == |blocks| > 0
  {
  }

  lemma OldEnds(data: seq<byte>, offsets: seq<nat>, blocks: seq<seq<byte>>, size: nat, i: nat)
    requires OldLaid(data, offsets, blocks, size) && i < |blocks|
    ensures StandsAt(data, offsets[i], blocks[i])
    ensures offsets[i] + |blocks[i]| == if i + 1 < |blocks| then offsets[i + 1] else size
  {
  }

  lemma StoodAt(body: seq<byte>, data: seq<byte>, p: nat, block: seq<byte>)
    requires StandsAt(body, p, block) && body <= data
    ensures p + |block| <= |data| && data[p..p + |block|] == block
  {
  }

  lemma OldFooter(body: seq<byte>, offsets: seq<nat>, blocks: seq<seq<byte>>)
    requires OldLaid(body, offsets, blocks, |body|)
    requires |body| + 4 * |offsets| + 4 < Pow(256, 4)
    ensures var data := body + (PodArray(offsets, 4) + Little(|offsets|, 4));
      |data| == |body| + 4 * |offsets| + 4 && Decoded(data) == Opened(Reader(0, offsets, [], |body|))
  {
    hide PodArray, Little, ReadLittle, ReadArray, Pow;
    var n := |offsets|;
    var data := body + (PodArray(offsets, 4) + Little(n, 4));
    Behind(body, PodArray(offsets, 4) + Little(n, 4));
    StandsAtSplit(data, |body|, PodArray(offsets, 4), Little(n, 4));
    LittleLaw(data, |data| - 4, n, 4);
    forall i | 0 <= i < n ensures offsets[i] < Pow(256, 4) {
      assert StandsAt(body, offsets[i], blocks[i]);
    }
    ReadArrayIs(data, |body|, offsets, 4, n);
    assert offsets[..n] == offsets;
  }

  lemma {:induction false} OldAscend(offsets: seq<nat>, blocks: seq<seq<byte>>, size: nat, data: seq<byte>, i: nat)
    requires OldLaid(data, offsets, blocks, size) && i < |offsets|
    ensures offsets[0] <= offsets[i]
  {
    if i > 0 {
      OldAscend(offsets, blocks, size, data, i - 1);
      assert offsets[i - 1] + |blocks[i - 1]| == offsets[i];
    }
  }
}
