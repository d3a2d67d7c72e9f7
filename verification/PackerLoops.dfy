/** The packers as the original writes them: loops over a char buffer, recursion over the
    packer type. Each is proved against the function of module Packers of the same meaning. */
module PackerLoops {
  import opened Bytes
  import opened Packers

  // ---- 64-bit integers ----

  method MeasureNat(val: nat) returns (len: nat)
    ensures len == Length(val)
  {
    var value: nat := val / 128;
    len := 1;
    while value > 0 && len < 9
      invariant 1 <= len <= 9
      invariant Groups(val) == len + if value == 0 then 0 else Groups(value)
    {
      value := value / 128;
      len := len + 1;
    }
  }

  /** Bytes from `pos` on are `bs`, all others are as before. */
  twostate predicate Wrote(buffer: array<byte>, new pos: nat, new bs: seq<byte>)
    reads buffer
  {
    && pos + |bs| <= buffer.Length
    && buffer[pos..pos + |bs|] == bs
    && buffer[..pos] == old(buffer[..pos])
    && buffer[pos + |bs|..] == old(buffer[pos + |bs|..])
  }

  /** The tail bytes from the last to the first, one more leading one bit with each. */
  method PackNatLeaf(buffer: array<byte>, pos: nat, val: nat, len: nat)
    requires val < TWO_64 && len == Length(val) && pos + len <= buffer.Length
    modifies buffer
    ensures Wrote(buffer, pos, PackNat(val))
  {
    hide Length, PackNat, Groups, BigEndian, LeadingMask;
    HeadFits(val);
    PackedParts(val, len - 1);
    NextMask(0);
    ghost var all := PackNat(val);
    var value: nat, lenmask: nat, i: nat := val, 0, len - 1;
    while i > 0
      invariant i < len && lenmask == LeadingMask(len - 1 - i) && value == High(val, len - 1 - i)
      invariant forall k :: pos + i < k < pos + len ==> buffer[k] == all[k - pos]
      invariant forall k :: 0 <= k < buffer.Length && !(pos <= k < pos + len) ==> buffer[k] == old(buffer[k])
    {
      BigEndianAt(val, len - 1, i - 1);
      buffer[pos + i] := value % 256;
      NextMask(len - 1 - i);
      HighStep(val, len - 1 - i);
      value, lenmask, i := value / 256, lenmask / 2 + 128, i - 1;
    }
    buffer[pos] := lenmask + value;
    assert buffer[pos..pos + len] == all;
  }

  lemma NextMask(n: nat)
    requires n < 8
    ensures n == 0 ==> LeadingMask(n) == 0
    ensures LeadingMask(n + 1) == LeadingMask(n) / 2 + 128
  {
  }

  lemma PackedParts(val: nat, tail: nat)
    requires val < TWO_64 && tail == Length(val) - 1
    ensures LeadingMask(tail) + High(val, tail) < 256
    ensures PackNat(val) == [LeadingMask(tail) + High(val, tail)] + BigEndian(val, tail)
  {
    HeadFits(val);
  }

  /** Count and shift out the leading ones, then read that many more bytes. */
  method UnpackNatLeaf(data: seq<byte>, p: nat) returns (result: nat)
    ensures result == UnpackNat(data, p)
  {
    hide Pow, LeadingOnes, Shifted;
    var taillen, ch := ShiftOutOnes(ByteAt(data, p));
    result := ShiftBack(ch, taillen);
    ghost var head: nat := result;
    for i := 0 to taillen
      invariant result == Decode(head, data, p + 1, i)
    {
      result := 256 * result + ByteAt(data, p + 1 + i);
    }
  }

  /** `ch >> taillen`, a bit at a time. */
  method ShiftBack(ch: byte, taillen: nat) returns (head: nat)
    ensures head == ch / Pow(2, taillen)
  {
    var power: nat := 1;
    for i := 0 to taillen
      invariant power == Pow(2, i)
    {
      power := 2 * power;
    }
    head := ch / power;
  }

  method ShiftOutOnes(b: byte) returns (taillen: nat, ch: byte)
    ensures taillen == LeadingOnes(b) && ch == Shifted(b)
  {
    taillen, ch := 0, b;
    while ch >= 128
      invariant taillen + LeadingOnes(ch) == LeadingOnes(b)
      invariant Shifted(ch) == Shifted(b)
      decreases ch
    {
      ch, taillen := (2 * ch) % 256, taillen + 1;
    }
  }

  // ---- every packer ----

  method MeasureLeaf(s: Schema, v: Value) returns (size: nat)
    requires Typed(s, v)
    ensures size == Measure(s, v)
    decreases s, 2
  {
    match s
    case Null => size := 0;
    case AsIs(n) => size := n;
    case Unsigned(_) => size := MeasureNat(v.u);
    case Signed(_) => size := MeasureNat(ZigZag(v.i));
    case Str(w) =>
      size := MeasureNat(v.count);
      size := size + v.count * w;
    case PairOf(s1, s2) =>
      var size1 := MeasureLeaf(s1, v.fst);
      var size2 := MeasureLeaf(s2, v.snd);
      size := size1 + size2;
    case ListOf(e) => size := MeasureContainer(e, v);
  }

  /** Count the length prefix in itself: measured twice, because it may just grow. */
  method MeasureContainer(e: Schema, v: Value) returns (size: nat)
    requires Typed(ListOf(e), v)
    ensures size == Measure(ListOf(e), v)
    decreases ListOf(e), 1
  {
    var curSize := MeasureNat(|v.elems|);
    for i := 0 to |v.elems|
      invariant curSize == Length(|v.elems|) + MeasureElems(e, v.elems, i)
    {
      var more := MeasureLeaf(e, v.elems[i]);
      curSize := curSize + more;
    }
    var extraSize := MeasureNat(curSize);
    extraSize := MeasureNat(curSize + extraSize);
    size := curSize + extraSize;
  }

  method PackLeaf(buffer: array<byte>, pos: nat, s: Schema, v: Value, size: nat)
    requires Typed(s, v) && size == Measure(s, v) < TWO_64 && pos + size <= buffer.Length
    modifies buffer
    ensures Wrote(buffer, pos, Pack(s, v))
    decreases s, 2
  {
    match s
    case Null =>
    case AsIs(n) => CopyInto(buffer, pos, v.raw);
    case Unsigned(_) => PackNatLeaf(buffer, pos, v.u, size);
    case Signed(_) => PackNatLeaf(buffer, pos, ZigZag(v.i), size);
    case Str(w) => PackString(buffer, pos, w, v, size);
    case PairOf(s1, s2) => PackPair(buffer, pos, s1, s2, v, size);
    case ListOf(e) => PackContainer(buffer, pos, e, v, size);
  }

  /** memcpy. */
  method CopyInto(buffer: array<byte>, pos: nat, bs: seq<byte>)
    requires pos + |bs| <= buffer.Length
    modifies buffer
    ensures Wrote(buffer, pos, bs)
  {
    for i := 0 to |bs|
      invariant buffer[pos..pos + i] == bs[..i]
      invariant buffer[..pos] == old(buffer[..pos]) && buffer[pos + i..] == old(buffer[pos + i..])
    {
      buffer[pos + i] := bs[i];
    }
  }

  /** Two pieces written one behind the other are one piece. */
  twostate lemma WroteBoth(buffer: array<byte>, new middle: seq<byte>, new pos: nat, new a: seq<byte>, new b: seq<byte>)
    requires |middle| == buffer.Length && pos + |a| + |b| <= buffer.Length
    requires middle[..pos] == old(buffer[..pos]) && middle[pos..pos + |a|] == a
    requires middle[pos + |a|..] == old(buffer[pos + |a|..])
    requires buffer[..pos + |a|] == middle[..pos + |a|] && buffer[pos + |a|..pos + |a| + |b|] == b
    requires buffer[pos + |a| + |b|..] == middle[pos + |a| + |b|..]
    ensures Wrote(buffer, pos, a + b)
  {
    var end := pos + |a| + |b|;
    assert buffer[pos..end] == buffer[..pos + |a|][pos..] + buffer[pos + |a|..end];
    assert middle[..pos + |a|][pos..] == a;
    assert buffer[..pos] == buffer[..pos + |a|][..pos] == middle[..pos + |a|][..pos] == middle[..pos];
    assert middle[end..] == middle[pos + |a|..][|b|..];
    assert old(buffer[end..]) == old(buffer[pos + |a|..])[|b|..];
  }

  method PackString(buffer: array<byte>, pos: nat, w: nat, v: Value, size: nat)
    requires Typed(Str(w), v) && size == Measure(Str(w), v) < TWO_64 && pos + size <= buffer.Length
    modifies buffer
    ensures Wrote(buffer, pos, Pack(Str(w), v))
  {
    var start := size - v.count * w;
    PackNatLeaf(buffer, pos, v.count, start);
    ghost var middle := buffer[..];
    CopyInto(buffer, pos + start, v.chars);
    WroteBoth(buffer, middle, pos, PackNat(v.count), v.chars);
  }

  method PackPair(buffer: array<byte>, pos: nat, s1: Schema, s2: Schema, v: Value, size: nat)
    requires Typed(PairOf(s1, s2), v) && size == Measure(PairOf(s1, s2), v) < TWO_64 && pos + size <= buffer.Length
    modifies buffer
    ensures Wrote(buffer, pos, Pack(PairOf(s1, s2), v))
    decreases PairOf(s1, s2), 1
  {
    PairParts(s1, s2, v);
    hide Pack, Measure, Typed;
    var size1 := MeasureLeaf(s1, v.fst);
    PackIsMeasured(s1, v.fst);
    PackIsMeasured(s2, v.snd);
    PackLeaf(buffer, pos, s1, v.fst, size1);
    ghost var middle := buffer[..];
    var size2 := MeasureLeaf(s2, v.snd);
    PackLeaf(buffer, pos + size1, s2, v.snd, size2);
    WroteBoth(buffer, middle, pos, Pack(s1, v.fst), Pack(s2, v.snd));
  }

  lemma PairParts(s1: Schema, s2: Schema, v: Value)
    requires Typed(PairOf(s1, s2), v) && Measure(PairOf(s1, s2), v) < TWO_64
    ensures v.VPair? && Typed(s1, v.fst) && Typed(s2, v.snd)
    ensures Measure(PairOf(s1, s2), v) == Measure(s1, v.fst) + Measure(s2, v.snd)
    ensures Pack(PairOf(s1, s2), v) == Pack(s1, v.fst) + Pack(s2, v.snd)
  {
  }

  lemma PackIsMeasured(s: Schema, v: Value)
    requires Typed(s, v) && Measure(s, v) < TWO_64
    ensures |Pack(s, v)| == Measure(s, v)
  {
    PackerLaw(s, v, Pack(s, v), 0);
  }

  method PackContainer(buffer: array<byte>, pos: nat, e: Schema, v: Value, size: nat)
    requires Typed(ListOf(e), v) && size == Measure(ListOf(e), v) < TWO_64 && pos + size <= buffer.Length
    modifies buffer
    ensures Wrote(buffer, pos, Pack(ListOf(e), v))
    decreases ListOf(e), 1
  {
    ContainerParts(e, v);
    hide PackNat, Pack, Measure, Length, Typed, AllTyped;
    ElemsGrow(e, v.elems, 0);
    var curSize := PackCounts(buffer, pos, size, |v.elems|);
    ghost var head := PackNat(size) + PackNat(|v.elems|);
    assert head + PackElems(e, v.elems, 0) == head;
    for i := 0 to |v.elems|
      invariant MeasureElems(e, v.elems, i) < TWO_64
      invariant |PackElems(e, v.elems, i)| == MeasureElems(e, v.elems, i)
      invariant curSize == |head| + |PackElems(e, v.elems, i)| && pos + curSize <= buffer.Length
      invariant buffer[pos..pos + curSize] == head + PackElems(e, v.elems, i)
      invariant buffer[..pos] == old(buffer[..pos]) && buffer[pos + curSize..] == old(buffer[pos + curSize..])
    {
      hide PackElems, MeasureElems;
      ghost var before := buffer[..];
      var newSize := PackElement(buffer, pos, e, v, i, head, curSize);
      TailKept(before, old(buffer[..]), pos, curSize, newSize);
      curSize := newSize;
    }
  }

  lemma TailKept(before: seq<byte>, first: seq<byte>, pos: nat, curSize: nat, newSize: nat)
    requires |before| == |first| && curSize <= newSize && pos + newSize <= |first|
    requires before[pos + curSize..] == first[pos + curSize..]
    ensures before[pos + newSize..] == first[pos + newSize..]
  {
    assert before[pos + newSize..] == before[pos + curSize..][newSize - curSize..];
    assert first[pos + newSize..] == first[pos + curSize..][newSize - curSize..];
  }

  /** The two prefixes of a container. */
  method PackCounts(buffer: array<byte>, pos: nat, size: nat, len: nat) returns (curSize: nat)
    requires size < TWO_64 && len < TWO_64 && pos + Length(size) + Length(len) <= buffer.Length
    modifies buffer
    ensures curSize == Length(size) + Length(len)
    ensures Wrote(buffer, pos, PackNat(size) + PackNat(len))
  {
    hide PackNat, Length;
    var sizeOfSize := MeasureNat(size);
    PackNatLeaf(buffer, pos, size, sizeOfSize);
    ghost var middle := buffer[..];
    curSize := MeasureNat(len);
    PackNatLeaf(buffer, pos + sizeOfSize, len, curSize);
    WroteBoth(buffer, middle, pos, PackNat(size), PackNat(len));
    curSize := curSize + sizeOfSize;
  }

  /** One turn of the element loop. */
  method PackElement(buffer: array<byte>, pos: nat, e: Schema, v: Value, i: nat, ghost head: seq<byte>, curSize: nat)
      returns (newSize: nat)
    requires Typed(ListOf(e), v) && i < |v.elems|
    requires MeasureElems(e, v.elems, |v.elems|) < TWO_64
    requires MeasureElems(e, v.elems, i) < TWO_64
    requires curSize == |head| + |PackElems(e, v.elems, i)|
    requires |PackElems(e, v.elems, i)| == MeasureElems(e, v.elems, i)
    requires pos + |head| + MeasureElems(e, v.elems, |v.elems|) <= buffer.Length
    requires pos + curSize <= buffer.Length && buffer[pos..pos + curSize] == head + PackElems(e, v.elems, i)
    modifies buffer
    ensures MeasureElems(e, v.elems, i + 1) < TWO_64
    ensures |PackElems(e, v.elems, i + 1)| == MeasureElems(e, v.elems, i + 1)
    ensures newSize == |head| + |PackElems(e, v.elems, i + 1)|
    ensures pos + newSize <= buffer.Length && newSize >= curSize
    ensures buffer[pos..pos + newSize] == head + PackElems(e, v.elems, i + 1)
    ensures buffer[..pos] == old(buffer[..pos]) && buffer[pos + newSize..] == old(buffer[pos + newSize..])
    decreases ListOf(e), 0
  {
    ElemsGrow(e, v.elems, i + 1);
    OneElement(e, v, i);
    hide Pack, Measure, Typed, AllTyped, PackElems, MeasureElems;
    PackIsMeasured(e, v.elems[i]);
    var sizeChange := MeasureLeaf(e, v.elems[i]);
    ghost var middle := buffer[..];
    PackLeaf(buffer, pos + curSize, e, v.elems[i], sizeChange);
    newSize := curSize + sizeChange;
    Associate(head, PackElems(e, v.elems, i), Pack(e, v.elems[i]));
    assert buffer[pos..pos + newSize] == buffer[pos..pos + curSize] + buffer[pos + curSize..pos + newSize];
    assert buffer[pos..pos + curSize] == buffer[..pos + curSize][pos..] == middle[..pos + curSize][pos..];
    assert buffer[..pos] == buffer[..pos + curSize][..pos];
  }

  lemma OneElement(e: Schema, v: Value, i: nat)
    requires Typed(ListOf(e), v) && i < |v.elems| && MeasureElems(e, v.elems, i + 1) < TWO_64
    ensures v.VList? && AllTyped(e, v.elems) && Typed(e, v.elems[i]) && Measure(e, v.elems[i]) < TWO_64
    ensures MeasureElems(e, v.elems, i + 1) == MeasureElems(e, v.elems, i) + Measure(e, v.elems[i])
    ensures PackElems(e, v.elems, i + 1) == PackElems(e, v.elems, i) + Pack(e, v.elems[i])
  {
  }

  lemma ContainerParts(e: Schema, v: Value)
    requires Typed(ListOf(e), v) && Measure(ListOf(e), v) < TWO_64
    ensures var size, n := Measure(ListOf(e), v), |v.elems|;
      && MeasureElems(e, v.elems, n) <= size
      && Pack(ListOf(e), v) == PackNat(size) + PackNat(n) + PackElems(e, v.elems, n)
      && size == Length(size) + Length(n) + MeasureElems(e, v.elems, n)
  {
    PrefixFixpoint(Length(|v.elems|) + MeasureElems(e, v.elems, |v.elems|));
    hide Length, PackNat, PackElems, MeasureElems, AllTyped;
  }

  lemma {:induction false} ElemsGrow(e: Schema, vs: seq<Value>, n: nat)
    requires n <= |vs| && AllTyped(e, vs)
    ensures MeasureElems(e, vs, n) <= MeasureElems(e, vs, |vs|)
    decreases |vs| - n
  {
    if n < |vs| {
      ElemsGrow(e, vs, n + 1);
    }
  }

  method UnpackLeaf(s: Schema, data: seq<byte>, p: nat) returns (v: Value)
    ensures v == Unpack(s, data, p)
    decreases s, 2
  {
    match s
    case Null => v := VNull;
    case AsIs(n) => v := VRaw(Slice(data, p, n));
    case Unsigned(t) =>
      var w := UnpackNatLeaf(data, p);
      v := VUnsigned(w % (2 * Half(t)));
    case Signed(t) =>
      var w := UnpackNatLeaf(data, p);
      v := VSigned(UnZigZag(t, Wrap(w)));
    case Str(w) =>
      var len := UnpackNatLeaf(data, p);
      v := VStr(len, Slice(data, p + SkipTable(ByteAt(data, p)), len * w));
    case PairOf(s1, s2) =>
      var v1 := UnpackLeaf(s1, data, p);
      var v2 := UnpackLeaf(s2, data, p + Skip(s1, data, p));
      v := VPair(v1, v2);
    case ListOf(e) => v := UnpackContainer(e, data, p);
  }

  method UnpackContainer(e: Schema, data: seq<byte>, p: nat) returns (v: Value)
    ensures v == Unpack(ListOf(e), data, p)
    decreases ListOf(e), 1
  {
    var offset := p + SkipTable(ByteAt(data, p));  // the total size, not needed here
    var len := UnpackNatLeaf(data, offset);
    offset := offset + SkipTable(ByteAt(data, offset));
    ghost var start := offset;
    var result := [];
    for i := 0 to len
      invariant result == UnpackElems(e, data, start, i) && offset == ElemsEnd(e, data, start, i)
    {
      var value := UnpackLeaf(e, data, offset);
      result, offset := result + [value], offset + Skip(e, data, offset);
    }
    v := VList(result);
  }
}
