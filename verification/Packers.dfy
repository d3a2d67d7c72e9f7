/** The leaf packers of the compact trie (comptrie_packers.h): prefix-length integers, and
    strings, pairs and containers built on them.

    A C++ packer type is a `Schema`, a value it packs is a `Value`. `Pack`, `Measure`, `Unpack`
    and `Skip` are the specification; the methods at the end are the loops of the original. */
module Packers {
  import opened Bytes

  const TWO_63: nat := 0x8000_0000_0000_0000
  const TWO_64: nat := 0x1_0000_0000_0000_0000

  /** The width of an integral type. */
  datatype Integral = W8 | W16 | W32 | W64

  /** `Str(w)` is a string with characters of `w` bytes. */
  datatype Schema =
    | Null
    | AsIs(size: nat)
    | Unsigned(type_: Integral)
    | Signed(type_: Integral)
    | Str(width: nat)
    | PairOf(first: Schema, second: Schema)
    | ListOf(elem: Schema)

  datatype Value =
    | VNull
    | VRaw(raw: seq<byte>)
    | VUnsigned(u: nat)
    | VSigned(i: int)
    | VStr(count: nat, chars: seq<byte>)
    | VPair(fst: Value, snd: Value)
    | VList(elems: seq<Value>)

  /** The number of values that are not negative in a signed type. */
  function Half(t: Integral): (h: nat)
    ensures 0 < h <= TWO_63
  {
    match t
    case W8 => 0x80
    case W16 => 0x8000
    case W32 => 0x8000_0000
    case W64 => TWO_63
  }

  /** What the packers can carry: of the signed values all but the 64-bit minimum. */
  predicate Typed(s: Schema, v: Value)
    decreases s, v, 0, 0
  {
    match s
    case Null => v.VNull?
    case AsIs(n) => v.VRaw? && |v.raw| == n
    case Unsigned(t) => v.VUnsigned? && v.u < 2 * Half(t)
    case Signed(t) => v.VSigned? && 0 - Half(t) <= v.i < Half(t) && v.i != 0 - TWO_63
    case Str(w) => v.VStr? && v.count < TWO_64 && |v.chars| == v.count * w
    case PairOf(s1, s2) => v.VPair? && Typed(s1, v.fst) && Typed(s2, v.snd)
    case ListOf(e) => v.VList? && |v.elems| < TWO_64 && AllTyped(e, v.elems)
  }

  predicate AllTyped(e: Schema, vs: seq<Value>)
    decreases e, vs, 1, 0
  {
    forall k | 0 <= k < |vs| :: Typed(e, vs[k])
  }

  // ---- 64-bit integers ----

  /** How many groups of seven bits it takes to write `v`. */
  function Groups(v: nat): (n: nat)
    ensures n >= 1
  {
    if v < 128 then 1 else 1 + Groups(v / 128)
  }

  /** The packed length: seven value bits a byte, and nine bytes for anything longer. */
  function Length(v: nat): (n: nat)
    ensures 1 <= n <= 9
  {
    if Groups(v) < 9 then Groups(v) else 9
  }

  /** A byte whose `n` leading bits are ones. */
  function LeadingMask(n: nat): (m: nat)
    requires n <= 8
    ensures m < 256 && (n < 8 ==> m % 2 == 0 && (n < 7 ==> m % 4 == 0))
  {
    match n
    case 0 => 0
    case 1 => 0x80
    case 2 => 0xC0
    case 3 => 0xE0
    case 4 => 0xF0
    case 5 => 0xF8
    case 6 => 0xFC
    case 7 => 0xFE
    case 8 => 0xFF
  }

  function PackNat(v: nat): (bs: seq<byte>)
    requires v < TWO_64
    ensures |bs| == Length(v)
  {
    var tail := Length(v) - 1;
    HeadFits(v);
    [LeadingMask(tail) + High(v, tail)] + BigEndian(v, tail)
  }

  /** The table of packed lengths by first byte: 128 ones, 64 twos, 32 threes and so on. */
  function SkipTable(b: byte): (n: nat) {
    if b < 0x80 then 1
    else if b < 0xC0 then 2
    else if b < 0xE0 then 3
    else if b < 0xF0 then 4
    else if b < 0xF8 then 5
    else if b < 0xFC then 6
    else if b < 0xFE then 7
    else if b < 0xFF then 8
    else 9
  }

  /** The number of leading one bits is what the table says, less one. */
  function LeadingOnes(b: byte): (n: nat)
    ensures n + 1 == SkipTable(b)
    decreases b
  {
    if b < 128 then 0 else 1 + LeadingOnes((2 * b) % 256)
  }

  /** The byte shifted left until its high bit is clear. */
  function Shifted(b: byte): byte
    decreases b
  {
    if b < 128 then b else Shifted((2 * b) % 256)
  }

  function UnpackNat(buf: seq<byte>, p: nat): nat {
    var n := LeadingOnes(ByteAt(buf, p));
    Decode(Shifted(ByteAt(buf, p)) / Pow(2, n), buf, p + 1, n)
  }

  // ---- the law for integers ----

  lemma {:induction false} GroupsBound(v: nat, k: nat)
    requires k >= 1
    ensures Groups(v) <= k <==> v < Pow(128, k)
  {
    if v >= 128 && k > 1 {
      GroupsBound(v / 128, k - 1);
      assert v < Pow(128, k) <==> v / 128 < Pow(128, k - 1);
    } else {
      PowAtLeast(128, k);
    }
  }

  lemma {:induction false} PowAtLeast(b: nat, k: nat)
    requires b >= 1 && k >= 1
    ensures Pow(b, k) >= b
  {
    if k > 1 {
      PowAtLeast(b, k - 1);
      assert b * Pow(b, k - 1) >= b * 1;
    }
  }

  lemma {:induction false} PowSplit(k: nat)
    ensures Pow(256, k) == Pow(2, k) * Pow(128, k)
  {
    if k > 0 {
      PowSplit(k - 1);
      var a, b := Pow(2, k - 1), Pow(128, k - 1);
      assert 256 * (a * b) == (2 * a) * (128 * b);
    }
  }

  lemma HighTimesPow(v: nat, k: nat)
    ensures High(v, k) * Pow(256, k) <= v
  {
    hide High, Pow;
    HighIs(v, k);
    var p := Pow(256, k);
    assert v == v / p * p + v % p;
  }

  /** What is left for the first byte fits beside its leading ones. */
  lemma HeadFits(v: nat)
    requires v < TWO_64
    ensures var n := Length(v) - 1;
      High(v, n) * Pow(2, n) < 128 && LeadingMask(n) + High(v, n) < 256
  {
    var n := Length(v) - 1;
    if n < 8 {
      GroupsBound(v, n + 1);
      HighTimesPow(v, n);
      PowSplit(n);
      CancelFactor(High(v, n), Pow(2, n), Pow(128, n), v);
    } else {
      HighZero(v, 8);
      assert Pow(256, 4) == 0x1_0000_0000;
      assert Pow(256, 8) == 256 * (256 * (256 * (256 * Pow(256, 4))));
    }
    MaskLeavesRoom(n, High(v, n));
  }

  lemma MulKeepsOrder(x: nat, y: nat, b: nat)
    ensures x <= y ==> x * b <= y * b
  {
  }

  lemma CancelFactor(h: nat, a: nat, b: nat, v: nat)
    requires h * (a * b) <= v < 128 * b
    ensures h * a < 128
  {
    assert h * (a * b) == (h * a) * b;
    MulKeepsOrder(128, h * a, b);
  }

  lemma MaskLeavesRoom(n: nat, h: nat)
    requires n <= 8 && h * Pow(2, n) < 128
    ensures LeadingMask(n) + h < 256
  {
    assert Pow(2, 1) == 2 && Pow(2, 2) == 4 && Pow(2, 3) == 8;
    assert Pow(2, 4) == 16 && Pow(2, 5) == 32;
    assert Pow(2, 6) == 2 * Pow(2, 5);
    assert Pow(2, 7) == 2 * Pow(2, 6);
    assert Pow(2, 8) == 2 * Pow(2, 7);
  }

  lemma DoubleMask(n: nat, h: nat)
    requires 1 <= n <= 8 && LeadingMask(n) + h < 256
    ensures (2 * (LeadingMask(n) + h)) % 256 == LeadingMask(n - 1) + 2 * h
  {
  }

  /** Counting and shifting out the leading ones leaves the value bits. */
  lemma {:induction false} MaskRoundTrip(n: nat, h: nat)
    requires n <= 8 && h * Pow(2, n) < 128
    ensures LeadingMask(n) + h < 256
    ensures LeadingOnes(LeadingMask(n) + h) == n
    ensures Shifted(LeadingMask(n) + h) == h * Pow(2, n)
  {
    MaskLeavesRoom(n, h);
    if n > 0 {
      DoubleMask(n, h);
      Regroup(h, Pow(2, n - 1));
      MaskRoundTrip(n - 1, 2 * h);
    }
  }

  lemma Regroup(h: nat, p: nat)
    ensures h * (2 * p) == (2 * h) * p
  {
  }

  lemma TimesThenOver(h: nat, p: nat)
    requires p > 0
    ensures (h * p) / p == h
  {
    var q := (h * p) / p;
    assert q * p <= h * p < (q + 1) * p;
    MulKeepsOrder(q + 1, h, p);
    MulKeepsOrder(h + 1, q, p);
  }

  lemma NatLaw(v: nat, data: seq<byte>, p: nat)
    requires v < TWO_64
    requires StandsAt(data, p, PackNat(v))
    ensures SkipTable(ByteAt(data, p)) == |PackNat(v)| == Length(v)
    ensures UnpackNat(data, p) == v
  {
    var n := Length(v) - 1;
    HeadFits(v);
    var h := High(v, n);
    StandsAtSplit(data, p, [LeadingMask(n) + h], BigEndian(v, n));
    StandsAtByte(data, p, [LeadingMask(n) + h], 0);
    MaskRoundTrip(n, h);
    TimesThenOver(h, Pow(2, n));
    DecodeBigEndian(data, p + 1, v, n);
  }

  // ---- every schema ----

  function Wrap(x: int): nat {
    x % TWO_64
  }

  /** `static_cast` to a signed type: two's complement of the low bits. */
  function AsSigned(t: Integral, x: int): (i: int)
    ensures 0 - Half(t) <= i < Half(t)
  {
    var w := x % (2 * Half(t));
    if w < Half(t) then w else w - 2 * Half(t)
  }

  /** Narrower types are made 64-bit first. The sign goes to the low bit; `-1 * data` and the
      shift both wrap at 64 bits. */
  function ZigZag(i: int): (w: nat)
    requires 0 - TWO_63 <= i < TWO_63
    ensures w < TWO_64
  {
    if i < 0 then Wrap(2 * Wrap(AsSigned(W64, -1 * i))) + 1 else 2 * i
  }

  function UnZigZag(t: Integral, w: nat): int
    requires w < TWO_64
  {
    if w % 2 == 1 then AsSigned(t, -1 * AsSigned(t, w / 2)) else AsSigned(t, w / 2)
  }

  /** The signed packers give every value of their type back but one, the 64-bit minimum, whose
      negation does not exist: it comes back as 0. The minimum of a narrower type, whose negation
      does not exist there either, comes back. */
  lemma SignedRoundTrip(t: Integral, i: int)
    requires 0 - Half(t) <= i < Half(t)
    ensures UnZigZag(t, ZigZag(i)) == i <==> !(t == W64 && i == 0 - TWO_63)
    ensures UnZigZag(W64, ZigZag(0 - TWO_63)) == 0
  {
    hide AsSigned, ZigZag, Half;
    if i != 0 - TWO_63 {
      ZigZagIs(i);
      InRange(t, i);
      InRange(t, 0 - i);
    } else {
      OnlyWidest(t);
    }
    MinimumLost();
  }

  /** Every value of an unsigned type comes back. */
  lemma UnsignedRange(t: Integral, u: nat, data: seq<byte>, p: nat)
    requires u < if t.W8? then 0x100 else if t.W16? then 0x1_0000 else if t.W32? then 0x1_0000_0000 else 0x1_0000_0000_0000_0000
    ensures Typed(Unsigned(t), VUnsigned(u)) && Measure(Unsigned(t), VUnsigned(u)) < TWO_64
    ensures StandsAt(data, p, Pack(Unsigned(t), VUnsigned(u))) ==> Unpack(Unsigned(t), data, p) == VUnsigned(u)
  {
    hide PackNat, UnpackNat, Length, SkipTable;
    if StandsAt(data, p, PackNat(u)) {
      NatLaw(u, data, p);
    }
  }

  /** Of every signed type every value comes back but one, in whose place a 0 does. */
  lemma SignedRange(t: Integral, i: int, data: seq<byte>, p: nat)
    requires var h := if t.W8? then 0x80 else if t.W16? then 0x8000 else if t.W32? then 0x8000_0000 else 0x8000_0000_0000_0000;
      0 - h <= i < h
    ensures var min := 0 - 0x8000_0000_0000_0000;
      && Typed(Signed(t), VSigned(i)) == (i != min)
      && (i != min ==> Measure(Signed(t), VSigned(i)) < TWO_64)
      && (StandsAt(data, p, PackNat(ZigZag(i))) ==>
            Unpack(Signed(t), data, p) == VSigned(if i == min then 0 else i))
      && (i != min ==> Pack(Signed(t), VSigned(i)) == PackNat(if i < 0 then 2 * (0 - i) + 1 else 2 * i))
  {
    hide UnZigZag, ZigZag, PackNat, UnpackNat, Length, SkipTable;
    SignedRoundTrip(t, i);
    OnlyWidest(t);
    if i != 0 - TWO_63 {
      ZigZagIs(i);
    }
    if StandsAt(data, p, PackNat(ZigZag(i))) {
      NatLaw(ZigZag(i), data, p);
      ReadSigned(t, ZigZag(i), data, p);
    }
  }

  /** The packed length by the size of the number. */
  lemma LengthTable(v: nat)
    ensures Length(v) ==
      if v < 0x80 then 1
      else if v < 0x4000 then 2
      else if v < 0x20_0000 then 3
      else if v < 0x1000_0000 then 4
      else if v < 0x8_0000_0000 then 5
      else if v < 0x400_0000_0000 then 6
      else if v < 0x2_0000_0000_0000 then 7
      else if v < 0x100_0000_0000_0000 then 8
      else 9
  {
    hide Groups;
    GroupsBound(v, 1);
    GroupsBound(v, 2);
    GroupsBound(v, 3);
    GroupsBound(v, 4);
    GroupsBound(v, 5);
    GroupsBound(v, 6);
    GroupsBound(v, 7);
    GroupsBound(v, 8);
    SevenBits();
  }

  /** The bytes of a packed number: its bytes from the highest to the lowest, the first one marked
      with a leading one for every byte behind it. */
  lemma NatBytes(v: nat, k: nat)
    requires v < TWO_64 && k < Length(v)
    ensures var n := Length(v) - 1;
      PackNat(v)[k] ==
        if k == 0 then v / Pow(256, n) + [0, 0x80, 0xC0, 0xE0, 0xF0, 0xF8, 0xFC, 0xFE, 0xFF][n]
        else v / Pow(256, n - k) % 256
  {
    hide Length;
    var n := Length(v) - 1;
    HeadFits(v);
    HighIs(v, n - k);
    if k > 0 {
      BigEndianAt(v, n, k - 1);
    }
  }

  lemma SevenBits()
    ensures Pow(128, 1) == 0x80 && Pow(128, 2) == 0x4000 && Pow(128, 3) == 0x20_0000 && Pow(128, 4) == 0x1000_0000
    ensures Pow(128, 5) == 0x8_0000_0000 && Pow(128, 6) == 0x400_0000_0000
    ensures Pow(128, 7) == 0x2_0000_0000_0000 && Pow(128, 8) == 0x100_0000_0000_0000
  {
    assert Pow(128, 4) == 0x1000_0000;
    assert Pow(128, 5) == 128 * Pow(128, 4);
    assert Pow(128, 6) == 128 * Pow(128, 5);
    assert Pow(128, 7) == 128 * Pow(128, 6);
    assert Pow(128, 8) == 128 * Pow(128, 7);
  }

  /** A value of the type stays, and the one just above goes to the minimum. */
  lemma InRange(t: Integral, x: int)
    ensures 0 - Half(t) <= x < Half(t) ==> AsSigned(t, x) == x
    ensures x == Half(t) ==> AsSigned(t, x) == 0 - Half(t)
  {
    var m := 2 * Half(t);
    Remainder(x, m);
    Remainder(x + m, m);
  }

  lemma Remainder(x: int, m: nat)
    requires m > 0
    ensures 0 <= x < m ==> x % m == x
    ensures 0 <= x + m < m ==> x % m == x + m
  {
    var e := x / m;
    assert x == e * m + x % m;
    assert e > 0 ==> e * m >= m;
    assert e < 0 ==> e * m <= 0 - m;
    assert e < -1 ==> e * m <= 0 - 2 * m;
  }

  lemma OnlyWidest(t: Integral)
    ensures Half(t) == TWO_63 <==> t == W64
  {
  }

  lemma ZigZagIs(i: int)
    requires 0 - TWO_63 < i < TWO_63
    ensures ZigZag(i) == if i < 0 then 2 * (0 - i) + 1 else 2 * i
  {
  }

  lemma MinimumLost()
    ensures ZigZag(0 - TWO_63) == 1 && UnZigZag(W64, 1) == 0
  {
  }

  function Measure(s: Schema, v: Value): nat
    requires Typed(s, v)
    decreases s, v, 0, 0
  {
    match s
    case Null => 0
    case AsIs(n) => n
    case Unsigned(_) => Length(v.u)
    case Signed(_) => Length(ZigZag(v.i))
    case Str(w) => Length(v.count) + |v.chars|
    case PairOf(s1, s2) => Measure(s1, v.fst) + Measure(s2, v.snd)
    case ListOf(e) =>
      var content := Length(|v.elems|) + MeasureElems(e, v.elems, |v.elems|);
      content + Length(content + Length(content))
  }

  /** The first `n` elements. */
  function MeasureElems(e: Schema, vs: seq<Value>, n: nat): nat
    requires n <= |vs| && AllTyped(e, vs)
    decreases e, vs, 1, n
  {
    if n == 0 then 0 else MeasureElems(e, vs, n - 1) + Measure(e, vs[n - 1])
  }

  /** What a value packs to. A container starts with its own packed size, that prefix
      included, and with its element count. */
  function Pack(s: Schema, v: Value): seq<byte>
    requires Typed(s, v) && Measure(s, v) < TWO_64
    decreases s, v, 0, 0
  {
    match s
    case Null => []
    case AsIs(n) => v.raw
    case Unsigned(_) => PackNat(v.u)
    case Signed(_) => PackNat(ZigZag(v.i))
    case Str(_) => PackNat(v.count) + v.chars
    case PairOf(s1, s2) => Pack(s1, v.fst) + Pack(s2, v.snd)
    case ListOf(e) =>
      PackNat(Measure(s, v)) + PackNat(|v.elems|) + PackElems(e, v.elems, |v.elems|)
  }

  function PackElems(e: Schema, vs: seq<Value>, n: nat): seq<byte>
    requires n <= |vs| && AllTyped(e, vs) && MeasureElems(e, vs, n) < TWO_64
    decreases e, vs, 1, n
  {
    if n == 0 then [] else PackElems(e, vs, n - 1) + Pack(e, vs[n - 1])
  }

  function Skip(s: Schema, data: seq<byte>, p: nat): nat
    decreases s
  {
    match s
    case Null => 0
    case AsIs(n) => n
    case Unsigned(_) => SkipTable(ByteAt(data, p))
    case Signed(_) => SkipTable(ByteAt(data, p))
    case Str(w) => SkipTable(ByteAt(data, p)) + UnpackNat(data, p) * w
    case PairOf(s1, s2) => var size1 := Skip(s1, data, p); size1 + Skip(s2, data, p + size1)
    case ListOf(_) => UnpackNat(data, p)
  }

  function Unpack(s: Schema, data: seq<byte>, p: nat): Value
    decreases s, 0, 0
  {
    match s
    case Null => VNull
    case AsIs(n) => VRaw(Slice(data, p, n))
    case Unsigned(t) => VUnsigned(UnpackNat(data, p) % (2 * Half(t)))
    case Signed(t) => VSigned(UnZigZag(t, Wrap(UnpackNat(data, p))))
    case Str(w) => VStr(UnpackNat(data, p), Slice(data, p + SkipTable(ByteAt(data, p)), UnpackNat(data, p) * w))
    case PairOf(s1, s2) =>
      VPair(Unpack(s1, data, p), Unpack(s2, data, p + Skip(s1, data, p)))
    case ListOf(e) =>
      var q := p + SkipTable(ByteAt(data, p));
      VList(UnpackElems(e, data, q + SkipTable(ByteAt(data, q)), UnpackNat(data, q)))
  }

  /** Where the element after the first `n` begins. */
  function ElemsEnd(e: Schema, data: seq<byte>, p: nat, n: nat): nat {
    if n == 0 then p
    else var q := ElemsEnd(e, data, p, n - 1); q + Skip(e, data, q)
  }

  function UnpackElems(e: Schema, data: seq<byte>, p: nat, n: nat): seq<Value>
    decreases e, 1, n
  {
    if n == 0 then []
    else UnpackElems(e, data, p, n - 1) + [Unpack(e, data, ElemsEnd(e, data, p, n - 1))]
  }

  // ---- the packer law ----

  /** The container prefix counts itself: measuring its length twice is enough. */
  lemma PrefixFixpoint(content: nat)
    ensures var extra := Length(content + Length(content));
      Length(content + extra) == extra
  {
    var l := Length(content);
    LengthMonotone(content, content + l);
    LengthGrowsByOne(content, content + l);
    LengthMonotone(content + l, content + Length(content + l));
    LengthGrowsByOne(content, content + Length(content + l));
  }

  lemma {:induction false} GroupsMonotone(x: nat, y: nat)
    requires x <= y
    ensures Groups(x) <= Groups(y)
  {
    if x >= 128 {
      GroupsMonotone(x / 128, y / 128);
    }
  }

  lemma LengthMonotone(x: nat, y: nat)
    requires x <= y
    ensures Length(x) <= Length(y)
  {
    GroupsMonotone(x, y);
  }

  lemma {:induction false} GroupsGrowByOne(x: nat, y: nat)
    requires x <= y <= x + 18
    ensures Groups(y) <= Groups(x) + 1
  {
    if x >= 128 {
      GroupsGrowByOne(x / 128, y / 128);
    }
  }

  lemma LengthGrowsByOne(x: nat, y: nat)
    requires x <= y <= x + 18
    ensures Length(y) <= Length(x) + 1
  {
    GroupsGrowByOne(x, y);
  }

  /** The packer law for one value packed at offset `p` of `data`: packing writes exactly the
      measured bytes, skipping passes over exactly them, and unpacking gives the value back. */
  ghost predicate Lawful(s: Schema, v: Value, data: seq<byte>, p: nat)
    requires Typed(s, v) && Measure(s, v) < TWO_64
  {
    && |Pack(s, v)| == Measure(s, v)
    && Skip(s, data, p) == Measure(s, v)
    && Unpack(s, data, p) == v
  }

  ghost predicate ElemsLawful(e: Schema, vs: seq<Value>, n: nat, data: seq<byte>, p: nat)
    requires n <= |vs| && AllTyped(e, vs) && MeasureElems(e, vs, n) < TWO_64
  {
    && |PackElems(e, vs, n)| == MeasureElems(e, vs, n)
    && ElemsEnd(e, data, p, n) == p + MeasureElems(e, vs, n)
    && UnpackElems(e, data, p, n) == vs[..n]
  }

  /** The law holds for every schema, however nested, wherever the packed bytes stand. */
  lemma {:induction false} PackerLaw(s: Schema, v: Value, data: seq<byte>, p: nat)
    requires Typed(s, v) && Measure(s, v) < TWO_64
    requires StandsAt(data, p, Pack(s, v))
    ensures Lawful(s, v, data, p)
    decreases s, 1, 0
  {
    match s
    case PairOf(s1, s2) =>
      PairStands(s1, s2, v, data, p);
      PackerLaw(s1, v.fst, data, p);
      PackerLaw(s2, v.snd, data, p + Measure(s1, v.fst));
      PairLaw(s1, s2, v, data, p);
    case ListOf(e) =>
      ContainerStands(e, v, data, p);
      ElemsLaw(e, v.elems, |v.elems|, data, ElemsAt(e, v, p));
      ContainerLaw(e, v, data, p);
    case _ => LeafLaw(s, v, data, p);
  }

  lemma LeafLaw(s: Schema, v: Value, data: seq<byte>, p: nat)
    requires Typed(s, v) && Measure(s, v) < TWO_64 && !s.PairOf? && !s.ListOf?
    requires StandsAt(data, p, Pack(s, v))
    ensures Lawful(s, v, data, p)
  {
    hide UnZigZag, ZigZag, PackNat, UnpackNat, Length, SkipTable, Lawful;
    match s
    case Null => RawLaw(s, v, data, p);
    case AsIs(n) => RawLaw(s, v, data, p);
    case Unsigned(t) => UnsignedLaw(t, v, data, p);
    case Signed(t) => SignedLaw(t, v, data, p);
    case Str(w) => StringLaw(w, v, data, p);
  }

  lemma {:induction false} ElemsLaw(e: Schema, vs: seq<Value>, n: nat, data: seq<byte>, p: nat)
    requires n <= |vs| && AllTyped(e, vs) && MeasureElems(e, vs, n) < TWO_64
    requires StandsAt(data, p, PackElems(e, vs, n))
    ensures ElemsLawful(e, vs, n, data, p)
    decreases e, 2, n
  {
    if n > 0 {
      StandsAtSplit(data, p, PackElems(e, vs, n - 1), Pack(e, vs[n - 1]));
      ElemsLaw(e, vs, n - 1, data, p);
      PackerLaw(e, vs[n - 1], data, p + MeasureElems(e, vs, n - 1));
      OneMore(e, vs, n, data, p);
    }
  }

  lemma RawLaw(s: Schema, v: Value, data: seq<byte>, p: nat)
    requires Typed(s, v) && (s.Null? || s.AsIs?) && Measure(s, v) < TWO_64
    requires StandsAt(data, p, Pack(s, v))
    ensures Lawful(s, v, data, p)
  {
    if s.AsIs? {
      assert data[p..p + s.size] == v.raw;
    }
  }

  lemma UnsignedLaw(t: Integral, v: Value, data: seq<byte>, p: nat)
    requires Typed(Unsigned(t), v)
    requires StandsAt(data, p, Pack(Unsigned(t), v))
    ensures Lawful(Unsigned(t), v, data, p)
  {
    hide PackNat, UnpackNat, Length, SkipTable;
    NatLaw(v.u, data, p);
  }

  lemma SignedLaw(t: Integral, v: Value, data: seq<byte>, p: nat)
    requires Typed(Signed(t), v)
    requires StandsAt(data, p, Pack(Signed(t), v))
    ensures Lawful(Signed(t), v, data, p)
  {
    hide UnZigZag, ZigZag, PackNat, UnpackNat, Length, SkipTable;
    NatLaw(ZigZag(v.i), data, p);
    SignedRoundTrip(t, v.i);
    ReadSigned(t, ZigZag(v.i), data, p);
  }

  lemma ReadSigned(t: Integral, w: nat, data: seq<byte>, p: nat)
    requires w < TWO_64 && UnpackNat(data, p) == w
    ensures Unpack(Signed(t), data, p) == VSigned(UnZigZag(t, w))
  {
    hide UnZigZag;
    assert Wrap(w) == w;
  }

  lemma StringLaw(w: nat, v: Value, data: seq<byte>, p: nat)
    requires Typed(Str(w), v) && Measure(Str(w), v) < TWO_64
    requires StandsAt(data, p, Pack(Str(w), v))
    ensures Lawful(Str(w), v, data, p)
  {
    StandsAtSplit(data, p, PackNat(v.count), v.chars);
    NatLaw(v.count, data, p);
    var q := p + Length(v.count);
    assert data[q..q + |v.chars|] == v.chars;
  }

  lemma PairStands(s1: Schema, s2: Schema, v: Value, data: seq<byte>, p: nat)
    requires Typed(PairOf(s1, s2), v) && Measure(PairOf(s1, s2), v) < TWO_64
    requires StandsAt(data, p, Pack(PairOf(s1, s2), v))
    ensures StandsAt(data, p, Pack(s1, v.fst))
    ensures StandsAt(data, p + |Pack(s1, v.fst)|, Pack(s2, v.snd))
  {
    StandsAtSplit(data, p, Pack(s1, v.fst), Pack(s2, v.snd));
  }

  lemma PairLaw(s1: Schema, s2: Schema, v: Value, data: seq<byte>, p: nat)
    requires Typed(PairOf(s1, s2), v) && Measure(PairOf(s1, s2), v) < TWO_64
    requires Lawful(s1, v.fst, data, p)
    requires Lawful(s2, v.snd, data, p + Measure(s1, v.fst))
    ensures Lawful(PairOf(s1, s2), v, data, p)
  {
  }

  lemma OneMore(e: Schema, vs: seq<Value>, n: nat, data: seq<byte>, p: nat)
    requires 0 < n <= |vs| && AllTyped(e, vs) && MeasureElems(e, vs, n) < TWO_64
    requires ElemsLawful(e, vs, n - 1, data, p)
    requires Lawful(e, vs[n - 1], data, p + MeasureElems(e, vs, n - 1))
    ensures ElemsLawful(e, vs, n, data, p)
  {
    hide Pack, Measure, Skip, Unpack;
    assert vs[..n] == vs[..n - 1] + [vs[n - 1]];
  }

  /** Where the elements of a packed container begin. */
  ghost function ElemsAt(e: Schema, v: Value, p: nat): nat
    requires Typed(ListOf(e), v)
  {
    p + Length(Measure(ListOf(e), v)) + Length(|v.elems|)
  }

  lemma ContainerStands(e: Schema, v: Value, data: seq<byte>, p: nat)
    requires Typed(ListOf(e), v) && Measure(ListOf(e), v) < TWO_64
    requires StandsAt(data, p, Pack(ListOf(e), v))
    ensures StandsAt(data, p, PackNat(Measure(ListOf(e), v)))
    ensures StandsAt(data, p + Length(Measure(ListOf(e), v)), PackNat(|v.elems|))
    ensures StandsAt(data, ElemsAt(e, v, p), PackElems(e, v.elems, |v.elems|))
  {
    hide Length, PackNat, PackElems, MeasureElems, AllTyped, Pack, Measure, Typed, Skip, Unpack;
    ContainerIs(e, v, data, p);
    var a, b, c := PackNat(Measure(ListOf(e), v)), PackNat(|v.elems|), PackElems(e, v.elems, |v.elems|);
    assert Pack(ListOf(e), v) == a + (b + c);
    StandsAtSplit(data, p, a, b + c);
    StandsAtSplit(data, p + |a|, b, c);
  }

  /** One unfolding of each, for use with the rest of them hidden. */
  lemma ContainerIs(e: Schema, v: Value, data: seq<byte>, p: nat)
    requires Typed(ListOf(e), v) && Measure(ListOf(e), v) < TWO_64
    ensures v.VList? && |v.elems| < TWO_64 && AllTyped(e, v.elems) && Unpack(ListOf(e), data, p).VList?
    ensures var size, n := Measure(ListOf(e), v), |v.elems|;
      var content := Length(n) + MeasureElems(e, v.elems, n);
      && size == content + Length(content + Length(content))
      && MeasureElems(e, v.elems, n) < TWO_64
      && Pack(ListOf(e), v) == PackNat(size) + PackNat(n) + PackElems(e, v.elems, n)
    ensures Skip(ListOf(e), data, p) == UnpackNat(data, p)
    ensures var q := p + SkipTable(ByteAt(data, p));
      Unpack(ListOf(e), data, p) == VList(UnpackElems(e, data, q + SkipTable(ByteAt(data, q)), UnpackNat(data, q)))
  {
    hide UnpackNat, Length, PackNat, UnpackElems, PackElems, MeasureElems, SkipTable, AllTyped;
  }

  lemma ContainerLaw(e: Schema, v: Value, data: seq<byte>, p: nat)
    requires Typed(ListOf(e), v) && Measure(ListOf(e), v) < TWO_64
    requires StandsAt(data, p, PackNat(Measure(ListOf(e), v)))
    requires StandsAt(data, p + Length(Measure(ListOf(e), v)), PackNat(|v.elems|))
    requires ElemsLawful(e, v.elems, |v.elems|, data, ElemsAt(e, v, p))
    ensures Lawful(ListOf(e), v, data, p)
  {
    hide UnpackNat, Length, PackNat, UnpackElems, PackElems, MeasureElems, SkipTable, AllTyped;
    hide Pack, Measure, Skip, Unpack, Typed;
    ContainerIs(e, v, data, p);
    var size, n := Measure(ListOf(e), v), |v.elems|;
    NatLaw(size, data, p);
    NatLaw(n, data, p + Length(size));
    PrefixFixpoint(Length(n) + MeasureElems(e, v.elems, n));
    assert v.elems[..n] == v.elems;
  }
}
