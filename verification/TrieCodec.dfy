/** How a tree is laid out in bytes: nested binary search trees of arcs, each arc carrying the
    distances to its left and right subtrees in as few bytes as they need. */
module TrieCodec {
  import opened Bytes
  import opened TrieTree

  const MT_FINAL := 0x80
  const MT_NEXT := 0x40

  // ---- offsets ----

  function OffsetLength(offset: nat): nat {
    if offset == 0 then 0 else 1 + OffsetLength(offset / 256)
  }

  function OffsetBytes(offset: nat): seq<byte> {
    BigEndian(offset, OffsetLength(offset))
  }

  datatype Sizes = Sizes(left: nat, right: nat)

  /** One measuring round: the left size sees both sizes of the round before, the right size
      sees the new left one. */
  function Round(own: nat, leftsize: nat, rightsize: nat, s: Sizes): Sizes {
    var l := if leftsize > 0 then OffsetLength(own + s.left + s.right) else 0;
    var r := if rightsize > 0 then OffsetLength(own + leftsize + l + s.right) else 0;
    Sizes(l, r)
  }

  function FirstRound(own: nat, leftsize: nat, rightsize: nat): Sizes {
    Sizes(if leftsize > 0 then OffsetLength(own) else 0,
          if rightsize > 0 then OffsetLength(own + leftsize) else 0)
  }

  function OffsetSizes(own: nat, leftsize: nat, rightsize: nat): Sizes {
    Round(own, leftsize, rightsize, Round(own, leftsize, rightsize, FirstRound(own, leftsize, rightsize)))
  }

  lemma {:induction false} OffsetLengthMonotone(x: nat, y: nat)
    requires x <= y
    ensures OffsetLength(x) <= OffsetLength(y)
  {
    if x > 0 {
      OffsetLengthMonotone(x / 256, y / 256);
    }
  }

  lemma {:induction false} OffsetLengthBound(x: nat, n: nat)
    ensures OffsetLength(x) <= n <==> x < Pow(256, n)
  {
    if n > 0 && x > 0 {
      OffsetLengthBound(x / 256, n - 1);
      assert x < Pow(256, n) <==> x / 256 < Pow(256, n - 1);
    }
  }

  lemma OffsetLengthGrowth(x: nat, y: nat)
    requires 2 <= x <= y <= x + 510
    ensures OffsetLength(x) <= OffsetLength(y) <= OffsetLength(x) + 1
  {
    OffsetLengthMonotone(x, y);
    OffsetLengthMonotone(y, 256 * x);
  }

  /** The sizes chosen account for themselves. */
  ghost predicate AccountsForItself(own: nat, leftsize: nat, rightsize: nat, s: Sizes) {
    && s.left == (if leftsize > 0 then OffsetLength(own + s.left + s.right) else 0)
    && s.right == (if rightsize > 0 then OffsetLength(own + leftsize + s.left + s.right) else 0)
  }

  /** The round that would follow the last one. */
  lemma RoundsGrow(own: nat, leftsize: nat, rightsize: nat, s: Sizes, t: Sizes)
    requires own >= 2 && own + leftsize < Pow(256, 8)
    requires s.left <= t.left <= 9 && s.right <= t.right <= 9
    ensures var f := FirstRound(own, leftsize, rightsize);
      var s', t' := Round(own, leftsize, rightsize, s), Round(own, leftsize, rightsize, t);
      && f.left <= s'.left <= t'.left <= f.left + 1 <= 9
      && f.right <= s'.right <= t'.right <= f.right + 1 <= 9
      && (s.left + s.right == t.left + t.right ==> s'.left == t'.left)
      && (s'.left + s.right == t'.left + t.right ==> s'.right == t'.right)
  {
    OffsetLengthBound(own, 8);
    OffsetLengthBound(own + leftsize, 8);
    var x, x' := own + s.left + s.right, own + t.left + t.right;
    OffsetLengthGrowth(own, x');
    OffsetLengthMonotone(own, x);
    OffsetLengthMonotone(x, x');
    var l, l' := Round(own, leftsize, rightsize, s).left, Round(own, leftsize, rightsize, t).left;
    var y, y' := own + leftsize + l + s.right, own + leftsize + l' + t.right;
    OffsetLengthGrowth(own + leftsize, y');
    OffsetLengthMonotone(own + leftsize, y);
    OffsetLengthMonotone(y, y');
  }

  /** Three measurements always reach the fixpoint, for every size below 2^64. */
  lemma OffsetSizesFixpoint(own: nat, leftsize: nat, rightsize: nat)
    requires own >= 2 && own + leftsize < Pow(256, 8)
    ensures AccountsForItself(own, leftsize, rightsize, OffsetSizes(own, leftsize, rightsize))
  {
    var s0 := FirstRound(own, leftsize, rightsize);
    var s1 := Round(own, leftsize, rightsize, s0);
    var s2 := Round(own, leftsize, rightsize, s1);
    OffsetLengthBound(own, 8);
    OffsetLengthBound(own + leftsize, 8);
    RoundsGrow(own, leftsize, rightsize, s0, s0);
    RoundsGrow(own, leftsize, rightsize, s0, s1);
    RoundsGrow(own, leftsize, rightsize, s1, s2);
    assert Round(own, leftsize, rightsize, s2) == s2;
  }

  // ---- arcs and ranges of arcs ----

  /** The or of the flag fields. Below eight the offset lengths keep to their three bits;
      an eight-byte offset, the longest a 64-bit size can have, spills over: into MT_NEXT from
      the left and into the left length from the right. */
  function Flags(left: nat, right: nat, final: bool, next: bool): byte {
    (if final then MT_FINAL else 0) + (if next || left / 8 % 2 == 1 then MT_NEXT else 0) +
    left % 8 / 2 * 16 + (if left % 2 == 1 || right / 8 % 2 == 1 then 8 else 0) + right % 8
  }

  function PayloadBytes(t: Tree): seq<byte> {
    if t.payload.Some? then t.payload.value else []
  }

  function LeftOffset(text: Label, node: Tree, leftsize: nat, rightsize: nat): nat
    decreases node, 3, |text|, 0
  {
    var s := OffsetSizes(OwnSize(text, node), leftsize, rightsize);
    if leftsize > 0 then OwnSize(text, node) + s.left + s.right else 0
  }

  function RightOffset(text: Label, node: Tree, leftsize: nat, rightsize: nat): nat
    decreases node, 3, |text|, 0
  {
    var s := OffsetSizes(OwnSize(text, node), leftsize, rightsize);
    if rightsize > 0 then OwnSize(text, node) + s.left + s.right + leftsize else 0
  }

  /** What one arc saves, without its left and right subtrees: the offsets, then the label
      byte by byte, the payload and the subtree. The second and later label bytes read like an
      arc of their own. */
  function ArcBytes(text: Label, node: Tree, leftsize: nat, rightsize: nat): (bs: seq<byte>)
    ensures |bs| == OwnSize(text, node)
      + OffsetLength(LeftOffset(text, node, leftsize, rightsize))
      + OffsetLength(RightOffset(text, node, leftsize, rightsize))
    decreases node, 3, |text|, 1
  {
    var left := LeftOffset(text, node, leftsize, rightsize);
    var right := RightOffset(text, node, leftsize, rightsize);
    ArcHeader(text, node, left, right) + ArcBody(text, node)
  }

  function ArcBody(text: Label, node: Tree): (bs: seq<byte>)
    ensures |bs| == OwnSize(text, node) - 2
    decreases node, 3, |text|, 0
  {
    if |text| > 1 then ArcBytes(text[1..], node, 0, 0) else PayloadBytes(node) + SubtreeBytes(node.sub)
  }

  function ArcHeader(text: Label, node: Tree, left: nat, right: nat): (bs: seq<byte>)
    ensures |bs| == 2 + OffsetLength(left) + OffsetLength(right)
  {
    var l, r := OffsetLength(left), OffsetLength(right);
    var flags := if |text| > 1 then Flags(l, r, false, true) else Flags(l, r, node.IsFinal(), !node.IsLast());
    [flags, text[0]] + OffsetBytes(left) + OffsetBytes(right)
  }

  /** Two bytes a label byte, the payload and the subtree. */
  function OwnSize(text: Label, node: Tree): nat
    decreases node, 2
  {
    2 * |text| + |PayloadBytes(node)| + |SubtreeBytes(node.sub)|
  }

  function SubtreeBytes(sub: Subtree): seq<byte>
    decreases sub, 1
  {
    match sub
    case ArcSet(arcs) => RangeBytes(sub, 0, |arcs|)
    case Buffer(saved) => saved
  }

  /** The middle arc of the range, then its left half, then its right half. */
  function RangeBytes(sub: Subtree, from: nat, to: nat): seq<byte>
    requires sub.ArcSet? && from <= to <= |sub.arcs|
    decreases sub, 0, to - from
  {
    if from >= to then []
    else
      var median := (from + to) / 2;
      var arc := sub.arcs[median];
      var left, right := RangeBytes(sub, from, median), RangeBytes(sub, median + 1, to);
      ArcBytes(arc.text, arc.node, |left|, |right|) + left + right
  }

  /** Where an arc is measured to end is where it ends, and its offsets, stored inside it,
      point at the first byte of its left and right ranges saved behind it. */
  lemma OffsetsLand(text: Label, node: Tree, leftsize: nat, rightsize: nat)
    requires OwnSize(text, node) + leftsize < Pow(256, 8)
    ensures var s := OffsetSizes(OwnSize(text, node), leftsize, rightsize);
      |ArcBytes(text, node, leftsize, rightsize)| == OwnSize(text, node) + s.left + s.right
    ensures leftsize > 0 ==>
      LeftOffset(text, node, leftsize, rightsize) == |ArcBytes(text, node, leftsize, rightsize)|
    ensures rightsize > 0 ==>
      RightOffset(text, node, leftsize, rightsize) == |ArcBytes(text, node, leftsize, rightsize)| + leftsize
  {
    OffsetSizesFixpoint(OwnSize(text, node), leftsize, rightsize);
  }

  lemma ArcIs(text: Label, node: Tree, leftsize: nat, rightsize: nat)
    ensures ArcBytes(text, node, leftsize, rightsize)
         == ArcHeader(text, node, LeftOffset(text, node, leftsize, rightsize), RightOffset(text, node, leftsize, rightsize))
          + ArcBody(text, node)
  {
  }

  lemma EmptyRange(sub: Subtree, from: nat)
    requires sub.ArcSet? && from <= |sub.arcs|
    ensures RangeBytes(sub, from, from) == []
  {
  }

  lemma RangeUnfolds(sub: Subtree, from: nat, to: nat)
    requires sub.ArcSet? && from < to <= |sub.arcs|
    ensures var m := (from + to) / 2;
      var left, right := RangeBytes(sub, from, m), RangeBytes(sub, m + 1, to);
      RangeBytes(sub, from, to) == ArcBytes(sub.arcs[m].text, sub.arcs[m].node, |left|, |right|) + left + right
  {
    hide ArcBytes;
  }

  lemma RangeNonEmpty(sub: Subtree, from: nat, to: nat)
    requires sub.ArcSet? && from <= to <= |sub.arcs|
    ensures from < to <==> |RangeBytes(sub, from, to)| > 0
  {
  }

  // ---- the loops of comptrie_impl.cpp ----

  method MeasureOffset(offset: nat) returns (n: nat)
    ensures n == OffsetLength(offset)
  {
    n := 0;
    var rest := offset;
    while rest > 0
      invariant n + OffsetLength(rest) == OffsetLength(offset)
    {
      rest := rest / 256;
      n := n + 1;
    }
  }

  /** Fill the buffer from the last byte of the offset to the first. */
  method PackOffset(buffer: array<byte>, offset: nat) returns (len: nat)
    requires OffsetLength(offset) <= buffer.Length
    modifies buffer
    ensures len == OffsetLength(offset)
    ensures buffer[..len] == OffsetBytes(offset)
    ensures buffer[len..] == old(buffer[len..])
  {
    len := MeasureOffset(offset);
    var i, rest := len, offset;
    while i > 0
      invariant 0 <= i <= len
      invariant BigEndian(offset, len) == BigEndian(rest, i) + buffer[i..len]
      invariant buffer[len..] == old(buffer[len..])
    {
      i := i - 1;
      ghost var before := buffer[i + 1..len];
      buffer[i] := rest % 256;
      assert buffer[i..len] == [rest % 256] + before;
      assert BigEndian(rest, i + 1) + before == BigEndian(rest / 256, i) + ([rest % 256] + before);
      rest := rest / 256;
    }
  }
}
