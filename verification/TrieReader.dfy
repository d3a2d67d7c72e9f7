/** Searching the saved bytes directly. */
module TrieReader {
  import opened Wrappers
  import opened Bytes
  import opened Packers
  import opened TrieTree
  import opened TrieCodec

  predicate IsFinalFlag(flags: byte) { flags >= MT_FINAL }

  predicate IsNextFlag(flags: byte) { flags / MT_NEXT % 2 == 1 }

  predicate IsEpsilonLink(flags: byte) { !IsFinalFlag(flags) && !IsNextFlag(flags) }

  function LeftOffsetLen(flags: byte): nat { flags / 8 % 8 }

  function RightOffsetLen(flags: byte): nat { flags % 8 }

  function OffsetAt(data: seq<byte>, p: nat, n: nat): nat { Decode(0, data, p, n) }

  datatype Leap = NoArc | Matched(flags: byte, pos: nat)

  /** Consume one byte of the key: follow epsilon links and left and right offsets until an arc
      byte matches; stop just before what that arc holds. */
  function LeapFrom(data: seq<byte>, p: nat, b: byte): Leap
    decreases |data| - p
  {
    if p >= |data| then NoArc
    else
      var flags := ByteAt(data, p);
      if IsEpsilonLink(flags) then
        var offset := OffsetAt(data, p + 1, RightOffsetLen(flags));
        if offset == 0 then NoArc else LeapFrom(data, p + offset, b)
      else
        var left := p + 2;
        var right := left + LeftOffsetLen(flags);
        if b < ByteAt(data, p + 1) then
          var offset := OffsetAt(data, left, LeftOffsetLen(flags));
          if offset == 0 then NoArc else LeapFrom(data, p + offset, b)
        else if b > ByteAt(data, p + 1) then
          var offset := OffsetAt(data, right, RightOffsetLen(flags));
          if offset == 0 then NoArc else LeapFrom(data, p + offset, b)
        else Matched(flags, right + RightOffsetLen(flags))
  }

  function TraverseEpsilon(data: seq<byte>, p: nat): nat {
    var flags := ByteAt(data, p);
    if IsEpsilonLink(flags) then p + OffsetAt(data, p + 1, RightOffsetLen(flags)) else p
  }

  /** `next` is absent once the arc has nothing below it. */
  datatype Advanced = Failed | Advanced(value: Option<nat>, next: Option<nat>)

  /** Consume one symbol, given by its bytes. */
  function AdvanceFrom(s: Schema, data: seq<byte>, p: nat, symbol: seq<byte>): Advanced
    requires symbol != []
    decreases |symbol|
  {
    match LeapFrom(data, p, symbol[0])
    case NoArc => Failed
    case Matched(flags, q) =>
      var value := if IsFinalFlag(flags) then Some(q) else None;
      var q' := if IsFinalFlag(flags) then q + Skip(s, data, q) else q;
      if !IsNextFlag(flags) then
        if |symbol| == 1 then Advanced(value, None) else Failed
      else if |symbol| == 1 then Advanced(value, Some(TraverseEpsilon(data, q')))
      else AdvanceFrom(s, data, TraverseEpsilon(data, q'), symbol[1..])
  }

  /** Advance symbol by symbol from `p`; the position of the value of the whole key, if any. */
  function LookupFrom(s: Schema, data: seq<byte>, p: nat, key: seq<seq<byte>>): Option<nat>
    requires key != [] && forall k | 0 <= k < |key| :: key[k] != []
    decreases |key|
  {
    match AdvanceFrom(s, data, p, key[0])
    case Failed => None
    case Advanced(value, next) =>
      if |key| == 1 then value
      else if next.None? then None
      else LookupFrom(s, data, next.value, key[1..])
  }

  /** A flags byte without either mark, and behind it a distance: reading on from there, whatever
      `data` holds, is reading on from where it leads, and nowhere for a distance of zero. */
  lemma EpsilonLeads(data: seq<byte>, p: nat, n: nat, distance: nat, b: byte)
    requires n < 8 && distance < Pow(256, n) && StandsAt(data, p, [n] + BigEndian(distance, n))
    ensures TraverseEpsilon(data, p) == p + distance
    ensures LeapFrom(data, p, b) == if distance == 0 then NoArc else LeapFrom(data, p + distance, b)
  {
    StandsAtSplit(data, p, [n], BigEndian(distance, n));
    StandsAtByte(data, p, [n], 0);
    DecodeBigEndian(data, p + 1, distance, n);
    HighZero(distance, n);
  }

  // ---- the bytes of a saved range ----

  lemma FlagFields(left: nat, right: nat, final: bool, next: bool)
    requires left < 8 && right < 8
    ensures var flags := Flags(left, right, final, next);
      && IsFinalFlag(flags) == final && IsNextFlag(flags) == next
      && LeftOffsetLen(flags) == left && RightOffsetLen(flags) == right
      && flags == (if final then 0x80 else 0) + (if next then 0x40 else 0) + 8 * left + right
  {
    assert left / 8 == 0 && right / 8 == 0 && left % 8 / 2 * 16 + (if left % 2 == 1 then 8 else 0) == 8 * left;
    Fields(Flags(left, right, final, next), left, right, final, next);
  }

  lemma Fields(flags: byte, left: nat, right: nat, final: bool, next: bool)
    requires left < 8 && right < 8
    requires flags == (if final then MT_FINAL else 0) + (if next then MT_NEXT else 0) + 8 * left + right
    ensures IsFinalFlag(flags) == final && IsNextFlag(flags) == next
    ensures LeftOffsetLen(flags) == left && RightOffsetLen(flags) == right
  {
    var high := (if final then 2 else 0) + if next then 1 else 0;
    assert flags == 8 * (8 * high + left) + right;
    assert flags / 8 == 8 * high + left && flags / 64 == high;
  }

  /** What stands right behind an arc's label byte and offsets, and how its flags read. */
  ghost predicate ArcRead(data: seq<byte>, p: nat, text: Label, node: Tree, left: nat, right: nat) {
    var flags := ByteAt(data, p);
    && p + 1 < |data|
    && IsFinalFlag(flags) == (|text| == 1 && node.IsFinal())
    && IsNextFlag(flags) == (|text| > 1 || !node.IsLast())
    && ByteAt(data, p + 1) == text[0]
    && LeftOffsetLen(flags) == OffsetLength(left)
    && RightOffsetLen(flags) == OffsetLength(right)
    && OffsetAt(data, p + 2, LeftOffsetLen(flags)) == left
    && OffsetAt(data, p + 2 + LeftOffsetLen(flags), RightOffsetLen(flags)) == right
  }

  lemma OffsetReads(data: seq<byte>, p: nat, offset: nat)
    requires StandsAt(data, p, OffsetBytes(offset))
    ensures OffsetAt(data, p, OffsetLength(offset)) == offset
  {
    var n := OffsetLength(offset);
    DecodeBigEndian(data, p, offset, n);
    OffsetLengthBound(offset, n);
    HighZero(offset, n);
  }

  lemma HeaderReads(data: seq<byte>, p: nat, text: Label, node: Tree, left: nat, right: nat)
    requires StandsAt(data, p, ArcHeader(text, node, left, right))
    requires left < Pow(256, 7) && right < Pow(256, 7)
    ensures ArcRead(data, p, text, node, left, right)
  {
    var l, r := OffsetLength(left), OffsetLength(right);
    OffsetLengthBound(left, 7);
    OffsetLengthBound(right, 7);
    var flags := if |text| > 1 then Flags(l, r, false, true) else Flags(l, r, node.IsFinal(), !node.IsLast());
    FlagFields(l, r, |text| == 1 && node.IsFinal(), |text| > 1 || !node.IsLast());
    assert ArcHeader(text, node, left, right) == [flags, text[0]] + (OffsetBytes(left) + OffsetBytes(right));
    StandsAtSplit(data, p, [flags, text[0]], OffsetBytes(left) + OffsetBytes(right));
    StandsAtSplit(data, p + 2, OffsetBytes(left), OffsetBytes(right));
    assert data[p] == [flags, text[0]][0] && data[p + 1] == [flags, text[0]][1];
    OffsetReads(data, p + 2, left);
    OffsetReads(data, p + 2 + l, right);
  }

  /** The saved range read as a search tree: the byte is found exactly if an arc of the range
      starts with it, and the reader then stands at that arc's contents. */
  ghost predicate Lands(data: seq<byte>, leap: Leap, sub: Subtree, from: nat, to: nat, b: byte)
    requires sub.ArcSet? && from <= to <= |sub.arcs|
  {
    var i := LowerBound(sub.arcs, b);
    if from <= i < to && sub.arcs[i].text[0] == b then
      && leap.Matched?
      && StandsAt(data, leap.pos, ArcBody(sub.arcs[i].text, sub.arcs[i].node))
      && |ArcBody(sub.arcs[i].text, sub.arcs[i].node)| <= |RangeBytes(sub, from, to)|
      && IsFinalFlag(leap.flags) == (|sub.arcs[i].text| == 1 && sub.arcs[i].node.IsFinal())
      && IsNextFlag(leap.flags) == (|sub.arcs[i].text| > 1 || !sub.arcs[i].node.IsLast())
    else leap.NoArc?
  }

  /** What a reader finds at the first byte of a saved range: the middle arc, its contents,
      and, at the offsets it carries, the two halves. */
  ghost predicate RangeRead(data: seq<byte>, p: nat, sub: Subtree, from: nat, to: nat, left: nat, right: nat)
    requires sub.ArcSet? && from < to <= |sub.arcs|
  {
    var m := (from + to) / 2;
    var arc := sub.arcs[m];
    && ArcRead(data, p, arc.text, arc.node, left, right)
    && StandsAt(data, p + 2 + OffsetLength(left) + OffsetLength(right), ArcBody(arc.text, arc.node))
    && (left == 0 <==> from == m)
    && (right == 0 <==> m + 1 == to)
    && (from < m ==> StandsAt(data, p + left, RangeBytes(sub, from, m)))
    && (m + 1 < to ==> StandsAt(data, p + right, RangeBytes(sub, m + 1, to)))
    && |ArcBody(arc.text, arc.node)| <= |RangeBytes(sub, from, to)|
    && |RangeBytes(sub, from, m)| <= |RangeBytes(sub, from, to)|
    && |RangeBytes(sub, m + 1, to)| <= |RangeBytes(sub, from, to)|
  }

  lemma RangeParts(data: seq<byte>, p: nat, sub: Subtree, from: nat, to: nat, m: nat)
    requires sub.ArcSet? && from < to <= |sub.arcs| && m == (from + to) / 2
    requires StandsAt(data, p, RangeBytes(sub, from, to))
    ensures var left, right := RangeBytes(sub, from, m), RangeBytes(sub, m + 1, to);
      var own := ArcBytes(sub.arcs[m].text, sub.arcs[m].node, |left|, |right|);
      && |RangeBytes(sub, from, to)| == |own| + |left| + |right|
      && StandsAt(data, p, own)
      && StandsAt(data, p + |own|, left)
      && StandsAt(data, p + |own| + |left|, right)
  {
    hide ArcBytes, RangeBytes;
    var left, right := RangeBytes(sub, from, m), RangeBytes(sub, m + 1, to);
    var own := ArcBytes(sub.arcs[m].text, sub.arcs[m].node, |left|, |right|);
    RangeUnfolds(sub, from, to);
    assert own + left + right == own + (left + right);
    StandsAtSplit(data, p, own, left + right);
    StandsAtSplit(data, p + |own|, left, right);
  }

  lemma ReadArc(data: seq<byte>, p: nat, text: Label, node: Tree, leftsize: nat, rightsize: nat)
    requires StandsAt(data, p, ArcBytes(text, node, leftsize, rightsize))
    requires |ArcBytes(text, node, leftsize, rightsize)| + leftsize < Pow(256, 7)
    ensures var lo, ro := LeftOffset(text, node, leftsize, rightsize), RightOffset(text, node, leftsize, rightsize);
      && ArcRead(data, p, text, node, lo, ro)
      && StandsAt(data, p + 2 + OffsetLength(lo) + OffsetLength(ro), ArcBody(text, node))
      && |ArcBody(text, node)| <= |ArcBytes(text, node, leftsize, rightsize)|
      && lo == (if leftsize > 0 then |ArcBytes(text, node, leftsize, rightsize)| else 0)
      && ro == (if rightsize > 0 then |ArcBytes(text, node, leftsize, rightsize)| + leftsize else 0)
  {
    hide ArcBody, ArcHeader, OffsetLength, OffsetSizes, OwnSize;
    var lo, ro := LeftOffset(text, node, leftsize, rightsize), RightOffset(text, node, leftsize, rightsize);
    assert Pow(256, 8) == 256 * Pow(256, 7);
    OffsetsLand(text, node, leftsize, rightsize);
    StandsAtSplit(data, p, ArcHeader(text, node, lo, ro), ArcBody(text, node));
    HeaderReads(data, p, text, node, lo, ro);
  }

  lemma ReadRange(data: seq<byte>, p: nat, sub: Subtree, from: nat, to: nat) returns (lo: nat, ro: nat)
    requires sub.ArcSet? && from < to <= |sub.arcs|
    requires StandsAt(data, p, RangeBytes(sub, from, to))
    requires |RangeBytes(sub, from, to)| < Pow(256, 7)
    ensures RangeRead(data, p, sub, from, to, lo, ro)
    ensures var m := (from + to) / 2;
      var left, right := |RangeBytes(sub, from, m)|, |RangeBytes(sub, m + 1, to)|;
      && lo == LeftOffset(sub.arcs[m].text, sub.arcs[m].node, left, right)
      && ro == RightOffset(sub.arcs[m].text, sub.arcs[m].node, left, right)
  {
    hide ArcBytes, ArcBody, OffsetLength, RangeBytes, LeftOffset, RightOffset;
    var m := (from + to) / 2;
    var arc := sub.arcs[m];
    var left, right := RangeBytes(sub, from, m), RangeBytes(sub, m + 1, to);
    RangeParts(data, p, sub, from, to, m);
    ReadArc(data, p, arc.text, arc.node, |left|, |right|);
    RangeNonEmpty(sub, from, m);
    RangeNonEmpty(sub, m + 1, to);
    lo := LeftOffset(arc.text, arc.node, |left|, |right|);
    ro := RightOffset(arc.text, arc.node, |left|, |right|);
  }

  lemma {:induction false} LeapThroughRange(data: seq<byte>, p: nat, sub: Subtree, from: nat, to: nat, b: byte)
    requires sub.ArcSet? && from < to <= |sub.arcs| && WellFormed(Tree(None, sub))
    requires StandsAt(data, p, RangeBytes(sub, from, to))
    requires |RangeBytes(sub, from, to)| < Pow(256, 7)
    ensures Lands(data, LeapFrom(data, p, b), sub, from, to, b)
    decreases if to >= from then to - from else 0
  {
    hide RangeBytes, ArcBody, OffsetLength, LeapFrom, LowerBound, SubtreeBytes;
    var m := (from + to) / 2;
    var text, node := sub.arcs[m].text, sub.arcs[m].node;
    var left, right := ReadRange(data, p, sub, from, to);
    assert Proper(node);
    LeapStep(data, p, text, node, left, right, b);
    LowerBoundVersus(sub.arcs, m, b);
    if b < text[0] {
      if from < m {
        LeapThroughRange(data, p + left, sub, from, m, b);
        InWider(data, LeapFrom(data, p, b), sub, from, m, from, to, b);
      }
    } else if b > text[0] {
      if m + 1 < to {
        LeapThroughRange(data, p + right, sub, m + 1, to, b);
        InWider(data, LeapFrom(data, p, b), sub, m + 1, to, from, to, b);
      }
    }
  }

  lemma InWider(data: seq<byte>, leap: Leap, sub: Subtree, from': nat, to': nat, from: nat, to: nat, b: byte)
    requires sub.ArcSet? && from <= from' <= to' <= to <= |sub.arcs|
    requires Lands(data, leap, sub, from', to', b)
    requires |RangeBytes(sub, from', to')| <= |RangeBytes(sub, from, to)|
    requires var i := LowerBound(sub.arcs, b);
      from <= i < to && sub.arcs[i].text[0] == b ==> from' <= i < to'
    ensures Lands(data, leap, sub, from, to, b)
  {
  }

  lemma LeapStep(data: seq<byte>, p: nat, text: Label, node: Tree, left: nat, right: nat, b: byte)
    requires ArcRead(data, p, text, node, left, right) && Proper(node)
    ensures LeapFrom(data, p, b) ==
      if b < text[0] then if left == 0 then NoArc else LeapFrom(data, p + left, b)
      else if b > text[0] then if right == 0 then NoArc else LeapFrom(data, p + right, b)
      else Matched(ByteAt(data, p), p + 2 + OffsetLength(left) + OffsetLength(right))
  {
  }

  lemma LowerBoundVersus(arcs: seq<Arc>, m: nat, b: byte)
    requires m < |arcs| && Sorted(arcs)
    ensures b < arcs[m].text[0] ==> LowerBound(arcs, b) <= m
    ensures b > arcs[m].text[0] ==> LowerBound(arcs, b) > m
    ensures b == arcs[m].text[0] ==> LowerBound(arcs, b) == m
  {
  }

  // ---- reading a key ----

  /** Every payload in the tree is something the packer packed. */
  ghost predicate Packed(s: Schema, t: Tree)
    decreases t
  {
    && (t.payload.Some? ==> IsPacked(s, t.payload.value))
    && (t.sub.ArcSet? ==> forall i :: 0 <= i < |t.sub.arcs| ==> Packed(s, t.sub.arcs[i].node))
  }

  ghost predicate IsPacked(s: Schema, bs: seq<byte>) {
    exists v :: Typed(s, v) && Measure(s, v) < TWO_64 && bs == Pack(s, v)
  }

  lemma PackedSkips(s: Schema, bs: seq<byte>, data: seq<byte>, p: nat)
    requires IsPacked(s, bs) && StandsAt(data, p, bs)
    ensures Skip(s, data, p) == |bs|
  {
    var v :| Typed(s, v) && Measure(s, v) < TWO_64 && bs == Pack(s, v);
    PackerLaw(s, v, data, p);
  }

  /** The arcs of `t`, and at least one, are saved in `data` at `p`. */
  ghost predicate Reads(s: Schema, data: seq<byte>, p: nat, t: Tree) {
    && WellFormed(t) && !t.IsLast() && Packed(s, t)
    && StandsAt(data, p, SubtreeBytes(t.sub))
    && |SubtreeBytes(t.sub)| < Pow(256, 7)
  }

  /** Where one byte of the key leads in the tree. */
  function Follow(t: Tree, b: byte): Option<Tree> {
    if t.sub.ArcSet? && FindArc(t.sub.arcs, b).Some? then Some(Cut(FindArc(t.sub.arcs, b).value, 1)) else None
  }

  function Walk(t: Tree, key: seq<byte>): Option<Tree>
    requires WellFormed(t)
    decreases |key|
  {
    if key == [] then Some(t)
    else
      match Follow(t, key[0])
      case None => None
      case Some(u) => FollowKeepsWellFormed(t, key[0]); Walk(u, key[1..])
  }

  lemma FollowKeepsWellFormed(t: Tree, b: byte)
    requires WellFormed(t) && Follow(t, b).Some?
    ensures Proper(Follow(t, b).value)
  {
    var arc := FindArc(t.sub.arcs, b).value;
    assert Proper(arc.node);
    CutKeepsProper(arc, 1);
  }

  /** Walking byte by byte ends where the key is found. */
  lemma {:induction false} WalkFinds(t: Tree, key: seq<byte>)
    requires WellFormed(t)
    ensures Find(t, key) == match Walk(t, key) case None => None case Some(u) => u.payload
    decreases |key|
  {
    if key != [] {
      var arc := FindArc(t.sub.arcs, key[0]);
      if arc.Some? {
        FollowKeepsWellFormed(t, key[0]);
        assert arc.value.text[..1] == [key[0]];
        FindThroughCut(arc.value, 1, key);
        WalkFinds(Cut(arc.value, 1), key[1..]);
      }
    }
  }

  /** What one byte of the key does to a reader, against what it does in the tree. */
  ghost predicate StepAgrees(s: Schema, data: seq<byte>, leap: Leap, to: Option<Tree>) {
    match to
    case None => leap.NoArc?
    case Some(u) =>
      && leap.Matched?
      && IsFinalFlag(leap.flags) == u.IsFinal()
      && IsNextFlag(leap.flags) == !u.IsLast()
      && StandsAt(data, leap.pos, PayloadBytes(u))
      && (u.IsFinal() ==> IsPacked(s, u.payload.value))
      && (!u.IsLast() ==> Reads(s, data, leap.pos + |PayloadBytes(u)|, u))
  }

  lemma Step(s: Schema, data: seq<byte>, p: nat, t: Tree, b: byte)
    requires Reads(s, data, p, t)
    ensures StepAgrees(s, data, LeapFrom(data, p, b), Follow(t, b))
  {
    hide RangeBytes, ArcBytes, OffsetLength, LeapFrom, Measure, Pack, Typed, LowerBound, SubtreeBytes;
    WholeRange(t);
    LeapThroughRange(data, p, t.sub, 0, |t.sub.arcs|, b);
    if Follow(t, b).Some? {
      var arc := FindArc(t.sub.arcs, b).value;
      assert Packed(s, arc.node) && Proper(arc.node);
      BodyOfCut(arc);
      var pos := LeapFrom(data, p, b).pos;
      StandsAtSplit(data, pos, PayloadBytes(Cut(arc, 1)), SubtreeBytes(Cut(arc, 1).sub));
    }
  }

  lemma WholeRange(t: Tree)
    requires WellFormed(t) && !t.IsLast()
    ensures t.sub.ArcSet? && SubtreeBytes(t.sub) == RangeBytes(t.sub, 0, |t.sub.arcs|)
  {
    hide RangeBytes;
  }

  /** Behind the first label byte stands the node the cut arc leads to. */
  lemma BodyOfCut(arc: Arc)
    ensures ArcBody(arc.text, arc.node) == PayloadBytes(Cut(arc, 1)) + SubtreeBytes(Cut(arc, 1).sub)
  {
    if |arc.text| > 1 {
      var rest := ArcSet([Arc(arc.text[1..], arc.node)]);
      RangeUnfolds(rest, 0, 1);
    }
  }

  // ---- the loops of comptrie_impl.h ----

  method UnpackOffset(data: seq<byte>, p: nat, len: nat) returns (offset: nat)
    ensures offset == OffsetAt(data, p, len)
  {
    offset := 0;
    for i := 0 to len
      invariant offset == Decode(0, data, p, i)
    {
      offset := 256 * offset + ByteAt(data, p + i);
    }
  }

  /** `found` is false where the original zeroes the data pointer. */
  method LeapByte(data: seq<byte>, p: nat, symbol: byte) returns (found: bool, flags: byte, pos: nat)
    ensures (if found then Matched(flags, pos) else NoArc) == LeapFrom(data, p, symbol)
  {
    found, flags, pos := false, 0, p;
    while pos < |data|
      invariant !found && LeapFrom(data, pos, symbol) == LeapFrom(data, p, symbol)
      decreases |data| - pos
    {
      var start := pos;
      flags, pos := data[pos], pos + 1;
      if IsEpsilonLink(flags) {
        var offset := UnpackOffset(data, pos, RightOffsetLen(flags));
        if offset == 0 {
          break;
        }
        pos := start + offset;
        continue;
      }
      var ch := ByteAt(data, pos);
      pos := pos + 1;
      var offsetLength := LeftOffsetLen(flags);
      if symbol < ch {
        var offset := UnpackOffset(data, pos, offsetLength);
        if offset == 0 {
          break;
        }
        pos := start + offset;
        continue;
      }
      pos := pos + offsetLength;
      offsetLength := RightOffsetLen(flags);
      if symbol > ch {
        var offset := UnpackOffset(data, pos, offsetLength);
        if offset == 0 {
          break;
        }
        pos := start + offset;
        continue;
      }
      pos := pos + offsetLength;
      found := true;
      return;
    }
    flags, pos := 0, 0;
  }

  /** `symbol` holds the bytes of the label shifted out from the most significant one. */
  method Advance(s: Schema, data: seq<byte>, p: nat, symbol: seq<byte>)
      returns (ok: bool, value: Option<nat>, next: Option<nat>)
    requires symbol != []
    ensures (if ok then Advanced(value, next) else Failed) == AdvanceFrom(s, data, p, symbol)
  {
    hide LeapFrom, Skip, TraverseEpsilon, IsFinalFlag, IsNextFlag;
    value, next := None, Some(p);
    var pos: nat := p;
    for i := 0 to |symbol|
      invariant i < |symbol| ==> AdvanceFrom(s, data, pos, symbol[i..]) == AdvanceFrom(s, data, p, symbol)
      invariant i < |symbol|
    {
      var found, flags, q := LeapByte(data, pos, symbol[i]);
      if !found {
        return false, None, None;
      }
      assert symbol[i..][1..] == symbol[i + 1..];
      value, pos := None, q;
      if IsFinalFlag(flags) {
        value, pos := Some(q), q + Skip(s, data, q);
      }
      if !IsNextFlag(flags) {
        return i == |symbol| - 1, value, None;
      }
      pos := TraverseEpsilon(data, pos);
      if i == |symbol| - 1 {
        return true, value, Some(pos);
      }
    }
    ok := false;
  }

  /** Drive Advance over the symbols of a key. */
  method Lookup(s: Schema, data: seq<byte>, key: seq<seq<byte>>) returns (value: Option<nat>)
    requires key != [] && forall k | 0 <= k < |key| :: key[k] != []
    ensures value == LookupFrom(s, data, 0, key)
  {
    var pos: nat := 0;
    for i := 0 to |key|
      invariant i < |key|
      invariant LookupFrom(s, data, pos, key[i..]) == LookupFrom(s, data, 0, key)
    {
      var ok, v, next := Advance(s, data, pos, key[i]);
      assert key[i..][1..] == key[i + 1..];
      if !ok {
        return None;
      }
      if i == |key| - 1 {
        return v;
      }
      if next.None? {
        return None;
      }
      pos := next.value;
    }
    value := None;
  }
}
