/** What a hidden empty key does to the saved bytes: they answer wrongly for a key that was added.
    So the answers are right all along exactly if no empty key is hidden. */
module TrieHidden {
  import opened Wrappers
  import opened Bytes
  import opened Packers
  import opened TrieTree
  import opened TrieCodec
  import opened TrieMap
  import opened TrieReader
  import opened TrieGrouped
  import opened TrieRoundTrip
  import opened TrieEmptyKey
  import opened TrieHistory
  import opened TrieSearch

  // ---- two arcs with one first byte ----

  ghost predicate AllProper(sub: Subtree) {
    sub.ArcSet? && Ordered(sub.arcs) && forall i | 0 <= i < |sub.arcs| :: Proper(sub.arcs[i].node)
  }

  /** The reader stands behind the first byte of an arc. */
  ghost predicate LandsOn(leap: Leap, arc: Arc) {
    && leap.Matched?
    && IsFinalFlag(leap.flags) == (|arc.text| == 1 && arc.node.IsFinal())
    && IsNextFlag(leap.flags) == (|arc.text| > 1 || !arc.node.IsLast())
  }

  /** Where first bytes repeat, the search finds one of the arcs. */
  lemma {:induction false} LeapThroughOrdered(data: seq<byte>, p: nat, sub: Subtree, from: nat, to: nat, b: byte, k: nat)
      returns (i: nat)
    requires AllProper(sub) && from <= k < to <= |sub.arcs| && sub.arcs[k].text[0] == b
    requires StandsAt(data, p, RangeBytes(sub, from, to)) && |RangeBytes(sub, from, to)| < Pow(256, 7)
    ensures from <= i < to && sub.arcs[i].text[0] == b && LandsOn(LeapFrom(data, p, b), sub.arcs[i])
    decreases if to >= from then to - from else 0
  {
    hide RangeBytes, ArcBody, OffsetLength, LeapFrom, SubtreeBytes, StandsAt, Proper;
    var m := (from + to) / 2;
    var text, node := sub.arcs[m].text, sub.arcs[m].node;
    var left, right := ReadRange(data, p, sub, from, to);
    LeapStep(data, p, text, node, left, right, b);
    if b < text[0] {
      i := LeapThroughOrdered(data, p + left, sub, from, m, b, k);
    } else if b > text[0] {
      i := LeapThroughOrdered(data, p + right, sub, m + 1, to, b, k);
    } else {
      i := m;
    }
  }

  // ---- after a hidden empty key ----

  /** The arc of the empty key and the longer arc behind it. */
  lemma HiddenArcs(t: Tree, payload: seq<byte>) returns (i: nat)
    requires WellFormed(t) && Shadowed(t)
    ensures var u := AddEmpty(false, t, payload);
      && AllProper(u.sub) && i + 1 < |u.sub.arcs|
      && u.sub.arcs[i] == Arc([0], Leaf(payload))
      && |u.sub.arcs[i + 1].text| > 1 && u.sub.arcs[i + 1].text[0] == 0
      && forall k | 0 <= k < |u.sub.arcs| && u.sub.arcs[k].text[0] == 0 :: k == i || k == i + 1
  {
    var arcs, arc := t.sub.arcs, Arc([0], Leaf(payload));
    i := LowerBound(arcs, 0);
    InsertIndices(arcs, arc);
    InsertKeepsOrdered(arcs, arc);
    var more := Insert(arcs, arc);
    forall k | 0 <= k < |more| ensures Proper(more[k].node) && (more[k].text[0] == 0 ==> k == i || k == i + 1) {
      assert i == 0 && more[k] == if k == 0 then arc else arcs[k - 1];
    }
  }

  /** Either the empty key is not found in the bytes, or no key that goes on behind it is. */
  lemma HiddenInBytes(s: Schema, t: Tree, payload: seq<byte>, w: nat, bytes: seq<byte>, best: Prefix)
    requires WellFormed(t) && t.sub.ArcSet? && Shadowed(t) && w > 0 && |bytes| > 1 && bytes[0] == 0
    requires |SubtreeBytes(AddEmpty(false, t, payload).sub)| < Pow(256, 7)
    ensures var data := SubtreeBytes(AddEmpty(false, t, payload).sub);
      || EmptyValue(data) == None
      || (exists q: nat :: SearchFrom(s, data, 0, w, bytes, 0, best) == Prefix(Symbols(1, w), Some(q), false))
  {
    hide SubtreeBytes, RangeBytes, LeapFrom, AddEmpty, AllProper, WellFormed, Shadowed, StandsAt, Symbols;
    var u := AddEmpty(false, t, payload);
    var data := SubtreeBytes(u.sub);
    var i := HiddenArcs(t, payload);
    AllStands(data);
    BytesOfArcs(u.sub);
    var k := LeapThroughOrdered(data, 0, u.sub, 0, |u.sub.arcs|, 0, i);
    if k == i {
      var q := LeapFrom(data, 0, 0).pos;
      assert SearchFrom(s, data, 0, w, bytes, 0, best) == Prefix(Symbols(1, w), Some(q), false);
    }
  }

  lemma BytesOfArcs(sub: Subtree)
    requires AllProper(sub)
    ensures sub.ArcSet? && SubtreeBytes(sub) == RangeBytes(sub, 0, |sub.arcs|)
  {
  }

  /** The prefix-grouped builder saves the same bytes. */
  lemma HiddenGrouped(g: Tree, t: Tree, payload: seq<byte>)
    requires Refines(g, t) && g.sub.ArcSet? && Shadowed(t)
    ensures SubtreeBytes(AddEmpty(true, g, payload).sub) == SubtreeBytes(AddEmpty(false, t, payload).sub)
  {
    hide SubtreeBytes, Link, Refines, Shadowed;
    ShadowRefines(g, t);
    LongerArc(g);
    LongerArc(t);
    LinkRefines(g, t, Arc([0], Leaf(payload)));
    RefinesShape(g, t);
    SameBytes(AddEmpty(true, g, payload), AddEmpty(false, t, payload));
  }

  lemma RefinesShape(g: Tree, t: Tree)
    requires Refines(g, t)
    ensures t.sub.ArcSet?
  {
  }

  lemma LongerArc(t: Tree)
    requires Shadowed(t)
    ensures t.sub.ArcSet? && HasArc(t.sub.arcs, 0) && t.sub.arcs[LowerBound(t.sub.arcs, 0)].text != [0]
  {
  }

  lemma NothingSearched(s: Schema, data: seq<byte>, w: nat)
    requires w > 0
    ensures FindIn(s, w, CompactTrie(data, 0, None), []) == None
  {
  }

  /** One byte is not the whole of a longer key. */
  lemma FewSymbols(w: nat, key: seq<nat>)
    requires w > 0 && |KeyBytes(w, key)| > 1
    ensures key != [] && Symbols(1, w) != |key|
  {
    FlatLength(w, key);
  }

  /** A hidden empty key leaves saved bytes, grouped or not, that do not find a key that was added. */
  lemma HiddenIsWrong(grouped: bool, s: Schema, w: nat, adds: seq<Addition>) returns (key: seq<nat>)
    requires AreAdditions(s, w, adds) && adds != [] && adds[|adds| - 1].key == []
    requires var n := |adds| - 1; Unhidden(s, w, adds[..n]) && Hides(Log(s, w, adds[..n]))
    requires BuildKeys(grouped, s, w, adds).Some?
    requires |SubtreeBytes(BuildKeys(grouped, s, w, adds).value.sub)| < Pow(256, 7)
    ensures IsAnyKey(w, key) && LastAdded(w, adds, key).Some?
    ensures FindIn(s, w, Opened(SubtreeBytes(BuildKeys(grouped, s, w, adds).value.sub)), key) == None
  {
    hide Build, SubtreeBytes, WellFormed, Log, Hides, Unhidden, SearchFrom, EmptyValue, Find, Pack, Symbols, AddEmpty, Shadowed, LastValue;
    var n := |adds| - 1;
    assert IsAddition(s, w, adds[n]);
    var log, payload := Log(s, w, adds[..n]), Pack(s, adds[n].value);
    HistoryIsLog(grouped, s, w, adds[..n]);
    BuildIsMap(log, []);
    ShadowedByKeys(log);
    var t := Build(false, log).value;
    if grouped {
      GroupedSavesTheSame(log);
      HiddenGrouped(Build(true, log).value, t, payload);
    }
    var data := SubtreeBytes(AddEmpty(false, t, payload).sub);
    var bytes := KeyLost(t, payload);
    var i := FoundIsLogged(log, bytes);
    LogAt(s, w, adds[..n], i);
    StaysAdded(w, adds, i);
    StaysAdded(w, adds, n);
    key := if EmptyValue(data).None? then [] else adds[i].key;
    if EmptyValue(data).None? {
      NothingSearched(s, data, w);
    } else {
      HiddenInBytes(s, t, payload, w, bytes, Prefix(0, EmptyValue(data), false));
      FewSymbols(w, adds[i].key);
    }
  }

  // ---- histories ----

  /** Looking keys up in the bytes that a history saves gives what was added last. */
  ghost predicate AnswersRight(grouped: bool, s: Schema, w: nat, adds: seq<Addition>)
    requires w > 0 && AreAdditions(s, w, adds) && BuildKeys(grouped, s, w, adds).Some?
  {
    forall key | IsAnyKey(w, key) :: RightAnswer(s, w, adds, SubtreeBytes(BuildKeys(grouped, s, w, adds).value.sub), key)
  }

  ghost predicate RightAnswer(s: Schema, w: nat, adds: seq<Addition>, data: seq<byte>, key: seq<nat>)
    requires w > 0
  {
    match FindIn(s, w, Opened(data), key)
    case None => LastAdded(w, adds, key) == None
    case Some(p) => LastAdded(w, adds, key) == Some(Unpack(s, data, p))
  }

  ghost predicate RightAt(grouped: bool, s: Schema, w: nat, adds: seq<Addition>, n: nat)
    requires w > 0 && AreAdditions(s, w, adds) && n <= |adds| && BuildKeys(grouped, s, w, adds).Some?
  {
    BuildKeys(grouped, s, w, adds[..n]).Some? && AnswersRight(grouped, s, w, adds[..n])
  }

  lemma BuiltBefore(grouped: bool, s: Schema, w: nat, adds: seq<Addition>, n: nat)
    requires AreAdditions(s, w, adds) && n <= |adds| && BuildKeys(grouped, s, w, adds).Some?
    ensures BuildKeys(grouped, s, w, adds[..n]).Some?
  {
    hide BuildKeys;
    if BuildKeys(grouped, s, w, adds[..n]) == None {
      FailedStaysFailed(grouped, s, w, adds, n);
    }
  }

  lemma UnhiddenIsRight(grouped: bool, s: Schema, w: nat, adds: seq<Addition>)
    requires w > 0 && AreAdditions(s, w, adds) && Unhidden(s, w, adds) && BuildKeys(grouped, s, w, adds).Some?
    requires |SubtreeBytes(BuildKeys(grouped, s, w, adds).value.sub)| < Pow(256, 7)
    ensures AnswersRight(grouped, s, w, adds)
  {
    hide BuildKeys, Unhidden, SubtreeBytes, FindIn, Opened, LastAdded, Unpack;
    forall key | IsAnyKey(w, key)
      ensures RightAnswer(s, w, adds, SubtreeBytes(BuildKeys(grouped, s, w, adds).value.sub), key)
    {
      SavedFindIsMap(grouped, s, w, adds, key);
    }
  }

  /** The first hidden empty key. */
  lemma {:induction false} FirstHidden(s: Schema, w: nat, adds: seq<Addition>, n: nat) returns (i: nat)
    requires AreAdditions(s, w, adds) && n <= |adds| && AreAdditions(s, w, adds[..n])
    requires Unhidden(s, w, adds[..n]) && !Unhidden(s, w, adds)
    ensures n <= i < |adds| && adds[i].key == [] && AreAdditions(s, w, adds[..i])
    ensures Unhidden(s, w, adds[..i]) && Hides(Log(s, w, adds[..i]))
    decreases |adds| - n
  {
    hide Hides, Log;
    assert adds[..|adds|] == adds;
    if adds[n].key == [] && Hides(Log(s, w, adds[..n])) {
      i := n;
    } else {
      OneMoreUnhidden(s, w, adds, n);
      i := FirstHidden(s, w, adds, n + 1);
    }
  }

  lemma OneMoreUnhidden(s: Schema, w: nat, adds: seq<Addition>, n: nat)
    requires AreAdditions(s, w, adds) && n < |adds| && Unhidden(s, w, adds[..n])
    requires !(adds[n].key == [] && Hides(Log(s, w, adds[..n])))
    ensures Unhidden(s, w, adds[..n + 1])
  {
    hide Hides, Log;
    var more := adds[..n + 1];
    forall i | 0 <= i < |more| && more[i].key == [] ensures !Hides(Log(s, w, more[..i])) {
      assert more[..i] == adds[..i];
      if i < n {
        assert adds[..n][..i] == adds[..i] && adds[..n][i] == adds[i];
      }
    }
  }

  /** A history that raises no error, grouped or not, can be saved after each of its additions with
      every answer right exactly if it hides no empty key. */
  lemma RightAllAlong(grouped: bool, s: Schema, w: nat, adds: seq<Addition>)
    requires w > 0 && AreAdditions(s, w, adds) && BuildKeys(grouped, s, w, adds).Some?
    requires AllTake(grouped, s, w, adds, Pow(256, 7))
    ensures (forall n | 0 <= n <= |adds| :: RightAt(grouped, s, w, adds, n)) <==> Unhidden(s, w, adds)
  {
    hide BuildKeys, Unhidden, AnswersRight, Hides, Log, SubtreeBytes, Pow;
    if Unhidden(s, w, adds) {
      forall n | 0 <= n <= |adds| ensures RightAt(grouped, s, w, adds, n) {
        BuiltBefore(grouped, s, w, adds, n);
        ShorterUnhidden(s, w, adds, n);
        assert Takes(BuildKeys(grouped, s, w, adds[..n]), Pow(256, 7));
        UnhiddenIsRight(grouped, s, w, adds[..n]);
      }
    } else {
      NoneUnhidden(s, w, adds);
      var i := FirstHidden(s, w, adds, 0);
      HiddenIsNotRight(grouped, s, w, adds, i);
    }
  }

  lemma NoneUnhidden(s: Schema, w: nat, adds: seq<Addition>)
    requires AreAdditions(s, w, adds)
    ensures Unhidden(s, w, adds[..0])
  {
  }

  lemma HiddenIsNotRight(grouped: bool, s: Schema, w: nat, adds: seq<Addition>, i: nat)
    requires w > 0 && AreAdditions(s, w, adds) && i < |adds| && adds[i].key == []
    requires Unhidden(s, w, adds[..i]) && Hides(Log(s, w, adds[..i]))
    requires BuildKeys(grouped, s, w, adds).Some? && AllTake(grouped, s, w, adds, Pow(256, 7))
    ensures !RightAt(grouped, s, w, adds, i + 1)
  {
    hide BuildKeys, Unhidden, Hides, Log, SubtreeBytes, Pow, FindIn, LastAdded, Opened, Unpack;
    BuiltBefore(grouped, s, w, adds, i + 1);
    assert adds[..i + 1][..i] == adds[..i];
    assert Takes(BuildKeys(grouped, s, w, adds[..i + 1]), Pow(256, 7));
    var key := HiddenIsWrong(grouped, s, w, adds[..i + 1]);
    assert !RightAnswer(s, w, adds[..i + 1], SubtreeBytes(BuildKeys(grouped, s, w, adds[..i + 1]).value.sub), key);
  }
}
