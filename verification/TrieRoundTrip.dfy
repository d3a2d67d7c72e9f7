/** From additions to bytes and back: searching the saved trie finds exactly what was added. */
module TrieRoundTrip {
  import opened Wrappers
  import opened Bytes
  import opened Packers
  import opened TrieTree
  import opened TrieCodec
  import opened TrieMap
  import opened TrieReader
  import opened TrieGrouped

  // ---- one symbol ----

  /** Epsilon links come only from minimised tries: a saved range never starts with one. */
  lemma NoEpsilon(s: Schema, data: seq<byte>, p: nat, t: Tree)
    requires Reads(s, data, p, t)
    ensures TraverseEpsilon(data, p) == p
  {
    hide RangeBytes, ArcBytes, OffsetLength;
    var n := |t.sub.arcs|;
    var left, right := ReadRange(data, p, t.sub, 0, n);
    assert Proper(t.sub.arcs[n / 2].node);
  }

  /** What one symbol does to a reader, against where its bytes lead in the tree. */
  ghost predicate AdvanceAgrees(s: Schema, data: seq<byte>, result: Advanced, to: Option<Tree>) {
    match to
    case None => result.Failed?
    case Some(u) =>
      && result.Advanced?
      && result.value.Some? == u.IsFinal()
      && (u.IsFinal() ==> HoldsAt(s, data, result.value.value, u.payload.value))
      && result.next.Some? == !u.IsLast()
      && (!u.IsLast() ==> Reads(s, data, result.next.value, u))
  }

  ghost predicate HoldsAt(s: Schema, data: seq<byte>, p: nat, payload: seq<byte>) {
    IsPacked(s, payload) && StandsAt(data, p, payload)
  }

  lemma {:induction false} AdvanceWalks(s: Schema, data: seq<byte>, p: nat, t: Tree, symbol: seq<byte>)
    requires Reads(s, data, p, t) && symbol != []
    ensures AdvanceAgrees(s, data, AdvanceFrom(s, data, p, symbol), Walk(t, symbol))
    decreases |symbol|
  {
    hide LeapFrom, Reads, TraverseEpsilon, WellFormed, SubtreeBytes, IsPacked, StandsAt, Measure, Pack, Skip, FindArc, Cut, Follow;
    ReadsWellFormed(s, data, p, t);
    var b, rest := symbol[0], symbol[1..];
    Step(s, data, p, t, b);
    if Follow(t, b).Some? {
      var u := Follow(t, b).value;
      FollowKeepsWellFormed(t, b);
      if u.IsFinal() {
        PackedSkips(s, u.payload.value, data, LeapFrom(data, p, b).pos);
      }
      var q := LeapFrom(data, p, b).pos + |PayloadBytes(u)|;
      if !u.IsLast() {
        NoEpsilon(s, data, q, u);
        if rest != [] {
          AdvanceWalks(s, data, q, u, rest);
        }
      } else {
        NothingBelow(u, rest);
      }
    }
  }

  lemma ReadsWellFormed(s: Schema, data: seq<byte>, p: nat, t: Tree)
    requires Reads(s, data, p, t)
    ensures WellFormed(t)
  {
  }

  lemma NothingBelow(t: Tree, key: seq<byte>)
    requires WellFormed(t) && t.IsLast()
    ensures Walk(t, key) == if key == [] then Some(t) else None
  {
  }

  // ---- a key of several symbols ----

  function Flat(key: seq<seq<byte>>): seq<byte> {
    if key == [] then [] else key[0] + Flat(key[1..])
  }

  lemma {:induction false} WalkAppend(t: Tree, a: seq<byte>, b: seq<byte>)
    requires WellFormed(t)
    ensures Walk(t, a).Some? ==> WellFormed(Walk(t, a).value)
    ensures Walk(t, a + b) == match Walk(t, a) case None => None case Some(u) => Walk(u, b)
    decreases |a|
  {
    if a == [] {
      assert a + b == b;
    } else {
      assert (a + b)[1..] == a[1..] + b;
      if Follow(t, a[0]).Some? {
        FollowKeepsWellFormed(t, a[0]);
        WalkAppend(Follow(t, a[0]).value, a[1..], b);
      }
    }
  }

  /** The outcome of a lookup, against where the whole key leads in the tree. */
  ghost predicate LookupAgrees(s: Schema, data: seq<byte>, result: Option<nat>, to: Option<Tree>) {
    && result.Some? == (to.Some? && to.value.IsFinal())
    && (result.Some? ==> HoldsAt(s, data, result.value, to.value.payload.value))
  }

  lemma {:induction false} LookupWalks(s: Schema, data: seq<byte>, p: nat, t: Tree, key: seq<seq<byte>>)
    requires Reads(s, data, p, t)
    requires key != [] && forall k | 0 <= k < |key| :: key[k] != []
    ensures WellFormed(t) && LookupAgrees(s, data, LookupFrom(s, data, p, key), Walk(t, Flat(key)))
    decreases |key|
  {
    hide Reads, AdvanceFrom;
    ReadsWellFormed(s, data, p, t);
    AdvanceWalks(s, data, p, t, key[0]);
    WalkAppend(t, key[0], Flat(key[1..]));
    var u := Walk(t, key[0]);
    if |key| == 1 {
      assert key[0] + Flat(key[1..]) == key[0];
    } else if u.Some? {
      if u.value.IsLast() {
        NothingBelow(u.value, Flat(key[1..]));
      } else {
        LookupWalks(s, data, AdvanceFrom(s, data, p, key[0]).next.value, u.value, key[1..]);
      }
    }
  }

  /** Searching the bytes a well-formed tree saves is searching the tree. */
  lemma LookupIsFind(s: Schema, t: Tree, key: seq<seq<byte>>)
    requires WellFormed(t) && Packed(s, t)
    requires |SubtreeBytes(t.sub)| < Pow(256, 7)
    requires key != [] && forall k | 0 <= k < |key| :: key[k] != []
    ensures var data := SubtreeBytes(t.sub);
      var result := LookupFrom(s, data, 0, key);
      && result.Some? == Find(t, Flat(key)).Some?
      && (result.Some? ==> HoldsAt(s, data, result.value, Find(t, Flat(key)).value))
  {
    WalkFinds(t, Flat(key));
    if t.IsLast() {
      NothingBelow(t, Flat(key));
      assert key[0] + Flat(key[1..]) != [];
    } else {
      assert Reads(s, SubtreeBytes(t.sub), 0, t);
      LookupWalks(s, SubtreeBytes(t.sub), 0, t, key);
    }
  }

  // ---- from additions to lookups ----

  /** A key of symbols of `w` bytes each, and the value added under it. */
  datatype Addition = Addition(key: seq<nat>, value: Value)

  ghost predicate IsKey(w: nat, key: seq<nat>) {
    w > 0 && key != [] && forall k :: 0 <= k < |key| ==> key[k] < Pow(256, w)
  }

  /** A key of symbols of `w` bytes, or the empty one. */
  ghost predicate IsAnyKey(w: nat, key: seq<nat>) {
    w > 0 && forall k :: 0 <= k < |key| ==> key[k] < Pow(256, w)
  }

  ghost predicate IsAddition(s: Schema, w: nat, a: Addition) {
    IsAnyKey(w, a.key) && Typed(s, a.value) && Measure(s, a.value) < TWO_64
  }

  ghost predicate AreAdditions(s: Schema, w: nat, adds: seq<Addition>) {
    forall i :: 0 <= i < |adds| ==> IsAddition(s, w, adds[i])
  }

  /** The bytes of each symbol, most significant first. */
  function SymbolBytes(w: nat, key: seq<nat>): (bs: seq<seq<byte>>)
    ensures |bs| == |key| && forall k :: 0 <= k < |key| ==> bs[k] == BigEndian(key[k], w)
  {
    if key == [] then [] else [BigEndian(key[0], w)] + SymbolBytes(w, key[1..])
  }

  /** The bytes a key is kept under; the empty one is kept as one zero byte. */
  function KeyBytes(w: nat, key: seq<nat>): (bytes: seq<byte>)
    requires w > 0
    ensures bytes != []
  {
    if key == [] then [0]
    else
      var symbols := SymbolBytes(w, key);
      assert Flat(symbols) == symbols[0] + Flat(symbols[1..]);
      Flat(symbols)
  }

  function ToEntry(s: Schema, w: nat, a: Addition): Entry
    requires w > 0 && Typed(s, a.value) && Measure(s, a.value) < TWO_64
  {
    Entry(KeyBytes(w, a.key), Pack(s, a.value))
  }

  function Log(s: Schema, w: nat, adds: seq<Addition>): (log: seq<Entry>)
    requires AreAdditions(s, w, adds)
    ensures |log| == |adds|
  {
    if adds == [] then []
    else
      var n := |adds| - 1;
      assert IsAddition(s, w, adds[n]);
      Log(s, w, adds[..n]) + [ToEntry(s, w, adds[n])]
  }

  /** With one-byte symbols, the empty key and "\0" are one key. */
  predicate SameKey(w: nat, a: seq<nat>, b: seq<nat>) {
    a == b || (w == 1 && a in {[], [0]} && b in {[], [0]})
  }

  lemma {:induction false} LogAt(s: Schema, w: nat, adds: seq<Addition>, i: nat)
    requires AreAdditions(s, w, adds) && i < |adds|
    ensures IsAddition(s, w, adds[i]) && Log(s, w, adds)[i] == ToEntry(s, w, adds[i])
  {
    assert IsAddition(s, w, adds[i]);
    if i < |adds| - 1 {
      LogAt(s, w, adds[..|adds| - 1], i);
    }
  }

  /** The last value added under a key. */
  function LastAdded(w: nat, adds: seq<Addition>, key: seq<nat>): Option<Value> {
    if adds == [] then None
    else
      var n := |adds| - 1;
      if SameKey(w, adds[n].key, key) then Some(adds[n].value) else LastAdded(w, adds[..n], key)
  }

  lemma {:induction false} StaysAdded(w: nat, adds: seq<Addition>, i: nat)
    requires i < |adds|
    ensures LastAdded(w, adds, adds[i].key).Some?
  {
    if i < |adds| - 1 {
      StaysAdded(w, adds[..|adds| - 1], i);
    }
  }

  lemma {:induction false} BigEndianInjective(u: nat, v: nat, w: nat)
    requires u < Pow(256, w) && v < Pow(256, w) && BigEndian(u, w) == BigEndian(v, w)
    ensures u == v
  {
    DecodeBigEndian(BigEndian(u, w), 0, u, w);
    DecodeBigEndian(BigEndian(v, w), 0, v, w);
    HighZero(u, w);
    HighZero(v, w);
  }

  /** Distinct keys have distinct bytes. */
  lemma {:induction false} FlatInjective(w: nat, a: seq<nat>, b: seq<nat>)
    requires w > 0
    requires forall k :: 0 <= k < |a| ==> a[k] < Pow(256, w)
    requires forall k :: 0 <= k < |b| ==> b[k] < Pow(256, w)
    requires Flat(SymbolBytes(w, a)) == Flat(SymbolBytes(w, b))
    ensures a == b
    decreases |a|
  {
    hide Flat, SymbolBytes, BigEndian;
    FlatLength(w, a);
    FlatLength(w, b);
    if a != [] && b != [] {
      FirstSymbol(w, a);
      FirstSymbol(w, b);
      var x, y := Flat(SymbolBytes(w, a)), Flat(SymbolBytes(w, b));
      assert BigEndian(a[0], w) == x[..w] && BigEndian(b[0], w) == y[..w];
      assert Flat(SymbolBytes(w, a[1..])) == x[w..] && Flat(SymbolBytes(w, b[1..])) == y[w..];
      BigEndianInjective(a[0], b[0], w);
      FlatInjective(w, a[1..], b[1..]);
      assert a == [a[0]] + a[1..] && b == [b[0]] + b[1..];
    } else if a != [] {
      SomeLength(w, |a|);
    } else if b != [] {
      SomeLength(w, |b|);
    }
  }

  lemma FirstSymbol(w: nat, key: seq<nat>)
    requires key != []
    ensures Flat(SymbolBytes(w, key)) == BigEndian(key[0], w) + Flat(SymbolBytes(w, key[1..]))
  {
    assert SymbolBytes(w, key)[1..] == SymbolBytes(w, key[1..]);
  }

  lemma SomeLength(w: nat, n: nat)
    ensures w > 0 && n > 0 ==> w * n > 0
  {
  }

  /** The length of a key's bytes. */
  lemma {:induction false} FlatLength(w: nat, key: seq<nat>)
    ensures |Flat(SymbolBytes(w, key))| == w * |key|
  {
    if key != [] {
      assert SymbolBytes(w, key)[1..] == SymbolBytes(w, key[1..]);
      FlatLength(w, key[1..]);
      assert w * |key| == w + w * |key[1..]|;
    }
  }

  /** Only the empty key shares its bytes with another key, and only with "\0" of one byte. */
  lemma SameKeySameBytes(w: nat, a: seq<nat>, b: seq<nat>)
    requires IsAnyKey(w, a) && IsAnyKey(w, b)
    ensures KeyBytes(w, a) == KeyBytes(w, b) <==> SameKey(w, a, b)
  {
    if a != [] && b != [] {
      if KeyBytes(w, a) == KeyBytes(w, b) {
        FlatInjective(w, a, b);
      }
    } else if a != b {
      var c := if a == [] then b else a;
      ZeroBytes(w, c);
    }
  }

  lemma ZeroBytes(w: nat, key: seq<nat>)
    requires IsAnyKey(w, key) && key != []
    ensures KeyBytes(w, key) == [0] <==> w == 1 && key == [0]
  {
    FlatLength(w, key);
    if w == 1 && |key| == 1 {
      assert Flat(SymbolBytes(1, key)) == BigEndian(key[0], 1) + Flat(SymbolBytes(1, key)[1..]);
      assert BigEndian(key[0], 1) == BigEndian(key[0] / 256, 0) + [key[0] % 256];
      assert Pow(256, 1) == 256 * Pow(256, 0);
    } else {
      assert w * |key| > 1 by {
        assert w * |key| >= w * 1 && w * |key| >= 1 * |key|;
      }
    }
  }

  /** The log of bytes gives a key's bytes the packed value last added under the key. */
  lemma {:induction false} LogFollowsAdditions(s: Schema, w: nat, adds: seq<Addition>, key: seq<nat>)
    requires AreAdditions(s, w, adds) && IsAnyKey(w, key)
    ensures match LastAdded(w, adds, key)
      case None => LastValue(Log(s, w, adds), KeyBytes(w, key)) == None
      case Some(v) =>
        && Typed(s, v) && Measure(s, v) < TWO_64
        && LastValue(Log(s, w, adds), KeyBytes(w, key)) == Some(Pack(s, v))
  {
    if adds != [] {
      var n := |adds| - 1;
      var log := Log(s, w, adds);
      assert IsAddition(s, w, adds[n]);
      assert log[..n] == Log(s, w, adds[..n]) && log[n] == ToEntry(s, w, adds[n]);
      LogFollowsAdditions(s, w, adds[..n], key);
      SameKeySameBytes(w, adds[n].key, key);
    }
  }

  lemma {:induction false} AddKeepsPacked(s: Schema, t: Tree, key: seq<byte>, payload: seq<byte>)
    requires Packed(s, t) && IsPacked(s, payload) && Add(false, t, key, payload).Some?
    ensures Packed(s, Add(false, t, key, payload).value)
    decreases |key|
  {
    hide LowerBound, Insert, IsPacked, Common;
    if key != [] {
      var arcs := t.sub.arcs;
      if HasArc(arcs, key[0]) {
        var i := LowerBound(arcs, key[0]);
        assert Packed(s, arcs[i].node);
        AddKeepsPacked(s, Cut(arcs[i], Common(key, arcs[i].text)), key[Common(key, arcs[i].text)..], payload);
      } else {
        InsertKeepsPacked(s, t, Arc(key, Leaf(payload)));
      }
    }
  }

  lemma InsertKeepsPacked(s: Schema, t: Tree, arc: Arc)
    requires Packed(s, t) && t.sub.ArcSet? && Packed(s, arc.node)
    ensures Packed(s, t.(sub := ArcSet(Insert(t.sub.arcs, arc))))
  {
    InsertIndices(t.sub.arcs, arc);
    var more, i := Insert(t.sub.arcs, arc), LowerBound(t.sub.arcs, arc.text[0]);
    forall k | 0 <= k < |more| ensures Packed(s, more[k].node) {
      assert more[k] == if k < i then t.sub.arcs[k] else if k == i then arc else t.sub.arcs[k - 1];
    }
  }

  lemma {:induction false} BuildIsPacked(s: Schema, w: nat, adds: seq<Addition>)
    requires AreAdditions(s, w, adds)
    ensures Build(false, Log(s, w, adds)).Some? && Packed(s, Build(false, Log(s, w, adds)).value)
  {
    var log := Log(s, w, adds);
    if adds != [] {
      var n := |adds| - 1;
      assert IsAddition(s, w, adds[n]);
      assert log[..n] == Log(s, w, adds[..n]) && log[n] == ToEntry(s, w, adds[n]);
      BuildIsPacked(s, w, adds[..n]);
      BuildIsMap(log, []);
      AddKeepsPacked(s, Build(false, log[..n]).value, log[n].key, log[n].payload);
    }
  }

  /** A log of additions that raised no error, grouped or not, with the empty key as its one byte:
      looking a key up in the saved bytes finds it exactly if it was added, with the last value
      added. */
  lemma LogIsMap(grouped: bool, s: Schema, w: nat, adds: seq<Addition>, key: seq<nat>)
    requires AreAdditions(s, w, adds) && IsKey(w, key)
    requires Build(grouped, Log(s, w, adds)).Some?
    requires |SubtreeBytes(Build(grouped, Log(s, w, adds)).value.sub)| < Pow(256, 7)
    ensures var data := SubtreeBytes(Build(grouped, Log(s, w, adds)).value.sub);
      var result := LookupFrom(s, data, 0, SymbolBytes(w, key));
      match LastAdded(w, adds, key)
      case None => result.None?
      case Some(v) => result.Some? && Unpack(s, data, result.value) == v
  {
    var log := Log(s, w, adds);
    if grouped {
      GroupedSavesTheSame(log);
    }
    var t := Build(false, log).value;
    BuildIsMap(log, KeyBytes(w, key));
    BuildIsPacked(s, w, adds);
    LogFollowsAdditions(s, w, adds, key);
    LookupIsFind(s, t, SymbolBytes(w, key));
    var data := SubtreeBytes(t.sub);
    var result := LookupFrom(s, data, 0, SymbolBytes(w, key));
    if LastAdded(w, adds, key).Some? {
      PackerLaw(s, LastAdded(w, adds, key).value, data, result.value);
    }
  }
}
