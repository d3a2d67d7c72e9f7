/** TCompactTrie: searching saved bytes for the longest prefix of a key, with the empty key that
    Init keeps, and the part of a trie behind a key. */
module TrieSearch {
  import opened Wrappers
  import opened Bytes
  import opened Packers
  import opened TrieTree
  import opened TrieCodec
  import opened TrieMap
  import opened TrieReader
  import opened TrieRoundTrip
  import opened TrieHistory

  /** Saved bytes from `start` on, and where the value of the empty key stands. */
  datatype CompactTrie = CompactTrie(data: seq<byte>, start: nat, emptyValue: Option<nat>)

  /** The longest prefix found so far, in symbols. */
  datatype Prefix = Prefix(length: nat, value: Option<nat>, hasNext: bool)

  /** The whole symbols in `n` bytes. */
  function Symbols(n: nat, w: nat): nat
    requires w > 0
  {
    if n < w then 0 else 1 + Symbols(n - w, w)
  }

  function EmptyValue(data: seq<byte>): Option<nat> {
    match LeapFrom(data, 0, 0)
    case NoArc => None
    case Matched(flags, pos) => if IsFinalFlag(flags) then Some(pos) else None
  }

  /** Follow `bytes` from `p`, `done` bytes into the key; every value passed is a longer prefix. */
  function SearchFrom(s: Schema, data: seq<byte>, p: nat, w: nat, bytes: seq<byte>, done: nat, best: Prefix): Prefix
    requires w > 0
    decreases |bytes|
  {
    if bytes == [] then best
    else
      match LeapFrom(data, p, bytes[0])
      case NoArc => best
      case Matched(flags, q) =>
        var best' := if IsFinalFlag(flags) then Prefix(Symbols(done + 1, w), Some(q), IsNextFlag(flags)) else best;
        var q' := if IsFinalFlag(flags) then q + Skip(s, data, q) else q;
        if IsNextFlag(flags) then SearchFrom(s, data, q', w, bytes[1..], done + 1, best') else best'
  }

  function LongestPrefix(s: Schema, w: nat, trie: CompactTrie, key: seq<nat>): Prefix
    requires w > 0
  {
    SearchFrom(s, trie.data, trie.start, w, Flat(SymbolBytes(w, key)), 0, Prefix(0, trie.emptyValue, false))
  }

  /** A prefix that is not the whole key does not count. */
  function FindIn(s: Schema, w: nat, trie: CompactTrie, key: seq<nat>): Option<nat>
    requires w > 0
  {
    var found := LongestPrefix(s, w, trie, key);
    if found.length == |key| then found.value else None
  }

  // ---- against the tree ----

  lemma FindFollows(t: Tree, key: seq<byte>)
    requires WellFormed(t) && key != []
    ensures Find(t, key) == match Follow(t, key[0]) case None => None case Some(u) => Find(u, key[1..])
  {
    if Follow(t, key[0]).Some? {
      var arc := FindArc(t.sub.arcs, key[0]).value;
      assert arc.text[..1] == [key[0]];
      FindThroughCut(arc, 1, key);
    }
  }

  /** Some key goes on behind `key`. */
  ghost predicate Continues(t: Tree, key: seq<byte>) {
    exists more: seq<byte> :: more != [] && Find(t, key + more).Some?
  }

  lemma ContinuesHere(t: Tree)
    requires Proper(t)
    ensures Continues(t, []) <==> !t.IsLast()
  {
    if t.IsLast() {
      forall more: seq<byte> | more != [] ensures Find(t, [] + more) == None {
        assert [] + more == more;
        FindNothing(t, more);
      }
    } else {
      var arc := t.sub.arcs[0];
      assert Proper(arc.node);
      var key := SomeKey(arc.node);
      BoundIs(t.sub.arcs, arc.text[0], 0);
      var more := arc.text + key;
      assert more[0] == arc.text[0] && arc.text <= more && more[|arc.text|..] == key;
      assert FindArc(t.sub.arcs, more[0]) == Some(arc);
      assert Find(t, [] + more) == Find(arc.node, key) by { assert [] + more == more; }
    }
  }

  lemma FindNothing(t: Tree, key: seq<byte>)
    requires WellFormed(t) && t.IsLast() && key != []
    ensures Find(t, key) == None
  {
  }

  lemma ContinuesBelow(t: Tree, b: byte, key: seq<byte>)
    requires WellFormed(t) && Follow(t, b).Some?
    ensures Continues(t, [b] + key) <==> Continues(Follow(t, b).value, key)
  {
    forall more: seq<byte> ensures Find(t, [b] + key + more) == Find(Follow(t, b).value, key + more) {
      assert ([b] + key + more)[1..] == key + more;
      FindFollows(t, [b] + key + more);
    }
  }

  ghost predicate NoneLonger(t: Tree, bytes: seq<byte>, n: nat)
    requires n <= |bytes|
  {
    forall m | n < m <= |bytes| :: Find(t, bytes[..m]) == None
  }

  /** Where a search of `bytes` that began with `best` has ended. */
  ghost predicate Ended(s: Schema, data: seq<byte>, w: nat, t: Tree, bytes: seq<byte>, done: nat, best: Prefix,
      r: Prefix, n: nat)
    requires w > 0 && n <= |bytes|
  {
    if n == 0 then r == best
    else
      && Find(t, bytes[..n]).Some? && r.length == Symbols(done + n, w)
      && r.value.Some? && HoldsAt(s, data, r.value.value, Find(t, bytes[..n]).value)
      && r.hasNext == Continues(t, bytes[..n])
  }

  /** The search stops at the longest prefix, of at least one byte, that is in the tree. */
  lemma {:induction false} SearchWalks(s: Schema, data: seq<byte>, p: nat, w: nat, t: Tree, bytes: seq<byte>, done: nat,
      best: Prefix) returns (n: nat)
    requires w > 0 && Reads(s, data, p, t)
    ensures n <= |bytes| && NoneLonger(t, bytes, n)
    ensures Ended(s, data, w, t, bytes, done, best, SearchFrom(s, data, p, w, bytes, done, best), n)
    decreases |bytes|
  {
    hide LeapFrom, Reads, Find, Follow, WellFormed, Proper, SubtreeBytes, StandsAt, Continues, HoldsAt, Skip;
    n := 0;
    if bytes != [] {
      ReadsWellFormed(s, data, p, t);
      Step(s, data, p, t, bytes[0]);
      if Follow(t, bytes[0]).None? {
        NoneUnder(t, bytes);
      } else {
        n := SearchWalksOn(s, data, p, w, t, bytes, done, best);
      }
    }
  }

  lemma {:induction false} SearchWalksOn(s: Schema, data: seq<byte>, p: nat, w: nat, t: Tree, bytes: seq<byte>, done: nat,
      best: Prefix) returns (n: nat)
    requires w > 0 && Reads(s, data, p, t) && bytes != [] && WellFormed(t)
    requires Follow(t, bytes[0]).Some? && StepAgrees(s, data, LeapFrom(data, p, bytes[0]), Follow(t, bytes[0]))
    ensures n <= |bytes| && NoneLonger(t, bytes, n)
    ensures Ended(s, data, w, t, bytes, done, best, SearchFrom(s, data, p, w, bytes, done, best), n)
    decreases |bytes|, 0
  {
    hide LeapFrom, Reads, Find, Follow, WellFormed, Proper, SubtreeBytes, StandsAt, Continues, Skip, IsPacked, Ended, NoneLonger;
    var u, leap, rest := Follow(t, bytes[0]).value, LeapFrom(data, p, bytes[0]), bytes[1..];
    FollowKeepsWellFormed(t, bytes[0]);
    if u.IsFinal() {
      PackedSkips(s, u.payload.value, data, leap.pos);
    }
    var best' := Passing(w, u, done, best, leap.pos);
    n := 0;
    if !u.IsLast() {
      n := SearchWalks(s, data, leap.pos + |PayloadBytes(u)|, w, u, rest, done + 1, best');
    } else {
      NoneBelow(u, rest);
      EndsHere(s, data, w, u, rest, done + 1, best');
    }
    n := OneByteBack(s, data, w, t, bytes, done, best, best', leap.pos, SearchFrom(s, data, p, w, bytes, done, best), n);
  }

  function Passing(w: nat, u: Tree, done: nat, best: Prefix, q: nat): Prefix
    requires w > 0
  {
    if u.IsFinal() then Prefix(Symbols(done + 1, w), Some(q), !u.IsLast()) else best
  }

  lemma EndsHere(s: Schema, data: seq<byte>, w: nat, t: Tree, bytes: seq<byte>, done: nat, best: Prefix)
    requires w > 0
    ensures Ended(s, data, w, t, bytes, done, best, best, 0)
  {
  }

  lemma NoneBelow(t: Tree, bytes: seq<byte>)
    requires Proper(t) && t.IsLast()
    ensures NoneLonger(t, bytes, 0)
  {
    forall m | 0 < m <= |bytes| ensures Find(t, bytes[..m]) == None {
      FindNothing(t, bytes[..m]);
    }
  }

  lemma NoneUnder(t: Tree, bytes: seq<byte>)
    requires WellFormed(t) && bytes != [] && Follow(t, bytes[0]).None?
    ensures NoneLonger(t, bytes, 0)
  {
    forall m | 0 < m <= |bytes| ensures Find(t, bytes[..m]) == None {
      FindFollows(t, bytes[..m]);
    }
  }

  /** What was found below the first byte, seen from above it. */
  lemma OneByteBack(s: Schema, data: seq<byte>, w: nat, t: Tree, bytes: seq<byte>, done: nat, best: Prefix, best': Prefix,
      q: nat, r: Prefix, n': nat) returns (n: nat)
    requires w > 0 && WellFormed(t) && bytes != [] && Follow(t, bytes[0]).Some? && n' <= |bytes| - 1
    requires var u := Follow(t, bytes[0]).value;
      && Proper(u) && NoneLonger(u, bytes[1..], n') && Ended(s, data, w, u, bytes[1..], done + 1, best', r, n')
      && (u.IsFinal() ==> HoldsAt(s, data, q, u.payload.value))
      && best' == Passing(w, u, done, best, q)
    ensures n <= |bytes| && NoneLonger(t, bytes, n) && Ended(s, data, w, t, bytes, done, best, r, n)
  {
    hide Follow, WellFormed, Proper, Continues, HoldsAt;
    var u, rest := Follow(t, bytes[0]).value, bytes[1..];
    forall m: nat | 0 < m <= |bytes| ensures Find(t, bytes[..m]) == Find(u, rest[..m - 1]) {
      assert bytes[..m][1..] == rest[..m - 1];
      FindFollows(t, bytes[..m]);
    }
    n := if n' > 0 then n' + 1 else if u.IsFinal() then 1 else 0;
    if n > 0 {
      assert bytes[..n] == [bytes[0]] + rest[..n - 1];
      ContinuesBelow(t, bytes[0], rest[..n - 1]);
    }
    ContinuesHere(u);
  }

  // ---- against the additions ----

  /** The trie that Init makes of saved bytes. */
  function Opened(data: seq<byte>): CompactTrie {
    CompactTrie(data, 0, EmptyValue(data))
  }

  lemma {:induction false} FlatPrefix(w: nat, key: seq<nat>, k: nat)
    requires k <= |key|
    ensures w * k <= |Flat(SymbolBytes(w, key))| == w * |key|
    ensures Flat(SymbolBytes(w, key[..k])) == Flat(SymbolBytes(w, key))[..w * k]
  {
    hide Flat, SymbolBytes, BigEndian;
    FlatLength(w, key);
    FlatLength(w, key[..k]);
    assert w * |key| == w * k + w * (|key| - k);
    if k > 0 {
      FlatPrefix(w, key[1..], k - 1);
      assert key[..k][1..] == key[1..][..k - 1];
      FirstSymbol(w, key);
      FirstSymbol(w, key[..k]);
      assert w * k == w + w * (k - 1);
    }
  }

  /** Only additions put a key's bytes into the log, or the one byte of the empty key. */
  lemma LoggedLength(s: Schema, w: nat, adds: seq<Addition>, bytes: seq<byte>)
    requires AreAdditions(s, w, adds) && w > 0 && LastValue(Log(s, w, adds), bytes).Some?
    ensures bytes == [0] || exists k: nat :: |bytes| == w * k
  {
    var i := LoggedUnder(Log(s, w, adds), bytes);
    LogAt(s, w, adds, i);
    var key := adds[i].key;
    if key != [] {
      FlatLength(w, key);
    }
  }

  lemma {:induction false} SymbolsOf(w: nat, k: nat, j: nat)
    requires j < w
    ensures Symbols(w * k + j, w) == k
    decreases k
  {
    if k > 0 {
      assert w * k + j == w + (w * (k - 1) + j);
      SymbolsOf(w, k - 1, j);
    }
  }

  /** What a search of the longest prefix promises of a key. */
  ghost predicate PrefixAgrees(s: Schema, w: nat, adds: seq<Addition>, data: seq<byte>, key: seq<nat>, r: Prefix) {
    && r.length <= |key|
    && (forall k | r.length < k <= |key| :: LastAdded(w, adds, key[..k]) == None)
    && match LastAdded(w, adds, key[..r.length])
       case None => r.length == 0 && r.value == None
       case Some(v) => r.value.Some? && Unpack(s, data, r.value.value) == v
  }

  lemma HeldIsAdded(s: Schema, w: nat, adds: seq<Addition>, t: Tree, key: seq<nat>, data: seq<byte>, p: nat)
    requires IsBuilt(s, w, adds, t) && IsAnyKey(w, key)
    ensures LastAdded(w, adds, key) == None <==> Find(t, KeyBytes(w, key)) == None
    ensures Find(t, KeyBytes(w, key)).Some? && HoldsAt(s, data, p, Find(t, KeyBytes(w, key)).value) ==>
      LastAdded(w, adds, key) == Some(Unpack(s, data, p))
  {
    hide Find, WellFormed, Packed, SubtreeBytes, KeyBytes, LastAdded, Log, Pack, Unpack, Measure, Typed, LastValue, IsPacked;
    LogFollowsAdditions(s, w, adds, key);
    if LastAdded(w, adds, key).Some? && StandsAt(data, p, Find(t, KeyBytes(w, key)).value) {
      PackerLaw(s, LastAdded(w, adds, key).value, data, p);
    }
  }

  /** Init finds the empty key where the tree has it. */
  lemma EmptyValueHolds(s: Schema, t: Tree)
    requires WellFormed(t) && Packed(s, t) && |SubtreeBytes(t.sub)| < Pow(256, 7)
    ensures var data := SubtreeBytes(t.sub);
      match Find(t, [0])
      case None => EmptyValue(data) == None
      case Some(payload) => EmptyValue(data).Some? && HoldsAt(s, data, EmptyValue(data).value, payload)
  {
    hide SubtreeBytes, LeapFrom, WellFormed, Find, Follow, IsPacked, StandsAt;
    var data := SubtreeBytes(t.sub);
    if t.IsLast() {
      FindNothing(t, [0]);
      NoBytes(t);
    } else {
      assert StandsAt(data, 0, data) by { hide *; AllStands(data); }
      Step(s, data, 0, t, 0);
      FindFollows(t, [0]);
      if Follow(t, 0).Some? {
        NoKeyLeft(Follow(t, 0).value);
      }
    }
  }

  lemma NoKeyLeft(u: Tree)
    ensures Find(u, [0][1..]) == u.payload
    ensures u.IsFinal() ==> PayloadBytes(u) == u.payload.value
  {
  }

  lemma AllStands(data: seq<byte>)
    ensures StandsAt(data, 0, data)
  {
  }

  lemma SomeBytes(t: Tree)
    requires WellFormed(t) && !t.IsLast()
    ensures SubtreeBytes(t.sub) != []
  {
    RangeNonEmpty(t.sub, 0, |t.sub.arcs|);
  }

  lemma NoBytes(t: Tree)
    requires WellFormed(t) && t.IsLast()
    ensures SubtreeBytes(t.sub) == [] && LeapFrom([], 0, 0) == NoArc
  {
  }

  /** After any sequence of additions that raised no error and hid no empty key, searching the saved bytes for a key
      finds its longest prefix that was added, the empty one included, and the value last added
      under that. */
  lemma SavedPrefixIsLongest(grouped: bool, s: Schema, w: nat, adds: seq<Addition>, key: seq<nat>)
    requires AreAdditions(s, w, adds) && IsAnyKey(w, key)
    requires Unhidden(s, w, adds) && BuildKeys(grouped, s, w, adds).Some?
    requires |SubtreeBytes(BuildKeys(grouped, s, w, adds).value.sub)| < Pow(256, 7)
    ensures var data := SubtreeBytes(BuildKeys(grouped, s, w, adds).value.sub);
      PrefixAgrees(s, w, adds, data, key, LongestPrefix(s, w, Opened(data), key))
  {
    hide BuildKeys, Unhidden, SubtreeBytes, PrefixAgrees, LongestPrefix, Opened, IsBuilt;
    var t := BuiltTree(grouped, s, w, adds);
    PrefixInTree(s, w, adds, t, key);
  }

  lemma PrefixInTree(s: Schema, w: nat, adds: seq<Addition>, t: Tree, key: seq<nat>)
    requires IsBuilt(s, w, adds, t) && IsAnyKey(w, key)
    ensures var data := SubtreeBytes(t.sub); PrefixAgrees(s, w, adds, data, key, LongestPrefix(s, w, Opened(data), key))
  {
    hide SubtreeBytes, SearchFrom, WellFormed, Packed, Find, EmptyValue, LastValue, Log, Flat, SymbolBytes, PrefixAgrees, StandsAt;
    var data, bytes := SubtreeBytes(t.sub), Flat(SymbolBytes(w, key));
    var best := Prefix(0, EmptyValue(data), false);
    EmptyValueHolds(s, t);
    var n := 0;
    if t.IsLast() {
      NoBytes(t);
      NothingIn(s, w, t, bytes, best);
    } else {
      AllStands(data);
      n := SearchWalks(s, data, 0, w, t, bytes, 0, best);
    }
    EndedAgrees(s, w, adds, t, key, SearchFrom(s, data, 0, w, bytes, 0, best), n);
  }

  lemma NothingIn(s: Schema, w: nat, t: Tree, bytes: seq<byte>, best: Prefix)
    requires w > 0 && WellFormed(t) && t.IsLast()
    ensures SearchFrom(s, [], 0, w, bytes, 0, best) == best && NoneLonger(t, bytes, 0)
  {
    forall m | 0 < m <= |bytes| ensures Find(t, bytes[..m]) == None {
      FindNothing(t, bytes[..m]);
    }
  }

  lemma MulMonotone(w: nat, a: nat, b: nat)
    ensures a <= b ==> w * a <= w * b
    ensures a < b && w > 0 ==> w * a < w * b
  {
    if a < b {
      assert w * b == w * a + w * (b - a);
    }
  }

  lemma FlatSome(w: nat, key: seq<nat>)
    requires w > 0 && key != []
    ensures Flat(SymbolBytes(w, key)) != []
  {
    FlatLength(w, key);
    MulMonotone(w, 1, |key|);
  }

  /** The symbols in the `n` bytes found: all of them whole, unless they are the empty key. */
  lemma WholeSymbols(s: Schema, w: nat, adds: seq<Addition>, t: Tree, key: seq<nat>, n: nat) returns (k: nat)
    requires IsBuilt(s, w, adds, t) && IsAnyKey(w, key) && n <= |Flat(SymbolBytes(w, key))|
    requires n > 0 ==> Find(t, Flat(SymbolBytes(w, key))[..n]).Some?
    ensures k <= |key| && k == Symbols(n, w) && n < w * (k + 1)
    ensures if n == 0 then k == 0 else KeyBytes(w, key[..k]) == Flat(SymbolBytes(w, key))[..n]
  {
    hide Find, LastValue, Log, Flat, SymbolBytes, WellFormed, Packed, SubtreeBytes;
    var bytes := Flat(SymbolBytes(w, key));
    k := 0;
    if n > 0 {
      LoggedLength(s, w, adds, bytes[..n]);
      FlatLength(w, key);
      if i: nat :| n == w * i {
        MulMonotone(w, |key| + 1, i);
        MulMonotone(w, |key|, |key| + 1);
        MulMonotone(w, i, i + 1);
        k := i;
        SymbolsOf(w, k, 0);
        FlatPrefix(w, key, k);
      } else {
        assert bytes[..n] == [0] && n == 1;
        assert n == w * 1 <==> w == 1;
      }
    }
  }

  /** From prefixes in bytes to prefixes in symbols. */
  lemma EndedAgrees(s: Schema, w: nat, adds: seq<Addition>, t: Tree, key: seq<nat>, r: Prefix, n: nat)
    requires IsBuilt(s, w, adds, t) && IsAnyKey(w, key)
    requires var data, bytes := SubtreeBytes(t.sub), Flat(SymbolBytes(w, key));
      && n <= |bytes| && NoneLonger(t, bytes, n)
      && (match Find(t, [0])
          case None => EmptyValue(data) == None
          case Some(payload) => EmptyValue(data).Some? && HoldsAt(s, data, EmptyValue(data).value, payload))
      && Ended(s, data, w, t, bytes, 0, Prefix(0, EmptyValue(data), false), r, n)
    ensures PrefixAgrees(s, w, adds, SubtreeBytes(t.sub), key, r)
  {
    hide SubtreeBytes, WellFormed, Packed, Find, EmptyValue, LastValue, Log, Flat, SymbolBytes, HoldsAt, Unpack, LastAdded, Continues;
    var data, bytes := SubtreeBytes(t.sub), Flat(SymbolBytes(w, key));
    var k := WholeSymbols(s, w, adds, t, key, n);
    forall m | k < m <= |key| ensures LastAdded(w, adds, key[..m]) == None {
      FlatPrefix(w, key, m);
      assert w * m > n by { assert w * m >= w * (k + 1) by { MulMonotone(w, k + 1, m); } }
      HeldIsAdded(s, w, adds, t, key[..m], data, 0);
    }
    if r.value.Some? {
      HeldIsAdded(s, w, adds, t, key[..k], data, r.value.value);
    } else {
      HeldIsAdded(s, w, adds, t, key[..k], data, 0);
    }
  }

  // ---- whether keys go on ----

  predicate Beyond(a: seq<byte>, b: seq<byte>) {
    a <= b && a != b
  }

  /** Some addition's key goes on behind these bytes. */
  ghost predicate GoesOn(w: nat, adds: seq<Addition>, bytes: seq<byte>)
    requires w > 0
  {
    exists i | 0 <= i < |adds| :: Beyond(bytes, KeyBytes(w, adds[i].key))
  }

  lemma ContinuesIsAdded(s: Schema, w: nat, adds: seq<Addition>, t: Tree, bytes: seq<byte>)
    requires IsBuilt(s, w, adds, t)
    ensures Continues(t, bytes) <==> GoesOn(w, adds, bytes)
  {
    hide Find, LastValue, Log, WellFormed, Packed, SubtreeBytes, KeyBytes;
    if Continues(t, bytes) {
      var more: seq<byte> :| more != [] && Find(t, bytes + more).Some?;
      var i := LoggedUnder(Log(s, w, adds), bytes + more);
      LogAt(s, w, adds, i);
      assert Beyond(bytes, KeyBytes(w, adds[i].key));
    }
    if GoesOn(w, adds, bytes) {
      var i :| 0 <= i < |adds| && Beyond(bytes, KeyBytes(w, adds[i].key));
      var key := KeyBytes(w, adds[i].key);
      LogAt(s, w, adds, i);
      StaysLogged(Log(s, w, adds), i);
      assert key == bytes + key[|bytes|..];
    }
  }

  /** What the search says of further keys: whether some go on behind the prefix found. For the
      empty prefix it says so only if the key begins, within its first symbol, with the byte 0. */
  ghost predicate NextAgrees(w: nat, adds: seq<Addition>, key: seq<nat>, r: Prefix)
    requires w > 0 && r.length <= |key|
  {
    if r.length > 0 then r.hasNext <==> GoesOn(w, adds, KeyBytes(w, key[..r.length]))
    else r.hasNext <==> w > 1 && key != [] && KeyBytes(w, key)[0] == 0 && LastAdded(w, adds, []).Some? && GoesOn(w, adds, [0])
  }

  lemma NextIsRight(s: Schema, w: nat, adds: seq<Addition>, t: Tree, key: seq<nat>)
    requires IsBuilt(s, w, adds, t) && IsAnyKey(w, key)
    ensures var r := LongestPrefix(s, w, Opened(SubtreeBytes(t.sub)), key);
      r.length <= |key| && NextAgrees(w, adds, key, r)
  {
    hide SubtreeBytes, SearchFrom, WellFormed, Packed, Find, EmptyValue, LastValue, Log, Flat, SymbolBytes, NextAgrees, StandsAt;
    var data, bytes := SubtreeBytes(t.sub), Flat(SymbolBytes(w, key));
    var best := Prefix(0, EmptyValue(data), false);
    var n := 0;
    if t.IsLast() {
      NoBytes(t);
      NothingIn(s, w, t, bytes, best);
    } else {
      AllStands(data);
      n := SearchWalks(s, data, 0, w, t, bytes, 0, best);
    }
    EndedNext(s, w, adds, t, key, best, SearchFrom(s, data, 0, w, bytes, 0, best), n);
  }

  lemma EndedNext(s: Schema, w: nat, adds: seq<Addition>, t: Tree, key: seq<nat>, best: Prefix, r: Prefix, n: nat)
    requires IsBuilt(s, w, adds, t) && IsAnyKey(w, key) && best.length == 0 && !best.hasNext
    requires var data, bytes := SubtreeBytes(t.sub), Flat(SymbolBytes(w, key));
      && n <= |bytes| && NoneLonger(t, bytes, n) && Ended(s, data, w, t, bytes, 0, best, r, n)
    ensures r.length <= |key| && NextAgrees(w, adds, key, r)
  {
    hide SubtreeBytes, WellFormed, Packed, Find, LastValue, Log, Flat, SymbolBytes, HoldsAt, LastAdded, Continues, GoesOn;
    var bytes := Flat(SymbolBytes(w, key));
    var k := WholeSymbols(s, w, adds, t, key, n);
    HeldIsAdded(s, w, adds, t, [], [], 0);
    if n > 0 {
      ContinuesIsAdded(s, w, adds, t, bytes[..n]);
      if k == 0 {
        assert key[..k] == [];
        assert bytes[..n] == [0] && bytes[0] == 0;
        assert w > 1;
        FlatLength(w, key);
        assert key != [];
      }
    } else if key != [] {
      FlatLength(w, key);
      MulMonotone(w, 1, |key|);
      assert bytes[..1] == [bytes[0]];
    }
  }

  /** Another key that was added begins with `p`. */
  ghost predicate More(w: nat, adds: seq<Addition>, p: seq<nat>) {
    exists i | 0 <= i < |adds| :: GoesFurther(w, p, adds[i].key)
  }

  predicate GoesFurther(w: nat, p: seq<nat>, key: seq<nat>) {
    p <= key && !SameKey(w, p, key)
  }

  /** Prefixes in symbols are prefixes in bytes. */
  lemma MoreInBytes(w: nat, p: seq<nat>, key: seq<nat>)
    requires IsAnyKey(w, p) && IsAnyKey(w, key)
    ensures p != [] ==> (GoesFurther(w, p, key) <==> Beyond(KeyBytes(w, p), KeyBytes(w, key)))
    ensures Beyond(KeyBytes(w, p), KeyBytes(w, key)) ==> key != []
    ensures p == [] && Beyond(KeyBytes(w, p), KeyBytes(w, key)) ==> GoesFurther(w, p, key)
  {
    hide Flat, SymbolBytes;
    SameKeySameBytes(w, p, key);
    FlatLength(w, p);
    FlatLength(w, key);
    MulMonotone(w, 1, |p|);
    if p != [] && key != [] {
      MulMonotone(w, |key| + 1, |p|);
      MulMonotone(w, |key|, |key| + 1);
      if |p| <= |key| {
        FlatPrefix(w, key, |p|);
        var start := key[..|p|];
        SameKeySameBytes(w, p, start);
        assert KeyBytes(w, start) == KeyBytes(w, key)[..w * |p|];
        assert p <= key <==> p == start;
        assert KeyBytes(w, p) <= KeyBytes(w, key) <==> KeyBytes(w, p) == KeyBytes(w, start);
        if KeyBytes(w, p) == KeyBytes(w, start) {
          FlatInjective(w, p, start);
        }
      }
    }
  }

  lemma MoreIsBeyond(s: Schema, w: nat, adds: seq<Addition>, p: seq<nat>)
    requires AreAdditions(s, w, adds) && IsAnyKey(w, p)
    ensures p != [] ==> (More(w, adds, p) <==> GoesOn(w, adds, KeyBytes(w, p)))
    ensures p == [] && GoesOn(w, adds, KeyBytes(w, p)) ==> More(w, adds, p)
  {
    hide KeyBytes, GoesFurther, Beyond;
    forall i | 0 <= i < |adds|
      ensures p != [] ==> (GoesFurther(w, p, adds[i].key) <==> Beyond(KeyBytes(w, p), KeyBytes(w, adds[i].key)))
      ensures p == [] && Beyond(KeyBytes(w, p), KeyBytes(w, adds[i].key)) ==> GoesFurther(w, p, adds[i].key)
    {
      assert IsAddition(s, w, adds[i]);
      MoreInBytes(w, p, adds[i].key);
    }
  }

  /** When the answer is right: always behind a prefix that is not empty; behind the empty one, if
      it is the only key, or if symbols are wider than a byte, the key begins with the byte 0 and
      some key goes on behind that byte. */
  ghost predicate NextKnown(w: nat, adds: seq<Addition>, key: seq<nat>, length: nat)
    requires w > 0
  {
    || length > 0 || !More(w, adds, [])
    || (w > 1 && key != [] && KeyBytes(w, key)[0] == 0 && GoesOn(w, adds, [0]))
  }

  /** When a prefix is found, the search is right about keys that go on behind it exactly under
      that condition. */
  lemma SavedNextIsRight(grouped: bool, s: Schema, w: nat, adds: seq<Addition>, key: seq<nat>)
    requires AreAdditions(s, w, adds) && IsAnyKey(w, key)
    requires Unhidden(s, w, adds) && BuildKeys(grouped, s, w, adds).Some?
    requires |SubtreeBytes(BuildKeys(grouped, s, w, adds).value.sub)| < Pow(256, 7)
    ensures var r := LongestPrefix(s, w, Opened(SubtreeBytes(BuildKeys(grouped, s, w, adds).value.sub)), key);
      && r.length <= |key|
      && (r.value.Some? ==>
           ((r.hasNext <==> More(w, adds, key[..r.length])) <==> NextKnown(w, adds, key, r.length)))
  {
    hide BuildKeys, Unhidden, SubtreeBytes, LongestPrefix, Opened, IsBuilt, LastAdded, More, GoesOn, KeyBytes;
    var t := BuiltTree(grouped, s, w, adds);
    var r := LongestPrefix(s, w, Opened(SubtreeBytes(t.sub)), key);
    NextIsRight(s, w, adds, t, key);
    PrefixInTree(s, w, adds, t, key);
    MoreIsBeyond(s, w, adds, key[..r.length]);
    EmptyBytes(w);
    if r.length == 0 {
      assert key[..r.length] == [];
    }
  }

  lemma EmptyBytes(w: nat)
    requires w > 0
    ensures KeyBytes(w, []) == [0]
  {
  }

  /** Looking the whole key up finds it exactly if it was added, with the last value added. */
  lemma SavedFindIsMap(grouped: bool, s: Schema, w: nat, adds: seq<Addition>, key: seq<nat>)
    requires AreAdditions(s, w, adds) && IsAnyKey(w, key)
    requires Unhidden(s, w, adds) && BuildKeys(grouped, s, w, adds).Some?
    requires |SubtreeBytes(BuildKeys(grouped, s, w, adds).value.sub)| < Pow(256, 7)
    ensures var data := SubtreeBytes(BuildKeys(grouped, s, w, adds).value.sub);
      var found := FindIn(s, w, Opened(data), key);
      match LastAdded(w, adds, key)
      case None => found == None
      case Some(v) => found.Some? && Unpack(s, data, found.value) == v
  {
    hide Build, BuildKeys, Unhidden, SubtreeBytes, LongestPrefix, Log, Opened, LastAdded, Unpack;
    SavedPrefixIsLongest(grouped, s, w, adds, key);
    assert key[..|key|] == key;
  }

  // ---- the loops of comptrie_trie.h ----

  /** Find the empty key, kept as the byte 0, once and for all. */
  method Init(data: seq<byte>) returns (trie: CompactTrie)
    ensures trie == Opened(data)
  {
    trie := CompactTrie(data, 0, None);
    if data == [] {
      return;
    }
    var found, flags, pos := LeapByte(data, 0, 0);
    if found && IsFinalFlag(flags) {
      trie := CompactTrie(data, 0, Some(pos));
    }
  }

  /** Byte `j` of a symbol, counted from the most significant one. */
  function SymbolByte(label_: nat, w: nat, j: nat): byte
    requires j < w
  {
    High(label_, w - 1 - j) % 256
  }

  lemma NextByte(w: nat, key: seq<nat>, i: nat, j: nat)
    requires i < |key| && j < w
    ensures w * i + j < |Flat(SymbolBytes(w, key))|
    ensures Flat(SymbolBytes(w, key))[w * i + j] == SymbolByte(key[i], w, j)
  {
    hide Flat, SymbolBytes, BigEndian, High;
    FlatPrefix(w, key, i);
    FlatPrefix(w, key, i + 1);
    var all, upTo := Flat(SymbolBytes(w, key)), Flat(SymbolBytes(w, key[..i + 1]));
    assert w * (i + 1) == w * i + w;
    MulMonotone(w, i + 1, |key|);
    LastSymbol(w, key[..i + 1]);
    assert key[..i + 1][..i] == key[..i];
    assert all[w * i + j] == upTo[w * i + j];
    FlatLength(w, key[..i]);
    BigEndianAt(key[i], w, j);
  }

  lemma {:induction false} LastSymbol(w: nat, key: seq<nat>)
    requires key != []
    ensures var n := |key| - 1;
      Flat(SymbolBytes(w, key)) == Flat(SymbolBytes(w, key[..n])) + BigEndian(key[n], w)
  {
    var n := |key| - 1;
    assert SymbolBytes(w, key)[1..] == SymbolBytes(w, key[1..]);
    if n > 0 {
      LastSymbol(w, key[1..]);
      assert key[..n][1..] == key[1..][..n - 1];
      assert SymbolBytes(w, key[..n])[1..] == SymbolBytes(w, key[1..][..n - 1]);
    } else {
      assert Flat(SymbolBytes(w, key)[1..]) == [];
    }
  }

  lemma SearchStep(s: Schema, data: seq<byte>, p: nat, w: nat, bytes: seq<byte>, at: nat, best: Prefix)
    requires w > 0 && at < |bytes|
    ensures SearchFrom(s, data, p, w, bytes[at..], at, best) ==
      match LeapFrom(data, p, bytes[at])
      case NoArc => best
      case Matched(flags, q) =>
        var best' := if IsFinalFlag(flags) then Prefix(Symbols(at + 1, w), Some(q), IsNextFlag(flags)) else best;
        var q' := if IsFinalFlag(flags) then q + Skip(s, data, q) else q;
        if IsNextFlag(flags) then SearchFrom(s, data, q', w, bytes[at + 1..], at + 1, best') else best'
  {
    assert bytes[at..][1..] == bytes[at + 1..];
  }

  /** The length is that of the symbols begun, less one if the last of them is not complete. */
  method LookupLongestPrefix(s: Schema, w: nat, trie: CompactTrie, key: seq<nat>) returns (r: Prefix)
    requires w > 0
    ensures r == LongestPrefix(s, w, trie, key)
  {
    hide Flat, SymbolBytes, LeapFrom, SearchFrom, Symbols, Skip, IsFinalFlag, IsNextFlag, SymbolByte;
    ghost var bytes := Flat(SymbolBytes(w, key));
    var data, pos: nat := trie.data, trie.start;
    r := Prefix(0, trie.emptyValue, false);
    FlatLength(w, key);
    for i := 0 to |key|
      invariant w * i <= |bytes|
      invariant SearchFrom(s, data, pos, w, bytes[w * i..], w * i, r) == LongestPrefix(s, w, trie, key)
    {
      for j := 0 to w
        invariant w * i + j <= |bytes|
        invariant SearchFrom(s, data, pos, w, bytes[w * i + j..], w * i + j, r) == LongestPrefix(s, w, trie, key)
      {
        NextByte(w, key, i, j);
        SearchStep(s, data, pos, w, bytes, w * i + j, r);
        SymbolsBegun(w, i, j);
        var found, flags, q := LeapByte(data, pos, SymbolByte(key[i], w, j));
        if !found {
          return;
        }
        pos := q;
        if IsFinalFlag(flags) {
          r := Prefix(i + 1 - (if j < w - 1 then 1 else 0), Some(pos), IsNextFlag(flags));
          if j == w - 1 && i == |key| - 1 {
            SearchEnds(s, data, pos + Skip(s, data, pos), w, bytes, w * i + j + 1, r);
            return;
          }
          pos := pos + Skip(s, data, pos);
        }
        if !IsNextFlag(flags) {
          return;
        }
      }
      assert w * i + w == w * (i + 1);
    }
    SearchEnds(s, data, pos, w, bytes, |bytes|, r);
  }

  lemma SearchEnds(s: Schema, data: seq<byte>, p: nat, w: nat, bytes: seq<byte>, at: nat, best: Prefix)
    requires w > 0 && at == |bytes|
    ensures SearchFrom(s, data, p, w, bytes[at..], at, best) == best
  {
  }

  lemma SymbolsBegun(w: nat, i: nat, j: nat)
    requires j < w
    ensures Symbols(w * i + j + 1, w) == if j < w - 1 then i else i + 1
  {
    if j < w - 1 {
      SymbolsOf(w, i, j + 1);
    } else {
      SymbolsOf(w, i + 1, 0);
      assert w * (i + 1) == w * i + w;
    }
  }

  method FindValue(s: Schema, w: nat, trie: CompactTrie, key: seq<nat>) returns (value: Option<Value>)
    requires w > 0
    ensures value == match FindIn(s, w, trie, key) case None => None case Some(p) => Some(Unpack(s, trie.data, p))
  {
    var r := LookupLongestPrefix(s, w, trie, key);
    if r.value.None? || r.length != |key| {
      return None;
    }
    value := Some(Unpack(s, trie.data, r.value.value));
  }
}
