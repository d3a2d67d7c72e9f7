/** FindTails: the part of a trie behind a key, which answers for what follows the key. */
module TrieTails {
  import opened Wrappers
  import opened Bytes
  import opened Packers
  import opened TrieTree
  import opened TrieCodec
  import opened TrieMap
  import opened TrieReader
  import opened TrieRoundTrip
  import opened TrieCanonical
  import opened TrieHistory
  import opened TrieSearch

  /** The value of the key is the empty key's value behind it. */
  function TailsFrom(s: Schema, data: seq<byte>, p: nat, key: seq<seq<byte>>): Option<CompactTrie>
    requires key != [] && forall k | 0 <= k < |key| :: key[k] != []
    decreases |key|
  {
    match AdvanceFrom(s, data, p, key[0])
    case Failed => None
    case Advanced(value, next) =>
      if |key| == 1 then Some(CompactTrie(data, if next.Some? then next.value else |data|, value))
      else if next.None? then None
      else TailsFrom(s, data, next.value, key[1..])
  }

  function FindTails(s: Schema, w: nat, trie: CompactTrie, key: seq<nat>): Option<CompactTrie>
    requires w > 0
  {
    if trie.start >= |trie.data| then None
    else if key == [] then Some(trie)
    else TailsFrom(s, trie.data, trie.start, SymbolBytes(w, key))
  }

  /** The loop of FindTails. */
  method FindTailsOf(s: Schema, w: nat, trie: CompactTrie, key: seq<nat>) returns (tails: Option<CompactTrie>)
    requires w > 0
    ensures tails == FindTails(s, w, trie, key)
  {
    hide AdvanceFrom;
    if trie.start >= |trie.data| {
      return None;
    }
    if key == [] {
      return Some(trie);
    }
    var data, pos: nat, symbols := trie.data, trie.start, SymbolBytes(w, key);
    for i := 0 to |key|
      invariant i < |key|
      invariant TailsFrom(s, data, pos, symbols[i..]) == TailsFrom(s, data, trie.start, symbols)
    {
      assert symbols[i..][1..] == symbols[i + 1..];
      var ok, value, next := Advance(s, data, pos, symbols[i]);
      if !ok {
        return None;
      }
      if i == |key| - 1 {
        return Some(CompactTrie(data, if next.Some? then next.value else |data|, value));
      }
      if next.None? {
        return None;
      }
      pos := next.value;
    }
    tails := None;
  }

  /** The tails, against where the key leads in the tree. */
  ghost predicate TailsAgree(s: Schema, data: seq<byte>, result: Option<CompactTrie>, to: Option<Tree>) {
    match to
    case None => result == None
    case Some(u) =>
      && Proper(u) && result.Some? && result.value.data == data
      && result.value.emptyValue.Some? == u.IsFinal()
      && (u.IsFinal() ==> HoldsAt(s, data, result.value.emptyValue.value, u.payload.value))
      && if u.IsLast() then result.value.start == |data| else Reads(s, data, result.value.start, u)
  }

  lemma {:induction false} TailsWalk(s: Schema, data: seq<byte>, p: nat, t: Tree, key: seq<seq<byte>>)
    requires Reads(s, data, p, t)
    requires key != [] && forall k | 0 <= k < |key| :: key[k] != []
    ensures WellFormed(t) && TailsAgree(s, data, TailsFrom(s, data, p, key), Walk(t, Flat(key)))
    decreases |key|
  {
    hide Reads, AdvanceFrom, SubtreeBytes, HoldsAt, Proper;
    ReadsWellFormed(s, data, p, t);
    AdvanceWalks(s, data, p, t, key[0]);
    WalkAppend(t, key[0], Flat(key[1..]));
    WalkIsProper(t, key[0]);
    var u := Walk(t, key[0]);
    if |key| == 1 {
      assert key[0] + Flat(key[1..]) == key[0];
    } else if u.Some? {
      if u.value.IsLast() {
        NothingBelow(u.value, Flat(key[1..]));
        assert key[1..][0] == key[1] && Flat(key[1..]) == key[1] + Flat(key[1..][1..]);
      } else {
        TailsWalk(s, data, AdvanceFrom(s, data, p, key[0]).next.value, u.value, key[1..]);
      }
    }
  }

  lemma {:induction false} WalkIsProper(t: Tree, key: seq<byte>)
    requires WellFormed(t) && key != []
    ensures Walk(t, key).Some? ==> Proper(Walk(t, key).value)
    decreases |key|
  {
    if Follow(t, key[0]).Some? {
      FollowKeepsWellFormed(t, key[0]);
      if |key| > 1 {
        WalkIsProper(Follow(t, key[0]).value, key[1..]);
      }
    }
  }

  lemma {:induction false} FindBehind(t: Tree, a: seq<byte>, b: seq<byte>)
    requires WellFormed(t)
    ensures Find(t, a + b) == match Walk(t, a) case None => None case Some(u) => Find(u, b)
    decreases |a|
  {
    if a == [] {
      assert a + b == b;
    } else {
      assert (a + b)[1..] == a[1..] + b;
      FindFollows(t, a + b);
      if Follow(t, a[0]).Some? {
        FollowKeepsWellFormed(t, a[0]);
        FindBehind(Follow(t, a[0]).value, a[1..], b);
      }
    }
  }

  lemma {:induction false} FlatAppend(w: nat, a: seq<nat>, b: seq<nat>)
    ensures Flat(SymbolBytes(w, a + b)) == Flat(SymbolBytes(w, a)) + Flat(SymbolBytes(w, b))
  {
    hide Flat, SymbolBytes, BigEndian;
    if a == [] {
      assert a + b == b;
      FlatLength(w, a);
    } else {
      FlatAppend(w, a[1..], b);
      assert (a + b)[1..] == a[1..] + b;
      FirstSymbol(w, a);
      FirstSymbol(w, a + b);
    }
  }

  /** What a search behind `a` promises of `key`. */
  ghost predicate TailAgrees(s: Schema, w: nat, adds: seq<Addition>, data: seq<byte>, a: seq<nat>, key: seq<nat>, r: Prefix) {
    && r.length <= |key|
    && (forall k | r.length < k <= |key| :: LastAdded(w, adds, a + key[..k]) == None)
    && match LastAdded(w, adds, a + key[..r.length])
       case None => r.length == 0 && r.value == None
       case Some(v) => r.value.Some? && Unpack(s, data, r.value.value) == v
  }

  /** Behind a key of whole symbols, only whole symbols are found. */
  lemma TailSymbols(s: Schema, w: nat, adds: seq<Addition>, t: Tree, a: seq<nat>, key: seq<nat>, n: nat) returns (k: nat)
    requires IsBuilt(s, w, adds, t) && a != [] && IsAnyKey(w, a) && IsAnyKey(w, key)
    requires n <= |Flat(SymbolBytes(w, key))|
    requires n > 0 ==> Find(t, Flat(SymbolBytes(w, a)) + Flat(SymbolBytes(w, key))[..n]).Some?
    ensures k <= |key| && n == w * k && k == Symbols(n, w)
  {
    hide Find, LastValue, Log, Flat, SymbolBytes, WellFormed, Packed, SubtreeBytes;
    k := 0;
    FlatLength(w, a);
    FlatLength(w, key);
    if n > 0 {
      var found := Flat(SymbolBytes(w, a)) + Flat(SymbolBytes(w, key))[..n];
      LoggedLength(s, w, adds, found);
      MulMonotone(w, 1, |a|);
      assert |found| > 1;
      var i: nat :| |found| == w * i;
      MulMonotone(w, i, |a|);
      assert w * i == w * |a| + w * (i - |a|);
      k := i - |a|;
      MulMonotone(w, |key| + 1, k);
      MulMonotone(w, |key|, |key| + 1);
    }
    SymbolsOf(w, k, 0);
  }

  lemma TailEnded(s: Schema, w: nat, adds: seq<Addition>, t: Tree, a: seq<nat>, u: Tree, key: seq<nat>, base: Option<nat>,
      r: Prefix, n: nat)
    requires IsBuilt(s, w, adds, t) && a != [] && IsAnyKey(w, a) && IsAnyKey(w, key)
    requires Walk(t, Flat(SymbolBytes(w, a))) == Some(u)
    requires base.Some? == u.IsFinal() && (u.IsFinal() ==> HoldsAt(s, SubtreeBytes(t.sub), base.value, u.payload.value))
    requires var data, bytes := SubtreeBytes(t.sub), Flat(SymbolBytes(w, key));
      && n <= |bytes| && NoneLonger(u, bytes, n)
      && Ended(s, data, w, u, bytes, 0, Prefix(0, base, false), r, n)
    ensures TailAgrees(s, w, adds, SubtreeBytes(t.sub), a, key, r)
  {
    hide SubtreeBytes, WellFormed, Packed, Find, LastValue, Log, Flat, SymbolBytes, HoldsAt, Unpack, LastAdded, Continues, Walk;
    var data, bytes := SubtreeBytes(t.sub), Flat(SymbolBytes(w, key));
    FindBehind(t, Flat(SymbolBytes(w, a)), bytes[..n]);
    var k := TailSymbols(s, w, adds, t, a, key, n);
    forall m | 0 <= m <= |key|
      ensures w * m <= |bytes| && IsAnyKey(w, a + key[..m])
      ensures Find(t, KeyBytes(w, a + key[..m])) == Find(u, bytes[..w * m])
    {
      FlatPrefix(w, key, m);
      FlatAppend(w, a, key[..m]);
      FindBehind(t, Flat(SymbolBytes(w, a)), bytes[..w * m]);
    }
    forall m | k < m <= |key| ensures LastAdded(w, adds, a + key[..m]) == None {
      MulMonotone(w, k, m);
      HeldIsAdded(s, w, adds, t, a + key[..m], data, 0);
    }
    NoKeyMore(u, bytes);
    HeldIsAdded(s, w, adds, t, a + key[..k], data, if r.value.Some? then r.value.value else 0);
  }

  lemma NoKeyMore(u: Tree, bytes: seq<byte>)
    ensures Find(u, bytes[..0]) == u.payload
  {
  }

  /** Some addition's key begins with `a`. */
  ghost predicate BeginsSome(w: nat, adds: seq<Addition>, a: seq<nat>)
    requires w > 0
  {
    exists i :: 0 <= i < |adds| && KeyBytes(w, a) <= KeyBytes(w, adds[i].key)
  }

  lemma LeadsSomewhere(s: Schema, w: nat, adds: seq<Addition>, t: Tree, a: seq<nat>)
    requires IsBuilt(s, w, adds, t) && a != [] && IsAnyKey(w, a)
    ensures Walk(t, KeyBytes(w, a)).Some? <==> BeginsSome(w, adds, a)
  {
    hide SubtreeBytes, Packed, Find, LastValue, Log, Flat, SymbolBytes, KeyBytes, Walk, WellFormed, Proper;
    var bytes := KeyBytes(w, a);
    if Walk(t, bytes).Some? {
      WalkIsProper(t, bytes);
      var rest := SomeKey(Walk(t, bytes).value);
      FindBehind(t, bytes, rest);
      var i := LoggedUnder(Log(s, w, adds), bytes + rest);
      LogAt(s, w, adds, i);
      assert bytes <= KeyBytes(w, adds[i].key);
    } else {
      forall i | 0 <= i < |adds| && bytes <= KeyBytes(w, adds[i].key) ensures false {
        LogAt(s, w, adds, i);
        var key := KeyBytes(w, adds[i].key);
        assert key == bytes + key[|bytes|..];
        FindBehind(t, bytes, key[|bytes|..]);
        StaysLogged(Log(s, w, adds), i);
      }
    }
  }

  // ---- tails of tails ----

  /** The trie stands where the key `a` leads: opened as a whole, or tails of `a`. */
  ghost predicate TailOf(s: Schema, w: nat, t: Tree, data: seq<byte>, a: seq<nat>, trie: CompactTrie) {
    && w > 0 && WellFormed(t) && trie.data == data && Walk(t, Flat(SymbolBytes(w, a))).Some?
    && var u := Walk(t, Flat(SymbolBytes(w, a))).value;
       && (a == [] ==> trie == Opened(data))
       && (a != [] ==> Proper(u) && (trie.emptyValue.Some? <==> u.IsFinal()))
       && (a != [] && u.IsFinal() ==> HoldsAt(s, data, trie.emptyValue.value, u.payload.value))
       && if u.IsLast() then trie.start >= |data| else trie.start < |data| && Reads(s, data, trie.start, u)
  }

  lemma OpenedIsTail(s: Schema, w: nat, adds: seq<Addition>, t: Tree)
    requires IsBuilt(s, w, adds, t)
    ensures Flat(SymbolBytes(w, [])) == [] && TailOf(s, w, t, SubtreeBytes(t.sub), [], Opened(SubtreeBytes(t.sub)))
  {
    hide SubtreeBytes, LastValue, Find, EmptyValue;
    AllStands(SubtreeBytes(t.sub));
    if t.IsLast() {
      NoBytes(t);
    } else {
      SomeBytes(t);
    }
  }

  /** From where `a` leads, there are tails of `b` exactly if the tree goes on by `b`, and they stand
      where `a` and `b` lead; the tails of nothing are all there is, if there is anything. */
  lemma TailsOn(s: Schema, w: nat, t: Tree, data: seq<byte>, a: seq<nat>, trie: CompactTrie, b: seq<nat>)
    requires TailOf(s, w, t, data, a, trie)
    ensures var tails := FindTails(s, w, trie, b);
      && (b != [] ==> (tails.Some? <==> Walk(t, Flat(SymbolBytes(w, a + b))).Some?))
      && (b == [] ==> (tails.Some? <==> !Walk(t, Flat(SymbolBytes(w, a))).value.IsLast()))
      && (tails.Some? ==> TailOf(s, w, t, data, a + b, tails.value))
  {
    hide SubtreeBytes, WellFormed, Find, Flat, SymbolBytes, StandsAt, TailsFrom, Walk, HoldsAt, Opened, Reads, Proper;
    var from, u := Flat(SymbolBytes(w, a)), Walk(t, Flat(SymbolBytes(w, a))).value;
    FlatAppend(w, a, b);
    WalkAppend(t, from, Flat(SymbolBytes(w, b)));
    if b == [] {
      assert a + b == a;
    } else {
      FlatSome(w, b);
      if u.IsLast() {
        NothingBelow(u, Flat(SymbolBytes(w, b)));
      } else {
        TailsWalk(s, data, trie.start, u, SymbolBytes(w, b));
        var to := Walk(u, Flat(SymbolBytes(w, b)));
        if to.Some? && !to.value.IsLast() {
          ReadsBelow(s, data, FindTails(s, w, trie, b).value.start, to.value);
        }
      }
    }
  }

  lemma ReadsBelow(s: Schema, data: seq<byte>, p: nat, t: Tree)
    requires Reads(s, data, p, t)
    ensures p < |data|
  {
    SomeBytes(t);
  }

  /** Searching from where `a` leads is searching for `a` and the key behind it. */
  lemma TailAnswers(s: Schema, w: nat, adds: seq<Addition>, t: Tree, a: seq<nat>, trie: CompactTrie, key: seq<nat>)
    requires IsBuilt(s, w, adds, t) && IsAnyKey(w, a) && IsAnyKey(w, key) && TailOf(s, w, t, SubtreeBytes(t.sub), a, trie)
    ensures TailAgrees(s, w, adds, SubtreeBytes(t.sub), a, key, LongestPrefix(s, w, trie, key))
  {
    hide SubtreeBytes, SearchFrom, WellFormed, Packed, Find, LastValue, Log, Flat, SymbolBytes, StandsAt, Walk, Ended, NoneLonger,
         Opened, HoldsAt, Reads, LastAdded, Unpack, IsBuilt;
    var data, bytes := SubtreeBytes(t.sub), Flat(SymbolBytes(w, key));
    if a == [] {
      PrefixInTree(s, w, adds, t, key);
      assert forall k | 0 <= k <= |key| :: [] + key[..k] == key[..k];
    } else {
      var u := Walk(t, Flat(SymbolBytes(w, a))).value;
      var best := Prefix(0, trie.emptyValue, false);
      var n := 0;
      if u.IsLast() {
        NothingMore(s, data, w, u, bytes, best, trie.start);
      } else {
        n := SearchWalks(s, data, trie.start, w, u, bytes, 0, best);
      }
      TailEnded(s, w, adds, t, a, u, key, trie.emptyValue, SearchFrom(s, data, trie.start, w, bytes, 0, best), n);
    }
  }

  /** What is left to be found behind `a`: keys that go on by `b`, or by anything at all. */
  ghost predicate LeftBehind(w: nat, adds: seq<Addition>, a: seq<nat>, b: seq<nat>)
    requires w > 0
  {
    if b != [] then BeginsSome(w, adds, a + b) else if a != [] then GoesOn(w, adds, KeyBytes(w, a)) else adds != []
  }

  lemma LeftIsWalked(s: Schema, w: nat, adds: seq<Addition>, t: Tree, a: seq<nat>, b: seq<nat>)
    requires IsBuilt(s, w, adds, t) && IsAnyKey(w, a) && IsAnyKey(w, b) && Walk(t, Flat(SymbolBytes(w, a))).Some?
    ensures b != [] ==> (Walk(t, Flat(SymbolBytes(w, a + b))).Some? <==> LeftBehind(w, adds, a, b))
    ensures b == [] ==> (!Walk(t, Flat(SymbolBytes(w, a))).value.IsLast() <==> LeftBehind(w, adds, a, b))
  {
    hide SubtreeBytes, Packed, Find, LastValue, Log, Flat, SymbolBytes, Walk, WellFormed, Tight, Proper, Continues, GoesOn, BeginsSome;
    var from := Flat(SymbolBytes(w, a));
    if b != [] {
      LeadsSomewhere(s, w, adds, t, a + b);
    } else if a != [] {
      var u := Walk(t, from).value;
      FlatSome(w, a);
      WalkIsProper(t, from);
      ContinuesHere(u);
      ContinuesBehind(t, u, from);
      ContinuesIsAdded(s, w, adds, t, from);
    } else {
      NothingYet(w, t);
      NoneAdded(s, w, adds, t);
    }
  }

  lemma NothingYet(w: nat, t: Tree)
    requires WellFormed(t)
    ensures Flat(SymbolBytes(w, [])) == [] && Walk(t, []) == Some(t)
  {
  }

  lemma NoneAdded(s: Schema, w: nat, adds: seq<Addition>, t: Tree)
    requires IsBuilt(s, w, adds, t)
    ensures t.IsLast() <==> adds == []
  {
    hide SubtreeBytes, Packed, Find, Log, KeyBytes;
    if adds != [] {
      LogAt(s, w, adds, 0);
      StaysLogged(Log(s, w, adds), 0);
      if t.IsLast() {
        FindNothing(t, KeyBytes(w, adds[0].key));
      }
    } else if !t.IsLast() {
      var rest := KeyThrough(t, 0);
      var i := LoggedUnder(Log(s, w, adds), t.sub.arcs[0].text + rest);
    }
  }

  lemma ContinuesBehind(t: Tree, u: Tree, a: seq<byte>)
    requires WellFormed(t) && Walk(t, a) == Some(u)
    ensures Continues(t, a) <==> Continues(u, [])
  {
    hide Walk, Find, WellFormed;
    forall more: seq<byte> ensures Find(t, a + more) == Find(u, [] + more) {
      FindBehind(t, a, more);
      assert [] + more == more;
    }
  }

  /** FindTails asked of tails of tails. */
  function TailsChain(s: Schema, w: nat, trie: CompactTrie, parts: seq<seq<nat>>): Option<CompactTrie>
    requires w > 0
  {
    if parts == [] then Some(trie)
    else
      var n := |parts| - 1;
      match TailsChain(s, w, trie, parts[..n])
      case None => None
      case Some(tails) => FindTails(s, w, tails, parts[n])
  }

  function Joined(parts: seq<seq<nat>>): seq<nat> {
    if parts == [] then [] else Joined(parts[..|parts| - 1]) + parts[|parts| - 1]
  }

  ghost predicate AllKeys(w: nat, parts: seq<seq<nat>>) {
    forall i | 0 <= i < |parts| :: IsAnyKey(w, parts[i])
  }

  /** Each part leaves something behind the parts before it. */
  ghost predicate AllLeft(w: nat, adds: seq<Addition>, parts: seq<seq<nat>>)
    requires w > 0
  {
    forall i | 0 <= i < |parts| :: LeftBehind(w, adds, Joined(parts[..i]), parts[i])
  }

  lemma {:induction false} JoinedIsKey(w: nat, parts: seq<seq<nat>>)
    requires w > 0 && AllKeys(w, parts)
    ensures IsAnyKey(w, Joined(parts))
  {
    if parts != [] {
      JoinedIsKey(w, parts[..|parts| - 1]);
    }
  }

  lemma {:induction false} ChainStands(s: Schema, w: nat, adds: seq<Addition>, t: Tree, parts: seq<seq<nat>>)
    requires IsBuilt(s, w, adds, t) && w > 0 && AllKeys(w, parts)
    ensures var tails := TailsChain(s, w, Opened(SubtreeBytes(t.sub)), parts);
      && (tails.Some? <==> AllLeft(w, adds, parts))
      && (tails.Some? ==> TailOf(s, w, t, SubtreeBytes(t.sub), Joined(parts), tails.value))
  {
    hide SubtreeBytes, FindTails, LeftBehind, IsBuilt, Opened, IsAnyKey;
    OpenedIsTail(s, w, adds, t);
    if parts != [] {
      var n := |parts| - 1;
      var trie := Opened(SubtreeBytes(t.sub));
      ChainStands(s, w, adds, t, parts[..n]);
      AllLeftBut(w, adds, parts);
      var before := TailsChain(s, w, trie, parts[..n]);
      if before.Some? {
        JoinedIsKey(w, parts[..n]);
        TailsOn(s, w, t, SubtreeBytes(t.sub), Joined(parts[..n]), before.value, parts[n]);
        LeftIsWalked(s, w, adds, t, Joined(parts[..n]), parts[n]);
      }
    }
  }

  lemma AllLeftBut(w: nat, adds: seq<Addition>, parts: seq<seq<nat>>)
    requires w > 0 && parts != []
    ensures var n := |parts| - 1;
      AllLeft(w, adds, parts) <==> AllLeft(w, adds, parts[..n]) && LeftBehind(w, adds, Joined(parts[..n]), parts[n])
  {
    hide LeftBehind, Joined;
    var n := |parts| - 1;
    assert forall i | 0 <= i < n :: parts[..n][..i] == parts[..i] && parts[..n][i] == parts[i];
    if AllLeft(w, adds, parts[..n]) && LeftBehind(w, adds, Joined(parts[..n]), parts[n]) {
      forall i | 0 <= i < |parts| ensures LeftBehind(w, adds, Joined(parts[..i]), parts[i]) {
        assert i < n ==> LeftBehind(w, adds, Joined(parts[..n][..i]), parts[..n][i]);
      }
    }
    if AllLeft(w, adds, parts) {
      forall i | 0 <= i < n ensures LeftBehind(w, adds, Joined(parts[..n][..i]), parts[..n][i]) {
        assert LeftBehind(w, adds, Joined(parts[..i]), parts[i]);
      }
    }
  }

  /** Tails of tails: there are tails exactly if each part leaves something behind the parts before
      it, and searching them for a key is searching the trie for all parts and the key. */
  lemma TailsOfTails(grouped: bool, s: Schema, w: nat, adds: seq<Addition>, parts: seq<seq<nat>>, key: seq<nat>)
    requires AreAdditions(s, w, adds) && AllKeys(w, parts) && IsAnyKey(w, key)
    requires Unhidden(s, w, adds) && BuildKeys(grouped, s, w, adds).Some?
    requires |SubtreeBytes(BuildKeys(grouped, s, w, adds).value.sub)| < Pow(256, 7)
    ensures var data := SubtreeBytes(BuildKeys(grouped, s, w, adds).value.sub);
      var tails := TailsChain(s, w, Opened(data), parts);
      && (tails.Some? <==> AllLeft(w, adds, parts))
      && (tails.Some? ==> TailAgrees(s, w, adds, data, Joined(parts), key, LongestPrefix(s, w, tails.value, key)))
  {
    hide BuildKeys, Unhidden, SubtreeBytes, TailAgrees, LongestPrefix, IsBuilt, TailsChain, AllLeft, TailOf;
    var t := BuiltTree(grouped, s, w, adds);
    ChainStands(s, w, adds, t, parts);
    JoinedIsKey(w, parts);
    var tails := TailsChain(s, w, Opened(SubtreeBytes(t.sub)), parts);
    if tails.Some? {
      TailAnswers(s, w, adds, t, Joined(parts), tails.value, key);
    }
  }

  /** Searching the tails of `a` for a key is searching the trie for `a` and the key behind it;
      there are tails exactly if some key that was added begins with `a`. */
  lemma TailsAreTails(grouped: bool, s: Schema, w: nat, adds: seq<Addition>, a: seq<nat>, key: seq<nat>)
    requires AreAdditions(s, w, adds) && a != [] && IsAnyKey(w, a) && IsAnyKey(w, key)
    requires Unhidden(s, w, adds) && BuildKeys(grouped, s, w, adds).Some?
    requires |SubtreeBytes(BuildKeys(grouped, s, w, adds).value.sub)| < Pow(256, 7)
    ensures var data := SubtreeBytes(BuildKeys(grouped, s, w, adds).value.sub);
      var tails := FindTails(s, w, Opened(data), a);
      && (tails.Some? <==> BeginsSome(w, adds, a))
      && (tails.Some? ==> TailAgrees(s, w, adds, data, a, key, LongestPrefix(s, w, tails.value, key)))
  {
    hide BuildKeys, Unhidden, SubtreeBytes, TailAgrees, LongestPrefix, FindTails, IsBuilt, BeginsSome;
    var parts := [a];
    assert parts[..0] == [] && Joined([]) == [] && Joined(parts) == [] + a == a;
    TailsOfTails(grouped, s, w, adds, parts, key);
    assert AllLeft(w, adds, parts) <==> LeftBehind(w, adds, Joined(parts[..0]), parts[0]);
  }

  /** The overload for one symbol. */
  method FindTailsOfLabel(s: Schema, w: nat, trie: CompactTrie, label_: nat) returns (tails: Option<CompactTrie>)
    requires w > 0
    ensures tails == FindTails(s, w, trie, [label_])
  {
    if trie.start >= |trie.data| {
      return None;
    }
    assert SymbolBytes(w, [label_]) == [BigEndian(label_, w)];
    var ok, value, next := Advance(s, trie.data, trie.start, BigEndian(label_, w));
    if !ok {
      return None;
    }
    tails := Some(CompactTrie(trie.data, if next.Some? then next.value else |trie.data|, value));
  }

  lemma NothingMore(s: Schema, data: seq<byte>, w: nat, u: Tree, bytes: seq<byte>, best: Prefix, p: nat)
    requires w > 0 && Proper(u) && u.IsLast() && p >= |data|
    ensures SearchFrom(s, data, p, w, bytes, 0, best) == best && NoneLonger(u, bytes, 0)
    ensures Ended(s, data, w, u, bytes, 0, best, best, 0)
  {
    NoneBelow(u, bytes);
  }
}
