/** Histories of additions that may hold the empty key: when they build what a log of plain
    byte keys builds, told from the keys alone. */
module TrieHistory {
  import opened Wrappers
  import opened Bytes
  import opened Packers
  import opened TrieTree
  import opened TrieCodec
  import opened TrieMap
  import opened TrieReader
  import opened TrieGrouped
  import opened TrieRoundTrip
  import opened TriePaths
  import opened TrieEmptyKey
  import opened TrieCanonical

  /** The builder's tree after a sequence of additions, unless one of them came in bad order. */
  function BuildKeys(grouped: bool, s: Schema, w: nat, adds: seq<Addition>): (r: Option<Tree>)
    requires AreAdditions(s, w, adds)
    ensures r.Some? ==> r.value.sub.ArcSet?
  {
    if adds == [] then Some(EMPTY)
    else
      var n := |adds| - 1;
      assert IsAddition(s, w, adds[n]);
      match BuildKeys(grouped, s, w, adds[..n])
      case None => None
      case Some(t) => AddKey(grouped, w, t, adds[n].key, Pack(s, adds[n].value))
  }

  lemma {:induction false} FailedStaysFailed(grouped: bool, s: Schema, w: nat, adds: seq<Addition>, n: nat)
    requires AreAdditions(s, w, adds) && n <= |adds| && BuildKeys(grouped, s, w, adds[..n]) == None
    ensures BuildKeys(grouped, s, w, adds) == None
  {
    hide AddKey;
    if n == |adds| {
      assert adds[..n] == adds;
    } else {
      assert adds[..|adds| - 1][..n] == adds[..n];
      FailedStaysFailed(grouped, s, w, adds[..|adds| - 1], n);
    }
  }

  ghost predicate Takes(t: Option<Tree>, limit: nat) {
    t.Some? ==> Size(t.value) < limit
  }

  /** After each of the additions the bytes to save are fewer than `limit`. */
  ghost predicate AllTake(grouped: bool, s: Schema, w: nat, adds: seq<Addition>, limit: nat)
    requires AreAdditions(s, w, adds)
  {
    forall n | 0 <= n <= |adds| :: Takes(BuildKeys(grouped, s, w, adds[..n]), limit)
  }

  // ---- when the empty key is hidden ----

  predicate BeginsWithZero(key: seq<byte>) {
    key != [] && key[0] == 0
  }

  /** There are keys that begin with the byte 0, and the byte `b` is next in all of them. */
  ghost predicate AllGoOn(log: seq<Entry>, b: byte) {
    && (exists i | 0 <= i < |log| :: BeginsWithZero(log[i].key))
    && (forall i | 0 <= i < |log| && BeginsWithZero(log[i].key) :: [0, b] <= log[i].key)
  }

  ghost predicate Hides(log: seq<Entry>) {
    exists b :: AllGoOn(log, b)
  }

  lemma FoundIsLogged(log: seq<Entry>, key: seq<byte>) returns (i: nat)
    requires Build(false, log).Some? && Find(Build(false, log).value, key).Some?
    ensures i < |log| && log[i].key == key
  {
    BuildIsMap(log, key);
    i := LoggedUnder(log, key);
  }

  lemma {:induction false} LoggedIsFound(log: seq<Entry>, i: nat)
    requires i < |log|
    ensures Build(false, log).Some? && Find(Build(false, log).value, log[i].key).Some?
  {
    BuildIsMap(log, log[i].key);
    StaysLogged(log, i);
  }

  /** A longer arc of the root begins with the byte 0 exactly if the keys hide the empty one. */
  lemma ShadowedByKeys(log: seq<Entry>)
    ensures Build(false, log).Some?
    ensures Shadowed(Build(false, log).value) <==> Hides(log)
  {
    hide Build, LowerBound, Find, Shadowed;
    BuildIsTight(log);
    var t := Build(false, log).value;
    if Shadowed(t) {
      var i, b := LongArc(t);
      var rest := KeyThrough(t, i);
      var j := FoundIsLogged(log, t.sub.arcs[i].text + rest);
      assert BeginsWithZero(log[j].key);
      forall k | 0 <= k < |log| && BeginsWithZero(log[k].key) ensures [0, b] <= log[k].key {
        LoggedIsFound(log, k);
        FoundAtArc(t, i, log[k].key);
      }
      assert AllGoOn(log, b);
    }
    if Hides(log) {
      var b :| AllGoOn(log, b);
      var k :| 0 <= k < |log| && BeginsWithZero(log[k].key);
      LoggedIsFound(log, k);
      FoundHasArc(t, log[k].key);
      var i := ArcOfZero(t);
      forall rest | Find(t.sub.arcs[i].node, rest).Some? ensures [0, b] <= t.sub.arcs[i].text + rest {
        FindAtArc(t, i, rest);
        var j := FoundIsLogged(log, t.sub.arcs[i].text + rest);
        assert BeginsWithZero(log[j].key);
      }
      CommonBeginning(t, i, [0, b]);
    }
  }

  lemma LongArc(t: Tree) returns (i: nat, b: byte)
    requires t.sub.ArcSet? && Shadowed(t)
    ensures i < |t.sub.arcs| && [0, b] <= t.sub.arcs[i].text
  {
    i := LowerBound(t.sub.arcs, 0);
    b := t.sub.arcs[i].text[1];
  }

  lemma ArcOfZero(t: Tree) returns (i: nat)
    requires t.sub.ArcSet? && HasArc(t.sub.arcs, 0)
    ensures i < |t.sub.arcs| && t.sub.arcs[i].text[0] == 0
    ensures Shadowed(t) <==> |t.sub.arcs[i].text| > 1
  {
    i := LowerBound(t.sub.arcs, 0);
  }

  /** No empty key was added while the keys before it hid it. */
  ghost predicate Unhidden(s: Schema, w: nat, adds: seq<Addition>)
    requires AreAdditions(s, w, adds)
  {
    forall i | 0 <= i < |adds| && adds[i].key == [] :: !Hides(Log(s, w, adds[..i]))
  }

  lemma ShorterUnhidden(s: Schema, w: nat, adds: seq<Addition>, n: nat)
    requires AreAdditions(s, w, adds) && Unhidden(s, w, adds) && n <= |adds|
    ensures AreAdditions(s, w, adds[..n]) && Unhidden(s, w, adds[..n])
  {
    forall i | 0 <= i < n && adds[i].key == [] ensures !Hides(Log(s, w, adds[..n][..i])) {
      assert adds[..n][..i] == adds[..i];
    }
  }

  lemma ShadowRefines(g: Tree, t: Tree)
    requires Refines(g, t) && g.sub.ArcSet?
    ensures Shadowed(g) <==> Shadowed(t)
  {
    assert forall i :: 0 <= i < |g.sub.arcs| ==> ArcRefines(g.sub.arcs[i], t.sub.arcs[i]);
    SameFirstBytes(g.sub.arcs, t.sub.arcs, 0);
  }

  lemma NotShadowed(grouped: bool, log: seq<Entry>)
    requires Build(grouped, log).Some? && Build(grouped, log).value.sub.ArcSet? && !Hides(log)
    ensures !Shadowed(Build(grouped, log).value)
  {
    hide Shadowed, Hides, Refines, Build;
    ShadowedByKeys(log);
    if grouped {
      GroupedSavesTheSame(log);
      ShadowRefines(Build(true, log).value, Build(false, log).value);
    }
  }

  lemma AddKeyIsAdd(grouped: bool, w: nat, t: Tree, key: seq<nat>, payload: seq<byte>)
    requires w > 0 && t.sub.ArcSet? && (key == [] ==> !Shadowed(t))
    ensures AddKey(grouped, w, t, key, payload) == Add(grouped, t, KeyBytes(w, key), payload)
  {
    hide Shadowed, Add, AddEmpty;
    if key == [] {
      EmptyIsZero(grouped, t, payload);
    }
  }

  lemma WidthOf(s: Schema, w: nat, a: Addition)
    requires IsAddition(s, w, a)
    ensures w > 0
  {
  }

  /** As long as no empty key is hidden, the empty key is the key of one zero byte. */
  lemma {:induction false} HistoryIsLog(grouped: bool, s: Schema, w: nat, adds: seq<Addition>)
    requires AreAdditions(s, w, adds) && Unhidden(s, w, adds)
    ensures BuildKeys(grouped, s, w, adds) == Build(grouped, Log(s, w, adds))
  {
    hide Shadowed, Hides, Pack, Typed, Measure, Add, AddKey, KeyBytes, IsAddition, Log;
    if adds == [] {
      assert Log(s, w, adds) == [];
    } else {
      var n := |adds| - 1;
      ShorterUnhidden(s, w, adds, n);
      HistoryIsLog(grouped, s, w, adds[..n]);
      LogAt(s, w, adds, n);
      LogBefore(s, w, adds, n);
      var log := Log(s, w, adds);
      var before := Build(grouped, log[..n]);
      WidthOf(s, w, adds[n]);
      if before.Some? {
        if adds[n].key == [] {
          NotShadowed(grouped, log[..n]);
        }
        AddKeyIsAdd(grouped, w, before.value, adds[n].key, Pack(s, adds[n].value));
      }
    }
  }

  /** The tree `t` holds what the additions have left. */
  ghost predicate IsBuilt(s: Schema, w: nat, adds: seq<Addition>, t: Tree) {
    && w > 0 && AreAdditions(s, w, adds) && WellFormed(t) && Tight(t) && Packed(s, t)
    && |SubtreeBytes(t.sub)| < Pow(256, 7)
    && forall bytes :: Find(t, bytes) == LastValue(Log(s, w, adds), bytes)
  }

  /** Such a tree saves the bytes that the builder saves. */
  lemma BuiltTree(grouped: bool, s: Schema, w: nat, adds: seq<Addition>) returns (t: Tree)
    requires w > 0 && AreAdditions(s, w, adds) && Unhidden(s, w, adds)
    requires BuildKeys(grouped, s, w, adds).Some?
    requires |SubtreeBytes(BuildKeys(grouped, s, w, adds).value.sub)| < Pow(256, 7)
    ensures IsBuilt(s, w, adds, t)
    ensures SubtreeBytes(t.sub) == SubtreeBytes(BuildKeys(grouped, s, w, adds).value.sub)
  {
    hide Build, BuildKeys, SubtreeBytes, WellFormed, Tight, Packed, Find, LastValue, Log, Unhidden;
    var log := Log(s, w, adds);
    HistoryIsLog(grouped, s, w, adds);
    BuildIsPacked(s, w, adds);
    BuildIsTight(log);
    BuildIsMap(log, []);
    if grouped {
      GroupedSavesTheSame(log);
    }
    t := Build(false, log).value;
    forall bytes ensures Find(t, bytes) == LastValue(log, bytes) {
      BuildIsMap(log, bytes);
    }
  }

  /** After any sequence of additions, grouped or not, that raised no error and hid no empty key:
      looking a key up symbol by symbol in the saved bytes finds it exactly if it was added, with
      the last value added. */
  lemma SavedTrieIsMap(grouped: bool, s: Schema, w: nat, adds: seq<Addition>, key: seq<nat>)
    requires AreAdditions(s, w, adds) && Unhidden(s, w, adds) && IsKey(w, key)
    requires BuildKeys(grouped, s, w, adds).Some?
    requires |SubtreeBytes(BuildKeys(grouped, s, w, adds).value.sub)| < Pow(256, 7)
    ensures var data := SubtreeBytes(BuildKeys(grouped, s, w, adds).value.sub);
      var result := LookupFrom(s, data, 0, SymbolBytes(w, key));
      match LastAdded(w, adds, key)
      case None => result.None?
      case Some(v) => result.Some? && Unpack(s, data, result.value) == v
  {
    hide Build, BuildKeys, SubtreeBytes, Log, LookupFrom, Unpack, LastAdded, Unhidden;
    HistoryIsLog(grouped, s, w, adds);
    LogIsMap(grouped, s, w, adds, key);
  }

  /** A hidden empty key costs a key that was added before it. */
  lemma HiddenLosesKey(s: Schema, w: nat, adds: seq<Addition>) returns (i: nat)
    requires AreAdditions(s, w, adds) && adds != []
    requires var n := |adds| - 1;
      adds[n].key == [] && Unhidden(s, w, adds[..n]) && Hides(Log(s, w, adds[..n]))
    ensures i < |adds| - 1 && BuildKeys(false, s, w, adds).Some? && w > 0
    ensures Find(BuildKeys(false, s, w, adds[..|adds| - 1]).value, KeyBytes(w, adds[i].key)).Some?
    ensures Find(BuildKeys(false, s, w, adds).value, KeyBytes(w, adds[i].key)) == None
  {
    hide Shadowed, Hides, Pack, Typed, Measure, AddEmpty, Find, WellFormed, LastValue;
    var n := |adds| - 1;
    assert IsAddition(s, w, adds[n]);
    var log := Log(s, w, adds[..n]);
    HistoryIsLog(false, s, w, adds[..n]);
    ShadowedByKeys(log);
    BuildIsMap(log, []);
    var key := KeyLost(Build(false, log).value, Pack(s, adds[n].value));
    i := FoundIsLogged(log, key);
    LogAt(s, w, adds[..n], i);
  }

  // ---- duplicates ----

  /** No key comes twice. */
  ghost predicate NoneTwice(w: nat, adds: seq<Addition>) {
    forall i, j :: 0 <= i < j < |adds| ==> !SameKey(w, adds[i].key, adds[j].key)
  }

  /** No addition finds its key there. */
  ghost predicate NoneFound(grouped: bool, s: Schema, w: nat, adds: seq<Addition>)
    requires w > 0 && AreAdditions(s, w, adds)
  {
    forall i | 0 <= i < |adds| :: Missing(BuildKeys(grouped, s, w, adds[..i]), KeyBytes(w, adds[i].key))
  }

  predicate Missing(t: Option<Tree>, key: seq<byte>) {
    t.Some? ==> Find(t.value, key) == None
  }

  lemma NotLogged(log: seq<Entry>, key: seq<byte>)
    ensures LastValue(log, key) == None <==> forall i | 0 <= i < |log| :: log[i].key != key
  {
    if LastValue(log, key).Some? {
      var i := LoggedUnder(log, key);
    }
    forall i | 0 <= i < |log| ensures log[i].key == key ==> LastValue(log, key).Some? {
      StaysLogged(log, i);
    }
  }

  lemma SameKeyLogged(s: Schema, w: nat, adds: seq<Addition>, n: nat)
    requires w > 0 && AreAdditions(s, w, adds) && n < |adds|
    ensures LastValue(Log(s, w, adds[..n]), KeyBytes(w, adds[n].key)) == None
       <==> forall i | 0 <= i < n :: !SameKey(w, adds[i].key, adds[n].key)
  {
    hide KeyBytes, SameKey, LastValue, Log, IsAddition;
    NotLogged(Log(s, w, adds[..n]), KeyBytes(w, adds[n].key));
    LogAt(s, w, adds, n);
    forall i | 0 <= i < n
      ensures Log(s, w, adds[..n])[i].key == KeyBytes(w, adds[n].key) <==> SameKey(w, adds[i].key, adds[n].key)
    {
      KeyLogged(s, w, adds, i, n);
    }
  }

  lemma KeyLogged(s: Schema, w: nat, adds: seq<Addition>, i: nat, n: nat)
    requires w > 0 && AreAdditions(s, w, adds) && i < n < |adds|
    ensures Log(s, w, adds[..n])[i].key == KeyBytes(w, adds[n].key) <==> SameKey(w, adds[i].key, adds[n].key)
  {
    hide KeyBytes, SameKey, Log;
    LogAt(s, w, adds[..n], i);
    LogAt(s, w, adds, n);
    SameKeySameBytes(w, adds[i].key, adds[n].key);
  }

  /** The builder sees a duplicate key exactly if a key comes twice. */
  lemma DuplicatesAreFound(grouped: bool, s: Schema, w: nat, adds: seq<Addition>)
    requires w > 0 && AreAdditions(s, w, adds) && Unhidden(s, w, adds) && Build(grouped, Log(s, w, adds)).Some?
    ensures NoneFound(grouped, s, w, adds) <==> NoneTwice(w, adds)
  {
    hide KeyBytes, SameKey, LastValue, Log, Hides, BuildKeys, Missing;
    forall n | 0 <= n < |adds|
      ensures Missing(BuildKeys(grouped, s, w, adds[..n]), KeyBytes(w, adds[n].key))
         <==> forall i | 0 <= i < n :: !SameKey(w, adds[i].key, adds[n].key)
    {
      SameKeyLogged(s, w, adds, n);
      FoundBefore(grouped, s, w, adds, n);
    }
  }

  lemma FoundBefore(grouped: bool, s: Schema, w: nat, adds: seq<Addition>, n: nat)
    requires w > 0 && AreAdditions(s, w, adds) && Unhidden(s, w, adds) && Build(grouped, Log(s, w, adds)).Some?
    requires n < |adds|
    ensures Missing(BuildKeys(grouped, s, w, adds[..n]), KeyBytes(w, adds[n].key))
       <==> LastValue(Log(s, w, adds[..n]), KeyBytes(w, adds[n].key)) == None
  {
    hide KeyBytes, LastValue, Hides, BuildKeys, Add, Refines, Find, IsAddition;
    var key, log := KeyBytes(w, adds[n].key), Log(s, w, adds);
    ShorterUnhidden(s, w, adds, n);
    HistoryIsLog(grouped, s, w, adds[..n]);
    LogBefore(s, w, adds, n);
    LogAt(s, w, adds, n);
    BuildBefore(grouped, log, n);
    BuildIsMap(log[..n], key);
    if grouped {
      GroupedSavesTheSame(log[..n]);
      FindInGrouped(Build(true, log[..n]).value, Build(false, log[..n]).value, key, log[n].payload);
    }
  }

  lemma {:induction false} LogBefore(s: Schema, w: nat, adds: seq<Addition>, n: nat)
    requires AreAdditions(s, w, adds) && n <= |adds|
    ensures Log(s, w, adds)[..n] == Log(s, w, adds[..n])
  {
    if n < |adds| {
      LogBefore(s, w, adds[..|adds| - 1], n);
      assert adds[..|adds| - 1][..n] == adds[..n];
    } else {
      assert adds[..n] == adds;
    }
  }

  lemma {:induction false} BuildBefore(grouped: bool, log: seq<Entry>, n: nat)
    requires Build(grouped, log).Some? && n < |log|
    ensures Build(grouped, log[..n]).Some?
    ensures Add(grouped, Build(grouped, log[..n]).value, log[n].key, log[n].payload).Some?
  {
    hide Add;
    var m := |log| - 1;
    if n < m {
      BuildBefore(grouped, log[..m], n);
      assert log[..m][..n] == log[..n];
    }
  }
}
