/** TCombinationIterator (gzttrie.cpp): all ways to choose a lemma for every word of a phrase,
    run through like an odometer. */
module Combinations {
  import opened Wrappers
  import Bytes

  type WordId = nat

  /** One word of the phrase: the word itself and its lemmas, in the order of their set. */
  datatype Word = Word(single: WordId, lemmas: seq<WordId>)

  type Phrase = seq<Word>

  ghost predicate Sets(ph: Phrase) {
    forall i, a, b | 0 <= i < |ph| && 0 <= a < b < |ph[i].lemmas| :: ph[i].lemmas[a] != ph[i].lemmas[b]
  }

  /** What stands for a word: its lemmas, or the word itself when it has none. */
  function Options(w: Word): (o: seq<WordId>)
    ensures |o| > 0
  {
    if w.lemmas == [] then [w.single] else w.lemmas
  }

  /** The Cartesian product. */
  ghost predicate InProduct(ph: Phrase, t: seq<WordId>) {
    && |t| == |ph|
    && forall i | 0 <= i < |ph| :: if ph[i].lemmas == [] then t[i] == ph[i].single else t[i] in ph[i].lemmas
  }

  /** How many combinations there are, the words with several lemmas alone counting. */
  function Total(ph: Phrase): (n: nat)
    ensures n > 0
  {
    if ph == [] then 1 else Positive(|Options(ph[0])|, Total(ph[1..])); |Options(ph[0])| * Total(ph[1..])
  }

  lemma Positive(a: nat, b: nat)
    requires a > 0 && b > 0
    ensures a * b > 0 && a * b >= b
  {
  }

  // ---- the odometer ----

  ghost predicate Digits(ph: Phrase, pos: seq<nat>) {
    |pos| == |ph| && forall i | 0 <= i < |ph| :: pos[i] < |Options(ph[i])|
  }

  function Choice(ph: Phrase, pos: seq<nat>): (t: seq<WordId>)
    requires |pos| == |ph| && forall i | 0 <= i < |ph| :: pos[i] < |Options(ph[i])|
    ensures |t| == |ph|
  {
    seq(|ph|, i requires 0 <= i < |ph| => Options(ph[i])[pos[i]])
  }

  /** The number that the digits show, the first digit counting least. */
  function Number(ph: Phrase, pos: seq<nat>): nat
    requires |pos| == |ph|
  {
    if ph == [] then 0 else pos[0] + |Options(ph[0])| * Number(ph[1..], pos[1..])
  }

  lemma {:induction false} NumberBelow(ph: Phrase, pos: seq<nat>)
    requires Digits(ph, pos)
    ensures Number(ph, pos) < Total(ph)
  {
    if ph != [] {
      NumberBelow(ph[1..], pos[1..]);
      BelowProduct(|Options(ph[0])|, pos[0], Number(ph[1..], pos[1..]), Total(ph[1..]));
    }
  }

  lemma BelowProduct(s: nat, a: nat, n: nat, t: nat)
    requires a < s && n < t
    ensures a + s * n < s * t
  {
    Larger(s, t - n);
    assert s * t == s * n + s * (t - n);
  }

  lemma {:induction false} NumberInjective(ph: Phrase, pos: seq<nat>, pos': seq<nat>)
    requires Digits(ph, pos) && Digits(ph, pos') && Number(ph, pos) == Number(ph, pos')
    ensures pos == pos'
  {
    if ph != [] {
      var s, n, n' := |Options(ph[0])|, Number(ph[1..], pos[1..]), Number(ph[1..], pos'[1..]);
      SameQuotient(s, pos[0], n, pos'[0], n');
      NumberInjective(ph[1..], pos[1..], pos'[1..]);
      assert pos == [pos[0]] + pos[1..] && pos' == [pos'[0]] + pos'[1..];
    }
  }

  lemma SameQuotient(s: nat, a: nat, n: nat, a': nat, n': nat)
    requires a < s && a' < s && a + s * n == a' + s * n'
    ensures a == a' && n == n'
  {
    assert s * (n - n') == a' - a;
    if n > n' {
      Larger(s, n - n');
    } else if n < n' {
      Larger(s, n' - n);
    }
  }

  /** The digit of one word in a number, the words before it turning faster. */
  function DigitOf(ph: Phrase, k: nat, i: nat): (d: nat)
    requires i < |ph|
    ensures d < |Options(ph[i])|
  {
    k / Total(ph[..i]) % |Options(ph[i])|
  }

  lemma {:induction false} DigitsAre(ph: Phrase, pos: seq<nat>, i: nat)
    requires Digits(ph, pos) && i < |ph|
    ensures DigitOf(ph, Number(ph, pos), i) == pos[i]
  {
    hide Options, Number, Total, DigitOf;
    NumberIs(ph, pos);
    var s, n := |Options(ph[0])|, Number(ph[1..], pos[1..]);
    Bytes.QuotientIs(pos[0] + s * n, s, n, pos[0]);
    if i == 0 {
      FirstDigit(ph, pos[0], n);
    } else {
      DigitsAre(ph[1..], pos[1..], i - 1);
      DigitFurther(ph, pos[0] + s * n, n, i);
    }
  }

  lemma DigitFurther(ph: Phrase, k: nat, n: nat, i: nat)
    requires 0 < i < |ph| && k / |Options(ph[0])| == n
    ensures DigitOf(ph, k, i) == DigitOf(ph[1..], n, i - 1)
  {
    hide Options, Total;
    var s, t := |Options(ph[0])|, Total(ph[1..][..i - 1]);
    TotalFirst(ph, i);
    Bytes.DivideTwice(k, s, t);
    Commute(s, t);
  }

  lemma FirstDigit(ph: Phrase, a: nat, n: nat)
    requires ph != [] && a < |Options(ph[0])|
    ensures DigitOf(ph, a + |Options(ph[0])| * n, 0) == a
  {
    hide Options;
    var s := |Options(ph[0])|;
    assert Total(ph[..0]) == 1;
    Bytes.QuotientIs(a + s * n, s, n, a);
  }

  lemma TotalFirst(ph: Phrase, i: nat)
    requires 0 < i < |ph|
    ensures Total(ph[..i]) == |Options(ph[0])| * Total(ph[1..][..i - 1]) && Total(ph[1..][..i - 1]) > 0
  {
    assert ph[..i][1..] == ph[1..][..i - 1];
  }

  lemma Commute(a: nat, b: nat)
    ensures a * b == b * a
  {
  }

  /** All digits before `i` are at their last, digit `i` is not. */
  ghost predicate CarriesTo(ph: Phrase, pos: seq<nat>, i: nat)
    requires |pos| == |ph|
  {
    && i < |ph| && pos[i] + 1 < |Options(ph[i])|
    && forall h | 0 <= h < i :: pos[h] + 1 == |Options(ph[h])|
  }

  ghost predicate AllLast(ph: Phrase, pos: seq<nat>)
    requires |pos| == |ph|
  {
    forall h | 0 <= h < |ph| :: pos[h] + 1 == |Options(ph[h])|
  }

  /** Zeros up to digit `i`, which is turned on by one. */
  function Turned(pos: seq<nat>, i: nat): (r: seq<nat>)
    requires i < |pos|
    ensures |r| == |pos|
  {
    seq(|pos|, h requires 0 <= h < |pos| => if h < i then 0 else if h == i then pos[i] + 1 else pos[h])
  }

  lemma {:induction false} TurnAddsOne(ph: Phrase, pos: seq<nat>, i: nat)
    requires |pos| == |ph| && CarriesTo(ph, pos, i)
    ensures Number(ph, Turned(pos, i)) == Number(ph, pos) + 1
  {
    hide Number, Options;
    var pos' := Turned(pos, i);
    NumberIs(ph, pos);
    NumberIs(ph, pos');
    if i == 0 {
      assert pos'[1..] == pos[1..];
    } else {
      assert pos'[1..] == Turned(pos[1..], i - 1);
      assert forall h | 0 <= h < i - 1 :: pos[1..][h] == pos[h + 1] && ph[1..][h] == ph[h + 1];
      TurnAddsOne(ph[1..], pos[1..], i - 1);
      OneTimeMore(|Options(ph[0])|, Number(ph[1..], pos[1..]));
    }
  }

  lemma NumberIs(ph: Phrase, pos: seq<nat>)
    requires |pos| == |ph| && ph != []
    ensures Number(ph, pos) == pos[0] + |Options(ph[0])| * Number(ph[1..], pos[1..])
  {
  }

  lemma OneTimeMore(s: nat, n: nat)
    ensures s * (n + 1) == s * n + s
  {
  }

  lemma {:induction false} AllLastIsLast(ph: Phrase, pos: seq<nat>)
    requires |pos| == |ph| && AllLast(ph, pos)
    ensures Number(ph, pos) == Total(ph) - 1
  {
    if ph != [] {
      hide Number, Options;
      NumberIs(ph, pos);
      assert forall h | 0 <= h < |ph| - 1 :: pos[1..][h] == pos[h + 1] && ph[1..][h] == ph[h + 1];
      AllLastIsLast(ph[1..], pos[1..]);
      OneTimeMore(|Options(ph[0])|, Total(ph[1..]) - 1);
    }
  }

  function Zeros(n: nat): (pos: seq<nat>)
    ensures |pos| == n
  {
    seq(n, i => 0)
  }

  lemma {:induction false} ZerosIsZero(ph: Phrase)
    ensures Number(ph, Zeros(|ph|)) == 0
  {
    if ph != [] {
      assert Zeros(|ph|)[1..] == Zeros(|ph[1..]|);
      ZerosIsZero(ph[1..]);
    }
  }

  // ---- choices and positions ----

  lemma ChoiceInProduct(ph: Phrase, pos: seq<nat>)
    requires Digits(ph, pos)
    ensures InProduct(ph, Choice(ph, pos))
  {
  }

  lemma ChoiceInjective(ph: Phrase, pos: seq<nat>, pos': seq<nat>)
    requires Sets(ph) && Digits(ph, pos) && Digits(ph, pos') && Choice(ph, pos) == Choice(ph, pos')
    ensures pos == pos'
  {
    forall i | 0 <= i < |ph| ensures pos[i] == pos'[i] {
      assert Options(ph[i])[pos[i]] == Choice(ph, pos)[i] == Options(ph[i])[pos'[i]];
    }
  }

  lemma {:induction false} PositionOf(ph: Phrase, t: seq<WordId>) returns (pos: seq<nat>)
    requires InProduct(ph, t)
    ensures Digits(ph, pos) && Choice(ph, pos) == t
  {
    if ph == [] {
      pos := [];
    } else {
      var rest := PositionOf(ph[1..], t[1..]);
      assert t[0] in Options(ph[0]);
      var a: nat :| a < |Options(ph[0])| && Options(ph[0])[a] == t[0];
      pos := [a] + rest;
      assert forall i | 0 < i < |ph| :: Choice(ph, pos)[i] == Choice(ph[1..], rest)[i - 1];
    }
  }

  // ---- the iterator ----

  const TOO_MANY: nat := 100_000

  /** The words with several lemmas, in order. */
  function Several(ph: Phrase, n: nat): (places: seq<nat>)
    requires n <= |ph|
    ensures forall j | 0 <= j < |places| :: places[j] < n && |ph[places[j]].lemmas| > 1
  {
    if n == 0 then []
    else Several(ph, n - 1) + if |ph[n - 1].lemmas| > 1 then [n - 1] else []
  }

  lemma {:induction false} SeveralAscend(ph: Phrase, n: nat)
    requires n <= |ph|
    ensures Ascending(Several(ph, n))
    ensures forall i: nat | i < n && |ph[i].lemmas| > 1 :: i in Several(ph, n)
  {
    hide Several, Ascending;
    if n > 0 {
      SeveralAscend(ph, n - 1);
      OneMoreSeveral(ph, n - 1);
      Extended(Several(ph, n - 1), n - 1);
      assert Several(ph, n - 1) + [] == Several(ph, n - 1);
      assert |ph[n - 1].lemmas| > 1 ==> n - 1 in Several(ph, n);
    } else {
      NoneSeveral(ph);
    }
  }

  lemma NoneSeveral(ph: Phrase)
    ensures Several(ph, 0) == [] && Ascending([])
  {
  }

  lemma Extended(s: seq<nat>, i: nat)
    requires Ascending(s) && forall j | 0 <= j < |s| :: s[j] < i
    ensures Ascending(s + [i])
  {
  }

  ghost predicate Ascending(s: seq<nat>) {
    forall j, k | 0 <= j < k < |s| :: s[j] < s[k]
  }

  /** What is no earlier entry, and which earlier entries there are below a later one. */
  lemma EarlierOnes(s: seq<nat>, i: nat, h: nat)
    requires Ascending(s) && i < |s|
    ensures h >= s[i] ==> h !in s[..i]
    ensures h < s[i] && h in s ==> h in s[..i]
  {
    if h in s[..i] {
      var j :| 0 <= j < i && s[j] == h;
    }
    if h < s[i] && h in s {
      var j :| 0 <= j < |s| && s[j] == h;
      assert j < i;
      assert s[..i][j] == h;
    }
  }

  class TCombinationIterator {
    const source: Phrase
    var indexes: seq<nat>
    var state: seq<nat>
    var current: seq<WordId>
    var ok: bool
    ghost var pos: seq<nat>

    /** The counters of the words with several lemmas are the digits that can turn. */
    ghost predicate Valid()
      reads this
    {
      && Sets(source) && Digits(source, pos)
      && indexes == Several(source, |source|)
      && |state| == |indexes| && (forall j | 0 <= j < |indexes| :: state[j] == pos[indexes[j]])
      && current == Choice(source, pos)
    }

    constructor (source: Phrase, indexes: seq<nat>, current: seq<WordId>)
      requires Sets(source) && indexes == Several(source, |source|)
      requires current == Choice(source, Zeros(|source|))
      ensures Valid() && this.source == source && ok && pos == Zeros(|source|)
    {
      this.source, this.indexes, this.current := source, indexes, current;
      state, ok, pos := seq(|indexes|, j => 0), true, Zeros(|source|);
    }

    /** operator++. */
    method Advance()
      requires Valid()
      modifies this
      ensures Valid()
      ensures ok ==> old(ok) && Number(source, pos) == old(Number(source, pos)) + 1
      ensures !ok && old(ok) ==> AllLast(source, old(pos))
    {
      hide Several, Number, AllLast, Ascending, Options, Total, DigitOf, Choice;
      ghost var was := pos;
      SeveralAscend(source, |source|);
      var i := 0;
      while i < |indexes|
        invariant i <= |indexes| && Valid() && indexes == old(indexes) && ok == old(ok)
        invariant forall j | 0 <= j < i :: was[indexes[j]] + 1 == |source[indexes[j]].lemmas|
        invariant forall h | 0 <= h < |source| :: pos[h] == if h in indexes[..i] then 0 else was[h]
      {
        DigitBelow(i);
        EarlierOnes(indexes, i, indexes[i]);
        assert indexes[..i + 1] == indexes[..i] + [indexes[i]];
        if state[i] + 1 != |source[indexes[i]].lemmas| {
          SetDigit(i, state[i] + 1);
          Carried(was, i);
          return;
        }
        SetDigit(i, 0);
        i := i + 1;
      }
      ok := false;
      LastOfAll(was);
    }

    lemma DigitBelow(i: nat)
      requires Valid() && i < |indexes|
      ensures indexes[i] < |source| && 0 <= state[i] < |source[indexes[i]].lemmas|
    {
      SeveralAscend(source, |source|);
      SeveralOptions(source[indexes[i]]);
    }

    /** One counter, and the lemma it points at. */
    method SetDigit(i: nat, digit: nat)
      requires Valid() && i < |indexes| && digit < |source[indexes[i]].lemmas|
      modifies this`state, this`current, this`pos
      ensures Valid() && pos == old(pos)[indexes[i] := digit]
    {
      hide Several;
      SeveralAscend(source, |source|);
      var srcIndex := indexes[i];
      forall j | 0 <= j < |indexes| && j != i ensures indexes[j] != srcIndex {
        assert j < i ==> indexes[j] < indexes[i];
      }
      state := state[i := digit];
      current := current[srcIndex := source[srcIndex].lemmas[digit]];
      pos := pos[srcIndex := digit];
    }

    lemma LastOfAll(was: seq<nat>)
      requires Digits(source, was) && forall h: nat | h < |source| && |source[h].lemmas| > 1 :: h in indexes
      requires forall j | 0 <= j < |indexes| :: indexes[j] < |source|
      requires forall j | 0 <= j < |indexes| :: was[indexes[j]] + 1 == |source[indexes[j]].lemmas|
      ensures AllLast(source, was)
    {
      forall h | 0 <= h < |source| ensures was[h] + 1 == |Options(source[h])| {
        if |source[h].lemmas| > 1 {
          assert h in indexes;
        }
      }
    }

    lemma Carried(was: seq<nat>, i: nat)
      requires Digits(source, was) && |pos| == |was|
      requires indexes == Several(source, |source|) && i < |indexes|
      requires Ascending(indexes) && forall h: nat | h < |source| && |source[h].lemmas| > 1 :: h in indexes
      requires forall j | 0 <= j < i :: was[indexes[j]] + 1 == |source[indexes[j]].lemmas|
      requires was[indexes[i]] + 1 < |source[indexes[i]].lemmas|
      requires forall h | 0 <= h < |source| ::
        pos[h] == if h in indexes[..i] then 0 else if h == indexes[i] then was[h] + 1 else was[h]
      ensures Number(source, pos) == Number(source, was) + 1
    {
      hide Several, Number, Options, Ascending;
      var at := indexes[i];
      forall h | 0 <= h < |source| ensures pos[h] == Turned(was, at)[h] {
        EarlierOnes(indexes, i, h);
        LastBelow(was, i, h);
      }
      forall h | 0 <= h < at ensures was[h] + 1 == |Options(source[h])| {
        LastBelow(was, i, h);
      }
      assert pos == Turned(was, at);
      SeveralOptions(source[at]);
      TurnAddsOne(source, was, at);
    }

    lemma SeveralOptions(w: Word)
      ensures |w.lemmas| > 1 ==> Options(w) == w.lemmas
    {
    }

    /** Below the digit that turns every digit is at its last. */
    lemma LastBelow(was: seq<nat>, i: nat, h: nat)
      requires Digits(source, was) && i < |indexes| && h < |source| && Ascending(indexes)
      requires forall h: nat | h < |source| && |source[h].lemmas| > 1 :: h in indexes
      requires forall j | 0 <= j < |indexes| :: indexes[j] < |source|
      requires forall j | 0 <= j < i :: was[indexes[j]] + 1 == |source[indexes[j]].lemmas|
      ensures h < indexes[i] ==> was[h] + 1 == |Options(source[h])|
      ensures h < indexes[i] && h !in indexes[..i] ==> was[h] == 0
    {
      EarlierOnes(indexes, i, h);
      if h < indexes[i] && |source[h].lemmas| > 1 {
        var j :| 0 <= j < i && indexes[..i][j] == h;
        assert indexes[j] == h;
      }
    }
  }

  /** The constructor's loop, with its guard against too many combinations. */
  method Begin(source: Phrase) returns (it: TCombinationIterator?)
    requires Sets(source)
    ensures it == null <==> Total(source) >= 100_000
    ensures it != null ==> fresh(it) && it.Valid() && it.source == source && it.ok && it.pos == Zeros(|source|)
  {
    hide Total, Several, Choice, Options;
    var current: seq<WordId> := [];
    var indexes: seq<nat> := [];
    var count: nat := 1;
    BeginsWith(source);
    for i := 0 to |source|
      invariant indexes == Several(source, i) && |current| == i
      invariant forall h | 0 <= h < i :: current[h] == First(source[h])
      invariant count * Total(source[i..]) == Total(source)
      invariant 0 < count < TOO_MANY
    {
      var lemmas := source[i].lemmas;
      OneWord(source, i, count);
      current := current + [First(source[i])];
      if |lemmas| > 1 {
        indexes := indexes + [i];
        count := count * |lemmas|;
        if count >= TOO_MANY {
          Larger(count, Total(source[i + 1..]));
          return null;
        }
      }
    }
    EndsWith(source, current);
    it := new TCombinationIterator(source, indexes, current);
  }

  /** The first that stands for a word. */
  function First(w: Word): WordId {
    if w.lemmas == [] then w.single else w.lemmas[0]
  }

  lemma BeginsWith(ph: Phrase)
    ensures ph[0..] == ph && Several(ph, 0) == [] && 1 * Total(ph[0..]) == Total(ph)
  {
  }

  lemma OneWord(ph: Phrase, i: nat, count: nat)
    requires i < |ph| && count > 0
    ensures Several(ph, i + 1) == Several(ph, i) + if |ph[i].lemmas| > 1 then [i] else []
    ensures var s := if |ph[i].lemmas| > 1 then |ph[i].lemmas| else 1;
      count * Total(ph[i..]) == (count * s) * Total(ph[i + 1..])
  {
    hide Several;
    OneMoreSeveral(ph, i);
    assert ph[i..][1..] == ph[i + 1..];
    Regroup(count, |Options(ph[i])|, Total(ph[i + 1..]));
  }

  lemma OneMoreSeveral(ph: Phrase, i: nat)
    requires i < |ph|
    ensures Several(ph, i + 1) == Several(ph, i) + if |ph[i].lemmas| > 1 then [i] else []
  {
  }

  lemma EndsWith(ph: Phrase, current: seq<WordId>)
    requires |current| == |ph| && forall h | 0 <= h < |ph| :: current[h] == First(ph[h])
    ensures current == Choice(ph, Zeros(|ph|)) && Total(ph[|ph|..]) == 1
  {
    assert ph[|ph|..] == [];
    forall h | 0 <= h < |ph| ensures current[h] == Choice(ph, Zeros(|ph|))[h] {
      assert First(ph[h]) == Options(ph[h])[0];
    }
  }

  lemma Regroup(a: nat, b: nat, c: nat)
    ensures a * (b * c) == (a * b) * c
  {
  }

  lemma Larger(a: nat, b: nat)
    requires b > 0
    ensures a * b >= a
  {
  }

  /** A loop over the iterator: every element of the product once, and no more turns than there
      are combinations. */
  method Enumerate(source: Phrase) returns (visits: Option<seq<seq<WordId>>>)
    requires Sets(source)
    ensures visits.None? <==> Total(source) >= 100_000
    ensures visits.Some? ==> |visits.value| == Total(source)
    ensures visits.Some? ==> forall i, j | 0 <= i < j < |visits.value| :: visits.value[i] != visits.value[j]
    ensures visits.Some? ==> forall t :: t in visits.value <==> InProduct(source, t)
    ensures visits.Some? ==> forall k, i | 0 <= k < |visits.value| && 0 <= i < |source| ::
      |visits.value[k]| == |source| && visits.value[k][i] == Options(source[i])[DigitOf(source, k, i)]
  {
    var it := Begin(source);
    if it == null {
      return None;
    }
    var seen := [];
    ghost var at := [];
    ZerosIsZero(source);
    NumberBelow(source, it.pos);
    while it.ok
      invariant fresh(it) && it.Valid() && it.source == source
      invariant Seen(source, seen, at)
      invariant if it.ok then Number(source, it.pos) == |seen| else |seen| == Total(source)
      decreases Total(source) - |seen|, if it.ok then 1 else 0
    {
      NumberBelow(source, it.pos);
      ghost var was := it.pos;
      seen, at := seen + [it.current], at + [was];
      it.Advance();
      if !it.ok {
        AllLastIsLast(source, was);
      }
    }
    SeenAll(source, seen, at);
    SeenInOrder(source, seen, at);
    visits := Some(seen);
  }

  /** The `k`-th visit is the choice whose digits show `k`. */
  ghost predicate Seen(ph: Phrase, seen: seq<seq<WordId>>, at: seq<seq<nat>>) {
    && |at| == |seen|
    && forall k | 0 <= k < |at| :: Digits(ph, at[k]) && Number(ph, at[k]) == k && seen[k] == Choice(ph, at[k])
  }

  /** The words before turn faster. */
  lemma SeenInOrder(ph: Phrase, seen: seq<seq<WordId>>, at: seq<seq<nat>>)
    requires Seen(ph, seen, at)
    ensures forall k, i | 0 <= k < |seen| && 0 <= i < |ph| ::
      |seen[k]| == |ph| && seen[k][i] == Options(ph[i])[DigitOf(ph, k, i)]
  {
    hide Number, DigitOf, Options;
    forall k, i | 0 <= k < |seen| && 0 <= i < |ph|
      ensures |seen[k]| == |ph| && seen[k][i] == Options(ph[i])[DigitOf(ph, k, i)]
    {
      DigitsAre(ph, at[k], i);
    }
  }

  lemma SeenAll(ph: Phrase, seen: seq<seq<WordId>>, at: seq<seq<nat>>)
    requires Sets(ph) && Seen(ph, seen, at) && |seen| == Total(ph)
    ensures forall i, j | 0 <= i < j < |seen| :: seen[i] != seen[j]
    ensures forall t :: t in seen <==> InProduct(ph, t)
  {
    hide Number, Choice, Total, Options;
    forall i, j | 0 <= i < j < |seen| ensures seen[i] != seen[j] {
      if seen[i] == seen[j] {
        ChoiceInjective(ph, at[i], at[j]);
      }
    }
    forall t ensures t in seen <==> InProduct(ph, t) {
      if t in seen {
        var k :| 0 <= k < |seen| && seen[k] == t;
        ChoiceInProduct(ph, at[k]);
      }
      if InProduct(ph, t) {
        var pos := PositionOf(ph, t);
        NumberBelow(ph, pos);
        var k := Number(ph, pos);
        NumberInjective(ph, at[k], pos);
        assert seen[k] == t;
      }
    }
  }
}
