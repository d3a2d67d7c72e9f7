/** What the gazetteer's search trees (searchtree.h) are made of: the trie of phrases, seen as
    the keys that are left behind a prefix, and branches, the word sequences read so far. */
module PhraseBranches {
  import opened Wrappers

  // ---- the trie ----

  /** The keys of the sub-trie behind `id`. */
  function Behind<Id(==)>(keys: seq<seq<Id>>, id: Id): (tails: seq<seq<Id>>) {
    if keys == [] then []
    else
      var k := keys[|keys| - 1];
      Behind(keys[..|keys| - 1], id) + if k != [] && k[0] == id then [k[1..]] else []
  }

  /** TTrie::FindTails fails where no key goes on. */
  function FindTails<Id(==)>(tails: seq<seq<Id>>, id: Id): Option<seq<seq<Id>>> {
    var t := Behind(tails, id);
    if t == [] then None else Some(t)
  }

  /** The keys left behind a whole sequence of ids. */
  function Tails<Id(==)>(keys: seq<seq<Id>>, ids: seq<Id>): seq<seq<Id>> {
    if ids == [] then keys else Behind(Tails(keys, ids[..|ids| - 1]), ids[|ids| - 1])
  }

  lemma {:induction false} BehindKeys<Id>(keys: seq<seq<Id>>, id: Id, k: seq<Id>)
    ensures k in Behind(keys, id) <==> [id] + k in keys
  {
    if keys != [] {
      var last := keys[|keys| - 1];
      BehindKeys(keys[..|keys| - 1], id, k);
      assert last == [id] + k <==> last != [] && last[0] == id && last[1..] == k by {
        assert ([id] + k)[1..] == k;
        if last != [] && last[0] == id && last[1..] == k {
          assert last == [last[0]] + last[1..];
        }
      }
    }
  }

  /** What is left behind a sequence are the rests of the keys that begin with it. */
  lemma {:induction false} TailsKeys<Id>(keys: seq<seq<Id>>, ids: seq<Id>, k: seq<Id>)
    ensures k in Tails(keys, ids) <==> ids + k in keys
  {
    if ids == [] {
      assert ids + k == k;
    } else {
      var n := |ids| - 1;
      BehindKeys(Tails(keys, ids[..n]), ids[n], k);
      TailsKeys(keys, ids[..n], [ids[n]] + k);
      assert ids[..n] + ([ids[n]] + k) == ids + k;
    }
  }

  /** Something is left exactly when the sequence begins some key. */
  lemma TailsLeft<Id>(keys: seq<seq<Id>>, ids: seq<Id>)
    ensures Tails(keys, ids) != [] <==> exists i :: 0 <= i < |keys| && ids <= keys[i]
  {
    var t := Tails(keys, ids);
    if t != [] {
      TailsKeys(keys, ids, t[0]);
      var i :| 0 <= i < |keys| && keys[i] == ids + t[0];
      assert ids <= keys[i];
    }
    if i :| 0 <= i < |keys| && ids <= keys[i] {
      TailsKeys(keys, ids, keys[i][|ids|..]);
      assert ids + keys[i][|ids|..] == keys[i];
    }
  }

  /** How much can still be read: what makes every chain of appends end. */
  function Weight<Id>(tails: seq<seq<Id>>): nat {
    if tails == [] then 0 else Weight(tails[..|tails| - 1]) + |tails[|tails| - 1]|
  }

  lemma {:induction false} BehindWeighsLess<Id>(keys: seq<seq<Id>>, id: Id)
    ensures Weight(Behind(keys, id)) + |Behind(keys, id)| <= Weight(keys)
  {
    if keys != [] {
      var n := |keys| - 1;
      BehindWeighsLess(keys[..n], id);
      var rest := Behind(keys[..n], id);
      if keys[n] != [] && keys[n][0] == id {
        assert (rest + [keys[n][1..]])[..|rest|] == rest;
      } else {
        assert rest + [] == rest;
      }
    }
  }

  // ---- branches ----

  /** A word of a branch, and how many sub-tokens it stands for. */
  datatype LinkedWord<W> = LinkedWord(word: W, multitokenSize: nat)

  /** The words are linked from the last to the first. */
  datatype Branch<Id, W> = Branch(tails: seq<seq<Id>>, words: seq<LinkedWord<W>>, size: nat)

  /** GetFinalData: whether the words read are a whole phrase. */
  predicate IsFinal<Id(==), W>(b: Branch<Id, W>) {
    [] in b.tails
  }

  function Root<Id, W>(keys: seq<seq<Id>>): Branch<Id, W> {
    Branch(keys, [], 0)
  }

  function Append<Id, W>(b: Branch<Id, W>, w: LinkedWord<W>): Branch<Id, W> {
    b.(words := [w] + b.words, size := b.size + 1)
  }

  function Reverse<T>(s: seq<T>): (r: seq<T>)
    ensures |r| == |s| && forall i | 0 <= i < |s| :: r[i] == s[|s| - 1 - i]
  {
    if s == [] then [] else Reverse(s[1..]) + [s[0]]
  }

  function Words<W>(ws: seq<LinkedWord<W>>): (r: seq<W>)
    ensures |r| == |ws|
  {
    seq(|ws|, i requires 0 <= i < |ws| => ws[i].word)
  }

  /** Read in their order, the words end with the one linked in front. */
  lemma AppendSays<W>(w: LinkedWord<W>, ws: seq<LinkedWord<W>>)
    ensures Words(Reverse([w] + ws)) == Words(Reverse(ws)) + [w.word]
  {
    assert ([w] + ws)[1..] == ws;
  }

  function FullSize<W>(ws: seq<LinkedWord<W>>): nat {
    if ws == [] then 0 else ws[0].multitokenSize + FullSize(ws[1..])
  }

  function Repeat(v: nat, n: nat): seq<nat> {
    seq(n, i => v)
  }

  /** For every sub-token of the words, counted from the first word, the word it is part of.
      `ws` runs from the last word to the first. */
  function IndexTable<W>(ws: seq<LinkedWord<W>>): (t: seq<nat>)
    ensures |t| == FullSize(ws)
  {
    if ws == [] then [] else IndexTable(ws[1..]) + Repeat(|ws| - 1, ws[0].multitokenSize)
  }

  /** Where the sub-tokens of word `i` begin. */
  function Offset<W>(ws: seq<LinkedWord<W>>, i: nat): nat
    requires i <= |ws|
  {
    FullSize(ws[|ws| - i..])
  }

  /** The table sends the sub-tokens from the beginning of word `i` to the beginning of the next
      to `i`, and nothing else. */
  lemma {:induction false} TableFindsWord<W>(ws: seq<LinkedWord<W>>, i: nat, j: nat)
    requires i < |ws| && j < FullSize(ws)
    ensures Offset(ws, i) <= Offset(ws, i + 1) <= FullSize(ws)
    ensures IndexTable(ws)[j] == i <==> Offset(ws, i) <= j < Offset(ws, i + 1)
  {
    var rest := ws[1..];
    if i < |rest| {
      assert ws[|ws| - i..] == rest[|rest| - i..] && ws[|ws| - (i + 1)..] == rest[|rest| - (i + 1)..];
      OffsetsGrow(rest, i);
      if j < FullSize(rest) {
        TableFindsWord(rest, i, j);
      }
    } else {
      assert ws[|ws| - i..] == rest && ws[|ws| - (i + 1)..] == ws;
      TableBelow(rest);
    }
  }

  lemma {:induction false} OffsetsGrow<W>(ws: seq<LinkedWord<W>>, i: nat)
    requires i < |ws|
    ensures Offset(ws, i) <= Offset(ws, i + 1) <= FullSize(ws)
  {
    if i + 1 < |ws| {
      OffsetsGrow(ws[1..], i);
      assert ws[|ws| - i..] == ws[1..][|ws| - 1 - i..] && ws[|ws| - (i + 1)..] == ws[1..][|ws| - 1 - (i + 1)..];
    } else {
      assert ws[0..] == ws && ws[|ws| - (i + 1)..] == ws && ws[|ws| - i..] == ws[1..];
    }
  }

  lemma {:induction false} TableBelow<W>(ws: seq<LinkedWord<W>>)
    ensures forall j | 0 <= j < FullSize(ws) :: IndexTable(ws)[j] < |ws|
  {
    if ws != [] {
      TableBelow(ws[1..]);
    }
  }

  ghost predicate Positive<W>(ws: seq<LinkedWord<W>>) {
    forall i | 0 <= i < |ws| :: ws[i].multitokenSize > 0
  }

  /** No table is needed just when every word is one token. */
  lemma {:induction false} NoMultitokens<W>(ws: seq<LinkedWord<W>>)
    requires Positive(ws)
    ensures FullSize(ws) >= |ws|
    ensures FullSize(ws) == |ws| <==> forall i | 0 <= i < |ws| :: ws[i].multitokenSize == 1
  {
    if ws != [] {
      NoMultitokens(ws[1..]);
      assert forall i | 1 <= i < |ws| :: ws[i] == ws[1..][i - 1];
      assert forall i | 0 <= i < |ws| - 1 :: ws[1..][i] == ws[i + 1];
    }
  }

  /** The words in their order, and for multitokens the table of sub-tokens. */
  method CopyTo<W(0)>(ws: seq<LinkedWord<W>>) returns (words: seq<W>, indexes: seq<nat>)
    ensures words == Words(Reverse(ws))
    ensures indexes == if FullSize(ws) == |ws| then [] else IndexTable(ws)
  {
    var copy := new W[|ws|];
    var fullSize := 0;
    for i := 0 to |ws|
      invariant forall k | 0 <= k < i :: copy[|ws| - 1 - k] == ws[k].word
      invariant fullSize + FullSize(ws[i..]) == FullSize(ws)
    {
      copy[|ws| - 1 - i] := ws[i].word;
      fullSize := fullSize + ws[i].multitokenSize;
      assert ws[i..][1..] == ws[i + 1..];
    }
    assert ws[|ws|..] == [];
    words := copy[..];
    forall k | 0 <= k < |ws| ensures words[k] == Words(Reverse(ws))[k] {
      assert words[k] == copy[|ws| - 1 - (|ws| - 1 - k)];
    }
    if fullSize == |words| {
      indexes := [];
    } else {
      indexes := BuildIndexTable(ws, fullSize);
    }
  }

  /** Filled from the end, word by word. */
  method BuildIndexTable<W>(ws: seq<LinkedWord<W>>, fullSize: nat) returns (indexes: seq<nat>)
    requires fullSize == FullSize(ws)
    ensures indexes == IndexTable(ws)
  {
    var last := |ws|;
    indexes := [];
    for i := 0 to |ws|
      invariant last == |ws| - i
      invariant IndexTable(ws[i..]) + indexes == IndexTable(ws)
    {
      assert ws[i..][1..] == ws[i + 1..];
      last := last - 1;
      ghost var was := indexes;
      for k := 0 to ws[i].multitokenSize
        invariant indexes == Repeat(last, k) + was
      {
        assert [last] + Repeat(last, k) == Repeat(last, k + 1);
        indexes := [last] + indexes;
      }
      assert IndexTable(ws[i + 1..]) + (Repeat(last, ws[i].multitokenSize) + was)
          == (IndexTable(ws[i + 1..]) + Repeat(last, ws[i].multitokenSize)) + was;
    }
    assert ws[|ws|..] == [];
    assert indexes == IndexTable(ws[|ws|..]) + indexes;
  }
}
