/** Chunks with names (TNamedChunkedDataWriter and TNamedChunkedDataReader): the names are kept
    in one more block, behind the user's. */
module NamedChunks {
  import opened Wrappers
  import opened Bytes
  import opened Chunks

  type Name = seq<byte>

  /** "NamedChunkedData". */
  const MAGIC: seq<byte> := [78, 97, 109, 101, 100, 67, 104, 117, 110, 107, 101, 100, 68, 97, 116, 97]

  // ---- the list of names ----

  function SaveName(name: Name): seq<byte> {
    Little(|name|, 4) + name
  }

  function SaveNames(names: seq<Name>): seq<byte> {
    if names == [] then [] else SaveNames(names[..|names| - 1]) + SaveName(names[|names| - 1])
  }

  /** Save of a vector of strings: every size in four bytes. */
  function SaveVector(names: seq<Name>): seq<byte> {
    Little(|names|, 4) + SaveNames(names)
  }

  /** Where the name after the first `n` begins. */
  function NameAt(data: seq<byte>, p: nat, n: nat): nat {
    if n == 0 then p
    else var q := NameAt(data, p, n - 1); q + 4 + ReadLittle(data, q, 4)
  }

  function LoadNames(data: seq<byte>, p: nat, n: nat): (names: seq<Name>)
    ensures |names| == n
  {
    if n == 0 then []
    else
      var q := NameAt(data, p, n - 1);
      LoadNames(data, p, n - 1) + [Slice(data, q + 4, ReadLittle(data, q, 4))]
  }

  function LoadVector(data: seq<byte>, p: nat): seq<Name> {
    LoadNames(data, p + 4, ReadLittle(data, p, 4))
  }

  /** Sizes have four bytes. */
  ghost predicate Short(names: seq<Name>) {
    |names| < Pow(256, 4) && forall i | 0 <= i < |names| :: |names[i]| < Pow(256, 4)
  }

  lemma {:induction false} NamesLaw(data: seq<byte>, p: nat, names: seq<Name>, n: nat)
    requires n <= |names| && StandsAt(data, p, SaveNames(names[..n])) && Short(names)
    ensures NameAt(data, p, n) == p + |SaveNames(names[..n])|
    ensures LoadNames(data, p, n) == names[..n]
  {
    hide Little, ReadLittle, Pow, StandsAt;
    if n > 0 {
      var name := names[n - 1];
      assert names[..n][..n - 1] == names[..n - 1];
      StandsAtSplit(data, p, SaveNames(names[..n - 1]), SaveName(name));
      NamesLaw(data, p, names, n - 1);
      var q := p + |SaveNames(names[..n - 1])|;
      StandsAtSplit(data, q, Little(|name|, 4), name);
      LittleLaw(data, q, |name|, 4);
      SliceIs(data, q + 4, name);
      assert names[..n] == names[..n - 1] + [name];
    }
  }

  lemma SliceIs(data: seq<byte>, p: nat, bs: seq<byte>)
    requires StandsAt(data, p, bs)
    ensures Slice(data, p, |bs|) == bs
  {
    assert data[p..p + |bs|] == bs;
  }

  lemma VectorLaw(data: seq<byte>, p: nat, names: seq<Name>)
    requires StandsAt(data, p, SaveVector(names)) && Short(names)
    ensures LoadVector(data, p) == names
  {
    hide Little, ReadLittle, Pow, SaveNames;
    StandsAtSplit(data, p, Little(|names|, 4), SaveNames(names));
    LittleLaw(data, p, |names|, 4);
    assert names[..|names|] == names;
    NamesLaw(data, p + 4, names, |names|);
  }

  // ---- names and indices ----

  /** The index of every name that is not empty. */
  function IndexOf(names: seq<Name>): map<Name, nat> {
    if names == [] then map[]
    else
      var n := |names| - 1;
      var m := IndexOf(names[..n]);
      if names[n] == [] then m else m[names[n] := n]
  }

  ghost predicate Unique(names: seq<Name>) {
    forall i, j | 0 <= i < j < |names| && names[i] != [] :: names[i] != names[j]
  }

  /** With unique names the map finds each name at its place and nothing else. */
  lemma {:induction false} IndexFinds(names: seq<Name>, name: Name, i: nat)
    requires Unique(names)
    ensures name in IndexOf(names) && IndexOf(names)[name] == i <==> i < |names| && names[i] == name && name != []
  {
    if names != [] {
      var n := |names| - 1;
      IndexFinds(names[..n], name, i);
      IndexFinds(names[..n], names[n], i);
      if i < n {
        assert names[..n][i] == names[i];
      }
    }
  }

  /** The names found last belong to blocks that have one. */
  lemma {:induction false} IndexMembers(names: seq<Name>, name: Name)
    ensures name in IndexOf(names) <==> name != [] && name in names
  {
    if names != [] {
      IndexMembers(names[..|names| - 1], name);
    }
  }

  // ---- the writer ----

  class TNamedChunkedDataWriter {
    const base: TChunkedDataWriter
    var names: seq<Name>
    var nameToIndex: map<Name, nat>

    ghost predicate Valid()
      reads this, base
    {
      && base.Valid()
      && |names| == |base.blocks| && Unique(names) && nameToIndex == IndexOf(names)
    }

    constructor ()
      ensures Valid() && names == [] && base.blocks == [] && fresh(base)
    {
      base := new TChunkedDataWriter();
      names, nameToIndex := [], map[];
    }

    /** False is the exception for a name that was used before. */
    method NewBlock(name: Name) returns (ok: bool)
      requires Valid()
      modifies this, base
      ensures Valid() && ok == (name == [] || name !in old(names))
      ensures ok ==> names == old(names) + [name] && base.blocks == old(base.blocks) + [[]]
      ensures !ok ==> names == old(names) && base.blocks == old(base.blocks)
    {
      IndexMembers(names, name);
      if name != [] {
        if name in nameToIndex {
          return false;
        }
        nameToIndex := nameToIndex[name := |names|];
      }
      assert (names + [name])[..|names|] == names;
      names := names + [name];
      base.NewBlock();
      ok := true;
    }

    method Write(buf: seq<byte>)
      requires Valid()
      modifies base
      ensures Valid() && names == old(names)
      ensures base.blocks == if old(base.blocks) == [] then [] else
        old(base.blocks)[|old(base.blocks)| - 1 := old(base.blocks)[|old(base.blocks)| - 1] + buf]
    {
      base.Write(buf);
    }

    /** One more block, without a name, for all the names and its own. */
    method WriteFooter()
      requires Valid()
      modifies this, base
      ensures names == old(names) + [[]]
      ensures base.blocks == old(base.blocks) + [MAGIC + SaveVector(names)]
      ensures IsFile(base.out, base.offsets, base.blocks)
    {
      hide SaveVector, Footer, Laid, LengthsOf, Unique, IndexOf, IsFile;
      ghost var users := base.blocks;
      var ok := NewBlock([]);
      base.Write(MAGIC);
      assert base.blocks == users + [MAGIC] by { assert [] + MAGIC == MAGIC; }
      base.Write(SaveVector(names));
      assert base.blocks == users + [MAGIC + SaveVector(names)];
      base.WriteFooter();
    }
  }

  // ---- the reader ----

  /** A reader, or one of the errors: of the plain reader, no block at all, no magic. */
  datatype Named =
    | Named(reader: Reader, names: seq<Name>, nameToIndex: map<Name, nat>)
    | Unreadable(why: Failure)
    | TooFewBlocks
    | NotNamed

  /** The names out of the last block, which begins with the magic. */
  function DecodedNames(data: seq<byte>): Named {
    match Decoded(data)
    case Failed(why) => Unreadable(why)
    case Opened(r) =>
      if |r.offsets| < 1 then TooFewBlocks
      else
        match GetBlock(data, r, |r.offsets| - 1)
        case None => NotNamed
        case Some(block) =>
          if MAGIC <= block then
            var names := LoadVector(block, |MAGIC|);
            Named(r, names, IndexOf(names))
          else NotNamed
  }

  /** The reader's constructor. */
  method OpenNamed(data: seq<byte>) returns (r: Named)
    ensures r == DecodedNames(data)
  {
    hide Decoded, LoadVector, GetBlock;
    var result := Open(data);
    if result.Failed? {
      return Unreadable(result.why);
    }
    var reader := result.reader;
    if |reader.offsets| < 1 {
      return TooFewBlocks;
    }
    var found := GetBlock(data, reader, |reader.offsets| - 1);
    if found.None? || !(MAGIC <= found.value) {
      return NotNamed;
    }
    var names := LoadVector(found.value, |MAGIC|);
    var nameToIndex: map<Name, nat> := map[];
    for index := 0 to |names|
      invariant nameToIndex == IndexOf(names[..index])
    {
      assert names[..index + 1][..index] == names[..index];
      if names[index] != [] {
        nameToIndex := nameToIndex[names[index] := index];
      }
    }
    assert names[..|names|] == names;
    r := Named(reader, names, nameToIndex);
  }

  /** How many blocks the user sees. */
  function GetBlocksCount(r: Named): nat
    requires r.Named? && |r.reader.offsets| > 0
  {
    |r.reader.offsets| - 1
  }

  /** A file as WriteFooter leaves it, for the user's blocks and their names. */
  ghost predicate Finished(data: seq<byte>, offsets: seq<nat>, users: seq<seq<byte>>, names: seq<Name>) {
    IsFile(data, offsets, users + [MAGIC + SaveVector(names + [[]])])
  }

  /** The named reader finds every block of the user by its name, and shows no other block. */
  lemma NamedBlocksReadBack(data: seq<byte>, offsets: seq<nat>, users: seq<seq<byte>>, names: seq<Name>, i: nat)
    requires |names| == |users| && Unique(names) && Short(names + [[]])
    requires Finished(data, offsets, users, names) && |data| < Pow(256, 8)
    ensures var r := DecodedNames(data);
      && r.Named? && |r.reader.offsets| == |users| + 1 && GetBlocksCount(r) == |users|
      && r.names == names + [[]]
      && (i < |users| ==> GetBlock(data, r.reader, i) == Some(users[i]))
      && (i < |users| && names[i] != [] ==> names[i] in r.nameToIndex && r.nameToIndex[names[i]] == i)
      && forall name | name in r.nameToIndex :: name in names && name != []
  {
    hide Decoded, GetBlock, SaveVector, LoadVector, IsFile, Pow;
    var all := names + [[]];
    var last := MAGIC + SaveVector(all);
    BlocksReadBack(data, offsets, users + [last], |users|);
    BlocksReadBack(data, offsets, users + [last], i);
    Behind(MAGIC, SaveVector(all));
    VectorLaw(last, |MAGIC|, all);
    assert MAGIC <= last;
    IndexFinds(all, if i < |names| then names[i] else [], i);
    forall name | name in IndexOf(all) ensures name in names && name != [] {
      IndexMembers(all, name);
    }
  }

  ghost function Ascii(s: string): seq<byte>
    requires forall i | 0 <= i < |s| :: s[i] < 128 as char
  {
    seq(|s|, i requires 0 <= i < |s| => s[i] as int)
  }

  ghost function Text(): seq<byte> {
    Ascii("NamedChunkedData")
  }

  lemma MagicIs()
    ensures MAGIC == Text()
  {
    var t := "NamedChunkedData";
    assert t[..8] + t[8..] == t;
  }

  /** Of the finished files those are refused that have no block, or whose last block does not begin
      with the magic. */
  lemma NamedIfMagic(data: seq<byte>, offsets: seq<nat>, blocks: seq<seq<byte>>)
    requires IsFile(data, offsets, blocks) && |data| < Pow(256, 8)
    ensures var named := blocks != [] && Text() <= blocks[|blocks| - 1];
      && (DecodedNames(data) == TooFewBlocks <==> blocks == [])
      && (DecodedNames(data).Named? <==> named)
      && (DecodedNames(data) == NotNamed <==> blocks != [] && !named)
  {
    hide Decoded, GetBlock, LoadVector, IsFile, Pow;
    MagicIs();
    BlocksReadBack(data, offsets, blocks, if blocks == [] then 0 else |blocks| - 1);
  }
}
