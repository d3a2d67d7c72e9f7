# Proved models of the data structures in FactExtract's library code

Each part models one algorithmic core of the repository in Dafny and proves that it meets the
simple description of what it is for.

- **Compact trie** (`Trie*.dfy`, `Bytes.dfy`). The builder's radix tree is a value (`TrieTree`), the
  bytes it is saved in are a function of the tree (`TrieCodec`), and a reader walks these bytes
  (`TrieReader`). Additions to the tree make a map (`TrieMap`), reading the bytes finds the same map
  (`TrieRoundTrip`), and prefix-grouped building saves the same bytes (`TrieGrouped`), keeps one way of
  the tree for ascending keys and refuses what goes on behind a closed node (`TrieAscending`). `TrieBuilder`
  is the builder on the heap: nodes, arcs and offsets updated in place, each method proved equal to
  the functions on values (`TriePaths` has the subtrees by path and their sizes). `TrieSearch` finds
  the longest prefix of a key in the bytes, `TrieTails` the part behind a key, and behind more key
  parts the part of that, `TrieSearchIterator` walks down key part by key part. The ordered iterator (`TrieIterator`) moves a stack of forks read
  from the bytes (`TrieForks`); `TrieOrder` and `TrieBounds` say which stack stands for which key,
  `TrieItems` and `TrieVisit` that these are the keys added. A map has one tight tree, whatever the
  order of the additions (`TrieCanonical`). `TrieEmptyKey`, `TrieHistory` and `TrieHidden` say when the
  empty key, kept as one zero byte, is safe; `TrieEndToEnd` adds, saves, opens, searches and visits;
  `TrieWitness` has small tries on which an operation does not do what is asked of it.
- **Packers** (`Packers.dfy`, `PackerLoops.dfy`). One packer type is a `Schema`; the packer law holds for
  every schema. The loops of the packers are proved against its functions.
- **Ownership counts** (`Ownership*.dfy`). Objects, the smart pointers that hold them and the two words
  of counts form a machine run by scripts of pointer assignments; what destructors and constructors
  do is a script inside an assignment. `OwnershipSafety` says which runs are safe, `OwnershipRules`
  gives rules for classes that make every run safe, `OwnershipWitness` runs that are not.
  `OwnershipEffects` says what clearing and deleting an object do to the pointers, and when nothing
  runs. `OwnershipObjects` has the methods that re-enter each other.
- **Object-graph saver** (`BinSaver*.dfy`). Memory is a map of addresses to objects, the stream a
  sequence of tokens; the queue grows while it is worked off. Stable output follows the graph and not
  its addresses (`BinSaverStable`).
- **Edit distance** (`EditDistance.dfy`, `QuickDistance.dfy`). The distance is the cost of the cheapest
  sequence of edits; table, stripping and lower bound are proved against it.
- **Phrase search** (`PhraseBranches.dfy`, `SearchTree.dfy`, `PhraseReadings.dfy`, `FullSearchTree.dfy`). A
  branch stands for a chain of calls, or for a reading of the last words; the searches keep exactly
  those that naive enumeration finds, each with its words in order.
- **Smaller cores.** `Words`, `Bitmap` and `BitmapIterator` (paged bitmap), `PlainHash` (bucketed hash),
  `Chunks` and `NamedChunks` (chunk container), `Combinations` (lemma combinations), `Inheritance`
  (cycles) and `Hierarchy` (relations of messages).

Methods follow the loops and in-place updates of the C++ code; each is specified by a function of
its inputs or of the old state, and the lemmas are about these functions.

## Findings

- The minimum of the 64-bit signed type packs to what unpacks as 0; every other value of every
  signed type comes back (`Packers.SignedRoundTrip`).
- The empty key is hidden if keys were added that begin with byte 0 and all of these go on with one
  and the same byte (`TrieHistory.ShadowedByKeys`, `TrieWitness.ZeroHides`). Then the builder loses a
  key (`TrieHistory.HiddenLosesKey`) and the saved bytes, grouped or not, do not find one
  (`TrieHidden.HiddenIsWrong`). A history can be saved after each of its additions with every answer
  right exactly if it hides no empty key (`TrieHidden.RightAllAlong`). With one-byte symbols the empty
  key and the key "\0" are one key, and one takes the place of the other
  (`TrieEmptyKey.ZeroOverwritten`).
- UpperBound stands on the smallest key not below its argument exactly unless the keys added begin
  with one byte or two and the argument with a greater one; then it stands on the first key instead
  of the end, as for "b" when only "a" was added (`TrieEndToEnd.SaveAndSeek`,
  `TrieWitness.BoundRestarts`): the search leaves no forks, and Forward takes that for the beginning.
- A search for the longest prefix tells whether keys go on behind it, and is right about that
  exactly if the prefix is not empty, or no other key was added, or symbols are wider than a byte,
  the key begins with byte 0 and some key goes on behind that byte (`TrieSearch.SavedNextIsRight`,
  `TrieWitness.EmptyPrefixIsSilent`).
- Advance of the search iterator over several symbols reads through null exactly if before their end
  comes a key that was added and has none behind it (`TrieSearchIterator.CursorAdvances`,
  `TrieWitness.AdvanceFaults`). Its GetValue is right exactly if no empty key was added, or the
  iterator has moved to a key that was added; else it says true and reads through null
  (`TrieSearchIterator.CursorValue`, `TrieWitness.ValueReadsNull`).
- Nothing is deleted twice, with a pointer left, or while it is constructed, cleared or deleted,
  exactly when no release leaves the words of an object empty inside one of its constructors or its
  last destructor, and no pointer is set to an object inside its last destructor
  (`OwnershipSafety.RunsAreSafe`). The default constructor that DestroyContents runs can get its
  object deleted under a pointer (`OwnershipWitness.EarlyDeletion`); a last destructor that takes
  and drops a pointer to its object gets it deleted twice (`OwnershipWitness.DoubleDeletion`).
  Constructors that take new objects only and last destructors that take no raw pointers make every
  run safe (`OwnershipRules.TameIsSafe`).
- Calls of no length are harmless for the compound search: they may repeat in a chain, and the loop
  over the growing list still ends because the trie is finite (`FullSearchTree.OneMoreToTry`).
- The word-by-word search finds all readings of the words behind every word exactly if there are
  never more than 10001 of them (`PhraseReadings.FindsAllReadings`).
- In a chunk file of the old version the last block is told too long by the offset of the first
  one: every block is read back exactly if that is 0 (`Chunks.OldBlocksReadBack`).
- The bitmap counts in 32 bits: the count is right exactly when some id is missing
  (`Bitmap.Bitmap1.Count`), and the bitmap with all 2^32 ids, which there is
  (`Bitmap.FullBitmap`), counts 0.

## Model

| member | source | states |
|---|---|---|
| TrieHistory.SavedTrieIsMap | src/library/comptrie/comptrie_trie.h:107-112 | After any additions in either mode that raised no error, unless an empty key was hidden, advancing symbol by symbol through the saved bytes finds a key exactly when it was added, with its last value, and no other key |
| TrieRoundTrip.LogIsMap | src/library/comptrie/comptrie_impl.h:141-236 | The same for a log of byte keys, with the empty key as its one byte |
| TrieEndToEnd.SaveAndSearch | src/library/comptrie/comptrie_builder.h:512-600 | Adding pairs to a builder, saving, opening the bytes and searching them: no addition throws exactly when grouped input is in order and unique input has no key twice, and the search finds the longest prefix added and the last value, the empty key included unless it was hidden |
| TrieEndToEnd.AddAll | src/library/comptrie/comptrie_builder.h:512-522 | Additions one by one leave the tree of the whole history, up to the first exception |
| TrieEndToEnd.Joined | src/library/comptrie/comptrie_trie.h:488-497 | What the builder accepts and what the bytes answer, told from the additions alone |
| TrieEndToEnd.SaveAndVisit | src/library/comptrie/comptrie_trie.h:591-611 | Adding, saving, opening and going from Begin to End shows every key added once, in ascending order of unsigned bytes, with its last value, the empty key first |
| TrieEndToEnd.SaveAndSeek | src/library/comptrie/comptrie_trie.h:173-177 | Adding, saving, opening and asking for the upper bound of a key gives the smallest key added that is not below it, or none, exactly unless the keys begin with one byte or two and the argument with a greater one; then it gives the smallest key of all |
| TrieVisit.VisitAll | src/library/comptrie/comptrie_trie.h:591-596 | The loop from Begin to End over the iterator does that on any saved bytes of an unhidden history |
| TrieVisit.UpperBound | src/library/comptrie/comptrie_trie.h:826-836 | The iterator has exactly the keys below the argument before it exactly unless the keys are few and below |
| TrieVisit.RestartsIsFew | src/library/comptrie/comptrie_trie.h:955-959 | The search leaves no forks exactly if the keys begin with one byte or two and the argument with a greater one |
| TrieIterator.TImpl.Forward | src/library/comptrie/comptrie_trie.h:848-883 | From each key to the next one, from the last one to the end, and from there to the first fork again; true while there is a key |
| TrieIterator.TImpl.Backward | src/library/comptrie/comptrie_trie.h:885-937 | From the end to the last key, from each key to the one before, and from the first fork to the empty key of its own, if there is one |
| TrieIterator.TImpl.LongestPrefix | src/library/comptrie/comptrie_trie.h:939-978 | The loops over symbols, bytes and forks push the forks, with the directions, that the recursive search names, and give its defect |
| TrieIterator.TImpl.UpperBound | src/library/comptrie/comptrie_trie.h:980-993 | Stands where the search ends, and tells whether the key itself was found |
| TrieIterator.TImpl.GoDown | src/library/comptrie/comptrie_trie.h:878-881 | Down to the first key below the top |
| TrieIterator.TImpl.GetKey | src/library/comptrie/comptrie_trie.h:1056-1068 | The symbols of the labels on the way, a single zero byte as the empty key |
| TrieIterator.TImpl.constructor | src/library/comptrie/comptrie_trie.h:814-824 | Begin stands on the first key, End behind the last |
| TrieIterator.TImpl.FromKey | src/library/comptrie/comptrie_trie.h:826-836 | The iterator of UpperBound stands where the search ends, or at the empty key for the empty argument |
| TrieIterator.WidenFlat | src/library/comptrie/comptrie_trie.h:1007-1027 | Widening the bytes of a key gives its symbols back |
| TrieBounds.BoundStack | src/library/comptrie/comptrie_trie.h:939-993 | The search, finished forward or by one more step, is the stack of the smallest key not below the argument, or what follows the stack it began under |
| TrieBounds.LowerIs | src/library/comptrie/comptrie_trie.h:173-177 | The keys counted are exactly those below the argument |
| TrieOrder.NextStack | src/library/comptrie/comptrie_trie.h:863-882 | The next direction of the deepest fork that has one, and down from there, is the stack of the next key |
| TrieOrder.PreviousStack | src/library/comptrie/comptrie_trie.h:903-930 | The same backward |
| TrieOrder.StackSpells | src/library/comptrie/comptrie_trie.h:1056-1068 | The labels taken on the way spell the key |
| TrieOrder.ItemsAscend | src/library/comptrie/comptrie_trie.h:1143-1153 | Left, final, next, right is ascending order of keys |
| TrieOrder.ItemsFound | src/library/comptrie/comptrie_impl.h:141-198 | Exactly the keys gone through are found by label bytes |
| TrieForks.RangeForks | src/library/comptrie/node.cpp:25-76 | TNode reads the saved bytes of any range of arcs as a search tree of forks, none beyond the limit; a search for a byte looks at no more of them than the number of arcs has binary digits |
| TrieItems.ItemsAreAdded | src/library/comptrie/comptrie_trie.h:581-590 | The keys of the forks are the keys added, with their last values |
| TrieItems.FindItemIsFind | src/library/comptrie/node.cpp:25-76 | Looking a key up in the forks is looking it up in the tree |
| TrieSearchIterator.CursorAdvances | src/library/comptrie/comptrie_trie.h:266-285 | From any key part on, Advance over more symbols faults exactly if a key added ends before their end with none behind it, else is true exactly if some key added begins with all parts, and then stands behind them |
| TrieSearchIterator.CursorValue | src/library/comptrie/comptrie_trie.h:287-297 | GetValue gives the last value of the parts advanced over, or false if they are no key, exactly if no empty key was added, or they are a key and not nothing |
| TrieSearchIterator.TSearchIterator.Advance | src/library/comptrie/comptrie_trie.h:266-285 | The loop is the recursive description, the null position after a leaf included |
| TrieHidden.RightAllAlong | src/library/comptrie/comptrie_builder.h:562-574 | The bytes saved after each addition answer right for every key exactly if no empty key was hidden, in both modes |
| TrieHidden.HiddenIsWrong | src/library/comptrie/comptrie_builder.h:562-574 | The first hidden empty key leaves bytes, in both modes, in which a key that was added is not found |
| TrieWitness.EmptyPrefixIsSilent | src/library/comptrie/comptrie_trie.h:635-643 | A trie and a key for which the search is wrong about keys behind the empty prefix |
| TrieWitness.AdvanceFaults | src/library/comptrie/comptrie_trie.h:266-285 | A trie and a key for which Advance reads through null |
| TrieWitness.ValueReadsNull | src/library/comptrie/comptrie_trie.h:287-297 | A trie with an empty key whose GetValue at the start reads through null |
| TrieSearch.SavedPrefixIsLongest | src/library/comptrie/comptrie_trie.h:627-675 | Unless an empty key was hidden, searching saved bytes for a key finds the longest of its prefixes that was added, the empty one included, counted in whole symbols, with its last value |
| TrieSearch.SavedFindIsMap | src/library/comptrie/comptrie_trie.h:488-497 | Unless an empty key was hidden, a key is found exactly if it was added, with its last value, the empty key included |
| TrieSearch.SearchWalks | src/library/comptrie/comptrie_trie.h:646-672 | The byte loop ends at the longest prefix in the tree, and tells whether keys go on behind it |
| TrieSearch.SavedNextIsRight | src/library/comptrie/comptrie_trie.h:655-661 | Unless an empty key was hidden: when a prefix is found, what is said of other keys behind it is right exactly if the prefix is not empty, or there is no other key, or symbols are wider than a byte, the key begins with byte 0 and some key goes on behind that byte |
| TrieSearch.NextIsRight | src/library/comptrie/comptrie_trie.h:655-661 | In the tree of an unhidden history: behind a prefix that is not empty some key goes on exactly if the search says so; behind the empty one it says so exactly when symbols are wider than a byte, the key begins with byte 0, the empty key was added and some key goes on behind that byte |
| TrieSearch.EmptyValueHolds | src/library/comptrie/comptrie_trie.h:456-476 | Opening finds the value of the empty key where the tree has it, and nothing where it has none |
| TrieSearch.Init | src/library/comptrie/comptrie_trie.h:456-476 | The opened trie keeps the place of the value of the byte 0 |
| TrieSearch.LookupLongestPrefix | src/library/comptrie/comptrie_trie.h:627-675 | The two loops, with the length of symbols begun less an incomplete one, are the recursive description on any bytes |
| TrieSearch.FindValue | src/library/comptrie/comptrie_trie.h:488-497 | A prefix that is not the whole key does not count |
| TrieTails.TailsAreTails | src/library/comptrie/comptrie_trie.h:512-549 | Unless an empty key was hidden: there are tails of a key exactly if a key added begins with it, and searching them for a second key is searching the trie for both, one behind the other |
| TrieTails.TailsOfTails | src/library/comptrie/comptrie_trie.h:512-549 | Unless an empty key was hidden: tails of tails, over any number of key parts, empty ones included, exist exactly if for every part that is not empty a key added begins with all parts up to it, and for every empty one some key goes on behind the parts before it; and searching them for one more key is searching the trie for all, one behind the other |
| TrieTails.TailsOn | src/library/comptrie/comptrie_trie.h:520-546 | Tails of any trie that starts where a part of a key leads start where the two parts lead, and of the empty key are the trie itself |
| TrieTails.TailsWalk | src/library/comptrie/comptrie_trie.h:529-546 | The tails start where the walk through the tree ends, with its value for the empty key |
| TrieTails.FindTailsOf | src/library/comptrie/comptrie_trie.h:512-549 | The loop from the start of the trie it is asked, itself tails or not, is the recursive description on any bytes |
| TrieTails.FindTailsOfLabel | src/library/comptrie/comptrie_trie.h:554-578 | The overload for one symbol finds the tails of that symbol, from any start |
| TrieCanonical.SavedBytesFollowMap | src/library/comptrie/comptrie_builder.h:719-726 | Histories that leave the same values save the same bytes, in any order, with any overwriting, grouped or not |
| TrieCanonical.OneTightTree | src/library/comptrie/comptrie_builder.h:758-802 | Two trees whose nodes all end a key or branch, and that hold the same map, are equal |
| TrieCanonical.AddKeepsTight | src/library/comptrie/comptrie_builder.h:758-802 | No addition leaves a node that neither ends a key nor branches |
| TrieHistory.ShadowedByKeys | src/library/comptrie/comptrie_builder.h:562-574 | A longer arc of the root begins with byte 0 exactly if keys do, and one byte is next in all of them |
| TrieHistory.HistoryIsLog | src/library/comptrie/comptrie_builder.h:562-574 | As long as no empty key is hidden, a history with empty keys builds what it would with the key of one zero byte |
| TrieHistory.HiddenLosesKey | src/library/comptrie/comptrie_builder.h:562-574 | The first hidden empty key makes the plain builder lose a key that was added before |
| TrieHistory.DuplicatesAreFound | src/library/comptrie/comptrie_builder.h:596-598 | A unique builder, grouped or not, sees a duplicate exactly if a key comes twice |
| TrieRoundTrip.SameKeySameBytes | src/library/comptrie/comptrie_builder.h:562-580 | Different keys are kept under different bytes, but for the empty one and "\0" of one-byte symbols |
| TrieRoundTrip.LookupIsFind | src/library/comptrie/comptrie_impl.h:202-236 | Reading a whole key in the saved bytes gives what the tree holds under it |
| TrieRoundTrip.LookupWalks | src/library/comptrie/comptrie_impl.h:202-236 | Symbol after symbol the reader stands where the walk through the tree stands |
| TrieRoundTrip.AdvanceWalks | src/library/comptrie/comptrie_impl.h:202-236 | One symbol, byte by byte: flags, payload skipped, position and failure agree with the tree |
| TrieRoundTrip.FlatInjective | src/library/comptrie/comptrie_builder.h:473-487 | Symbol sequences of one width have different bytes when they differ |
| TrieRoundTrip.BuildIsPacked | src/library/comptrie/comptrie_builder.h:514-522 | Every payload in a built tree is something the packer packed |
| TrieReader.LeapThroughRange | src/library/comptrie/comptrie_impl.h:141-198 | The search tree in the bytes of an arc range leads to the arc with the label byte, or fails exactly when there is none |
| TrieReader.Step | src/library/comptrie/comptrie_impl.h:141-198 | From a node in the bytes one label byte leads to the node that the tree leads to, with its flags |
| TrieReader.WalkFinds | src/library/comptrie/comptrie_builder.h:619-659 | Walking byte by byte with arcs cut as needed finds what the lookup by whole labels finds |
| TrieReader.FlagFields | src/library/comptrie/comptrie_impl.h:55-79 | The four fields of a flags byte, the marks 0x80 and 0x40 and three bits for either offset length, are read back when offset lengths stay below eight |
| TrieReader.EpsilonLeads | src/library/comptrie/comptrie_impl.h:55-68 | Wherever a link without a label stands, a search goes on where it leads, and ends at a distance of zero |
| TrieReader.UnpackOffset | src/library/comptrie/comptrie_impl.h:128-136 | The loop over the offset bytes is the big-endian number |
| TrieReader.LeapByte | src/library/comptrie/comptrie_impl.h:141-198 | The loop is the recursive description of the search, on any bytes |
| TrieReader.Advance | src/library/comptrie/comptrie_impl.h:202-236 | The loop over a symbol is the recursive description, on any bytes |
| TrieReader.Lookup | src/library/comptrie/comptrie_trie.h:107-112 | A key, one guarded Advance for each symbol, is the recursive description |
| TrieCodec.OffsetSizesFixpoint | src/library/comptrie/comptrie_builder.h:878-885 | Three rounds reach offset sizes that account for themselves, for every size below 2^64 |
| TrieCodec.OffsetsLand | src/library/comptrie/comptrie_builder.h:887-889 | An arc is as long as measured, and its offsets point at the first byte of its left and right ranges |
| TrieCodec.MeasureOffset | src/library/comptrie/comptrie_impl.cpp:10-19 | The number of bytes of an offset |
| TrieCodec.PackOffset | src/library/comptrie/comptrie_impl.cpp:21-31 | The offset in that many bytes, most significant first |
| TrieMap.BuildIsMap | src/library/comptrie/comptrie_builder.h:550-600 | After any additions the tree finds for each key the last payload added under it |
| TrieMap.FindAfterAdd | src/library/comptrie/comptrie_builder.h:550-600 | An addition changes the map at its key and nowhere else |
| TrieMap.AddKeepsWellFormed | src/library/comptrie/comptrie_builder.h:758-802 | Splits and new arcs keep first bytes distinct and ordered, and every node without arcs final |
| TrieGrouped.GroupedSavesTheSame | src/library/comptrie/comptrie_builder.h:791-837 | A prefix-grouped run that raises no error saves the bytes the plain builder saves |
| TrieGrouped.GroupedInputSucceeds | src/library/comptrie/comptrie_builder.h:16-19 | Input grouped by prefix, byte for byte, never meets a closed node |
| TrieAscending.AscendingKeepsOneWay | src/library/comptrie/comptrie_builder.h:791-802 | Keys in ascending order are all accepted, and after each of them only the nodes on the way of the last key are open |
| TrieAscending.RefusedExactly | src/library/comptrie/comptrie_builder.h:758-764 | After any grouped additions the next one raises the error exactly if its key passes through a closed node and goes on |
| TrieGrouped.AddRefines | src/library/comptrie/comptrie_builder.h:758-802 | Each grouped addition keeps the grouped tree a partly saved copy of the plain one |
| TrieGrouped.SameBytes | src/library/comptrie/comptrie_builder.h:814-837 | A closed node saves the bytes its arcs would have saved |
| TrieGrouped.FindInGrouped | src/library/comptrie/comptrie_builder.h:596-598 | Where a grouped addition succeeds, its key is found in the partly saved tree as in the plain one |
| TrieEmptyKey.EmptyKeyIsSafe | src/library/comptrie/comptrie_builder.h:562-574 | Over all keys of a symbol width: the empty key changes no lookup exactly when no longer arc of the root begins with byte 0 and, for one-byte symbols, "\0" has the same payload; it changes no key that was added exactly when there is no such arc and "\0" was not added or has the same payload |
| TrieEmptyKey.ZeroOverwritten | src/library/comptrie/comptrie_builder.h:562-574 | A tree with the key "\0" of one-byte symbols, where the empty key replaces its value |
| TrieEmptyKey.KeyLost | src/library/comptrie/comptrie_builder.h:562-574 | Otherwise a key that was found before is not found after |
| TrieBuilder.Builder.constructor | src/library/comptrie/comptrie_builder.h:455-470 | An empty root stands for the empty tree |
| TrieBuilder.Builder.AddEntry | src/library/comptrie/comptrie_builder.h:512-522 | For every key, empty or not: error, duplicate, or new tree, exactly what one addition to the value tree gives |
| TrieBuilder.Builder.AddEntryForSomething | src/library/comptrie/comptrie_builder.h:550-600 | The node of a key is found or made, for the empty key below a zero link of the root; the error leaves the tree as it was |
| TrieBuilder.Builder.AddEmptyKey | src/library/comptrie/comptrie_builder.h:562-574 | The node of the arc with the one byte 0 is taken, or a new arc is linked before the arcs that begin with 0 |
| TrieBuilder.Builder.NodeForwardAdd | src/library/comptrie/comptrie_builder.h:758-789 | Follows, or splits at the first difference, the arc with the same first byte |
| TrieBuilder.Builder.SplitArc | src/library/comptrie/comptrie_builder.h:776-783 | The tree below the arc stays the same but for a new node at the cut |
| TrieBuilder.Builder.NodeLinkTo | src/library/comptrie/comptrie_builder.h:791-802 | A new arc at its place; in prefix-grouped mode the last node is closed first |
| TrieBuilder.Builder.InsertUnder | src/library/comptrie/comptrie_builder.h:953-957 | The arc goes before the first arc that is not below it |
| TrieBuilder.Builder.ArcLowerBound | src/library/comptrie/comptrie_builder.h:941-951 | The binary search finds the first arc not below the byte |
| TrieBuilder.Builder.NodeForwardCheck | src/library/comptrie/comptrie_builder.h:738-756 | A child exactly when the whole label of the arc with the first byte starts the rest, which then leads from the child to the same payload |
| TrieBuilder.Builder.FindEntry | src/library/comptrie/comptrie_builder.h:619-659 | The value of a key, empty or not, in the tree, absence, or refusal in prefix-grouped mode |
| TrieBuilder.Builder.ConvertSymbolArrayToChar | src/library/comptrie/comptrie_builder.h:472-487 | The big-endian bytes of every symbol |
| TrieBuilder.Builder.NodeBufferSubtree | src/library/comptrie/comptrie_builder.h:814-837 | The node is replaced by its saved form, the other nodes stay |
| TrieBuilder.Builder.NodeMeasureSubtree | src/library/comptrie/comptrie_builder.h:804-807 | The size of what will be saved, with all offsets below set |
| TrieBuilder.Builder.MeasureRange | src/library/comptrie/comptrie_builder.h:238-247 | The size of an arc range, with its offsets set |
| TrieBuilder.Builder.ArcMeasure | src/library/comptrie/comptrie_builder.h:867-892 | The size of an arc with its two ranges; both offsets set to where the ranges will be |
| TrieBuilder.Builder.NodeMeasureLeafValue | src/library/comptrie/comptrie_builder.h:839-845 | The size of the payload, asked of the packer |
| TrieBuilder.Builder.NodeSaveLeafValue | src/library/comptrie/comptrie_builder.h:847-855 | The payload bytes |
| TrieBuilder.Builder.NodeSaveSubtree | src/library/comptrie/comptrie_builder.h:809-812 | Writes exactly the bytes of the subtree, and counts them |
| TrieBuilder.Builder.SaveRange | src/library/comptrie/comptrie_builder.h:253-263 | Writes exactly the bytes of the range, and counts them |
| TrieBuilder.Builder.ArcSave | src/library/comptrie/comptrie_builder.h:894-936 | Writes exactly the bytes of the arc, and counts them |
| TrieBuilder.Builder.SaveLabel | src/library/comptrie/comptrie_builder.h:905-931 | Flags and label byte by byte, offsets behind the first |
| TrieBuilder.Builder.Save | src/library/comptrie/comptrie_builder.h:719-726 | Writes the bytes of the tree and returns their number, which is the number measured |
| TriePaths.PutKeepsSize | src/library/comptrie/comptrie_builder.h:238-263 | A subtree of the same size in another's place changes no size above it |
| TriePaths.CutKeepsSize | src/library/comptrie/comptrie_builder.h:776-783 | Splitting an arc changes no size |
| TriePaths.AtSize | src/library/comptrie/comptrie_builder.h:238-263 | No subtree takes more bytes than the tree |
| Packers.PackerLaw | src/library/comptrie/comptrie_packers.h:310-506 | For every packer, however nested, and wherever the bytes stand: packing writes what was measured, skipping passes over it, unpacking gives the value back |
| Packers.ElemsLaw | src/library/comptrie/comptrie_packers.h:388-455 | The same for the elements of a container |
| Packers.NatLaw | src/library/comptrie/comptrie_packers.h:103-164 | The same for every 64-bit number, against the table of first bytes |
| Packers.SignedRoundTrip | src/library/comptrie/comptrie_packers.h:53-75 | A value of a signed type of any width comes back exactly when it is not the minimum of the 64-bit type, which comes back as 0 |
| Packers.UnsignedRange | src/library/comptrie/comptrie_packers.h:182-189 | Every number below 2^8, 2^16, 2^32 or 2^64 comes back as a value of the type of that width |
| Packers.SignedRange | src/library/comptrie/comptrie_packers.h:171-180 | Every number from -2^7, -2^15, -2^31 or -2^63 up to the greatest of that width comes back, save -2^63, which comes back as 0; the sign is packed in the lowest bit |
| Packers.LengthTable | src/library/comptrie/comptrie_packers.h:117-129 | The length by the size of the number: one byte below 2^7, one more for each factor of 2^7, nine at most |
| Packers.NatBytes | src/library/comptrie/comptrie_packers.h:131-144 | Byte for byte, highest first, and the first one marked with as many leading ones as bytes follow |
| Packers.StringLaw | src/library/comptrie/comptrie_packers.h:275-307 | The law for strings |
| Packers.PairLaw | src/library/comptrie/comptrie_packers.h:472-500 | The law for pairs |
| Packers.ContainerLaw | src/library/comptrie/comptrie_packers.h:388-455 | The law for containers, which start with their own size |
| Packers.PrefixFixpoint | src/library/comptrie/comptrie_packers.h:436-448 | Measuring the size prefix twice is enough |
| PackerLoops.MeasureNat | src/library/comptrie/comptrie_packers.h:117-129 | The loop gives the packed length |
| PackerLoops.PackNatLeaf | src/library/comptrie/comptrie_packers.h:131-158 | The loop writes the packed bytes and touches no others |
| PackerLoops.UnpackNatLeaf | src/library/comptrie/comptrie_packers.h:103-115 | The loops read the number back |
| PackerLoops.MeasureLeaf | src/library/comptrie/comptrie_packers.h:567-588 | The measure of any packer |
| PackerLoops.MeasureContainer | src/library/comptrie/comptrie_packers.h:436-448 | The measure of a container, its size prefix included |
| PackerLoops.PackLeaf | src/library/comptrie/comptrie_packers.h:567-588 | The packed bytes of any packer, and no others, are written |
| PackerLoops.PackString | src/library/comptrie/comptrie_packers.h:284-291 | A string |
| PackerLoops.PackPair | src/library/comptrie/comptrie_packers.h:480-485 | A pair |
| PackerLoops.PackContainer | src/library/comptrie/comptrie_packers.h:420-433 | A container |
| PackerLoops.UnpackLeaf | src/library/comptrie/comptrie_packers.h:567-588 | The value of any packer |
| PackerLoops.UnpackContainer | src/library/comptrie/comptrie_packers.h:389-418 | The elements one behind the other |
| OwnershipSafety.RunsAreSafe | src/util/ysafeptr.cpp:7-34 | Every run deletes each object at most once, deletes and frees it with no pointer left and with nothing running for it, and clears it one DestroyContents at a time, exactly when no release empties an object inside its constructors or its last destructor and no pointer is set to one inside its last destructor |
| OwnershipSafety.RunsFreeExactly | src/util/ysafeptr.h:55-64 | After such a run the objects freed are those without pointers, and the two words of every other object count its pointers of each kind |
| OwnershipSafety.RunSafe | src/util/ysafeptr.cpp:7-34 | Every run, and every re-entrant run inside a destructor, keeps the invariant of all objects |
| OwnershipSafety.ReleaseSafe | src/util/ysafeptr.h:63-64 | One release with all that it starts keeps the invariant |
| OwnershipSafety.AssignSafe | src/util/ysafeptr.h:190 | One assignment with all that it starts keeps the invariant |
| OwnershipSafety.ObjCompleteSafe | src/util/ysafeptr.cpp:7-26 | ReleaseObjComplete keeps the invariant in each of its branches |
| OwnershipSafety.RefCompleteSafe | src/util/ysafeptr.cpp:28-34 | ReleaseRefComplete keeps the invariant |
| OwnershipSafety.DestroySafe | src/util/ysafeptr.h:144 | Destructor and constructor with the counts put aside between them keep the invariant |
| OwnershipSafety.DeleteSafe | src/util/ysafeptr.cpp:9-11 | An object without pointers can be deleted, its last destructor run, and its memory freed |
| OwnershipSafety.BumpBalanced | src/util/ysafeptr.h:114-131 | Counting in bit fields, wrapped around or not, keeps the words in step with the pointers |
| OwnershipSafety.RunIsRight | src/util/ysafeptr.cpp:7-34 | Either side of that law gives the other, and leaves every object alone or gone |
| OwnershipRules.TameIsSafe | src/util/ysafeptr.cpp:7-34 | Scripts whose constructors take new objects only and whose last destructors take no raw pointers, told before the run, run safely |
| OwnershipRules.TameRun | src/util/ysafeptr.cpp:7-34 | Such scripts keep their rules through every re-entrant run |
| OwnershipEffects.LastOwnerClears | src/util/ysafeptr.cpp:12-25 | When the last owner of its kind goes and other pointers stay, the destructor and then the constructor of the class run: a pointer that the one ends last, or the other, is empty afterwards, and one that they fill last is full |
| OwnershipEffects.ClearingFrees | src/util/ysafeptr.h:144 | An object that only the destructor of the cleared one lets go is gone with the clearing |
| OwnershipEffects.ClearedIsInvalid | src/util/ysafeptr.cpp:18 | An object that was cleared and is not gone has the bit 0x80000000 set |
| OwnershipEffects.LastPointerDeletes | src/util/ysafeptr.cpp:9-11 | When the last pointer goes the last destructor runs, ends and fills pointers as it says, and the object is gone |
| OwnershipEffects.OneOfManyLeaves | src/util/ysafeptr.h:63-64 | When a pointer goes and others stay, among them an owner of its kind if it was one, nothing runs: no other pointer moves and no object changes its state |
| OwnershipEffects.AssignHolds | src/util/ysafeptr.h:190 | A pointer that nothing sets again holds what it was given, the object of the other pointer, of the raw pointer, the new one or none |
| OwnershipEffects.RunEnds | src/util/ysafeptr.h:190 | After any run a pointer is empty or full as its last assignment says, also when a destructor or a constructor makes it |
| OwnershipWitness.EarlyDeletion | src/util/ysafeptr.h:144 | A default constructor that takes and drops a pointer to its object gets it deleted under a remaining pointer |
| OwnershipWitness.DoubleDeletion | src/util/ysafeptr.cpp:28-34 | A last destructor that takes and drops a pointer to its object gets it deleted twice |
| OwnershipObjects.Program.Execute | src/util/ysafeptr.h:186-197 | A script of assignments on objects that count in place does what the machine does |
| OwnershipObjects.Program.SetObject | src/util/ysafeptr.h:190 | Pointer first, then count the new object, then release the old |
| OwnershipObjects.Program.ReleaseKind | src/util/ysafeptr.h:63-64 | Count down and complete at zero |
| OwnershipObjects.Program.ObjComplete | src/util/ysafeptr.cpp:7-26 | The three branches of ReleaseObjComplete |
| OwnershipObjects.Program.RefComplete | src/util/ysafeptr.cpp:28-34 | ReleaseRefComplete |
| OwnershipObjects.Program.Clear | src/util/ysafeptr.h:144 | The DestroyContents that the macro generates |
| BinSaverRoundTrip.SavedGraphLoads | src/library/binsaver/BinSaver.cpp:13-80 | Saving and loading any finite graph, shared or cyclic, gives an isomorphic graph; each reachable object is queued and written once; reading ends where the file ends |
| BinSaverStable.StableFileFollowsGraph | src/library/binsaver/BinSaver.cpp:19-34 | Stable output of the same graph is the same file wherever its objects lie |
| BinSaverStable.SavedAgain | src/library/binsaver/BinSaver.cpp:13-80 | What was loaded, saved again with stable output, is the file of the original |
| BinSaverRoundTrip.LoadFollows | src/library/binsaver/BinSaver.h:420-425 | Reading any value follows writing it, object for object |
| BinSaverRoundTrip.ObjectFollows | src/library/binsaver/BinSaver.cpp:13-74 | A pointer is read back as the object queued at the same place |
| BinSaverRoundTrip.DrainFollows | src/library/binsaver/BinSaver.cpp:76-80 | Both destructors work their queues off in step |
| BinSaverRoundTrip.DrainReaches | src/library/binsaver/BinSaver.cpp:76-80 | Only reachable objects are queued |
| BinSaverRoundTrip.PathQueued | src/library/binsaver/BinSaver.cpp:76-80 | Every reachable object is queued |
| BinSaverRoundTrip.PlaceAt | src/library/binsaver/BinSaver.cpp:63-71 | Loaded objects are the queue, one for one |
| BinSaverRoundTrip.MappedInjective | src/library/binsaver/BinSaver.h:87-112 | Values that differ still differ when loaded, so the keys of a hash table do not merge |
| BinSaver.StoreObjectKeeps | src/library/binsaver/BinSaver.cpp:13-49 | Stable or address ids: an object is queued once and known by one id |
| BinSaver.StoreKeeps | src/library/binsaver/BinSaver.h:66-93 | Writing a value queues exactly what it points to |
| BinSaver.QueueFits | src/library/binsaver/BinSaver.cpp:76-80 | A queue without repetition is no longer than memory, so the growing loop ends |
| BinSaver.LoadProgress | src/library/binsaver/BinSaver.cpp:51-74 | What reading can still queue is bounded by what is left to read, on any stream |
| BinSaverObject.IBinSaver.StoreObject | src/library/binsaver/BinSaver.cpp:13-49 | Does what the specification says, stable output or not |
| BinSaverObject.IBinSaver.LoadObject | src/library/binsaver/BinSaver.cpp:51-74 | Does what the specification says |
| BinSaverObject.IBinSaver.AddOut | src/library/binsaver/BinSaver.h:66-443 | Any value written: data, strings, pointers, vectors and arrays of values and of plain data, pairs, optional values, variants and hash tables |
| BinSaverObject.IBinSaver.AddIn | src/library/binsaver/BinSaver.h:66-443 | Any such value read |
| BinSaverObject.IBinSaver.FinishWriting | src/library/binsaver/BinSaver.cpp:76-80 | The writing destructor ends, and does what the specification says |
| BinSaverObject.IBinSaver.FinishReading | src/library/binsaver/BinSaver.cpp:76-80 | The reading destructor ends on any stream |
| EditDistance.NoEditIsCheaper | src/dict/dictutil/str_metric.cpp:59-80 | No sequence of edits from one string to the other costs less than the recurrence says |
| EditDistance.SomeEditCosts | src/dict/dictutil/str_metric.cpp:59-80 | Some sequence of edits costs just that |
| EditDistance.StripEnds | src/dict/dictutil/str_metric.cpp:31-35 | Common ends that do not overlap can be stripped, with transpositions and without |
| EditDistance.SameFirst | src/dict/dictutil/str_metric.cpp:31-35 | A common first character does not count |
| EditDistance.SameLast | src/dict/dictutil/str_metric.cpp:31-35 | A common last character does not count |
| EditDistance.FillMatrix | src/dict/dictutil/str_metric.cpp:59-80 | Every entry of the table is the distance of two beginnings |
| EditDistance.DoDist | src/dict/dictutil/str_metric.cpp:27-51 | The distance of the whole strings |
| EditDistance.PrefSuff | src/dict/dictutil/prefsuff.cpp:4-25 | The longest common prefix and suffix, cut where they overlap as the mode says |
| EditDistance.DistSymmetric | src/dict/dictutil/str_metric.cpp:59-80 | The distance is the same both ways |
| QuickDistance.QuickIsBelow | src/dict/dictutil/str_metric.h:45-47 | The quick bound never exceeds the distance, nor the one with transpositions |
| QuickDistance.QuickStrDist | src/dict/dictutil/str_metric.cpp:247-277 | The greater of two counts: the characters, control characters aside, that only one string has, plus how much longer the other one is; never above either distance |
| QuickDistance.ExcessOfEnds | src/dict/dictutil/str_metric.cpp:262-276 | The excess of any two beginnings is at most their distance |
| FullSearchTree.TFullSearchTree.TryAppendSequence | src/kernel/gazetteer/searchtree.h:282-295 | After any calls the branches are exactly the chains of calls, in call order, contiguous, and a path in the trie, one branch for each, listed under its end |
| FullSearchTree.TFullSearchTree.FinalBranches | src/kernel/gazetteer/searchtree.h:282-295 | After any calls the final branches are exactly the contiguous chains whose ids are a key, each once, and give the words of their calls in order |
| FullSearchTree.BranchSays | src/kernel/gazetteer/searchtree.h:311-317 | The branch of any chain copied out is the words of its calls, call after call, as many as its size, each one token, so there is no table |
| FullSearchTree.TFullSearchTree.TryAppendTo | src/kernel/gazetteer/searchtree.h:302-309 | One branch more exactly when the longer chain is a path in the trie |
| FullSearchTree.TFullSearchTree.CopyAndAppend | src/kernel/gazetteer/searchtree.h:311-317 | The words of the call linked in front of those of the branch, the last one first |
| FullSearchTree.TFullSearchTree.AddToIndex | src/kernel/gazetteer/searchtree.h:319-323 | The branch is listed under the position behind it |
| FullSearchTree.TFullSearchTree.Reset | src/kernel/gazetteer/searchtree.h:277-280 | Nothing is found any more |
| FullSearchTree.AllTried | src/kernel/gazetteer/searchtree.h:290-294 | When every branch that ends at the start has been tried, no chain is missing |
| FullSearchTree.TriedOne | src/kernel/gazetteer/searchtree.h:290-294 | One turn of the loop finds just the chains through one branch |
| FullSearchTree.OneMoreToTry | src/kernel/gazetteer/searchtree.h:292-293 | The loop over the growing list ends, calls of no length included |
| FullSearchTree.ChainAscends | src/kernel/gazetteer/searchtree.h:282-295 | When every call covers a word no call repeats in a chain |
| FullSearchTree.FinalIsKey | src/kernel/gazetteer/searchtree.h:64-67 | A branch is final exactly when its ids are a key |
| PhraseBranches.TailsLeft | src/kernel/gazetteer/searchtree.h:85-87 | Something is left behind a sequence exactly when it begins a key |
| PhraseBranches.TableFindsWord | src/kernel/gazetteer/searchtree.h:90-100 | Each sub-token is sent to its word, and only those |
| PhraseBranches.NoMultitokens | src/kernel/gazetteer/searchtree.h:79-82 | The table is left out exactly when every word is one token |
| PhraseBranches.CopyTo | src/kernel/gazetteer/searchtree.h:70-83 | The words in their order, and the table |
| PhraseBranches.BuildIndexTable | src/kernel/gazetteer/searchtree.h:90-100 | The table, filled from its end |
| SearchTree.PrunedToGoal | src/kernel/gazetteer/searchtree.h:186-223 | Exactly the goal is left of more than the goal |
| SearchTree.PrunedKeeps | src/kernel/gazetteer/searchtree.h:186-223 | What is left is in its old order, all below the cut stays, and what goes is at or above it with as many like it before as the goal leaves room for |
| SearchTree.CutIs | src/kernel/gazetteer/searchtree.h:187-210 | The cut is the greatest length of a branch, halved as often as more branches than the goal are shorter, and no more often |
| SearchTree.ContinuedBounded | src/kernel/gazetteer/searchtree.h:225-239 | Never more than 10001 branches |
| SearchTree.NothingPruned | src/kernel/gazetteer/searchtree.h:134-147 | As long as no more than 10001 branches come of it, a word continues exactly the branches that it can |
| SearchTree.TSearchTree.ClearLongestBranches | src/kernel/gazetteer/searchtree.h:186-223 | Ends, and leaves what the specification leaves |
| SearchTree.TSearchTree.TryAppendWord | src/kernel/gazetteer/searchtree.h:134-139 | Every branch that the word continues, continued |
| SearchTree.TSearchTree.TryAppendMultitoken | src/kernel/gazetteer/searchtree.h:141-147 | Every branch that all sub-tokens continue, continued |
| SearchTree.TSearchTree.AddNextStateNewBranch | src/kernel/gazetteer/searchtree.h:225-239 | One more branch, after pruning to 1000 when there are more than 10000 |
| PhraseReadings.FindsAllReadings | src/kernel/gazetteer/articleiter.h:508-547 | Word after word the branches are the readings of the last words, one form each, that begin a phrase, in order and each once, exactly if there are never more than 10001 |
| PhraseReadings.ReadingsAre | src/kernel/gazetteer/articleiter.h:508-547 | Nothing else than the readings is enumerated, and all of them |
| PhraseReadings.ReadingsDistinct | src/kernel/gazetteer/articleiter.h:508-547 | No reading is enumerated twice |
| PhraseReadings.BranchTells | src/kernel/gazetteer/searchtree.h:64-83 | The branch of a reading is final exactly if the tokens read are a phrase; copied out it gives the words read, and has as many sub-tokens as were read |
| PhraseReadings.TakeNextWord | src/kernel/gazetteer/articleiter.h:508-547 | The root beside the branches so far, every form of the word tried on them, the next state in their place |
| PhraseReadings.TakeWords | src/kernel/gazetteer/articleiter.h:508-547 | A new tree and word after word: the branches are the readings while there is room |
| Words.CountBitsCounts | src/util/mbitmap.cpp:30-35 | Shifting and masking counts the bits of any word |
| Words.HalveKeepsSum | src/util/mbitmap.cpp:31-34 | Each line keeps the sum of the fields |
| Bitmap.Bitmap1.Set | src/util/mbitmap.cpp:47-63 | The id is in and all others are as before; true when it was not in |
| Bitmap.Bitmap1.Reset | src/util/mbitmap.cpp:65-76 | The id is out and all others are as before; true when it was in |
| Bitmap.Bitmap1.Test | src/util/mbitmap.h:21-30 | Whether the id is in |
| Bitmap.Bitmap1.CountPage | src/util/mbitmap.cpp:25-38 | The ids of one page |
| Bitmap.Bitmap1.Count | src/util/mbitmap.cpp:40-45 | The number of all ids, or 0 when all 2^32 are in, and right exactly when one is missing |
| Bitmap.FullBitmap | src/util/mbitmap.cpp:40-45 | There is a bitmap that holds all 2^32 ids |
| Bitmap.IdsFit | src/util/mbitmap.cpp:40-45 | A bitmap has at most 2^32 ids, fewer exactly when one is missing |
| BitmapIterator.Visit | src/util/mbitmap.h:46-72 | Every id in the bitmap once, in ascending order, and no other |
| BitmapIterator.VisitAndCount | src/util/mbitmap.cpp:40-45 | The count is the number of ids visited exactly when one is missing, else 0 |
| BitmapIterator.Replay | src/util/mbitmap.cpp:47-76 | After any history of Set and Reset the iterator visits, in order, exactly the ids whose last call was Set, and each call tells whether it changed its id |
| BitmapIterator.Bitmap1Iterator.constructor | src/util/mbitmap.cpp:134-145 | Stands on the first id, or at the end when there is none |
| BitmapIterator.Bitmap1Iterator.Advance | src/util/mbitmap.h:51-72 | Goes to the next id, over words, pages and missing pages |
| BitmapIterator.Bitmap1Iterator.NextPage | src/util/mbitmap.cpp:147-165 | Goes to the next page with an id in it |
| PlainHash.IntervalsTile | src/library/chunks/chunked_helpers.h:261-280 | The intervals lie one behind the other and cover all pairs, each pair once |
| PlainHash.FirstInBucket | src/library/chunks/chunked_helpers.h:204-211 | A bucket has the same first pair under a key as the whole list |
| PlainHash.FirstIsOnly | src/library/chunks/chunked_helpers.h:332-344 | With distinct keys the first pair is the pair |
| PlainHash.DistinctInBuckets | src/library/chunks/chunked_helpers.h:266-277 | Keys clash exactly if two clash in one bucket |
| PlainHash.SaveAndFind | src/library/chunks/chunked_helpers.h:189-344 | Pairs added, saved and looked up: the first value under the key, the only one with distinct keys, and in debug builds an exception exactly when keys clash |
| PlainHash.Find | src/library/chunks/chunked_helpers.h:332-344 | The value of the first pair added under the key, or none |
| PlainHash.TPlainHashWriter.Save | src/library/chunks/chunked_helpers.h:238-280 | Buckets, intervals and header, with the fewest bits from any count to begin with that leave two pairs to a bucket, or 22; or the key clash of debug builds exactly when keys repeat |
| PlainHash.IsPlainEnough | src/library/chunks/chunked_helpers.h:222-232 | Whether no bucket has more than two pairs |
| Chunks.BlocksReadBack | src/library/chunks/reader.cpp:14-48 | Every block of a finished file is read back with its exact bytes and length at an aligned offset, and no others are |
| Chunks.OldBlocksReadBack | src/library/chunks/reader.cpp:24-32 | A file of the old version, blocks, four-byte offsets and their count: its blocks are read back, the last one exactly if the first begins the file |
| Chunks.FooterLaw | src/library/chunks/reader.cpp:22-47 | The footer gives back offsets and lengths |
| Chunks.FooterPlaces | src/library/chunks/writer.cpp:29-36 | Counted from the end of the file: a zero, the version 1, the number of blocks, the offsets, the lengths, eight bytes each |
| Chunks.TChunkedDataWriter.NewBlock | src/library/chunks/writer.cpp:20-27 | The last block keeps its bytes, a new one starts behind the padding |
| Chunks.TChunkedDataWriter.Write | src/library/chunks/writer.h:29-32 | The bytes go to the last block |
| Chunks.TChunkedDataWriter.Pad | src/library/chunks/writer.h:41-47 | Zeros up to the boundary |
| Chunks.TChunkedDataWriter.WriteFooter | src/library/chunks/writer.cpp:29-36 | The file is finished |
| Chunks.Open | src/library/chunks/reader.cpp:14-48 | Footers of both versions, and the two errors |
| NamedChunks.NamedBlocksReadBack | src/library/chunks/chunked_helpers.cpp:17-67 | Every block is found by its name, and the block of names is hidden |
| NamedChunks.NamedIfMagic | src/library/chunks/chunked_helpers.cpp:17-26 | Of all finished files those open as named ones whose last block begins with "NamedChunkedData"; without a block, or without these letters, the error says so |
| NamedChunks.VectorLaw | src/library/chunks/chunked_helpers.cpp:28-29 | The list of names is read back |
| NamedChunks.IndexFinds | src/library/chunks/chunked_helpers.cpp:31-35 | Unique names are found at their places and nowhere else |
| NamedChunks.TNamedChunkedDataWriter.NewBlock | src/library/chunks/chunked_helpers.cpp:52-60 | A name used before is refused and changes nothing |
| NamedChunks.TNamedChunkedDataWriter.WriteFooter | src/library/chunks/chunked_helpers.cpp:62-67 | One more block holds the magic and all names |
| NamedChunks.OpenNamed | src/library/chunks/chunked_helpers.cpp:17-36 | The names, and the index of those that are not empty, or which of the errors |
| Combinations.Enumerate | src/kernel/gazetteer/gzttrie.cpp:680-728 | Every element of the Cartesian product once, the first words turning fastest, as many as the product of the sizes; none when there are 100000 or more |
| Combinations.Begin | src/kernel/gazetteer/gzttrie.cpp:680-706 | The first combination, or the error exactly when there are 100000 or more |
| Combinations.TCombinationIterator.Advance | src/kernel/gazetteer/gzttrie.cpp:708-726 | The odometer shows the next number, or has shown the last |
| Combinations.TurnAddsOne | src/kernel/gazetteer/gzttrie.cpp:708-726 | Carrying to a digit adds one |
| Combinations.DigitsAre | src/kernel/gazetteer/gzttrie.cpp:708-726 | The lemma of a word at each step, told from the number of the step and the sizes before it |
| Combinations.NumberInjective | src/kernel/gazetteer/gzttrie.cpp:708-726 | Different positions show different numbers |
| Inheritance.TProtoParser.CheckIfSelfDerived | src/kernel/gazetteer/protoparser.cpp:662-680 | Ends, and fails exactly when the graph has a cycle, which it tells |
| Inheritance.TProtoParser.AddBase | src/kernel/gazetteer/protoparser.cpp:654-659 | Refuses exactly the edges that close a cycle |
| Inheritance.TProtoParser.BuildMessageInheritanceGraph | src/kernel/gazetteer/protoparser.cpp:597-616 | Edge by edge the accepted graph stays free of cycles, up to the first that closes one |
| Inheritance.CycleThrough | src/kernel/gazetteer/protoparser.cpp:654-657 | A new cycle goes through the new edge |
| Inheritance.WalkLength | src/kernel/gazetteer/protoparser.cpp:664-667 | The walk is no longer than the graph, whose older edges have no cycle |
| Hierarchy.THierarchy.GetRelation | src/kernel/gazetteer/descriptors.cpp:107-135 | The relation that ancestors dictate |
| Hierarchy.DerivesPartialOrder | src/kernel/gazetteer/descriptors.h:81-87 | Same or child is a partial order |
| Hierarchy.MeansOne | src/kernel/gazetteer/descriptors.h:81-87 | No two relations hold at once |
| Hierarchy.AncestorAt | src/kernel/gazetteer/descriptors.cpp:115-125 | An ancestor is the one at its own depth |
| Hierarchy.THierarchy.GetParentCount | src/kernel/gazetteer/descriptors.cpp:92-99 | The number of bases above |
| Hierarchy.THierarchy.GetNthParent | src/kernel/gazetteer/descriptors.cpp:101-105 | The n-th base above |
| Hierarchy.THierarchy.SetBase | src/kernel/gazetteer/descriptors.h:96-104 | The base set, new messages their own bases |
| Hierarchy.TDescriptorCollectionBuilder.AddMessage | src/kernel/gazetteer/descriptors.cpp:269-287 | Each base is at most its own index; an unknown base is an error and sets none |

## Left out

- TrieBuilder.Builder.AddEntry: a prefix-grouped builder is asked for fewer than 256^8 bytes to save, the range of a 64-bit size.
- TrieHistory.SavedTrieIsMap: asks for less than 256^7 saved bytes, since an offset length has three bits; so do the theorems on the searches and iterators.
- TrieEndToEnd.SaveAndSearch: asks the same after every addition; when an empty key was hidden it promises nothing, and `TrieHistory.HiddenLosesKey` shows why.
- TrieBuilder.Builder.NodeBufferSubtree: asks for subtrees below 256^8 bytes, the range of a 64-bit size.
- TrieSearchIterator.TSearchIterator.Advance: what the iterator does after a call that returned false, or read through null, is left out.
- TrieIterator.TImpl.FromKey: the iterator is one of a trie that Init opened, or of tails without a key "\0" of one-byte symbols; the prefix iterator and the phrase search of comptrie_trie.h are left out.
- OwnershipSafety.RunsAreSafe: Extract and Clear are left out, and asserts are not modelled; so few pointers are asked for that no count leaves its bit field.
- OwnershipObjects.Program.Execute: the pointers are a fixed set of slots; a pointer that a destructor ends is one that its script sets to null.
- BinSaverRoundTrip.SavedGraphLoads: objects are of registered classes (the original aborts otherwise); sizes and ids are numbers without a width; casts to the user's class are left out.
- BinSaverObject.IBinSaver.CreateObject: new objects get addresses in order.
- BinSaverObject.IBinSaver.AddOut: a hash table is the list of its pairs in the order in which they are written; chunks of plain data are bytes, a vector of plain data is a text of its bytes.
- BinSaverObject.IBinSaver.FinishWriting: memory is fixed from the first Add to the end of the destructor, so an object freed and replaced at its address meanwhile is not modelled.
- FullSearchTree.TFullSearchTree.TryAppendSequence: the trie is the list of its keys; values of keys and the pool of words are left out.
- PhraseReadings.TakeNextWord: which forms an input word has, and their ids in the trie, are its input.
- PlainHash.TPlainHashWriter.Save: the first bit count comes from a floating-point logarithm and is a parameter; the file is a record, not bytes.
- Chunks.TChunkedDataWriter.WriteFooter: needs a block, as the original does, whose vector of offsets is otherwise empty.
- Chunks.Open: reading behind the ends of a broken file gives zeros.
- NamedChunks.NamedBlocksReadBack: names and their number below 256^4, the width in which their sizes are saved.
- Combinations.Enumerate: the lemma sets are sequences in their iteration order, without repetition.
- Hierarchy.THierarchy.GetRelation: needs both indices in range, as the original does.
- Inheritance.TProtoParser.BuildMessageInheritanceGraph: resolving names and the two ways to name a base are left out; each message comes with the base resolved.
- QuickDistance.QuickStrDist: a mask word is its 32 bits.
- Trie minimisation, the fast layout, Clear, subtrees read from files and the FindLongestPrefix of the builder: not modelled.
- Memory pools, allocators, payload placement and blob sharing: payloads and labels are values.
- TCompactVector: an arc set is a sequence.
- Files, buffers, byte order of plain structures, zlib: streams are sequences.
- The saving and loading of bitmaps, bitmap_2 and bitmap_f1: easy beside the paged bitmap.
- DoDiffMask, markup_diff and the mapping of alphabets: heuristics without a crisp promise.
