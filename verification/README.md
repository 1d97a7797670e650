# Verified model of the gateway's vendored components

The gateway firmware vendors a JSON library and parts of a Bluetooth stack. This project models the parts of them that are decided
by code alone, in Dafny, and proves what they are for. `dafny verify dfyconfig.toml` checks the whole project.

## What is modelled

**JSON trees.** `Json.dfy` has the item tree as a datatype and `Meaning`, which maps a tree to a JSON value in which an object is a
finite map. Text is a sequence of characters, one for each byte; the terminating zero is the end of a string. Nodes inside a tree are
named by their path of child positions.

**JSON Pointer, JSON Patch, JSON Merge Patch (cJSON_Utils).** `JsonPointer.dfy` models lookup and search with their loops.
`Rfc6902.dfy` and `Rfc7396.dfy` are reference definitions of the two standards on values. `JsonPatch.dfy` models applying a patch, with
the code's in-place unescaping as it is; `JsonPatchRefinement.dfy` and `JsonPatchErrors.dfy` prove it against the reference, success and
failure. `PatchGeneration.dfy` generates patches, `PatchRoundTrip.dfy` proves that they lead from the source to the target, and
`PatchKeys.dfy` for which keys they always do; `PatchNeeds.dfy` proves that no patch is superfluous.
`MergePatch.dfy` does the same for merge patches. `Sorting.dfy` is the merge sort on sequences, `LinkedSort.dfy` the relinking of the
nodes themselves, and `JsonOrder.dfy` sorting and comparing of trees. `MemberOrder.dfy` says where members stand afterwards and what a failed
patch leaves behind.

**Pointers that sorting leaves stale.** The tail of a list of children is found behind the prev pointer of its head, and sorting an object
does not restore that pointer. `JsonTails.dfy` has trees with these pointers and what appending and detaching do to them, `SortTails.dfy`
what sorting and comparing do, `LivePatch.dfy` applying patch documents to such trees, `SettledAdds.dfy` when later additions work,
`LiveMerge.dfy` merging, and `SourceTails.dfy` for which sources a generated merge patch can be merged into the source itself.

**Parsing and printing (cJSON).** `StringCodec.dfy` models string literals with the two passes over them, `Parser.dfy` the
recursive-descent parser with its offset and depth. `JsonGrammar.dfy` has texts as syntax trees with all their white space, those of RFC 8259
and those that cJSON accepts; `GrammarReads.dfy` and `ParserExact.dfy` prove that exactly these are read. `PrintedText.dfy` is the text of a
tree, `ParseRoundTrip.dfy` the round trip, `TextLayout.dfy` the layout of printed texts, and `Printer.dfy` the growable print buffer.
`Minify.dfy` models minifying in place, and `MinifiedTexts.dfy` what it does to texts. `ChildList.dfy` models the doubly linked list of children
on the heap.

**Bluetooth operating system layer.** Protocols are state machines: a run is any sequence of atomic steps. `HliQueue.dfy` is the byte
ring on the heap and `HliProtocol.dfy` the protocol between puts and the software interrupt; `WorkerThread.dfy` and `WorkerEvents.dfy`
are the worker thread with its queues, semaphore and coalesced events (`Queues.dfy` counts the elements of several queues);
`FixedQueue.dfy` is the bounded queue. `OsiList.dfy` is the singly linked list on the heap, `HashMap.dfy` the hash map, `OsiConfig.dfy`
the configuration text and its blobs, `OsiConfigLines.dfy` what any lines of it do, and `OsiConfigFile.dfy` the loops that save and load it.

**Arithmetic.** `RegionRelease.dfy` is the release of controller memory, `LowPowerClock.dfy` the conversion of low-power clock cycles
with a carried remainder, `Kalman.dfy` the filter over exact numbers.

## Where the code does not do what it is for

Each of these is stated as an exact condition or shown by a concrete input.

- Unescaping in place damages keys (`JsonPatch.DecodeInPlaceExact`), so generated patches lose them
  (`PatchRoundTrip.KeyConditionIsExact`, `PatchKeys.KeySetIsExact`).
- An element of an array is moved into a child of itself, which section 4.4 of RFC 6902 forbids: the path is followed after the element has
  been taken out, and leads to the next one. Nothing can be copied or moved to the whole document (`JsonPatchErrors.ApplyExact`,
  `JsonPatchErrors.ElementMovesIntoItself`).
- Array indices are read with letters after a digit, and an empty token is read as 0 (`JsonPointer.DecodeIndexExact`).
- A merge patch cannot write a null (`MergePatches.MergePatchRoundTrip`).
- The merge patch generator sorts by one order and walks by another, and loses members exactly when the two orders disagree about some keys,
  as about "A" and "_" (`MergePatches.OrderConditionIsExact`).
- Sorting leaves the tail pointer of an object stale, and a member added later is lost: after a "test" in the same patch document
  (`LivePatch.RunExact`, `PatchRoundTrip.TestLosesMember`), and when a generated merge patch is merged into its own source
  (`SourceTails.SourceReachesExactly`, `LiveMerge.SourceLosesAddition`). No error is reported.
- Detaching in a patch never regards case, and takes the wrong member when an earlier key differs only in case
  (`JsonPatchRefinement.DetachMemberExact`), also in the patches that the case-sensitive generator makes (`PatchKeys.KeySetIsExact`).
- Unpaired surrogate escapes are refused, and a unicode escape without four hexadecimal digits is read as a zero
  (`StringCodec.UnicodeEscapeExact`, `StringCodec.LoneSurrogateRefused`).
- Minifying takes a quote behind an escaped backslash for an escaped one, and then keeps white space, or drops characters from the literals that
  follow (`MinifiedTexts.MinifyPrinted`, `MinifiedTexts.LiteralKept`).
- A patch that fails in the middle of a move or replacement leaves the document without the item (`MemberOrder.StatusSays`).
- With more than 16 queues the signalling of a queue can abort (`HliProtocol.MetaQueueSize`).
- With 65536 posters the 16-bit counter of an event wraps around and the event is posted twice (`WorkerEvents.PosterLimit`).
- A failed append of the bounded queue takes a place away for good (`FixedQueue.SemaphoresTellLength`).
- Sections without entries are not read back (`OsiConfig.SaveLoadRoundTrip`).
- With 255 full blobs the 8-bit counter of the saving loop never reaches its end (`OsiConfigFile.SavingEndsExactly`), nor do the loops that
  read 65536 full blobs (`OsiConfigFile.ReadingEndsExactly`), and of lines from 1024 bytes on the code copies what stands behind the line
  buffer (`OsiConfigFile.LinesFitExact`).
- A failed `hash_map_set` loses the old entry and leaves `hash_size` too large; so does `hash_map_clear` (`HashMap.HashMap.Set`,
  `HashMap.HashMap.Clear`).
- The sections of the controller library are only released when both modes are released by one call (`RegionRelease.Controller.Release`).

## Model

| member | source | states |
|---|---|---|
| Text.CompareStringsOrder | components/json/cJSON/cJSON_Utils.c:83-109 | comparing keys, with or without regard to case, is a total preorder whose zeros are exactly the keys that name the same member |
| Text.StrCmpDecided | components/json/cJSON/cJSON_Utils.c:83-109 | the first different character decides a comparison, by its code, and a beginning comes before what it begins |
| Json.FindKey | components/json/cJSON/cJSON.c:1885-1915 | the member found is the first one whose key matches, and none is found exactly when no key matches |
| Json.FindKeyMeaning | components/json/cJSON/cJSON.c:1885-1915 | on objects with unique keys a lookup finds the value that the finite map of the object has: always when it regards case, and when it does not, for keys that differ in more than case |
| JsonPointer.PointerEncodedLength | components/json/cJSON/cJSON_Utils.c:157-170 | the length computed without encoding is the length of the escaped key |
| JsonPointer.EncodeStringAsPointer | components/json/cJSON/cJSON_Utils.c:173-196 | the buffer holds the escaped key and its terminator at the given place, and nothing else changes |
| JsonPointer.PointerMatchesToken | components/json/cJSON/cJSON_Utils.c:120-154 | a reference token followed by the end or a slash matches exactly the keys that it stands for by section 4 of RFC 6901; a malformed token matches no key |
| JsonPointer.PointerMatchesKey | components/json/cJSON/cJSON_Utils.c:120-196 | the escaped form of a key followed by more path matches a key exactly when the two keys are the same |
| JsonPointer.ComparePointers | components/json/cJSON/cJSON_Utils.c:120-154 | the loop decides the match that the two lemmas above characterise |
| JsonPointer.DecodeIndexExact | components/json/cJSON/cJSON_Utils.c:274-299 | every index that RFC 6901 allows is read modulo the width of size_t, and the code reads something that RFC 6901 does not allow exactly for the empty token and for letters after a first digit that is not a leading zero |
| JsonPointer.DecodeIndexOfDecimal | components/json/cJSON/cJSON_Utils.c:274-299 | the decimal text of an index below the width of size_t is read back, whatever path follows |
| JsonPointer.DecodeArrayIndexFromPointer | components/json/cJSON/cJSON_Utils.c:274-299 | the loop computes the index that the exactness lemma speaks of |
| JsonPointer.FindPointerText | components/json/cJSON/cJSON_Utils.c:198-259 | the search gives the pointer text of a node of the tree, and nothing for a node that is not in it |
| JsonPointer.LocateText | components/json/cJSON/cJSON_Utils.c:198-346 | the pointer text of a node leads back to that very node exactly when no earlier sibling shadows it on the way |
| JsonPointer.PointerRoundTrip | components/json/cJSON/cJSON_Utils.c:198-356 | for every tree with unique keys per object and every node of it, looking up the pointer that was found for the node gives that node, with keys that are empty or hold tildes and slashes |
| JsonPointer.GetItemFromPointer | components/json/cJSON/cJSON_Utils.c:301-346 | the loop over the tokens finds the node that the round trip is stated for |
| JsonPointer.FindPointerFromObjectTo | components/json/cJSON/cJSON_Utils.c:198-259 | the recursive search over the children gives the pointer that the round trip is stated for |
| Sorting.SortPermutes | components/json/cJSON/cJSON_Utils.c:484-593 | sorting keeps every element, each as often as before |
| Sorting.SortSorts | components/json/cJSON/cJSON_Utils.c:484-593 | the keys of the sorted list do not decrease, for either case mode |
| Sorting.SortedUnique | components/json/cJSON/cJSON_Utils.c:484-593 | with keys that compare different there is only one sorted order of the same elements |
| Sorting.SortExact | components/json/cJSON/cJSON_Utils.c:484-593 | the sorted list is the only one with the same elements whose keys do not decrease and in which elements with equal keys stand in the reverse of their old order |
| LinkedSort.IsIncreasing | components/json/cJSON/cJSON_Utils.c:497-507 | the first walk over the nodes decides whether the keys are strictly increasing |
| LinkedSort.Middle | components/json/cJSON/cJSON_Utils.c:509-521 | the walk with two pointers ends at the middle node |
| LinkedSort.Split | components/json/cJSON/cJSON_Utils.c:522-527 | cutting in front of the middle node leaves two well-linked chains with the same nodes |
| LinkedSort.MergeChains | components/json/cJSON/cJSON_Utils.c:534-592 | relinking two chains in place gives a well-linked chain of the same nodes in the order of the specified merge |
| LinkedSort.SortList | components/json/cJSON/cJSON_Utils.c:484-593 | sorting a chain in place ends and returns the same nodes, well linked, in the order of the specified sort; the prev pointer of a head that stays is kept, that of a new head is null, and no field of a strictly increasing chain is written |
| LinkedSort.SortObject | components/json/cJSON/cJSON_Utils.c:595-602 | the children are sorted, and the list is well formed again, with the tail behind the prev pointer of the head, exactly when the first and the last child stay where they are |
| LinkedSort.AddAfterSort | components/json/cJSON/cJSON_Utils.c:595-602 | an item that is added to a sorted object is appended exactly when sorting has left the first and the last child in place |
| JsonOrder.SortMembersKeeps | components/json/cJSON/cJSON_Utils.c:595-602 | sorting an object keeps its map of members and makes its keys strictly increasing, for all keys that the comparison tells apart |
| JsonOrder.CompareJsonMeaning | components/json/cJSON/cJSON_Utils.c:604-690 | on trees whose unique keys the comparison tells apart it says yes exactly when both trees stand for the same value, the order of members aside |
| JsonTails.AppendExact | components/json/cJSON/cJSON.c:1961-1992 | a member is appended to a list exactly when the prev pointer of the head names the last member |
| SortTails.SortedTailExact | components/json/cJSON/cJSON_Utils.c:595-602 | sorting leaves that pointer right exactly when the first and the last member of the object keep their places |
| SortTails.CompareEffectKeeps | components/json/cJSON/cJSON_Utils.c:604-690 | what a comparison does to the tree, finished or stopped at a difference, keeps the value that the tree stands for |
| SortTails.CompareEffectSettled | components/json/cJSON/cJSON_Utils.c:604-690 | a comparison that finds two trees equal leaves every pointer of the first right exactly when sorting keeps the ends of each of its objects |
| JsonPatch.DecodePointerInPlace | components/json/cJSON/cJSON_Utils.c:359-390 | unescaping in the buffer, with its misplaced writes, leaves the text that the specification function gives, and a terminator |
| JsonPatch.DecodeInPlaceExact | components/json/cJSON/cJSON_Utils.c:359-390 | unescaping in place undoes escaping exactly for the keys without a slash in which every character after the first tilde is a tilde or happens to stand at the same place of the escaped form |
| JsonPatch.UndamagedPlain | components/json/cJSON/cJSON_Utils.c:359-390 | keys without tilde and slash are safe, and no key with a slash is |
| JsonPatchRefinement.SplitJoin | components/json/cJSON/cJSON_Utils.c:430-454 | splitting a pointer text at its last slash gives the text of the parent and the escaped last token |
| JsonPatchRefinement.ReplaceIsRemoveThenAdd | components/json/cJSON/cJSON_Utils.c:807-1036 | detaching a node and inserting the new value at the same path is what RFC 6902 calls replacing |
| JsonPatchRefinement.DetachMemberExact | components/json/cJSON/cJSON_Utils.c:393-427 | detaching, which never regards case, takes the member with the key exactly when no member in front of it has a key that differs only in case |
| MemberOrder.AddedLast | components/json/cJSON/cJSON_Utils.c:946-1036 | a member that a patch adds becomes the last one, also when it takes the place of one with its key, and the others keep their order |
| MemberOrder.DetachedOthers | components/json/cJSON/cJSON_Utils.c:393-427 | a member is detached exactly when there is one with the key, and the others keep their order |
| JsonPatchRefinement.ApplySucceeds | components/json/cJSON/cJSON_Utils.c:807-1036 | whenever section 4 of RFC 6902 defines the outcome of an operation that does not copy or move to the whole document, the code returns 0 and leaves a document with that value; where a child is detached, its key must be no other key of the trees up to case |
| JsonPatchErrors.ApplyExact | components/json/cJSON/cJSON_Utils.c:807-1036 | the code returns 0 exactly when section 4 of RFC 6902 defines the outcome, except that it never copies or moves to the whole document, and that it moves an element of an array into a child of itself when adding succeeds below the element that moves up; for paths whose tokens at arrays are no irregular indices and, where case is not regarded, are no other keys of the trees up to case |
| MemberOrder.StatusSays | components/json/cJSON/cJSON_Utils.c:807-1036 | what each error number of a patch says; a patch that fails leaves the document as it was, except that a move or replacement that has taken out its item does not put it back |
| MemberOrder.AddStatus | components/json/cJSON/cJSON_Utils.c:959-1036 | an addition fails with 9 exactly when there is nothing to add to, with 11 when the token is read as no index, and with 10 when the index is behind the end |
| JsonPatchErrors.SlideRefines | components/json/cJSON/cJSON_Utils.c:914-1036 | such a forbidden move leaves the document in which the element has been taken out and added below the next one |
| Rfc6902.NothingBelow | components/json/cJSON/cJSON_Utils.c:914-1036 | moving a member of an object into a child of itself finds nothing to add to, so that such a move always fails |
| JsonPatchErrors.ElementMovesIntoItself | components/json/cJSON/cJSON_Utils.c:914-1036 | moving "/0" to "/0/a" in [1, {"b": 2}], which section 4.4 of RFC 6902 forbids, returns 0 and leaves [{"b": 2, "a": 1}] |
| LivePatch.ApplyLiveExact | components/json/cJSON/cJSON_Utils.c:807-1036 | with the stale pointers in the tree the code does the same as without them exactly when the object that is appended to, if any, has its pointer right at that moment |
| LivePatch.OperationExact | components/json/cJSON/cJSON_Utils.c:807-1036 | a patch does what section 4 of RFC 6902 asks for, the value or an error, exactly when it appends behind a right pointer, does not copy or move to the whole document and moves no element of an array into itself |
| LivePatch.TestSettled | components/json/cJSON/cJSON_Utils.c:807-1036 | a successful test keeps all pointers right exactly when sorting keeps the ends of every object in the tree it looks at |
| LivePatch.RunExact | components/json/cJSON/cJSON_Utils.c:1038-1094 | a patch document is followed step by step as RFC 6902 says, to its end or to its first error, exactly when every patch of the run goes right in that sense |
| LivePatch.FollowsOutcome | components/json/cJSON/cJSON_Utils.c:1038-1094 | a run that is followed so returns 0 and leaves the value of all operations, or returns an error when one of them is an error |
| LivePatch.SettledRun | components/json/cJSON/cJSON_Utils.c:1038-1094 | on a parsed document that is so when the moves are plain and the trees that the tests look at keep the ends of their objects under sorting |
| LivePatch.NoTestsRefine | components/json/cJSON/cJSON_Utils.c:1038-1094 | without a test in it a patch document does to the tree what it does without regard to pointers, and leaves the pointers right |
| SettledAdds.SettledExact | components/json/cJSON/cJSON_Utils.c:946-1036 | all pointers of a document are right exactly when every addition of a new member does what RFC 6902 asks for, to whichever object it goes |
| SettledAdds.AddsAfterTest | components/json/cJSON/cJSON_Utils.c:604-1036 | after a successful test every addition of a new member does what RFC 6902 asks for exactly when sorting keeps the first and the last member of each object in the tested tree |
| LivePatch.Document.ApplyPatches | components/json/cJSON/cJSON_Utils.c:1038-1094 | patches are applied to the document one after the other until one fails, with the pointers that each leaves behind; what is not an array is refused and leaves the document alone |
| PatchGeneration.FullPath | components/json/cJSON/cJSON_Utils.c:1113-1124 | the buffer of compose_patch takes the path, the slash, the escaped suffix and the terminator without a write outside it, and holds that text |
| PatchRoundTrip.ComposedFields | components/json/cJSON/cJSON_Utils.c:1096-1134 | looking up the fields of a composed patch gives the operation, the pointer text of the path with the suffix as one more key, and the value |
| PatchGeneration.PatchArray.Create | components/json/cJSON/cJSON_Utils.c:1141-1279 | the patches appended for two trees are those of the specification function, in order; the two lemmas below say which patches these are |
| PatchGeneration.GeneratePatches | components/json/cJSON/cJSON_Utils.c:1281-1309 | the generated document is the array of these patches |
| PatchNeeds.NothingGenerated | components/json/cJSON/cJSON_Utils.c:1141-1309 | no patch is generated exactly when both trees stand for the same value |
| PatchNeeds.GeneratedNeeded | components/json/cJSON/cJSON_Utils.c:1141-1279 | every generated patch is one of three kinds: it replaces where both values have something and it differs, by what the target has there; it removes at a key or index that only the source has; or it adds what only the target has, at its key or at the end of its array |
| PatchRoundTrip.GeneratedPatchesApply | components/json/cJSON/cJSON_Utils.c:807-1309 | the generated patches apply without error to every newly built tree that stands for the source, and the result stands for the target with all pointers right, when the last token of each patch survives unescaping and the last token of each patch that removes or replaces is no other key of the trees up to case |
| PatchRoundTrip.KeyConditionIsExact | components/json/cJSON/cJSON_Utils.c:359-1309 | adding one member to an empty object by generated patches gives the target exactly when the key survives unescaping, although the status is 0 in any case |
| PatchKeys.KeySetIsExact | components/json/cJSON/cJSON_Utils.c:807-1309 | generated patches lead from every source to every target with keys from a set, in either case mode, exactly when no two keys of the set differ only in case and every key survives unescaping |
| PatchRoundTrip.TestLosesMember | components/json/cJSON/cJSON_Utils.c:807-1094 | for every object whose first member sorting moves, a test of the object against itself and then an add of a new member return 0 and leave the object without the new member |
| Rfc7396.MergeIdempotent | components/json/cJSON/cJSON_Utils.c:1321-1379 | by the pseudo-code of section 2 of RFC 7396 applying a merge patch twice is applying it once |
| Rfc7396.MergeDiffExact | components/json/cJSON/cJSON_Utils.c:1321-1471 | merging the difference of two values gives the target exactly when every null member of the target is already null in the source |
| MergePatches.MergePatchInto | components/json/cJSON/cJSON_Utils.c:1321-1379 | the loop over the members of the patch computes the specified merge |
| MergePatches.MergePatchRefines | components/json/cJSON/cJSON_Utils.c:1321-1389 | on trees whose unique keys the mode tells apart the merged tree stands for what the pseudo-code of section 2 of RFC 7396 gives |
| MemberOrder.MergeExact | components/json/cJSON/cJSON_Utils.c:1321-1379 | the members that a merge patch does not name keep their order, and behind them stand the merged ones in the order of the patch |
| MergePatches.MergePatchIdempotent | components/json/cJSON/cJSON_Utils.c:1321-1389 | applying a merge patch to its own result changes nothing |
| MergePatches.GenerateMergePatchLoop | components/json/cJSON/cJSON_Utils.c:1391-1481 | the loop over both sorted lists computes the specified patch |
| MergePatches.GenerateRefines | components/json/cJSON/cJSON_Utils.c:1391-1471 | the generator gives the difference of the two values, and no patch exactly when both are objects that stand for the same value |
| MergePatches.MergePatchRoundTrip | components/json/cJSON/cJSON_Utils.c:1321-1471 | merging the generated patch into a tree that stands for the source gives the target exactly when every null member of the target, reached through objects, is already null in the source; right pointers are taken for granted here |
| MergePatches.LowerFixedAgrees | components/json/cJSON/cJSON_Utils.c:1391-1471 | keys that tolower leaves alone meet the condition under which the two orders of the generator agree |
| MergePatches.OrderConditionIsExact | components/json/cJSON/cJSON_Utils.c:1391-1471 | the round trip holds for all trees with keys from a set exactly when strcmp and the comparison after tolower order the keys of the set alike, in either case mode |
| LiveMerge.MergeLiveSettled | components/json/cJSON/cJSON_Utils.c:1321-1379 | merging into a tree whose objects have their pointers right gives the merged tree, with its pointers right again |
| LiveMerge.MergeLiveExact | components/json/cJSON/cJSON_Utils.c:1321-1379 | every patch with one more key is merged into a tree as section 2 of RFC 7396 says exactly when all objects of the tree that are reached through objects have their pointers right |
| LiveMerge.MergeIntoCopy | components/json/cJSON/cJSON_Utils.c:1321-1471 | the round trip with pointers: it holds for a duplicate of the source exactly when the nulls of the target are kept from the source |
| LiveMerge.SourceAfterKeeps | components/json/cJSON/cJSON_Utils.c:1391-1471 | generating keeps the value that the source stands for, although it sorts it |
| SourceTails.SourceReachesExactly | components/json/cJSON/cJSON_Utils.c:1321-1471 | the round trip into the source itself, which generating has sorted, holds for every target that a merge patch can reach exactly when sorting keeps the first and the last member of every object of the source that is reached through objects |
| SourceTails.GeneratingKeeps | components/json/cJSON/cJSON_Utils.c:1391-1471 | generating leaves the pointers right in a source whose objects keep their ends, and keeps for each object whether they will be |
| LiveMerge.SourceLosesAddition | components/json/cJSON/cJSON_Utils.c:1321-1471 | when sorting moves the first member of the source, merging the generated patch into the source adds nothing for every target with one more member |
| ChildList.Parent.AddItem | components/json/cJSON/cJSON.c:1961-1992 | a detached item goes behind the item that the prev pointer of the head names, and what came after that is cut off; without such an item it is dropped; it is appended exactly when that is the last child |
| ChildList.Parent.GetItem | components/json/cJSON/cJSON.c:1856-1873 | the walk finds the child at the position or none |
| ChildList.Parent.Detach | components/json/cJSON/cJSON.c:2192-2226 | the child is taken out of the sequence of children wherever it stands, and its own links are cleared |
| ChildList.Parent.InsertItem | components/json/cJSON/cJSON.c:2268-2300 | the item is inserted in front of the child at the position, or at the end for a position behind it |
| ChildList.Parent.Replace | components/json/cJSON/cJSON.c:2302-2349 | the replacement takes the place of the child in the sequence of children, first, last or only |
| ChildList.Parent.InsertAt | components/json/cJSON/cJSON_Utils.c:693-728 | the item is inserted at the position, and a position behind the end is refused without a change |
| ChildList.Parent.DetachAt | components/json/cJSON/cJSON_Utils.c:393-427 | the child at the position is taken out and its links are cleared, and none is for a position behind the end |
| ChildList.Parent.Grow | components/json/cJSON/cJSON.c:1481-1532 | a turn of the parsing and copying loops keeps the children well linked and appends one |
| ChildList.Parent.Duplicate | components/json/cJSON/cJSON.c:2716-2797 | the copied list has new items with the same names in the same order, and its tail behind the prev pointer of its head |
| StringCodec.Utf8RoundTrip | components/json/cJSON/cJSON.c:717-767 | the bytes written for every code point that is no surrogate are decoded to it by the rules of section 3 of RFC 3629 |
| StringCodec.BitForms | components/json/cJSON/cJSON.c:700-765 | the shifts and masks of the encoder are the arithmetic of the model |
| StringCodec.HexDigits | components/json/cJSON/cJSON.c:620-653 | a character is a hexadecimal digit exactly when it stands in one of two rows of sixteen, and its place in the row is its value |
| StringCodec.ParseHex4 | components/json/cJSON/cJSON.c:620-653 | the loop gives the value of four hexadecimal digits, or 0 when one of them is something else |
| StringCodec.FirstPass | components/json/cJSON/cJSON.c:793-824 | the first pass finds the closing quote and counts the escapes it skips |
| StringCodec.PieceFits | components/json/cJSON/cJSON.c:657-887 | on every input one turn of the second pass writes no more than the first pass reserved for the characters that the turn reads |
| StringCodec.UnescapeExact | components/json/cJSON/cJSON.c:840-875 | the decoder knows the eight two-character escapes of the table in section 7 of RFC 8259, each with its character, and no others |
| StringCodec.SecondPass | components/json/cJSON/cJSON.c:835-887 | on every input the second pass stays inside the reserved buffer, also where the two passes disagree about the alignment of escapes |
| StringCodec.ParseString | components/json/cJSON/cJSON.c:778-904 | both passes together give the specified literal and the offset behind it |
| StringCodec.ParseWellFormed | components/json/cJSON/cJSON.c:778-904 | on every literal that section 7 of RFC 8259 allows and that encodes characters, the result is the UTF-8 of its characters, with the table of short escapes of the standard and surrogate pairs joined, up to the first zero |
| StringCodec.UnicodeEscapeExact | components/json/cJSON/cJSON.c:657-775 | a unicode escape is taken exactly when it is no surrogate or a high one directly followed by a low one; one without four hexadecimal digits is taken as a zero |
| StringCodec.LoneSurrogateRefused | components/json/cJSON/cJSON.c:657-904 | a literal with an unpaired surrogate escape, which section 7 of RFC 8259 allows, is refused |
| StringCodec.PrintedShortest | components/json/cJSON/cJSON.c:907-1026 | every character is printed in a form of section 7 of RFC 8259 that stands for it, none of its other forms is shorter, and hexadecimal digits are lower-case |
| StringCodec.QuoteRoundTrip | components/json/cJSON/cJSON.c:778-1026 | a printed string without zeros is parsed back, whatever follows it |
| Parser.SkipWhitespace | components/json/cJSON/cJSON.c:1043-1066 | the offset never moves back and stays inside the buffer, although it steps back from the end |
| Parser.ParseNumber | components/json/cJSON/cJSON.c:305-379 | a number that is read ends inside the buffer behind its first character |
| Parser.Buffer.Skip | components/json/cJSON/cJSON.c:1043-1066 | the loop moves the offset as specified; ParserExact.ParseStandard says over which characters |
| Parser.Buffer.Value | components/json/cJSON/cJSON.c:1317-1369 | the parser that advances offset and depth accepts exactly what the specified function accepts, gives the same item and offset, and restores the depth |
| Parser.Buffer.Elements | components/json/cJSON/cJSON.c:1481-1526 | the loop collects the elements of an array as specified, and ends although the offset is stepped back in front of it |
| Parser.Buffer.Members | components/json/cJSON/cJSON.c:1643-1699 | the loop collects the members of an object as specified, and ends although the offset is stepped back in front of it |
| Parser.Buffer.Parse | components/json/cJSON/cJSON.c:1100-1177 | a whole text is parsed as specified and leaves the depth at 0; the rows below say which texts are read, and as what |
| ParserExact.ParseStandard | components/json/cJSON/cJSON.c:1043-1717 | every text of RFC 8259, with any white space of its section 2 around each bracket, comma, colon, key and value, and with or without a byte order mark, is read as the item that it stands for exactly when it is nested at most 1000 deep; for integers of at most 63 characters |
| ParserExact.ParseAccepted | components/json/cJSON/cJSON.c:1043-1717 | the same for the texts that cJSON accepts beyond the standard: every character up to the space is white space, integers may begin with zeros, and a literal is whatever is read as one on its own |
| ParserExact.ParseExact | components/json/cJSON/cJSON.c:1043-1717 | with the terminator required a text is read as an item exactly when it is one of the texts above, it stands for that item and it is nested at most 1000 deep; then it has been read to its end |
| GrammarReads.LiteralSame | components/json/cJSON/cJSON.c:778-904 | a literal inside a text is read as it is on its own, whatever stands around it |
| ParseRoundTrip.ParsePrinted | components/json/cJSON/cJSON.c:1317-1830 | a printed item followed by a character that ends it is read back at any offset and depth, exactly when it is not nested too deeply there |
| ParseRoundTrip.PrintParse | components/json/cJSON/cJSON.c:1084-1830 | parsing the text of a tree, formatted or not, gives the same tree in the same order and consumes the text exactly when the tree is nested at most CJSON_NESTING_LIMIT deep; a deeper one is rejected |
| TextLayout.PrintedExactly | components/json/cJSON/cJSON.c:1372-1830 | the printed text is the only text of the item in which strings are escaped as cJSON does it and the layout is this: unformatted without any white space; formatted with a comma and one space between elements, each member on its own line behind as many tabs as its depth, a tab behind each colon, and the closing brace on its own line |
| MinifiedTexts.PrintedSqueezed | components/json/cJSON/cJSON.c:1372-1830 | dropping the white space outside of literals turns the printed text, formatted or not and at any depth, into the unformatted one, which therefore has none |
| Minify.MinifyString | components/json/cJSON/cJSON.c:2826-2846 | the loop copies a literal down in place, with the end of the literal where the code sees it |
| Minify.Minify | components/json/cJSON/cJSON.c:2799-2894 | the loops leave the minified text and its terminator at the start of the buffer, although they read ahead of where they write, and touch nothing behind the old text |
| Minify.CommentsDropped | components/json/cJSON/cJSON.c:2799-2824 | a comment to the end of its line and a comment up to its first closing mark are dropped |
| MinifiedTexts.LiteralKept | components/json/cJSON/cJSON.c:2826-2846 | a well-formed literal is kept, and its end is seen exactly when the character in front of its closing quote is no backslash; otherwise what follows is taken for a part of it |
| MinifiedTexts.MinifyStandard | components/json/cJSON/cJSON.c:2848-2894 | a text of RFC 8259 without a literal of that kind loses exactly its white space outside of literals, and is read as the same item as before |
| MinifiedTexts.MinifyPrinted | components/json/cJSON/cJSON.c:1372-2894 | minifying the formatted text of an item gives its unformatted text exactly when no key and no string ends with a backslash, but for a string that only closing brackets follow |
| Printer.NewSize | components/json/cJSON/cJSON.c:476-493 | a grown buffer holds what is needed and is no larger than INT_MAX |
| Printer.EscapedLength | components/json/cJSON/cJSON.c:929-954 | the counted length is that of the escaped string, and a string without escapes is its own escaped form |
| Printer.PrintBuffer.Ensure | components/json/cJSON/cJSON.c:444-527 | room is made exactly when the limit of the buffer allows it; what was written stays |
| Printer.PrintBuffer.UpdateOffset | components/json/cJSON/cJSON.c:530-540 | the offset moves to the end of the text that was written |
| Printer.PrintBuffer.CountEscapes | components/json/cJSON/cJSON.c:929-954 | the loop counts the characters by which escaping makes the string longer |
| Printer.PrintBuffer.StringPtr | components/json/cJSON/cJSON.c:907-1026 | the quoted string is written where the offset stands, exactly when it and two more characters fit |
| Printer.PrintBuffer.Value | components/json/cJSON/cJSON.c:1372-1443 | printing an item succeeds exactly when it is printable and its text and two more characters fit; then what was there before is kept and the text ends at the offset plus strlen from there |
| Printer.PrintBuffer.ArrayValue | components/json/cJSON/cJSON.c:1544-1603 | the same for arrays, through every growth of the buffer; the text is the one that TextLayout.PrintedExactly characterises |
| Printer.PrintBuffer.ObjectValue | components/json/cJSON/cJSON.c:1719-1830 | the same for objects, through every growth of the buffer |
| Printer.TextNulFree | components/json/cJSON/cJSON.c:530-540 | no printed text holds a zero, so strlen finds its end |
| Printer.Print | components/json/cJSON/cJSON.c:1192-1265 | the result is the text of the item in memory of exactly its length and the terminator; the text is the one that TextLayout.PrintedExactly characterises |
| Printer.PrintBuffered | components/json/cJSON/cJSON.c:1267-1295 | every initial size, also 0 where the allocator has memory for it, gives the same text, exactly when the item is printable and its text fits INT_MAX; a negative size is refused |
| Printer.PrintPreallocated | components/json/cJSON/cJSON.c:1297-1314 | the buffer of the caller receives the text exactly when its length is at least that of the text plus 2 |
| HliQueue.Ring.EmptyFull | components/bt/controller/esp32/hli_api.c:121-134 | comparing the two offsets tells an empty and a full ring |
| HliQueue.Ring.Get | components/bt/controller/esp32/hli_api.c:261-272 | the ring hands out its first element, or nothing when it is empty |
| HliQueue.Ring.Append | components/bt/controller/esp32/hli_api.c:274-289 | the ring takes an element at its end, for every capacity and element size, exactly when it is not full |
| HliQueue.Ring.Holds | components/bt/controller/esp32/hli_api.c:168-178 | the walk around the ring finds a handle exactly when it is queued |
| HliQueue.Create | components/bt/controller/esp32/hli_api.c:219-233 | a queue is created exactly for elements of at most 32 bytes, and starts empty |
| HliQueue.Put | components/bt/controller/esp32/hli_api.c:168-289 | a put into an empty queue signals it through the meta-queue once and raises the interrupt exactly then; it aborts exactly when the meta-queue is full |
| HliProtocol.NoElementIsStranded | components/bt/controller/esp32/hli_api.c:136-289 | in every interleaving of puts with the interrupt handler each queue with an element is in the meta-queue or being drained, no queue is there twice, an interrupt is pending or running while the meta-queue is not empty, and accepted elements are those sent, then the one in scratch, then the ring, in order |
| HliProtocol.QueueTakes | components/bt/controller/esp32/hli_api.c:219-289 | after every run that has not aborted a queue takes what is put into it up to its capacity, in order, and refuses the rest, and the first put aborts exactly when the queue has to be signalled and 16 others are |
| HliProtocol.MetaQueueSize | components/bt/controller/esp32/hli_api.c:111-188 | some run aborts exactly when more than 16 queues take elements |
| HliProtocol.QuietMeansSent | components/bt/controller/esp32/hli_api.c:136-161 | in every run that has not aborted, when no interrupt is pending or running, everything accepted has been sent in order |
| HliProtocol.DrainSendsAll | components/bt/controller/esp32/hli_api.c:136-161 | from every state of every run that has not aborted the handler alone ends and has then sent everything accepted |
| WorkerThread.NoLostWakeUp | components/bt/common/osi/thread.c:146-351 | in every run, when the worker waits with work_sem down and no stop was asked for, every queue with work has a poster between its put and its give; a stop is never missed; each queue is first in, first out |
| WorkerThread.IdleMeansDone | components/bt/common/osi/thread.c:146-351 | when the worker waits and nobody is posting, everything posted has been taken in order and no stop is outstanding |
| WorkerThread.PostTakes | components/bt/common/osi/thread.c:330-351 | in the state of every run a post without interruption appends the item and gives the semaphore exactly when the queue has room, and otherwise changes nothing |
| WorkerThread.WorkerFinishes | components/bt/common/osi/thread.c:146-178 | from every state of every run without a poster in a call and without a stop, the worker alone takes everything posted and then waits |
| WorkerThread.StopEnds | components/bt/common/osi/thread.c:146-178 | from every state of every run in which a stop was asked for and nobody is in the middle of a call, the worker alone ends |
| WorkerThread.PriorityOrder | components/bt/common/osi/thread.c:146-178 | an item is taken from a queue only when each queue of higher priority has been found empty since the last item was taken |
| WorkerEvents.PostedOnce | components/bt/common/osi/thread.c:418-453 | with at most 65535 posters an event has at most one live posting in every run, and is_queued is not 0 exactly when it has one |
| WorkerEvents.EventTakes | components/bt/common/osi/thread.c:418-453 | in the state of every run posting an event without interruption appends it, raises its counter and gives the semaphore exactly when it is not posted yet and its queue has room, and otherwise changes nothing |
| WorkerEvents.PosterLimit | components/bt/common/osi/thread.c:418-453 | an event is posted at most once at a time in every run exactly when there are fewer than 65536 posters |
| FixedQueue.QueueIsSafe | components/bt/common/osi/fixed_queue.c:130-223 | in every run of any number of tasks the list length is dequeue_sem with the appends not yet announced and the claims not yet taken, the free places and all in flight make up the capacity with what failed appends lost, list_front never sees an empty list, no give is lost, and elements leave in the order of their appends apart from explicit removals |
| FixedQueue.SemaphoresTellLength | components/bt/common/osi/fixed_queue.c:130-223 | between calls the semaphores tell the length of the list and the free places, less the places that failed appends have taken away for good |
| FixedQueue.CallsAreLetIn | components/bt/common/osi/fixed_queue.c:130-192 | in every run an enqueue gets a place exactly when the places reserved, filled, being freed and lost are fewer than the capacity, and a dequeue gets an element exactly when one is neither unannounced nor claimed |
| FixedQueue.EnqueueAppends | components/bt/common/osi/fixed_queue.c:130-145 | after every run that leaves all tasks idle an enqueue appends exactly when the length and the lost places are below the capacity, and otherwise changes nothing; without memory it loses a place |
| FixedQueue.DequeueTakesFirst | components/bt/common/osi/fixed_queue.c:147-169 | after such a run a dequeue takes the first element exactly when there is one |
| FixedQueue.TryRemoveTakes | components/bt/common/osi/fixed_queue.c:201-223 | after such a run an explicit removal takes out the first entry with the data, and changes nothing when there is none |
| OsiList.List.Append | components/bt/common/osi/list.c:152-172 | the element is appended and head, tail and length are right again; without memory nothing changes |
| OsiList.List.Prepend | components/bt/common/osi/list.c:133-150 | the element is put in front |
| OsiList.List.InsertAfter | components/bt/common/osi/list.c:114-131 | the element is inserted behind the node, also behind the last |
| OsiList.List.Contains | components/bt/common/osi/list.c:57-69 | the walk finds an element exactly when the list has it |
| OsiList.List.Remove | components/bt/common/osi/list.c:174-202 | the first node with the element is unlinked, at the head, inside or at the tail, and the answer says whether there was one |
| OsiList.List.Clear | components/bt/common/osi/list.c:234-243 | the list is empty and its length is 0 |
| HashMap.FindTells | components/bt/common/osi/hash_map.c:248-265 | a search in the bucket of a key finds its entry exactly when the finite map has the class of the key |
| HashMap.DropKeeps | components/bt/common/osi/hash_map.c:126-183 | taking an entry out of its bucket takes its key out of the map and leaves every other key in its bucket only |
| HashMap.AddKeeps | components/bt/common/osi/hash_map.c:126-161 | appending an entry of a new key to its bucket adds the key to the map |
| HashMap.HashMap.HasKey | components/bt/common/osi/hash_map.c:115-124 | has_key agrees with the finite map |
| HashMap.HashMap.Get | components/bt/common/osi/hash_map.c:185-198 | get agrees with the finite map |
| HashMap.HashMap.Set | components/bt/common/osi/hash_map.c:126-161 | set updates the finite map and keeps hash_size equal to its size; without memory for the entry the old entry is lost all the same and hash_size is not corrected |
| HashMap.HashMap.Erase | components/bt/common/osi/hash_map.c:163-183 | erase takes the key out of the finite map, says whether it was there, and keeps hash_size equal to its size |
| HashMap.HashMap.Clear | components/bt/common/osi/hash_map.c:200-211 | clear empties the map and leaves hash_size as it was |
| OsiConfig.SetThenGet | components/bt/common/osi/config.c:185-242 | the value set is the value got, no other value changes, and it does not matter where a new section is put |
| OsiConfig.SetKeepsOrder | components/bt/common/osi/config.c:220-246 | a section that is there stays where it is; a new one becomes the last or, without insert_back, the first; no other section changes or moves |
| OsiConfig.TrimIs | components/bt/common/osi/config.c:536-553 | trimming takes the blanks on both sides away and nothing else |
| OsiConfigLines.ParseLines | components/bt/common/osi/config.c:586-629 | any lines of at most 1023 bytes do what they say one after the other: a header in brackets names the section, beginning with "Global", a key and a value around the first equals sign are set in it, blanks around each part do not matter, and empty lines, comments, unclosed headers and lines without an equals sign do nothing |
| OsiConfigLines.LongLine | components/bt/common/osi/config.c:586-597 | a longer line ends the parsing |
| OsiConfig.TextRoundTripExact | components/bt/common/osi/config.c:432-663 | for unique sections and keys in lines that fit, parsing the text gives the configuration back exactly when no section is without entries |
| OsiConfig.StoredIsRead | components/bt/common/osi/config.c:358-608 | whatever longer blobs were stored before, the text read from the blobs is the text stored |
| OsiConfig.SaveLoadRoundTrip | components/bt/common/osi/config.c:403-663 | loading what was saved gives the sections that have entries, in order, whatever blobs were stored before; it gives the same configuration exactly when every section has an entry |
| OsiConfigFile.ConfigSize | components/bt/common/osi/config.c:330-356 | the computed size is the number of bytes written plus one |
| OsiConfigFile.LinesFitExact | components/bt/common/osi/config.c:424-460 | every line is copied whole, whatever was in the line buffer before, exactly when it is shorter than the 1024 bytes of that buffer |
| OsiConfigFile.WriteText | components/bt/common/osi/config.c:403-478 | the loops write the text of a configuration whose lines fit the line buffer into a buffer of the computed size and never outside it |
| OsiConfigFile.SavingEndsExactly | components/bt/common/osi/config.c:479-503 | the loop that stores the blobs ends exactly when the text has fewer than 255 full blobs; the assertion in front of it lets 255 of them pass, and then the 8-bit counter never gets past the count |
| OsiConfigFile.StoreChunks | components/bt/common/osi/config.c:479-503 | when the loop ends the text has been cut into full blobs and a shorter last one, which may be empty |
| OsiConfigFile.Save | components/bt/common/osi/config.c:403-534 | saving a configuration whose lines fit, when the loop ends, stores the blobs of the text over what was there |
| OsiConfigFile.ReadingEndsExactly | components/bt/common/osi/config.c:358-608 | the loops that go from blob to blob never end exactly when all 65536 blobs that their 16-bit counter can name are full |
| OsiConfigFile.FlashSize | components/bt/common/osi/config.c:358-401 | when the loop ends, the sizes of the blobs add up to the size of the buffer that they are read into |
| OsiConfigFile.ReadFlash | components/bt/common/osi/config.c:555-608 | when the loop ends it has stayed inside a buffer of the computed size, and gives the text of the chain of blobs, or nothing when a blob is too long or there is no text |
| OsiConfigFile.ParseLines | components/bt/common/osi/config.c:609-645 | the loop over the lines computes the specified configuration |
| OsiConfigFile.TrimInPlace | components/bt/common/osi/config.c:536-553 | trimming in the line buffer moves the start and the terminator so that the trimmed string stands there |
| OsiConfigFile.New | components/bt/common/osi/config.c:74-100 | a new configuration is what the blobs hold, and empty when they cannot be read |
| RegionRelease.Controller.Turn | components/bt/controller/esp32/bt.c:1300-1333 | a turn with its look-ahead keeps the account: what the heap was given and the pending span hold every address as often as the released regions do |
| RegionRelease.RunLength | components/bt/controller/esp32/bt.c:1284-1333 | the loop hands over the longest run of covered regions that lie next to each other |
| RegionRelease.Controller.ReleaseRegions | components/bt/controller/esp32/bt.c:1284-1333 | one call hands over exactly the longest runs of adjoining covered regions, in the order of the table, each as one span |
| RegionRelease.Controller.Release | components/bt/controller/esp32/bt.c:1284-1350 | a call clears the bits of the mode in every region and gives the heap every byte of the regions that lose their last bit; it is refused when the first region has none of the bits |
| RegionRelease.EachByteOnce | components/bt/controller/esp32/bt.c:1284-1350 | after any calls an address of a table of disjoint regions has been given to the heap exactly once when all mode bits of its region have been cleared, and otherwise never |
| RegionRelease.ModesOneByOne | components/bt/controller/esp32/bt.c:1284-1333 | releasing the two modes one after the other in either order leaves the table that releasing both at once leaves |
| LowPowerClock.ConversionExact | components/bt/controller/esp32c3/bt.c:700-712 | a conversion loses nothing exactly when its half microseconds fit 32 bits, and the remainder stays below 2^frac |
| LowPowerClock.RunIsExact | components/bt/controller/esp32c3/bt.c:700-712 | over any sequence of calls that carry the remainder the results add up to the exact time rounded down, and the remainder is what is left |
| LowPowerClock.ThereAndBack | components/bt/controller/esp32c3/bt.c:700-725 | converting cycles there and back loses at most one cycle when a cycle is at least half a microsecond long, and none exactly when the time is a whole number of half microseconds |
| LowPowerClock.LpCyclesToHus | components/bt/controller/esp32c3/bt.c:700-712 | the conversion through the pointer to the remainder is the specified one, with or without a remainder |
| Kalman.VarianceBounds | main/kalman_filter.c:11-22 | after an update the variance lies strictly between 0 and that of a measurement |
| Kalman.Kalman1D.Update | main/kalman_filter.c:11-22 | the estimate moves towards the measurement and never past it |
| Kalman.RunInHull | main/kalman_filter.c:11-22 | over any run the estimate stays between the smallest and the largest of the start and the measurements |
| Kalman.VariancesApproach | main/kalman_filter.c:11-22 | in every update two variances approach each other at least by the factor (R / (Q + R)) squared |
| Kalman.VariancesConverge | main/kalman_filter.c:11-22 | two covariance runs approach each other geometrically, whatever they start from |

## Left out

- Patching, merging and comparing work on tree values; update of heap trees in place, aliasing between trees and freeing of memory are not
  shown there. The links of the lists of children are modelled on their own.
- A pointer to an item that has left its list names freed memory or an item of another tree; the model only says that nothing is appended to
  the list then. Items of a list are told apart by their keys.
- LivePatch.Document.ApplyPatches: does not show that a test also sorts the value in its patch, which nothing in the run looks at again.
- MergePatches.GenerateMergePatch: the order in which comparing leaves the members of values that it has compared is not carried over into
  the patch; the value that the patch stands for does not depend on it.
- PatchRoundTrip.GeneratedPatchesApply: in the case-sensitive mode it does not cover removing or replacing a member whose key differs only in
  case from another key of the trees but is found first all the same.
- ChildList.Parent.Duplicate: copies one level of children with their names; the recursion into the children is not modelled on the heap.
- JsonPatchRefinement.ApplySucceeds: does not cover removing the whole document, nor the removal or insertion under a last token that
  unescaping in place damages, nor detaching a member whose key differs only in case from another key of the trees.
- JsonPatch.ApplyMove: a "from" that is no string has no text in memory, and the code asks for its length; the model returns 5 there.
- JsonPatchErrors.ApplyExact: leaves out tokens at arrays that the code reads as an index although RFC 6901 does not allow them.
- Parser.ParseNumber: numbers are integers that fit valueint. Fractions, exponents, values beyond 2^53, locales and the conversion of doubles
  are left out, and a fraction or an exponent is refused.
- Parser.Buffer.Value: refuses a fraction or an exponent for the same reason.
- StringCodec.ParseWellFormed: does not cover unpaired surrogate escapes, which the code refuses.
- Null arguments, allocator hooks, raw items, reference items and constant keys of cJSON are left out, and memory is always there for it.
  In the operating system layer failing allocation is a parameter of the steps.
- StringCodec.ParseString: at the end of a buffer without a terminator the code looks at the byte behind it for a quote; that byte is
  not part of the model, which takes it for another character.
- Strings shorter than the address space: the lengths that the printer adds up do not wrap around.
- Printer.PrintBuffered: with an initial size of 0, memory for 0 bytes and no realloc hook the code copies a byte that it does not have;
  that case is left out.
- OsiConfigFile.WriteText: a line that does not fit the line buffer would be copied with bytes that are not part of the model.
- OsiConfigFile.StoreChunks: says nothing of texts from 255 full blobs on, for which the loop does not end.
- OsiConfigFile.Save: for the same reasons asks for lines that fit and for a loop that ends; errors of the flash driver are left out.
- OsiConfigFile.FlashSize: says nothing of 65536 full blobs, for which the loop does not end.
- OsiConfigFile.ReadFlash: says nothing of them either.
- OsiConfigFile.New: says nothing of them either.
- OsiConfigFile.ParseLines: a text without a newline at its end is searched only up to its end, because the bytes behind the buffer are
  not part of the model.
- HashMap.HashMap.Set: the lists in the buckets are sequences; the nodes of such lists are modelled in OsiList. Callbacks that free keys and
  data are left out.
- Semaphores, queues and mutexes of FreeRTOS are atomic primitives. What happens downstream of a HLI queue, in particular that a full
  downstream queue drops elements, and what posted functions do, is left out.
- Deleting a worker thread, an event or a queue while it is in use is left out.
- Kalman.Kalman1D.Update: rounding of single precision numbers is left out.
- The mesh and controller layers, Wi-Fi, Ethernet, MQTT, HTTP, scanning and the tables of tags and parking places are left out.
