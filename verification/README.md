# Verified model of the lsmalloc data structures

lsmalloc is a log-structured allocator for persistent memory. This project models its
cores in Dafny and proves them against independent specifications:

- the left-leaning red-black tree of huge blocks: winding and unwinding over a path array,
  rotations in place, search, neighbours and iteration (`RbModel`, `RbHeap`, `RbInsert`,
  `RbRemove`, `RbTree`, `RbSearch`, `RbIter`, `RbMap`, and the packed node layout in
  `PackedLink`);
- circular rings and the lists on top of them (`Ring`, `List`);
- the pool of persistent chunks, a ring with a sentinel and a moving cursor that refines a
  FIFO queue, and whole runs of it (`PoolModel`, `Pool`, `PoolRun`, `AddressSpace`);
- the arena, which carves chunks into logged regions and into slabs, and whole runs of it
  (`ArenaModel`, `ArenaLaws`, `ArenaPacked`, `Arena`, `ArenaRun`, `ArenaOverrun`);
- printing and reading numbers, and formatted output (`Bits`, `Digits`, `DigitsExactly`, `NumberText`,
  `StrToUmax`, `StrToUmaxExactly`, `PrintfModel`, `Printf`, `PrintfPrinted`), and both against the C
  standard (`StrToUmaxStandard`, `PrintfStandard`, `PrintfAccepts`, `PrintfExactly`);
- thread-to-arena balancing (`BalanceModel`, `Balance`) and aligned mappings (`ChunkMmap`).

Code that the repository writes as updates in place is a class or a method over heap
objects and arrays here. Each such method is proved to refine a function on values, and the
laws are proved about those functions: `RbModel` speaks of trees and of the frames of a
descent, `PoolModel` of a queue, `ArenaModel` of chunks, regions and slabs. A run is a
sequence of operations on values; an operation's method ties one step to memory, and the
`Replay` methods tie whole runs to it.

Where the operating system places a mapping is a parameter of the operation that maps
(`addr1`, `addr2`, `base`): any place that is not mapped yet. A locked section is one
operation. Addresses of nodes and chunks are integers; `size_t` and `uintmax_t` arithmetic
is written out modulo 2^64 where it can wrap.

The callback of an iteration is any function of the node and of the caller's
argument, which it may change on every call; what it does to the tree is not part of this model.

## Main results

- `RbTree.HugeTree.Insert` and `RbTree.HugeTree.Remove` keep order, colours and heights, never
  leave the path array, and change the in-order sequence by exactly one node; `RbMap.Replay`
  carries that over any run on a new tree, as a finite map.
- `RbSearch.NextEnumerates`, `RbIter.Iter` and `RbIter.ReverseIter`: every walk visits what it
  should, in order, up to the first answer.
- `PoolModel.RunInv` and `PoolModel.Fifo`: over any run the chunks are partitioned, and leave in
  the order in which they came; `PoolModel.PoolsExactly`: no more pools are mapped than the peak needs.
  `Pool.Pool.ChunkAlloc` and `Pool.Pool.Free` refine the queue, and `PoolRun.Replay` carries any run
  of them to the ring in memory.
- `ArenaModel.NoOverlap`, `ArenaModel.ForeverApart` and `ArenaModel.RunInv`: nothing the arena has
  placed ever overlaps anything else it has placed; `ArenaRun.Replay` carries any run of requests
  and frees to objects in memory. `ArenaLaws.LargeExactly` and `SmallExactly` say from addresses and
  counts alone where each payload goes, and `ArenaPacked.RunPacked` that over any run nothing is left
  open but the newest chunk of each kind and one sub-region of each class. `ArenaLaws.DirtyExactly`: over
  any run a region is dirty exactly if it was freed. `ArenaOverrun.InChunkExactly`: over any run of admitted requests,
  everything stays inside its chunk exactly if no request is larger than a fresh chunk can hold.
- `BalanceModel.RunInv` and `Balance.Replay`: no arena has more than its share of the threads, over
  any run of arrivals and exits.
- `DigitsExactly.TextExactly`: every printed digit, from the number and its place.
- `StrToUmax.UnsignedRoundTrip` and its companions: printed numbers read back;
  `StrToUmaxExactly.ReadExactly` says what is returned for every input, and
  `StrToUmaxStandard.PromiseKeptExactly` says exactly which inputs are read as the standard asks.
- `Printf.VSnprintf`: the buffer holds a prefix of the unlimited output. `PrintfAccepts.AcceptedExactly`
  and `PrintfPrinted.CarriedExactly` say which directives are carried out, and with which arguments,
  `PrintfPrinted.PrintedExactly` what each prints, and `PrintfExactly.DirectiveExactly` exactly when
  that is the text the C standard asks for.
- `ChunkMmap.ChunkAllocMmapSlow`: exactly an aligned block stays mapped.

## Where the code and its promise differ

The code is modelled as it is, and the exact condition under which the promise holds is proved.

- A large request of up to `chunksize` bytes is admitted (src/arena.c:25), but a fresh chunk
  has only `chunksize - 8` bytes, eight of which go to the region's header. `Arena.Arena.Malloc`
  serves a request correctly if `Fits(size)`, and what it returns otherwise runs past the end of
  its chunk; `ArenaModel.FitsExactly` says that `Fits` is `size <= chunksize - 16`. Such a request also
  spoils the chunk's accounts for later ones; `ArenaOverrun.InChunkExactly` is the condition for whole runs.
- `malloc_strtoumax` is compared with `strtoumax` of section 7.8.2.3 of ISO/IEC 9899:1999: the
  longest run of digits is read, and base zero takes any leading zero but a hexadecimal prefix
  as octal. The program notices an overflow only if the number drops below its previous value
  (`OverflowMissed`), stops in front of the digit at which it notices one (`OverflowStopsShort`),
  stops behind a lone leading zero (`LoneZeroStops`), and returns `UINTMAX_MAX` rather than zero
  where there are no digits (`NothingRead`). `StrToUmaxStandard.PromiseKeptExactly`: it does what
  the standard asks exactly if there are digits, they stand for less than 2^64, and a lone zero
  is not followed by a digit of the base; in base zero the last condition always holds
  (`BaseZeroKept`).
- `malloc_vsnprintf` is compared with section 7.19.6.1 in `PrintfExactly`, directive by directive:
  flags, width and precision are read from the format as the standard reads them. Wherever the program
  carries a directive out and the standard asks for a text, `DirectiveExactly` proves that both end in
  the same place and take the same argument, and that the texts are the same exactly if
  `DirectiveAsAsked` holds of the format and the argument. (The standard asks for none where it leaves the
  behaviour undefined, as for `%#d`, or to the implementation, as for `%p`.) What that condition rules out:
  - a precision of a number that asks for other digits, which the program ignores;
  - a period on its own, which the standard takes as precision zero and the program as none
    (`BarePeriodString` and `BarePeriodZero` are `%.s` and `%.d`; in `%05.d` it cancels the zero flag, so
    that the program is right, `BarePeriodCancelsZero`);
  - widths and precisions above the largest int, which wrap around (`PrecisionWraps`,
    `ReadWidthExactly`), unless the difference does not show;
  - an alternate hexadecimal zero, which the program prefixes;
  - a zero flag with something to fill. It is read as the first digit of the width:
    `PrintfAccepts.ZeroFlagExactly` says which directives with a zero flag are carried out at all,
    `ZeroFlagIsWidth` what they do, and `ZeroFlagPads` is `%05d` of 3.

  A string's precision above its length is a fault here (`PrintfStandard.StringFaultsExactly`). `%lc` and
  `%ls` write a diagnostic to the message channel, which is left out, and are then carried out like `%c`
  and `%s`; that is not the standard's wide-character text, with which they are not compared.
- src/arena.c:141 writes to a chunk that may be NULL; here that write is guarded.
- For `INTMAX_MIN` the negation in src/util.c:258 is undefined in C; here it wraps around.

## Model

| member | source | states |
|---|---|---|
| `RbModel.DepthIsLogarithmic` | include/lsmalloc/internal/rb.h:4-10 | a balanced tree of n nodes has depth at most 2 log2(n + 1) |
| `RbModel.SmallTreeBlackHeight` | include/lsmalloc/internal/rb.h:450-453 | below 2^64 nodes the black height is at most 63, which is what keeps a descent inside the path array |
| `RbModel.BalancedReplace` | include/lsmalloc/internal/rb.h:484-486 | replacing a subtree by one of the same black height keeps the whole tree balanced: why the early exits are sound |
| `RbModel.InsertStepBalance` | include/lsmalloc/internal/rb.h:471-510 | fixing up or splitting a 4-node, or leaning left, keeps every colour and height rule except a red subtree root |
| `RbModel.InsertStepOrder` | include/lsmalloc/internal/rb.h:471-510 | one unwinding step of an insertion keeps the in-order sequence and the nodes |
| `RbModel.InsertResultKeeps` | include/lsmalloc/internal/rb.h:470-510 | the same for a step that may also return early |
| `RbModel.RemoveStepBalance` | include/lsmalloc/internal/rb.h:614-849 | every rebalancing case yields a balanced subtree, short of one black level exactly when unwinding goes on; what the case borrows from exists |
| `RbModel.RemoveStepLeftBalance` | include/lsmalloc/internal/rb.h:616-712 | the cases where the deficient subtree is on the left |
| `RbModel.RemoveStepRightBalance` | include/lsmalloc/internal/rb.h:713-848 | the cases where it is on the right |
| `RbModel.RemoveStepRedSiblingBalance` | include/lsmalloc/internal/rb.h:718-770 | the two cases of a red sibling, including that its right child is not nil |
| `RbModel.RemoveStepOrder` | include/lsmalloc/internal/rb.h:614-849 | every rebalancing case keeps the in-order sequence and the nodes |
| `RbModel.RelabelBalance` | include/lsmalloc/internal/rb.h:549-577 | a node may be exchanged on the path without touching colours or heights |
| `RbModel.SwapRemoves` | include/lsmalloc/internal/rb.h:549-577 | swapping a node with its successor and dropping the leaf removes exactly that node from the order |
| `RbModel.DropSpells` | include/lsmalloc/internal/rb.h:578-603 | dropping a node without right child removes exactly that node from the order |
| `RbHeap.RotateLeft` | include/lsmalloc/internal/rb.h:139-144 | the pointer writes rotate the tree left |
| `RbHeap.RotateRight` | include/lsmalloc/internal/rb.h:146-151 | the pointer writes rotate the tree right |
| `RbHeap.DescendShape` | include/lsmalloc/internal/rb.h:457-467 | a descent splits the heap into the frames above and the subtree below, without sharing |
| `RbHeap.PlugShape` | include/lsmalloc/internal/rb.h:470-514 | the frames above, left alone, and a new subtree below are a tree again |
| `RbHeap.RecordStep` | include/lsmalloc/internal/rb.h:458-466 | one winding step writes its node and comparison inside the path array |
| `RbInsert.FixLeft` | include/lsmalloc/internal/rb.h:472-486 | the 4-node fix-up in memory is the step of the model |
| `RbInsert.FixRight` | include/lsmalloc/internal/rb.h:487-509 | splitting a 4-node or leaning left in memory is the step of the model |
| `RbInsert.UnwindOnce` | include/lsmalloc/internal/rb.h:470-511 | one iteration of the unwinding loop, and that it returns early exactly when the child is black |
| `RbRemove.FixLeftRed` | include/lsmalloc/internal/rb.h:621-664 | the cases below a red parent on the left |
| `RbRemove.FixLeftBlack` | include/lsmalloc/internal/rb.h:665-711 | the cases below a black parent on the left |
| `RbRemove.FixRightRedSibling` | include/lsmalloc/internal/rb.h:718-755 | the cases of a red sibling |
| `RbRemove.RotateUpTwice` | include/lsmalloc/internal/rb.h:733-740 | the pair of right rotations in the first of them |
| `RbRemove.HangAndRotate` | include/lsmalloc/internal/rb.h:739-740 | and the left rotation that closes it |
| `RbRemove.FixRightRed` | include/lsmalloc/internal/rb.h:771-808 | the cases below a red parent on the right |
| `RbRemove.FixRightBlack` | include/lsmalloc/internal/rb.h:809-847 | the cases below a black parent on the right |
| `RbRemove.UnwindOnce` | include/lsmalloc/internal/rb.h:614-849 | one iteration of the unwinding loop, when it ends, and when the subtree root has changed |
| `RbTree.HugeTree.constructor` | include/lsmalloc/internal/rb.h:112-116 | a new tree is empty and valid |
| `RbTree.HugeTree.WindOnce` | include/lsmalloc/internal/rb.h:457-467 | one step of a descent, in the tree and in the path array |
| `RbTree.HugeTree.WindInsert` | include/lsmalloc/internal/rb.h:455-468 | the descent ends at the nil link where the key belongs, within the path array |
| `RbTree.HugeTree.UnwindInsertOnce` | include/lsmalloc/internal/rb.h:470-511 | one iteration of insertion's unwinding seen from the whole tree |
| `RbTree.HugeTree.UnwindInsertStep` | include/lsmalloc/internal/rb.h:470-511 | the loop body keeps the zipper of path and overfull subtree, also when it returns early |
| `RbTree.HugeTree.UnwindInsert` | include/lsmalloc/internal/rb.h:469-515 | unwinding ends in a valid tree that spells the wanted order |
| `RbTree.HugeTree.BlackenRoot` | include/lsmalloc/internal/rb.h:512-514 | setting the root black ends an insertion that reached the top |
| `RbTree.HugeTree.Insert` | include/lsmalloc/internal/rb.h:448-515 | insertion of a fresh key keeps all tree invariants and adds exactly that node in order |
| `RbTree.HugeTree.SetLink` | include/lsmalloc/internal/rb.h:567-577 | the link a descent ended at, or the root, is redirected |
| `RbTree.HugeTree.WindRemove` | include/lsmalloc/internal/rb.h:522-548 | finds the node and the end of the path to its successor, within the path array |
| `RbTree.HugeTree.WindSuccessor` | include/lsmalloc/internal/rb.h:537-542 | the descent to the successor turns left only |
| `RbTree.HugeTree.SwapWithSuccessor` | include/lsmalloc/internal/rb.h:549-577 | the path leads through the successor afterwards, in spite of the self-loop a right child leaves behind |
| `RbTree.HugeTree.SwapLinks` | include/lsmalloc/internal/rb.h:551-577 | the memory side of the swap |
| `RbTree.LastIsLeaf` | include/lsmalloc/internal/rb.h:537-543 | the successor has no child to lose |
| `RbTree.HugeTree.UnwindRemoveOnce` | include/lsmalloc/internal/rb.h:614-849 | one iteration of removal's unwinding seen from the whole tree; a red parent is never the root |
| `RbTree.HugeTree.UnwindRemoveStep` | include/lsmalloc/internal/rb.h:614-849 | the loop body keeps the zipper of path and deficient subtree |
| `RbTree.HugeTree.UnwindRemove` | include/lsmalloc/internal/rb.h:611-852 | unwinding from a pruned black leaf ends in a valid tree with a black root |
| `RbTree.HugeTree.FinishRemove` | include/lsmalloc/internal/rb.h:654-664 | relinking the parent, or the root, ends the removal |
| `RbTree.HugeTree.Prune` | include/lsmalloc/internal/rb.h:604-613 | a red pruned leaf is a left child and needs no fix-up |
| `RbTree.HugeTree.RemoveSwapped` | include/lsmalloc/internal/rb.h:549-613 | removal of a node that has a right child |
| `RbTree.HugeTree.RemoveUnswapped` | include/lsmalloc/internal/rb.h:578-613 | removal of a node without right child, including the splice of its red left child |
| `RbTree.HugeTree.Remove` | include/lsmalloc/internal/rb.h:516-853 | removal keeps all tree invariants and deletes exactly that node |
| `RbTree.Compare` | src/huge.c:20-28 | the comparison orders by address |
| `PackedLink.MaskedWord` | include/lsmalloc/internal/rb.h:57-67 | the masks take a word apart into pointer and colour |
| `PackedLink.Link.RightGet` | include/lsmalloc/internal/rb.h:57-59 | the right pointer is a node address whatever the colour |
| `PackedLink.Link.RightSet` | include/lsmalloc/internal/rb.h:60-63 | sets the pointer and keeps the colour |
| `PackedLink.Link.ColorSet` | include/lsmalloc/internal/rb.h:69-73 | sets the colour and keeps the pointer |
| `PackedLink.Link.RedSet` | include/lsmalloc/internal/rb.h:74-77 | sets red and keeps the pointer |
| `PackedLink.Link.BlackSet` | include/lsmalloc/internal/rb.h:78-81 | sets black and keeps the pointer |
| `PackedLink.PackingIsUnique` | include/lsmalloc/internal/rb.h:55-81 | pointer and colour determine the word |
| `RbSearch.First` | include/lsmalloc/internal/rb.h:312-320 | the first node in order, or NULL |
| `RbSearch.Last` | include/lsmalloc/internal/rb.h:321-329 | the last node in order, or NULL |
| `RbSearch.FirstBelow` | include/lsmalloc/internal/rb.h:119-127 | the leftmost walk finds the first node of a subtree |
| `RbSearch.LastBelow` | include/lsmalloc/internal/rb.h:129-137 | the rightmost walk finds the last one |
| `RbSearch.Search` | include/lsmalloc/internal/rb.h:386-403 | the node with that key, and NULL exactly when there is none |
| `RbSearch.NSearch` | include/lsmalloc/internal/rb.h:404-425 | the least node at or above the key, and NULL exactly when all are below |
| `RbSearch.PSearch` | include/lsmalloc/internal/rb.h:426-447 | the greatest node at or below the key, and NULL exactly when all are above |
| `RbSearch.Next` | include/lsmalloc/internal/rb.h:330-357 | the node behind this one in order, and NULL exactly at the end |
| `RbSearch.Prev` | include/lsmalloc/internal/rb.h:358-385 | the node in front of this one in order, and NULL exactly at the start |
| `RbSearch.LastLeftTurn` | include/lsmalloc/internal/rb.h:336-352 | without right child, the next node is where the descent last turned left |
| `RbSearch.LastRightTurn` | include/lsmalloc/internal/rb.h:364-380 | without left child, the previous node is where it last turned right |
| `RbSearch.PrevInvertsNext` | include/lsmalloc/internal/rb.h:330-385 | going back from the next node gives the node |
| `RbSearch.NextEnumerates` | include/lsmalloc/internal/rb.h:330-357 | stepping from the first node enumerates the whole order |
| `RbIter.IterRecurse` | include/lsmalloc/internal/rb.h:854-869 | visits a subtree in order up to the first answer, threading the argument through the calls |
| `RbIter.IterStart` | include/lsmalloc/internal/rb.h:870-894 | visits a subtree from the starting key on |
| `RbIter.Iter` | include/lsmalloc/internal/rb.h:895-907 | visits exactly the nodes from start on, in order, up to the first answer |
| `RbIter.ReverseIterRecurse` | include/lsmalloc/internal/rb.h:908-924 | the same backwards, for a subtree |
| `RbIter.ReverseIterStart` | include/lsmalloc/internal/rb.h:925-951 | the same backwards, up to the starting key |
| `RbIter.ReverseIter` | include/lsmalloc/internal/rb.h:952-967 | visits exactly the nodes up to start, backwards, up to the first answer |
| `RbIter.WalkIsPrefix` | include/lsmalloc/internal/rb.h:296-305 | what is visited is a prefix, the argument has gone through it node by node, all but its last node were answered with NULL, and the last answer is the result |
| `RbIter.FromExactly` | include/lsmalloc/internal/rb.h:870-894 | from a key on is what follows the nodes below it |
| `RbIter.UpToExactly` | include/lsmalloc/internal/rb.h:925-951 | up to a key is what precedes the nodes above it |
| `RbIter.ReversedExactly` | include/lsmalloc/internal/rb.h:908-924 | backwards is index by index |
| `RbMap.MapLookup` | include/lsmalloc/internal/rb.h:386-403 | an ordered sequence of nodes is a finite map from addresses |
| `RbMap.MapOfInsert` | include/lsmalloc/internal/rb.h:448-515 | insertion in order is an update of the map |
| `RbMap.MapOfWithout` | include/lsmalloc/internal/rb.h:516-853 | removal is the removal of the key |
| `RbMap.Step` | src/huge.c:30-31 | one operation on the tree refines the operation on the map |
| `RbMap.Replay` | src/huge.c:30-41 | any run of insertions and removals on a new tree refines the run on the map |
| `RbMap.Lookup` | include/lsmalloc/internal/rb.h:386-403 | search is lookup in the map |
| `Ring.Elm.constructor` | include/lsmalloc/internal/qr.h:9-12 | a new element is a ring of one |
| `Ring.Neighbours` | include/lsmalloc/internal/qr.h:14-16 | next and previous of any element are its neighbours in the ring |
| `Ring.Rotate` | include/lsmalloc/internal/qr.h:1-6 | a ring may be read from any of its elements |
| `Ring.BeforeInsert` | include/lsmalloc/internal/qr.h:18-23 | inserting before the first element appends to the ring |
| `Ring.BeforeInsertAt` | include/lsmalloc/internal/qr.h:18-23 | inserting before any element |
| `Ring.AfterInsert` | include/lsmalloc/internal/qr.h:25-32 | inserting behind the first element |
| `Ring.AfterInsertAt` | include/lsmalloc/internal/qr.h:25-32 | inserting behind any element |
| `Ring.Remove` | include/lsmalloc/internal/qr.h:48-55 | removal leaves the rest a ring and the element a ring of one |
| `Ring.RemoveAt` | include/lsmalloc/internal/qr.h:48-55 | removal of any element, in place |
| `Ring.Meld` | include/lsmalloc/internal/qr.h:34-41 | the four link writes, also when the arguments are neighbours |
| `Ring.Join` | include/lsmalloc/internal/qr.h:34-41 | melding elements of two rings joins them end to end |
| `Ring.Split` | include/lsmalloc/internal/qr.h:43-46 | melding two elements of one ring splits it in front of each |
| `Ring.MeldTwice` | include/lsmalloc/internal/qr.h:34-46 | melding twice restores every link |
| `Ring.Foreach` | include/lsmalloc/internal/qr.h:57-61 | visits each element of the ring once, in order, and ends |
| `Ring.ReverseForeach` | include/lsmalloc/internal/qr.h:63-67 | the same backwards |
| `List.Ql.constructor` | include/lsmalloc/internal/ql.h:15-17 | a new list is empty |
| `List.Ql.Last` | include/lsmalloc/internal/ql.h:22-25 | the last element, or NULL |
| `List.Ql.Next` | include/lsmalloc/internal/ql.h:27-29 | the following element, NULL behind the last one |
| `List.Ql.Prev` | include/lsmalloc/internal/ql.h:31-33 | the preceding element, NULL in front of the first one |
| `List.Ql.BeforeInsert` | include/lsmalloc/internal/ql.h:35-40 | inserts in front of an element, which may be the first |
| `List.Ql.AfterInsert` | include/lsmalloc/internal/ql.h:42-43 | inserts behind an element |
| `List.Ql.HeadInsert` | include/lsmalloc/internal/ql.h:45-50 | prepends |
| `List.Ql.TailInsert` | include/lsmalloc/internal/ql.h:52-57 | appends |
| `List.Ql.Remove` | include/lsmalloc/internal/ql.h:59-68 | removes that one element, also the first and also the only one |
| `List.Ql.HeadRemove` | include/lsmalloc/internal/ql.h:70-73 | removes the first element |
| `List.Ql.TailRemove` | include/lsmalloc/internal/ql.h:75-78 | removes the last element |
| `List.Ql.Foreach` | include/lsmalloc/internal/ql.h:80-81 | visits the list once, in order, and ends |
| `List.Ql.ReverseForeach` | include/lsmalloc/internal/ql.h:83-84 | the same backwards |
| `PoolModel.CreatedInv` | src/pool.c:84-97 | a new pool's free chunks are exactly its chunks |
| `PoolModel.AllocatedInv` | src/pool.c:117-137 | allocation hands out an aligned chunk that was not in use and keeps the partition and the counters |
| `PoolModel.FreedInv` | src/pool.c:140-147 | freeing a chunk in use keeps the partition and the counters |
| `PoolModel.RunInv` | src/pool.c:117-147 | over any run, free and outstanding chunks are disjoint, without duplicates, and together all chunks of all pools; used plus free is the total |
| `PoolModel.Fifo` | src/pool.c:117-147 | over any run, what was handed out followed by what is queued is what was queued followed by what was put in |
| `PoolModel.HandedAreChunks` | src/pool.c:126-129 | no run hands out the sentinel: every address is a chunk, aligned and not NULL |
| `PoolModel.PoolsExactly` | src/pool.c:117-124 | over any run exactly as many pools are mapped as the peak of chunks in use needs |
| `PoolModel.ChunkPlace` | src/pool.c:69-80 | every chunk lies inside one mapped pool |
| `PoolModel.ChunksApart` | src/pool.c:74-80 | different chunks do not overlap |
| `Pool.OnlySentinel` | src/pool.c:119-124 | the ring is exhausted exactly when the cursor is its own successor |
| `Pool.SkipSentinel` | src/pool.c:126-129 | the cursor is moved off the sentinel without losing or reordering a chunk |
| `Pool.Pop` | src/pool.c:126-133 | unlinking at the cursor pops the front of the queue |
| `Pool.Push` | src/pool.c:142-145 | inserting before the cursor pushes at the back of the queue |
| `Pool.BuildFreelist` | src/pool.c:69-81 | the loop links the consecutive chunks of a pool behind the sentinel, in address order |
| `Pool.MapPool` | src/pool.c:38-57 | what stays mapped is one aligned pool-sized range, whether or not the first place was aligned |
| `Pool.Pool.constructor` | src/pool.c:84-97 | a new pool refines the created state |
| `Pool.Pool.CreateOne` | src/pool.c:25-82 | an empty queue is extended by one pool of consecutive chunks |
| `Pool.Pool.ChunkAlloc` | src/pool.c:117-137 | allocation pops the queue's front, after extending an empty queue |
| `Pool.Pool.Free` | src/pool.c:140-147 | freeing pushes at the back of the queue |
| `Pool.AllocatedPlaced` | src/pool.c:117-137 | allocation keeps the partition wherever the system maps a further pool |
| `Pool.CreatedPlaced` | src/pool.c:84-97 | the partition holds for a new pool wherever it is mapped |
| `Pool.FreedPlaced` | src/pool.c:140-147 | freeing keeps the partition and the mapped pools |
| `Pool.BaseExactly` | src/pool.c:38-57 | the first place is used exactly if it is aligned, else the first aligned one in the second |
| `PoolRun.PermittedIsLegal` | src/pool.c:117-147 | a call with unmapped places at hand is a legal operation, and keeps the partition |
| `PoolRun.Perform` | src/pool.c:117-147 | one call on the ring is one step of the model |
| `PoolRun.Replay` | src/pool.c:84-147 | any run of allocations and frees on a new pool is the run of the model: chunks stay partitioned, leave in the order in which they were put in, and no more pools are mapped than needed |
| `ArenaModel.NoOverlap` | src/arena.c:41-85 | all payloads and all chunk, region, sub-region and slab headers are pairwise disjoint |
| `ArenaModel.ExtentInHome` | src/arena.c:41-85 | each of them lies inside its chunk, which the pool handed out |
| `ArenaModel.PayloadAligned` | src/arena.c:166-168 | payloads are aligned to eight bytes |
| `ArenaModel.TiledOrder` | src/arena.c:121-131 | regions of a log chunk follow each other without overlap |
| `ArenaModel.OpenLogInv` | src/arena.c:41-64 | opening a log chunk keeps the layout and the accounts |
| `ArenaModel.OpenSlabsInv` | src/arena.c:65-70 | opening a slab chunk keeps them |
| `ArenaModel.AppendRegionInv` | src/arena.c:121-156 | appending a region extends the tiling, keeps tail and available size in step, and moves nothing |
| `ArenaModel.CutInv` | src/arena.c:215-228 | cutting a sub-region keeps sub-regions apart and inside their chunk |
| `ArenaModel.AddSlabInv` | src/arena.c:243-258 | a slab that passes the room test lies inside its sub-region |
| `ArenaModel.RegionAllocatedInv` | src/arena.c:135-156 | a region that fits a fresh chunk is new, has its extent, and moves nothing else |
| `ArenaModel.LargeAllocatedInv` | src/arena.c:158-177 | a large request that fits gets a new payload of at least its size and nothing moves |
| `ArenaModel.SmallAllocatedInv` | src/arena.c:267-287 | a small request gets a new payload of its class's size and nothing moves |
| `ArenaModel.DeallocatedInv` | src/arena.c:180-186 | freeing a live region keeps dirtysize the exact sum of the dirty regions |
| `ArenaModel.AllDirtyExactly` | src/arena.c:180-186 | available plus dirty bytes are a whole chunk exactly when every region is dirty |
| `ArenaModel.NothingMoves` | src/arena.c:135-156 | what was in place before an operation is there afterwards, unmoved |
| `ArenaModel.RunInv` | src/arena.c:135-287 | over any interleaving of large and small requests and frees, layout and accounts stay exact |
| `ArenaModel.ForeverApart` | src/arena.c:135-287 | whatever was in place at some moment is disjoint from everything else in place at any later one |
| `ArenaLaws.NeedExactly` | src/arena.c:166-168 | a large request takes its header and is rounded up to the next multiple of eight |
| `ArenaLaws.LargeExactly` | src/arena.c:118-156 | a region goes behind the last one of the newest log chunk exactly if it ends inside the chunk, else it starts a new chunk, the only live one; what else stays as it is |
| `ArenaLaws.SmallExactly` | src/arena.c:202-287 | a slab goes into the current sub-region exactly if it fits, else into a new one in the newest slab chunk exactly if that ends inside it, else into a new slab chunk; where it begins, and what stays as it is |
| `ArenaLaws.SlabsFollow` | src/arena.c:249-257 | a further slab begins one header and one payload behind the newest one |
| `ArenaLaws.ClassSizesAre` | src/slab.c:17-30 | the slab size of each request: 8, then multiples of 16 up to 128, then of 32 |
| `ArenaLaws.DispatchExactly` | include/lsmalloc/internal/arena.h:163-176 | requests below 224 bytes become slabs, the others regions |
| `ArenaLaws.FreedExactly` | src/arena.c:180-186 | freeing marks that one region and adds its size to the chunk's dirty bytes |
| `ArenaLaws.DirtyExactly` | src/arena.c:180-195 | over any run a region is dirty exactly if it was at the start or the run freed it |
| `ArenaPacked.RunPacked` | src/arena.c:135-287 | over any run every sub-region but the current one of its class and every slab chunk but the newest is full, no first region of a log chunk fitted into the one before, and only the newest log chunk is live |
| `ArenaPacked.TwoRegions` | src/arena.c:135-177 | the input of two requests of 1000 bytes in a new arena |
| `ArenaPacked.TwoSlabs` | src/arena.c:202-260 | the input of two requests of 8 bytes |
| `ArenaModel.FitsExactly` | src/arena.c:21-27 | the requests a fresh log chunk can hold, as a bound on the size |
| `ArenaModel.Overruns` | src/arena.c:135-156 | a request above that bound is placed past the end of its chunk |
| `ArenaOverrun.RunGrows` | src/arena.c:135-287 | over any run of admitted requests nothing moves, whether or not chunks are overrun |
| `ArenaOverrun.InChunkExactly` | src/arena.c:21-27 | after such a run everything lies in its chunk exactly if every request was at most `chunksize - 16` bytes |
| `ArenaModel.ClassFrom` | src/slab.c:17-30 | there is a least class for every size up to 224 |
| `Arena.SizeToClass` | src/slab.c:17-30 | the loop finds the least class that holds the size |
| `Arena.Chunk.constructor` | src/arena.c:41-58 | a new chunk's tail, available and dirty size |
| `Arena.Chunk.AppendRegion` | src/arena.c:118-131 | returns the old tail, moves it, and takes the size off the available size modulo 2^64 |
| `Arena.RetireFirst` | src/arena.c:140-143 | the newest log chunk is no longer live |
| `Arena.ChunkAlloc` | src/arena.c:41-58 | a chunk from the pool with its fields set, and which objects are new |
| `Arena.OpenLogChunk` | src/arena.c:41-64 | a new log chunk from the pool becomes the newest |
| `Arena.OpenSlabChunk` | src/arena.c:41-70 | a new slab chunk from the pool becomes the newest |
| `Arena.AppendFirst` | src/arena.c:118-131 | appending to the newest chunk in memory is the step of the model, whether or not there is room |
| `Arena.RegionAlloc` | src/arena.c:135-156 | opens a chunk exactly when the newest one has no room, and appends |
| `Arena.DirtyAt` | src/arena.c:180-186 | marking a region dirty changes no other chunk |
| `Arena.CutFirst` | src/arena.c:219-221 | moves the tail of the newest slab chunk over one sub-region |
| `Arena.CutSRegion` | src/arena.c:205-221 | opens a slab chunk exactly when the newest one has no room for a sub-region |
| `Arena.SmallHardAlloc` | src/arena.c:202-233 | the new sub-region's descriptor, with one slab in it |
| `Arena.AddSlabAt` | src/arena.c:249-257 | one more slab behind the last; the other classes' sub-regions are left alone |
| `Arena.SetCurrent` | src/arena.c:228 | the new sub-region becomes the current one of its class |
| `Arena.LargeStep` | src/arena.c:158-177 | a large request on the lists of the arena |
| `Arena.SmallHardStep` | src/arena.c:202-233 | a small request that needs a new sub-region, on the lists of the arena |
| `Arena.Arena.constructor` | src/arena.c:106-114 | an arena over a pool has no chunks and no current sub-regions, and owns its objects |
| `Arena.Arena.RegionAlloc` | src/arena.c:135-156 | refines appending a region, also of a size that no chunk can hold; whatever object the arena gains is new |
| `Arena.Arena.MallocLarge` | src/arena.c:158-177 | refines the large request of the model, whether or not it fits |
| `Arena.Arena.DallocLarge` | src/arena.c:188-195 | refines freeing a region |
| `Arena.Arena.MallocSmallHard` | src/arena.c:202-233 | refines cutting a sub-region |
| `Arena.Arena.MallocSmallEasy` | src/arena.c:235-260 | refines adding a slab, or cutting a sub-region when the current one is full |
| `Arena.Arena.PlaceSlab` | src/arena.c:249-258 | one more slab in the current sub-region |
| `Arena.Arena.MallocSmall` | src/arena.c:266-287 | refines a small request in the least class that holds it |
| `Arena.Arena.ServeSmall` | src/arena.c:266-287 | a small request in full: a new, aligned, disjoint payload at the returned address |
| `Arena.Arena.ServeLarge` | src/arena.c:158-177 | a large request in full if it fits; otherwise the returned payload runs past its chunk |
| `Arena.Arena.Malloc` | include/lsmalloc/internal/arena.h:163-176 | any admitted request: dispatch by size, both outcomes exactly, and every object the arena gains is new |
| `Arena.Arena.Free` | src/arena.c:188-195 | freeing a live region keeps the arena sound |
| `ArenaRun.Create` | src/arena.c:91-115 | a new arena over its first pool is sound and owns what it is made of |
| `ArenaRun.PermittedIsLegal` | src/arena.c:135-287 | a call with unmapped places at hand is a legal request, and keeps the arena sound |
| `ArenaRun.HeldIsSound` | src/arena.c:135-287 | payloads handed out are apart, aligned and mapped |
| `ArenaRun.Perform` | src/arena.c:135-287 | one call, and all that has been handed out by then, in memory |
| `ArenaRun.Replay` | src/arena.c:91-287 | any run of requests and frees on a new arena is the run of the model and leaves it packed; all it handed out is as large as asked for, apart, aligned and mapped |
| `Bits.OffsetIs` | include/lsmalloc/internal/lsmalloc_internal.h:83-85 | the offset mask is the remainder by a power of two |
| `Bits.CeilingIs` | include/lsmalloc/internal/lsmalloc_internal.h:87-89 | the ceiling mask rounds up, and yields zero exactly when the rounded value is not a size_t |
| `Bits.LowBits` | include/lsmalloc/internal/lsmalloc_internal.h:83-85 | masking with 2^k - 1 keeps the low k bits |
| `Bits.HighBits` | include/lsmalloc/internal/lsmalloc_internal.h:87-89 | masking with the negated power clears them |
| `ChunkMmap.PagesMap` | src/chunk_mmap.c:14-48 | a mapping of the asked size at the system's place, or NULL |
| `ChunkMmap.PagesTrim` | src/chunk_mmap.c:63-80 | what lies before and behind the block is unmapped, and nothing else |
| `ChunkMmap.WrapTestExact` | src/chunk_mmap.c:90-93 | the wrap-around test fires exactly when the sum is not a size_t |
| `ChunkMmap.AlignedBlockFits` | src/chunk_mmap.c:90-100 | the over-sized mapping has room for an aligned block wherever it is placed |
| `ChunkMmap.ChunkAllocMmapSlow` | src/chunk_mmap.c:84-106 | maps exactly an aligned block, or nothing; when it returns NULL |
| `ChunkMmap.ChunkAllocMmap` | src/chunk_mmap.c:108-142 | the same with the optimistic first try |
| `Digits.TextValue` | src/util.c:209-250 | the digits of a number stand for the number |
| `Digits.LeadingDigit` | src/util.c:209-250 | only zero is written with a leading zero |
| `Digits.TextFits` | src/util.c:24 | a number of n bits has at most n digits in any base, so 64 places are enough |
| `Digits.TextFitsHalf` | src/util.c:27-32 | in base four or above half of them are enough, which leaves room for signs and prefixes |
| `DigitsExactly.DigitValExactly` | src/util.c:174-176 | which characters are digits, and their values |
| `DigitsExactly.TextExactly` | src/util.c:209-250 | each place of a number's text holds the numeral of its digit there, in the case asked for |
| `DigitsExactly.TextLengthExactly` | src/util.c:209-250 | there are as many places as the number needs |
| `DigitsExactly.TextCase` | src/util.c:222-241 | the text keeps to its case |
| `NumberText.Fill` | src/util.c:215-245 | the digit loop writes the digits from right to left, and nothing in front of them |
| `NumberText.FillHex` | src/util.c:222-234 | so does the loop that masks and shifts |
| `NumberText.U2s` | src/util.c:209-250 | the number's text and its length in any base and either case |
| `NumberText.D2s` | src/util.c:252-276 | the signed number's text under any sign option |
| `NumberText.O2s` | src/util.c:278-289 | the octal text, with the alternate form of all numbers but zero |
| `NumberText.X2s` | src/util.c:291-302 | the hexadecimal text with its prefix |
| `StrToUmax.SkipSign` | src/util.c:111-127 | white space and one sign are skipped |
| `StrToUmax.Prefix` | src/util.c:129-170 | the prefix settles the base; a lone zero ends the reading |
| `StrToUmax.Convert` | src/util.c:172-187 | reads the longest run of digits, or stops at the first digit that makes the number drop |
| `StrToUmax.StrToUmax` | src/util.c:94-207 | result, end and error of every input, against an independent description |
| `StrToUmax.RangeErrorIsReal` | src/util.c:177-185 | a range error is only reported for values of 2^64 or more |
| `StrToUmax.SmallIsSteady` | src/util.c:172-187 | a value below 2^64 never triggers the overflow test and is read exactly |
| `StrToUmaxStandard.PromiseKeptExactly` | src/util.c:94-207 | reading is the standard's exactly if there are digits, they stand for less than 2^64, and a lone zero is not followed by a digit of the base |
| `StrToUmaxStandard.BaseZeroKept` | src/util.c:129-170 | in base zero the lone zero never breaks the promise |
| `StrToUmaxStandard.OverflowMissed` | src/util.c:177-185 | an input whose overflow is not reported |
| `StrToUmaxStandard.OverflowStopsShort` | src/util.c:177-185 | an input whose overflow is reported, and which is not read to its end |
| `StrToUmaxStandard.LoneZeroStops` | src/util.c:163-167 | an input whose digits are not all read |
| `StrToUmaxStandard.NothingRead` | src/util.c:191-196 | without digits the result is not the standard's zero |
| `StrToUmax.ReadingIs` | src/util.c:94-207 | the outcome of reading is determined by the input |
| `StrToUmaxExactly.StartExactly` | src/util.c:111-127 | the number begins behind the white space in front and one sign |
| `StrToUmaxExactly.PrefixExactly` | src/util.c:137-162 | which characters are a hexadecimal prefix, and which base a prefix settles |
| `StrToUmaxExactly.RunExactly` | src/util.c:174-176 | a run ends at the first character that is no digit of the base |
| `StrToUmaxExactly.NegExactly` | src/util.c:188-189 | negation modulo 2^64 |
| `StrToUmaxExactly.ReadExactly` | src/util.c:94-207 | result, end and error of every input, from its characters and the standard's value |
| `StrToUmax.UnsignedRoundTrip` | src/util.c:209-250 | every number printed in any base and case reads back in that base, to the end |
| `StrToUmax.OctalRoundTrip` | src/util.c:278-289 | the alternate octal form reads back in base zero |
| `StrToUmax.HexRoundTrip` | src/util.c:291-302 | the alternate hexadecimal form reads back in base zero |
| `StrToUmax.DecimalRoundTrip` | src/util.c:252-276 | a signed number reads back modulo 2^64 under every sign option |
| `Printf.AppendC` | src/util.c:311-315 | a character is counted, and stored if it fits |
| `Printf.AppendS` | src/util.c:316-322 | so is a string |
| `Printf.AppendPadded` | src/util.c:323-340 | and a padded string |
| `Printf.ParseFlags` | src/util.c:398-420 | the longest run of flags; a repeated flag is a failed assertion |
| `Printf.ParseNumber` | src/util.c:421-466 | a width or precision from the arguments or from digits |
| `PrintfModel.LengthIsLongest` | src/util.c:467-483 | the length modifier is the longest that the format spells there |
| `Printf.ConvertDecimal` | src/util.c:493-520 | the text of a decimal conversion, or that the argument does not have its type |
| `Printf.ConvertHex` | src/util.c:521-558 | the text of a hexadecimal or a pointer |
| `Printf.ConvertNumber` | src/util.c:493-529 | the text of any numeric conversion |
| `Printf.ConvertText` | src/util.c:530-549 | the text of a character or string conversion |
| `Printf.DirectiveAt` | src/util.c:388-561 | one directive appends its text, or fails exactly when the model does |
| `Printf.Finish` | src/util.c:568-574 | the terminator stands behind what fits |
| `Printf.VSnprintf` | src/util.c:304-580 | the returned length is that of the unlimited output; the buffer holds its first min(size - 1, length) characters and a terminator; nothing is written outside |
| `PrintfStandard.WidthIsMinimum` | src/util.c:323-340 | a width is a minimum and pads on one side; -1 is no width, and other negative ones are huge |
| `PrintfStandard.PlainFormat` | src/util.c:562-566 | a format without directives prints itself |
| `PrintfStandard.DecimalStandardExactly` | src/util.c:493-502 | exactly when a signed decimal filled up to one width is the standard's field of another width, with a precision and a zero flag |
| `PrintfStandard.UnsignedStandardExactly` | src/util.c:512-520 | the same for an unsigned decimal |
| `PrintfStandard.OctalStandardExactly` | src/util.c:503-511 | the same for an octal |
| `PrintfStandard.HexStandardExactly` | src/util.c:521-529 | the same for a hexadecimal |
| `PrintfStandard.StringFieldExactly` | src/util.c:542-549 | exactly when two parts of a string fill the same field, also when filling hides the difference |
| `PrintfStandard.StringFaultsExactly` | src/util.c:542-549 | a precision is a fault exactly if it is above the string's length, and else leaves the standard's part |
| `PrintfExactly.DirectiveRead` | src/util.c:388-483 | a directive that is carried out has the flags, the end and the arguments that the standard reads; width and precision are those of the format as an int |
| `PrintfExactly.ReadWidthExactly` | src/util.c:432-440 | which widths survive the conversion to int and back |
| `PrintfExactly.ConversionExactly` | src/util.c:485-558 | exactly when one argument's field is the standard's, for every conversion |
| `PrintfExactly.DirectiveExactly` | src/util.c:388-560 | a directive's text is the standard's exactly under a condition on the format and the argument |
| `PrintfExactly.RenderAsAsked` | src/util.c:384-567 | a format whose directives all meet that condition prints what the standard asks for |
| `PrintfExactly.BarePeriodString` | src/util.c:444-466 | the input `%.s` |
| `PrintfExactly.BarePeriodZero` | src/util.c:444-466 | the input `%.d` of 0 |
| `PrintfExactly.BarePeriodCancelsZero` | src/util.c:432-466 | the input `%05.d` of 5, which is as asked |
| `PrintfExactly.PrecisionWraps` | src/util.c:455-463 | the input `%.4294967296s`, of which the program prints nothing |
| `PrintfAccepts.AcceptedExactly` | src/util.c:388-560 | the directives that some arguments carry out, by their form alone |
| `PrintfAccepts.ZeroFlagExactly` | src/util.c:421-443 | exactly which directives with a zero flag are among them |
| `PrintfAccepts.ZeroFlagIsWidth` | src/util.c:432-440 | a zero flag that does not fail is a digit of the width and nothing else |
| `PrintfAccepts.ZeroFlagPads` | src/util.c:432-440 | the input `%05d` with 3: four blanks and a 3, where the standard has zeros |
| `PrintfPrinted.CarriedExactly` | src/util.c:388-560 | exactly which directives are carried out with which arguments |
| `PrintfPrinted.PrintedExactly` | src/util.c:484-560 | the text, the end and the argument of every directive that is carried out, also where the standard asks for none |
| `PrintfPrinted.HexadecimalExactly` | src/util.c:521-558 | the digits and the prefix of a hexadecimal and of a pointer, in their case |
| `PrintfPrinted.ToIntExactly` | src/util.c:574-580 | the returned length is the int that is congruent to it modulo 2^32 |
| `BalanceModel.ChosenIsLeastLoaded` | src/lsmalloc.c:79-113 | the chosen slot has the least load, an empty slot counting as zero |
| `BalanceModel.ChosenIsUnique` | src/lsmalloc.c:79-113 | the choice is determined |
| `BalanceModel.ChosenExists` | src/lsmalloc.c:79-113 | there is always a slot to choose |
| `BalanceModel.ChosenExactly` | src/lsmalloc.c:79-113 | the chosen slot has the least load, holds an arena exactly if one is idle or no slot is empty, and is the first such |
| `BalanceModel.AssignInv` | src/lsmalloc.c:109-126 | an assignment keeps the loads exact, at most their share of the peak, and no more arenas than threads |
| `BalanceModel.ExitInv` | src/lsmalloc.c:143-151 | so does an exit |
| `BalanceModel.RunInv` | src/lsmalloc.c:74-151 | over any run: the loads sum to the live threads, none exceeds ceil(peak / N), and at most max(1, peak) arenas are initialized |
| `BalanceModel.LiveCanExit` | src/lsmalloc.c:143-151 | a live thread's arena has a count above zero |
| `BalanceModel.BootedInv` | src/lsmalloc.c:209-247 | the invariant holds after booting with one arena |
| `Balance.Balancer.Scan` | src/lsmalloc.c:82-103 | the scan finds the first least loaded arena and the first empty slot |
| `Balance.Balancer.ArenasExtend` | src/lsmalloc.c:47-57 | a new arena without threads fills the slot |
| `Balance.Balancer.ChooseArenaHard` | src/lsmalloc.c:73-132 | the new thread goes to the chosen slot, only that slot changes, and an arena that is created is new |
| `Balance.Balancer.ArenasCleanup` | src/lsmalloc.c:142-151 | an exit takes one thread off its arena |
| `Balance.Replay` | src/lsmalloc.c:73-151 | any run of arrivals and exits on a new array of arenas is a run of the model, and keeps the balance |

## Left out

- Arena.Arena: the chunk lists and a chunk's regions are sequences held in fields rather than the intrusive rings, which `Ring` and `List` model; list order is kept, the links of the elements are not.
- PackedLink: the tree itself reads colour and right pointer as two fields; the packed word is a separate refinement.
- Printf.VSnprintf: the running length is unbounded, so outputs of 2^64 characters or more are not modelled; arguments have the type their conversion asks for; a precision past the end of its string is a fault even where the buffer is too full for those bytes to be read.
- Balance.Balancer: a thread count is unbounded, and a failing arena initialization, which aborts the process, is not modelled.
- The back pointers stored in persistent headers, and the fields of a region that only they lead to (`ptr`, `threadid`); of a header only its extent is modelled.
- Slab attributes and the freeing of slabs: one byte per slab header that nothing reads back.
- The garbage collector src/gc.c: never scheduled, because the pool's used percentage is an integer quotient of used over total.
- `lsfree` and the write hooks: they cast a persistent chunk base to the wrong header; freeing is modelled on a live region directly.
- `huge_malloc` and `huge_dalloc` beyond their tree, the pool's list of files and `pmempool_destroy`: file mapping and unmapping.
- Failing file mappings in src/pool.c, which end the process.
- Mutexes, thread-specific data, the thread pool, atomics and errno plumbing: an operation under a lock is one step.
- src/base.c, src/chunk.c and `pow2_ceil`: small and independent of the properties above.
- `malloc_write`, `buferror` and the `malloc_printf` wrappers: output.
