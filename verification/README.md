# The machinery under a compiler, modelled and proved

This project models the hand-written machinery under the Cordell Compiler: its heap allocator, its hash map and sets,
its stack-slot allocator, the CRC-64 it uses for keys, the depth-first walk over control-flow graphs, the layout of
containers with the static initialisers that rely on it, and the token pass that applies modifiers. Each part is given
in the form of its code, objects with fields that change and loops with invariants, next to functions on values that say
what it means; the theorems are about those values and about whole runs.

**Heap** (`HeapState`, `FreeLists`, `BlockChain`, `HeapAccounting`, `HeapBytes`, `HeapSteps`, `StalePointers`,
`HeapSnapshots`, `Heap`, `HeapRuns`, `HeapHistories`). An address-ordered chain of blocks that tiles one buffer, and 32
lists that hold exactly the free blocks. Headers live in the buffer, byte by byte: the object keeps the headers of the
chain as its pointers read them, and an invariant says that each of them is what the bytes hold. Stores go field by
field and leave the padding alone. `free` and `realloc` decide by the magic and the free bit in the bytes in front of
the pointer, as the code does. A pointer that was freed is refused until the memory around it is handed out again
(`HeapHistories.StaysRefused`); an allocation then makes it pass the test again exactly if the next header comes to lie
8 or 16 bytes behind its own (`HeapHistories.PassesWhen`, `HeapHistories.StalePointerPasses`). A run is driven by a
program, a function from the requests and answers so far to the next request; `HeapRuns.Serve` demands that in the runs
from this heap it writes what it owns, and frees and resizes what it owns or what the test refuses. A size within 7
bytes of 2^64 wraps around to 0 when it is rounded; it is the one way to get a block without a byte
(`HeapHistories.StaysAmple`).

**Map and set** (`Words`, `ProbeTable`, `MapHash`, `Compression`, `HashMap`, `IntSet`, `MapRuns`). Linear probing with
deletion by re-insertion, the order-independent hash, and the permutation into a table indexed by key. The hash of keys
is any function to naturals. Words are naturals with bit operations defined on them.

**Stack slots** (`StackMap`, `StackRuns`). First fit over packed words, with growth, and runs of a program as above.

**CRC-64** (`Crc64`, `CrcKeys`). The table against bit-serial division, and what follows for short keys.

**Walk** (`CfgWalk`, `CfgReach`, `CfgRuns`). The explicit stack against the recursion it stands for, the lazy reset of
marks, the copied state. The logic of the caller is any function of block, predecessor, state and a context that is
threaded through the calls. The two walk macros differ only in the state copied into each frame; the plain walk is the
other one with a state of size zero. The set of visited predecessors is a set value, as `IntSet` proves its operations
to be.

**Types** (`TypeTable`, `TypeSlots`, `TypeFind`, `TypeLimits`, `TypeMembers`, `TypeContainers`, `TypeRuns`,
`TypeCopies`, `TypeBodies`, `TypeSizes`, `TypeElements`, `TypeNames`, `TypeInherit`, `TypeFamilies`, `TypeDefinitions`,
`TypeDesigners`, `TypeTab`, `Initializer`). Sizes, offsets by name and the recursive slot search describe the same
memory, the initialiser fills it, and virtual methods are numbered without gaps, also through inheritance and
overriding. Inherited methods are copies, and a copy is shared by all who inherit the method; with one base for each
container that is harmless (`TypeTab.TypeTab.DefineAll`), with two an override can change an index elsewhere
(`TypeContainers.OverrideElsewhere`). Fields are copies of their types too: a new one has the size the type has at that
moment, an old one keeps the size it had (`TypeSizes.VariableGrows`). A definition whose name is known is refused, and
the code goes on without a container: it makes the copies, and none of them is added anywhere. `ALIGN` is modelled on
two's complement integers.

**List and modifiers** (`LinkedList`, `Markup`). A doubly linked list on the heap, and a pass that removes nodes from it
while it walks.

Where code and comments disagree the model follows the code. `set_subset` (include/std/set.h:23-31) is announced as the
subset test; it is true only for proper subsets. `stack_map_free` refuses an interval that ends at the current size of
the map. The offset of a field by name in a container laid out as in C begins again at 0 behind a field of size 0
(`TypeNames.FoundAtZero`), which the search for slots leaves out. `_apply_modifiers` (src/prep/markup.c:152-161) is
announced to apply modifiers to the token behind them; the last token of the list is never touched, so modifiers in
front of it are lost (`Markup.LostWhen`). Refusing a double free (tests/std_utesting/mm/mm_test_alloc.c:29) is what
`mm_base_free` does until the memory is handed out again, not for ever. `Common` holds what several parts share.

## Model

| member | source | states |
|---|---|---|
| HeapState.AlignUpRounds | std/mm.c:17-19 | rounding a size up to a multiple of 8 loses bytes exactly when adding 7 wraps around 64 bits, and then it loses all of them |
| HeapState.ClassesMonotone | std/mm.c:21-31 | the list number of a size never decreases with the size, so lists below a request's class hold nothing that fits |
| HeapState.ClassIsListOf | std/mm.c:21-31 | which sizes a list holds: list 0 those up to 8 bytes, one list more for every doubling, and 31 the rest |
| HeapState.ListEnds | std/mm.c:21-31 | 8 * 2^k bytes are in list k, and one byte more in list k + 1, up to list 31 |
| HeapState.SameListFactor | std/mm.c:21-31 | two sizes of one list, but the first and the last, differ by less than a factor of two |
| Heap.Allocator.FreeListIndex | std/mm.c:21-31 | the loop finds the one list a size belongs to |
| FreeLists.UnlinkKeepsLists | std/mm.c:33-49 | taking a block off its list by its neighbours' pointers leaves 32 well linked lists that hold exactly the other listed blocks |
| FreeLists.PushKeepsLists | std/mm.c:51-63 | pushing a block in front of the list its size selects leaves 32 well linked lists that hold exactly one block more |
| Heap.Allocator.RemoveFreeBlock | std/mm.c:33-49 | the same for the stores into memory: only header bytes change, and the block leaves the listed set |
| Heap.Allocator.InsertFreeBlock | std/mm.c:51-63 | the same for insertion, with the free bit set |
| BlockChain.SplitTiles | std/mm.c:76-99 | after a split the blocks still tile the buffer: each begins where the one before ends, sizes are multiples of 8, prev mirrors next |
| BlockChain.MergeTiles | std/mm.c:65-74 | after a merge the blocks still tile the buffer |
| BlockChain.SplitIsSplit | std/mm.c:81-96 | what the stores of a split change block by block; the new header overlaps none that is there |
| BlockChain.SplitCoalesced | std/mm.c:81-98 | splitting a used block leaves no two free neighbours if and only if there were none before and the block after it is not free |
| BlockChain.MergeCoalesced | std/mm.c:65-74 | a merge does not create free neighbours elsewhere |
| BlockChain.TrimLeavesTwoFree | std/mm.c:193-197 | a concrete heap in which the shrinking path of realloc leaves two free neighbours |
| BlockChain.CoalescedAt | std/mm.c:242-251 | one look at each side of a block decides whether it touches a free one |
| HeapSteps.SplitSound | std/mm.c:76-99 | a split of an unlisted block keeps chain and lists together: the new block is in the chain and on no list yet |
| HeapSteps.MergeSound | std/mm.c:65-74 | a merge of unlisted blocks keeps chain and lists together |
| HeapAccounting.WholeBuffer | std/mm.c:121-141 | walking next from the first block meets every block, and headers plus payloads sum to the buffer size |
| HeapAccounting.UsedBytes | std/mm.c:161 | the sum over the used blocks of the walk is the accounting figure |
| HeapAccounting.PayloadsDisjoint | std/mm.c:143-164 | a payload byte lies in no header and in no other block |
| HeapAccounting.EmptyHeapIsWhole | std/mm.c:224-261 | in a heap without free neighbours, nothing is live exactly when one free block covers the buffer |
| HeapBytes.WordStored | std/mm.c:33-63 | storing one word of a header in the bytes changes this field and nothing else |
| HeapBytes.FieldsStored | std/mm.c:83-89 | the field stores of a new header, whatever bytes were there, make its bytes those of the header |
| HeapBytes.ImageReplaced | std/mm.c:65-96 | one header stored, apart from all others, leaves every header of the chain in the bytes |
| HeapBytes.MagicStays | std/mm.c:65-74 | stores to fields leave the magic of every header in place, also when its block is merged away |
| HeapBytes.ChainDecides | std/mm.c:232-235 | for a block of the chain the magic and the bit that free reads say just whether it is in use |
| HeapBytes.BytesAreHeader | include/std/mm.h:19-27 | the bytes of a header decide size, free bit and all four links, for a buffer that does not lie at address 0 |
| HeapBytes.MagicIsNumber | include/std/mm.h:17 | the magic is the number 0xC07DE, its lowest byte first |
| StalePointers.ShelteredIsRefused | std/mm.c:232-235 | a place whose bytes read as the header of a free block, at or inside a free block, fails the test and is no live block |
| StalePointers.StoresGuard | std/mm.c:33-99 | header stores of any step after which every free block but one is still covered by a free block keep all those places so |
| StalePointers.PayloadStoresGuard | std/mm.c:237-240 | filling or writing a live payload keeps all of them, and a block that is marked free becomes one |
| StalePointers.OverlappedPasses | std/mm.c:81-96 | the header of a free block stored over a stale one makes the test pass at the old place if and only if the old magic was there and the new header begins 8 or 16 bytes behind it |
| StalePointers.HandingOutAwakens | std/mm.c:143-164 | when a free block is handed out, the test passes at a stale place in its payload if and only if the block that is cut off begins 8 or 16 bytes behind it |
| Heap.Allocator.constructor | std/mm.c:121-141 | a valid heap with nothing live and one free block |
| Heap.Allocator.MergeWithNext | std/mm.c:65-74 | the header stores of a merge |
| Heap.Allocator.SplitBlock | std/mm.c:76-99 | splits exactly when the rest can hold a header and 8 bytes, lists the rest, and touches header bytes only |
| HeapSteps.NoRoom | std/mm.c:101-112 | when no list yields a block, no listed block is large enough |
| HeapSteps.FirstFitUnique | std/mm.c:101-112 | lists and sizes decide which block the search yields |
| HeapSteps.FirstFitIsGood | std/mm.c:101-112 | for every k below 31: if some free block that fits has at most 8 * 2^k bytes, so has the block the search yields |
| HeapSteps.GoodFitFactor | std/mm.c:101-112 | the block the search yields is less than twice as large as any free block that fits and has at most 8 * 2^30 bytes |
| Heap.Allocator.FindFreeBlock | std/mm.c:101-112 | the first block that fits, in the lowest list that has one; NULL only if no listed block fits |
| Heap.Allocator.Malloc | std/mm.c:143-164 | for every size_t: fails exactly for size 0 or when no free block has room for the rounded size, and then changes nothing; otherwise the first fit becomes live with exactly the rounded size or all it had, the rest is a block if it can be one, only header bytes and no live payload change; only the block handed out can be left empty, and only the memory it comes from can make a stale pointer pass |
| Heap.Allocator.Fill | std/mem.c:24-37 | memset by words and rest bytes fills exactly the range |
| Heap.Allocator.Copy | std/mem.c:3-15 | memcpy by words and rest bytes copies exactly the range |
| Heap.Allocator.Coalesce | std/mm.c:242-251 | one merge per side: nothing live changes, and free neighbours are gone if the freed block was the only place to have them |
| HeapSteps.FreedIsLoose | std/mm.c:240-251 | freeing a block of a heap without free neighbours can only make it touch free blocks itself |
| Heap.Allocator.TestOfChain | std/mm.c:114-118 | the test of free and realloc accepts every live pointer, and neither NULL, nor an address outside the buffer, nor the payload of a free block |
| Heap.Allocator.Free | std/mm.c:224-261 | accepted exactly if the bytes in front of the pointer pass the test, which for a pointer that does not mislead it is the case exactly if it is live; then the payload is filled and no longer live, this pointer and every one that was sheltered before are refused, and other payloads are untouched |
| Heap.Allocator.FreeBlock | std/mm.c:237-253 | the body of free for a live block |
| Heap.Allocator.ShrinkBlock | std/mm.c:193-197 | shrinking in place keeps the bytes, and keeps free neighbours apart if and only if nothing was cut off or the next block is used |
| Heap.Allocator.GrowBlock | std/mm.c:199-209 | absorbing the next block keeps the bytes and the accounting |
| Heap.Allocator.MoveBlock | std/mm.c:211-218 | moving keeps the first old-size bytes; fails exactly when no free block has room, and then changes nothing |
| Heap.Allocator.Realloc | std/mm.c:170-222 | all paths, for every size_t and every pointer that does not mislead the test: when it fails, when the pointer stays, which block and how many bytes of it are answered, which first bytes are kept, what is live afterwards, that no other payload changes, exactly when free neighbours can appear or an empty block is left, and what memory is used up |
| HeapRuns.Serve | std/mm.c:121-268 | any program that frees and resizes what it owns or what the test refuses and writes what it owns, in all runs from this heap in which each request is answered as by first fit and does to live blocks, payloads, stale places and chain what a request may do: every request is served so, the chain tiles the buffer and the lists hold exactly the free blocks after each, and the counter is the sum over the used blocks of the walk |
| HeapRuns.Determined | std/mm.c:143-261 | the heap before a request determines its answer and everything that is live after it, with addresses and sizes |
| HeapRuns.TakesGoodFit | std/mm.c:143-261 | in a run, the block a malloc or a moving realloc takes has at most 8 * 2^k bytes if some free block that fits has |
| HeapRuns.StarvesWhen | std/mm.c:143-164 | an allocation leaves a block without a byte if and only if its size wraps around and the first fit can be split |
| HeapHistories.StaysSparse | std/mm.c:193-261 | over a whole run no two neighbours are free, unless a realloc trimmed a live block in place |
| HeapHistories.StaysAmple | std/mm.c:76-99 | over a whole run every block has at least 8 bytes, unless a request for nearly the whole address space was given a block that can be split |
| HeapHistories.PayloadStays | std/mm.c:143-261 | over a whole run a live payload that no request concerns keeps its place, its size and every byte |
| HeapHistories.LiveIsReplay | std/mm.c:143-261 | what is live at any moment of a run is what requests and answers say |
| HeapHistories.StaysRefused | std/mm.c:224-261 | over a whole run a pointer that was freed, or given up by a realloc, is refused until the free block around it is used up; frees and writes use up none |
| HeapHistories.PassesWhen | std/mm.c:76-99 | and if an allocation uses that block up, the pointer passes the test again if and only if the block that is cut off begins 8 or 16 bytes behind the place of its header |
| HeapHistories.TakeTwoIsProper | std/mm.c:143-261 | a client that takes two blocks, frees the first and then frees the second for ever never misleads the test |
| HeapHistories.HugeRequestEmpties | std/mm.c:17-19 | a fresh heap on which the largest size is answered with a block of no byte |
| HeapHistories.StalePointerPasses | std/mm.c:232-235 | five requests after which a pointer that was freed before passes the test again: the double free is not refused |
| ProbeTable.ProbeDecides | std/map.c:145-155 | with every key reachable, probing ends at a used slot exactly when the key is bound, and there at its value |
| ProbeTable.StoreMeaning | std/map.c:116-129 | storing where the probe ended updates exactly that key |
| ProbeTable.StoreReachable | std/map.c:114-132 | storing a new key opens no hole on any probe path |
| ProbeTable.ClearMeaning | std/map.c:181-183 | clearing a slot removes exactly its key |
| ProbeTable.StartRepair | std/map.c:181-186 | after a deletion only entries of the trailing cluster can be unreachable |
| ProbeTable.ReinsertSlot | std/map.c:187-194 | a re-inserted entry lands between the gap and where it was, never beyond |
| ProbeTable.RepairStep | std/map.c:186-196 | one round of the deletion loop shrinks the part of the cluster that waits |
| ProbeTable.RepairDone | std/map.c:186-198 | when the loop ends every key is reachable again |
| ProbeTable.CountIsSize | std/map.c:116-121 | the number of used slots is the number of bindings |
| HashMap.OverloadedWhen | std/map.c:110-112 | the floating-point load test, over the reals, is the integer test size over half of the capacity |
| HashMap.Map.constructor | std/map.c:3-14 | an empty map of the initial capacity |
| HashMap.Map.Copy | std/map.c:16-29 | an equal map with entries of its own |
| HashMap.Map.UpdateHash | std/map.c:59-72 | the stored hash becomes the fold of keys, values and size |
| HashMap.Map.Probe | std/map.c:114-132 | the probing loop ends, at the key or at the first unused slot |
| HashMap.Map.Put | std/map.c:98-133 | updates exactly one binding, in direct mode only for keys in range; doubles the capacity exactly above half load; also under the weaker contract that holds while a deletion is being repaired |
| HashMap.Map.Get | std/map.c:135-156 | finds a key exactly when it is bound, with its value |
| HashMap.Map.Remove | std/map.c:158-200 | removes exactly one binding, never resizes, and restores reachability |
| HashMap.Map.Repair | std/map.c:185-196 | the re-insertion loop ends and keeps the bindings |
| HashMap.Map.Reinsert | std/map.c:187-195 | one re-insertion through put keeps the bindings and cannot trigger a resize |
| HashMap.Map.RemoveDirect | std/map.c:161-169 | removal in direct mode |
| HashMap.Map.Resize | std/map.c:74-96 | rehashing into a larger table keeps the bindings and leaves no hole |
| MapRuns.Run | std/map.c:98-280 | every sequence of put, get, remove and compress answers as a finite map with a capacity and a mode does; after compression, as one over the keys up to the largest |
| MapRuns.AnswersLast | std/map.c:98-200 | a get answers the value of the last put of its key that was not refused, and nothing once the key was removed |
| MapHash.FoldIsContents | std/map.c:59-72 | the stored fold depends on the bindings alone, not on capacity, order or removals |
| MapHash.SelfValuedFold | std/set.c:33-35 | when every key is its own value the fold cancels out |
| HashMap.HashOfContents | std/map.c:59-72 | stored hash and size are functions of the bindings |
| HashMap.Includes | std/map.c:233-241 | the loop decides inclusion of one map in the other |
| HashMap.Equals | std/map.c:225-242 | with hashes kept on both sides it is exactly equality of the bindings |
| Compression.SwapHome | std/map.c:261-268 | each swap keeps the bindings and leaves fewer entries out of place |
| Compression.Truncate | std/map.c:271-275 | cutting off unused slots loses no binding |
| HashMap.Map.Permute | std/map.c:261-269 | the swapping loop ends with every key in the slot of its number |
| HashMap.Map.Compress | std/map.c:244-280 | for keys that index the table: ends, keeps the bindings, and makes the table direct, no longer than the largest key needs |
| IntSet.IterNext | std/map.c:210-219 | an iterator yields the used slots in order, each once |
| IntSet.Set.Add | std/set.c:33-35 | adds the element; answers whether it was new |
| IntSet.Set.Remove | std/set.c:37-39 | removes the element; answers whether it was there |
| IntSet.MinusSet | std/set.c:49-55 | set difference in place |
| IntSet.Union | std/set.c:75-84 | a fresh set with the elements of both |
| IntSet.Intersect | std/set.c:61-69 | adds the common elements to the destination |
| IntSet.Subset | std/set.c:23-31 | true exactly when b is a proper subset of a |
| IntSet.Equal | std/set.c:71-73 | equality of the elements, although the stored hashes of equally large sets agree |
| IntSet.Set.HashIsSize | std/set.c:33-35 | the stored hash of a comparable set is just its size |
| StackMap.SetCell | std/stackmap.c:7-9 | setting a bit of a packed word takes exactly one cell |
| StackMap.ClearCell | std/stackmap.c:11-13 | clearing a bit of a packed word gives back exactly one cell |
| StackMap.GrowWords | std/stackmap.c:59-68 | appended zero words take no cell |
| StackMap.Map.Init | std/stackmap.c:15-26 | an empty map with its marks at the base; refused for a negative base |
| StackMap.Map.Search | std/stackmap.c:34-54 | the search with its jumps over taken cells finds the lowest fit, or there is none |
| StackMap.Map.Grow | std/stackmap.c:57-70 | growth takes no cell, since bits beyond the size were clear |
| StackMap.Map.Alloc | std/stackmap.c:32-79 | takes the lowest fitting interval at or above the base, else one at the old size; keeps every set bit below size and last offset |
| StackMap.Map.Locate | std/stackmap.c:89-129 | which of the two candidate intervals is freed |
| StackMap.Map.Free | std/stackmap.c:81-144 | clears exactly that interval, or refuses |
| StackMap.Map.SetBase | std/stackmap.c:146-163 | moves the base and raises the marks to it |
| StackRuns.CoversAlloc | std/stackmap.c:32-54 | an allocated interval is disjoint from all live ones |
| StackRuns.LiveFree | std/stackmap.c:81-129 | freeing a live interval by its end clears exactly it if and only if it starts at or above the base and ends below the size |
| StackRuns.LiveFreeByStart | std/stackmap.c:81-129 | freeing a live interval by its start clears exactly it if and only if it starts at or above the base, ends within the size, and the cells of the interval that ends at its start are not all taken at or above the base; in that last case these are cleared |
| StackRuns.FullMapIsRefused | std/stackmap.c:81-87 | a concrete interval that ends at the size and is refused |
| StackRuns.BelowBase | std/stackmap.c:89-129 | what freeing a live interval below the base clears: the cells behind it, if they are taken and at or above the base, and nothing else |
| StackRuns.RebasedFreeHitsOther | std/stackmap.c:89-129 | a concrete free that clears another live interval after the base was moved |
| StackRuns.Serve | std/stackmap.c:32-163 | any program of allocations, base moves and frees that, in the runs this map gives it, frees by the end or by the start what it was given: every answer and every new state is the one the calls promise, and the taken cells are exactly the replay of the answers, pairwise disjoint |
| StackRuns.AlwaysCovers | std/stackmap.c:32-163 | that is so at every moment of the run |
| StackRuns.PeakIsHighest | std/stackmap.c:32-163 | last_offset is the highest end ever handed out or base ever set, however much was freed since |
| StackRuns.InTurnIsProper | std/stackmap.c:32-144 | a client that allocates and frees in turn never frees what it does not have |
| Crc64.EntryIsEightSteps | std/hash.c:3-68 | each of the 256 table entries is what eight zero bits make of its index |
| Crc64.StepsLinear | std/hash.c:70-78 | the register is linear: any number of zeros shifted into a sum is shifted into both terms |
| Crc64.FeedAtOnce | std/hash.c:70-78 | feeding bits one by one is the same as adding them at the top and shifting in zeros |
| Crc64.ByteStep | std/hash.c:72-75 | one round of the loop divides in the eight bits of one byte |
| Crc64.DivisionComposes | std/hash.c:70-78 | a message in two parts is divided part by part |
| Crc64.Crc | std/hash.c:70-78 | the table-driven loop is bit-serial division by the ECMA-182 generator, for every buffer and start value |
| CrcKeys.EqualLengthsDiffer | std/hash.c:70-78 | two messages of one length up to eight bytes have the same checksum only if they are equal |
| CrcKeys.ShortWordsHaveOwnKeys | src/prep/markup.c:119-137 | words of at most eight characters, of whatever lengths, never share a key of the word table |
| CfgWalk.Block.Enter | include/hir/cfg.h:188-194 | marks of an older walk are dropped lazily; answers whether the predecessor is new, and marks it |
| CfgWalk.PushSuccessors | include/hir/cfg.h:205-210 | pushes one frame per non-null successor |
| CfgWalk.DropServed | include/hir/cfg.h:192 | dropping a served frame loses no pending visit |
| CfgWalk.VisitTop | include/hir/cfg.h:193-210 | a call covers its pair and puts all its successors under way |
| CfgWalk.UnwindFrames | include/hir/cfg.h:253-290 | the frames pushed for some blocks are done before those below them, from the last to the first, each with everything below it |
| CfgWalk.WalkState | include/hir/cfg.h:238-290 | ends on every finite graph; each pair is called at most once, from the start or a continued call with the state that call left; marks are the old ones and the called pairs; 1 exactly without a stop, and then nothing is pending; calls, marks, context and result are those of the recursion that serves every block with everything below it before the next |
| CfgRuns.Walk | include/hir/cfg.h:170-215 | the same for the walk without state |
| CfgRuns.WalkFresh | include/hir/cfg.h:221-222 | with a fresh counter, whatever older walks left: the called pairs are the least set that holds the start and the successors of continued calls |
| CfgReach.CalledOnce | include/hir/cfg.h:192-194 | no pair is called twice, nor after an earlier walk with the same counter |
| CfgReach.CallsAreLeast | include/hir/cfg.h:170-215 | an unstopped fresh walk calls exactly the least complete set of pairs |
| CfgReach.RouteIsCalled | include/hir/cfg.h:170-215 | every route along continued pairs is walked to its end |
| CfgReach.CallHasRoute | include/hir/cfg.h:170-215 | nothing is called that no such route leads to |
| CfgReach.PathBehind | include/hir/cfg.h:238-290 | the state handed to a call was carried along one path of continued calls |
| CfgReach.StateIsFold | include/hir/cfg.h:129-153 | that state is the fold of the updates along the path: siblings do not see each other's |
| CfgRuns.Counter.Next | src/hir/cfg/cfg.c:4-8 | a counter above all handed out before |
| CfgRuns.WalkExits | src/hir/loop/dle.c:41-47 | walks from several heads with one counter call, taken together, the least set from all of them, each pair once |
| TypeTable.AlignRoundsUp | include/std/math.h:4 | for a power of two the mask rounds up to the next multiple |
| TypeTable.Table.ExtentIsOffset | src/symtab/typetb.c:228-243 | the recalculated size of a struct is the offset behind its last field |
| TypeTable.Table.OffsetsGrow | src/symtab/typetb.c:682-718 | running offsets leave room for every field between them |
| TypeSizes.StructRooms | src/symtab/typetb.c:228-243 | a struct has for each field its size rounded up to the alignment, for every other child nothing, and ends where the last one does |
| TypeSizes.UnionSize | src/symtab/typetb.c:228-243 | a union without the word of its vtable is at least as large as every field, and is one of them rounded up to the alignment, or empty |
| TypeSizes.FieldGrows | src/symtab/typetb.c:595-639 | a child that is no method, added under a new name, makes a struct grow by its size rounded up to the alignment, by its size alone without one, and by nothing if it has no size |
| TypeFind.ResolveParent | src/symtab/typetb.c:515-522 | the chain of copies ends, at its root |
| TypeFind.VtableSlotCount | src/symtab/typetb.c:203-222 | one more than the highest index among the virtual methods |
| TypeFind.FindTypeInitSlot | src/symtab/typetb.c:720-778 | the recursive search with its shared counter is an index into the list of leaf slots; beyond it nothing is found and the counter has passed them all |
| TypeFind.FindInArray | src/symtab/typetb.c:737-752 | the branch for arrays |
| TypeFind.FindInContainer | src/symtab/typetb.c:754-777 | the branch for containers |
| TypeSlots.SlotsTile | src/symtab/typetb.c:720-778 | for acyclic struct-style types with current sizes, slots 0, 1, 2, ... are strictly increasing, disjoint and inside the type |
| TypeSlots.LeavesOfField | src/symtab/typetb.c:766-775 | the leaves of a field stand together, at the offset of the layout |
| TypeElements.SlotsMove | src/symtab/typetb.c:720-778 | wherever a type lies it has the same slots, moved by the difference |
| TypeElements.SlotsOfCopy | src/symtab/typetb.c:734-736 | a copy has the slots of what it is a copy of in the end, whatever its own entry lists |
| TypeElements.ArraySlotCount | src/symtab/typetb.c:738-752 | an array has a slot for every slot of each element that fits into its size, and no other |
| TypeElements.SlotOfElement | src/symtab/typetb.c:743-749 | slot j of element k has the number k times the slots of an element plus j, lies where it lies in an element of its own at k times the size, and has the array as its owner |
| TypeElements.SizelessHasNoSlots | src/symtab/typetb.c:178-201 | a type parameter, a method or a signature has neither size nor slot, and no array of it has slots, whatever its length |
| TypeElements.PrefixIsWord | src/symtab/typetb.c:203-226 | the room in front of the fields is that of a word exactly if a virtual method among the children is given an index, else there is none |
| TypeElements.VtableWord | src/symtab/typetb.c:756-764 | the first slot of such a container is the word of its vtable |
| TypeElements.SlotComesFrom | src/symtab/typetb.c:756-775 | every other slot of a struct, and every slot of a struct without such a method, is a leaf of one of its fields at the offset of the layout |
| TypeSlots.LeafWidths | src/symtab/typetb.c:725-732 | every slot is a word for a pointer or a vtable and else as wide as the token of its type says, one of the four configured widths |
| TypeLimits.UnionSlots | src/symtab/typetb.c:766-775 | the slots of a union of leaves lie inside it if and only if it has at most one field |
| TypeLimits.LikeCSlots | src/symtab/typetb.c:239-240 | the slots of a struct laid out as in C lie inside it if and only if no field needed padding |
| Initializer.EmitSlot | src/asm/i386_gnu_nasm/asmgen.c:282-338 | which element a slot shows, and as which directive |
| Initializer.GenerateTypedInitializer | src/asm/i386_gnu_nasm/asmgen.c:266-343 | the loop writes the directives of all slots with the padding between and behind them; where all slots fit the output is as long as the object and, without strings, the directive that begins at the offset of slot n holds value n; for a type that is not known four bytes are reserved for each element |
| Initializer.OutputBytes | src/asm/i386_gnu_nasm/asmgen.c:266-343 | the output is as long as the object plus what its directives are wider than their slots |
| Initializer.PlacedIffFits | src/asm/i386_gnu_nasm/asmgen.c:276-341 | every directive begins at its slot and the output fills the object if and only if every directive is as wide as its slot |
| Initializer.InitializerFillsObject | src/asm/i386_gnu_nasm/asmgen.c:266-343 | on a target with words of at most four bytes that is so if and only if no string is in hand at a slot that neither takes characters nor is four bytes wide |
| Initializer.StringInTwoBytes | src/asm/i386_gnu_nasm/asmgen.c:302-305 | a two-byte field initialised by a string is written as four bytes |
| Initializer.PlainValuesFill | src/asm/i386_gnu_nasm/asmgen.c:266-343 | numbers and addresses always fill the object, and so do strings where all other slots are four bytes wide |
| Initializer.EightByteNumber | src/asm/i386_gnu_nasm/asmgen.c:253-257 | a number in an eight-byte slot is written as one byte |
| Initializer.ValuesInOrder | src/asm/i386_gnu_nasm/asmgen.c:291-339 | without strings slot n shows value n; behind the last value it goes on through character slots only |
| Initializer.StringSpreads | src/asm/i386_gnu_nasm/asmgen.c:302-318 | a string fills the character slots of its owner and zeros follow it |
| Initializer.WidthsMatch | src/asm/i386_gnu_nasm/asmgen.c:252-256 | a number or an address is as wide as its slot, where there is a directive of that width |
| Initializer.NumbersInOrder | src/asm/i386_gnu_nasm/asmgen.c:291-333 | without strings the directive of slot n holds the number or the address that is value n |
| Initializer.NumbersEnd | src/asm/i386_gnu_nasm/asmgen.c:291-339 | behind the last value the number is 0, but in the character slots that follow its own without a gap and the slot behind them, which repeat it |
| Initializer.StringElsewhere | src/asm/i386_gnu_nasm/asmgen.c:319-321 | a string in hand at a slot that takes no character is written as its address |
| Initializer.CharactersInOrder | src/asm/i386_gnu_nasm/asmgen.c:310-318 | the character slots of the owner hold the characters of the string in order, and zeros behind them |
| Initializer.StringFillsArray | src/asm/i386_gnu_nasm/asmgen.c:266-343 | an array of characters initialised by one string holds its characters in order, and zeros behind them |
| Initializer.StringAtPointer | src/asm/i386_gnu_nasm/asmgen.c:277-321 | a pointer takes no character, also one to characters: a string that comes up there is written as its address |
| Initializer.StringStaysInside | src/asm/i386_gnu_nasm/asmgen.c:304-307 | once the values are used up a string does not go on in the character slots of another owner; they hold 0 |
| Initializer.ValuesInPlace | src/asm/i386_gnu_nasm/asmgen.c:266-343 | where all slots fit, in the output itself the directive at the offset of slot n holds value n |
| TypeMembers.AppendNumbered | src/symtab/typetb.c:607-635 | an added method keeps the indices 0 to n-1, each once, if and only if it carries n |
| TypeMembers.ReplaceNumbered | src/symtab/typetb.c:609-625 | an override that takes over the index keeps them |
| TypeMembers.ReindexedNumbered | src/symtab/typetb.c:619 | a numbering in which one method is given another index is none |
| TypeMembers.NextIsCount | src/symtab/typetb.c:266-284 | the next free index is the number of virtual methods, and so is the slot count |
| TypeMembers.HighestIndex | src/symtab/typetb.c:203-222 | where every method carries an index, the length of the vtable and the next index are one more than the highest |
| TypeMembers.Unindexed | src/symtab/typetb.c:203-222 | where none does, both are the number of virtual methods |
| TypeMembers.IndexOfChild | src/symtab/typetb.c:245-264 | a child is found with the index it carries, or else with the number of virtual methods before it |
| TypeContainers.RelaidCurrent | src/symtab/typetb.c:228-243 | recalculating changes nothing but the size |
| TypeContainers.AddNew | src/symtab/typetb.c:628-635 | a new name goes to the end of both member lists; they go on belonging together, and the numbering survives exactly if the child brings the next index |
| TypeContainers.AddTaken | src/symtab/typetb.c:607-626 | under a taken name one virtual method replaces another with its index; anything else is ignored |
| TypeContainers.AddRefusedWhen | src/symtab/typetb.c:595-639 | exactly when adding a child is refused, and that nothing is done for a container and itself, for what is not there, and for what is no container |
| TypeContainers.VirtualThenAdded | src/symtab/typetb.c:565-639 | a fresh method made virtual and then added under one name is new with the next index, or overrides and keeps the index, or is not added; all other members keep place, name and index |
| TypeContainers.TwoBasesCollide | src/symtab/typetb.c:595-639 | children that were numbered elsewhere, as methods of two bases are, can carry one index |
| TypeContainers.OverrideElsewhere | src/symtab/typetb.c:609-625 | when the type that overrides is a child of another container too, as a shared copy can be, that container stays numbered if and only if the index taken over is the one the type had |
| TypeContainers.FieldsByName | src/symtab/typetb.c:682-718 | fields found by name lie behind the vtable word, without overlap, inside the recalculated size |
| TypeContainers.LeavesOfNamedField | src/symtab/typetb.c:754-777 | the slot search comes upon a field's leaves at the offset found by name |
| TypeNames.MethodsByName | src/symtab/typetb.c:692-697 | virtual methods found by name take a word each of a table with one for every one of them, at their index |
| TypeNames.NothingByName | src/symtab/typetb.c:682-718 | a name that no member of a struct has is not found; in a union everything is behind the vtable word, in what is no container at 0 |
| TypeNames.FieldsLikeC | src/symtab/typetb.c:703-707 | without an alignment and children of size 0 the first field found by name lies at the first multiple of its size behind the vtable word, and every other at the first one behind the field in front of it |
| TypeNames.LeavesLikeC | src/symtab/typetb.c:703-707 | where no child in front has size 0, there the slot search comes upon its leaves |
| TypeNames.EmptyResets | src/symtab/typetb.c:701-707 | without an alignment, behind a child of size 0 the search by name begins again at 0 |
| TypeNames.FoundAtZero | src/symtab/typetb.c:701-707 | a field right behind such a child is found at 0, and that is where the slot search comes upon it if and only if nothing takes room in front of it |
| TypeContainers.LookupFindsStored | src/symtab/typetb.c:790-809 | lookup by function returns the index the method carries |
| TypeContainers.LookupFindsIndex | src/symtab/typetb.c:790-809 | the first virtual method linked to a function is found with its index, or else with the number of virtual methods before it |
| TypeContainers.AddKeepsStruct | src/symtab/typetb.c:595-639 | adding a child, virtual or not, keeps a struct a struct with a current size |
| TypeContainers.EnabledKeeps | src/symtab/typetb.c:584-593 | enabling the vtable keeps members, numbering and kind of the container; the size is current and grows by the vtable word if that is new |
| TypeContainers.EnablingShifts | src/symtab/typetb.c:584-593 | every named field moves by the vtable word if that is new, and by nothing else |
| TypeRuns.RunExtends | src/symtab/typetb.c:565-639 | over a run of declarations every member keeps its place, its name and its index, whoever overrides it |
| TypeRuns.DeclareInOrder | src/symtab/typetb.c:565-639 | one declaration keeps the indices 0, 1, 2, ... in the order of the methods exactly unless it appends a method that brings another index |
| TypeRuns.OrderIsNumbering | src/symtab/typetb.c:266-284 | indices in order are a numbering without gaps |
| TypeBodies.ExistingStepped | src/symtab/typetb.c:595-639 | adding a type of the table does to members, layout and the rest of the table what the reference says |
| TypeBodies.VirtualStepped | src/ast/astgen/func/funcdef_pars.c:188-210 | so does a new virtual method |
| TypeBodies.VariableStepped | src/ast/astgen/decl/vardecl_pars.c:142-153 | so does a variable, for which a copy of its type is made or found and added; no copy is resized |
| TypeCopies.LayoutNonNegative | src/symtab/typetb.c:228-243 | the recalculated size is never negative, whatever the alignment and the sizes of the fields |
| TypeCopies.RootIsKin | src/symtab/typetb.c:405-424 | a copy has the name and the scope, and is of the sort, of what it is a copy of in the end, which is no copy |
| TypeCopies.CopyKeepsSingle | src/symtab/typetb.c:392-424 | making a copy keeps it so that no type is copied twice with one depth of indirection |
| TypeCopies.CopyGrows | src/symtab/typetb.c:405-424 | making a copy leaves every entry, every container and every index as it was, and a new copy of a virtual method has its index |
| TypeCopies.CopyMeasures | src/symtab/typetb.c:286-316 | what a copy takes: a word for a pointer; the size of what was copied if it is new; its old size if it is found |
| TypeSizes.VariableGrows | src/ast/astgen/decl/vardecl_pars.c:147-152 | a variable under a new name makes a struct grow by a word if it is a pointer, else by what the declared type takes if a copy is made, else by what the old copy takes, rounded up to the alignment |
| TypeSizes.FieldOfVariable | src/ast/astgen/decl/vardecl_pars.c:142-153 | at the end of a body the field of a pointer takes a word, and a new copy what the type it was made of took before the body, if that was left alone |
| TypeInherit.FaithfulSlots | src/symtab/typetb.c:392-424 | what is inherited carries the indices of the base if, and where nothing was copied twice only if, the copies that were there carry them |
| TypeFamilies.FramedFaithful | src/symtab/typetb.c:392-424 | copies that are made later agree with every container that was there |
| TypeFamilies.NewFaithful | src/symtab/typetb.c:392-424 | where nothing was copied twice the copies agree with a container that has just been defined |
| TypeFamilies.FamilyBegins | src/symtab/typetb.c:368-424 | a table without copies and virtual methods is where a family can begin |
| TypeFamilies.FamilyStays | src/symtab/typetb.c:368-424 | every container of a family keeps its entries, and can still be a base, while the table grows elsewhere |
| TypeDefinitions.OverridesShareSlots | src/ast/astgen/container/contdef_pars.c:31-60 | own declarations leave the inherited methods under their names with their indices, and keep indices in order |
| TypeDefinitions.DefinedSlots | src/ast/astgen/container/contdef_pars.c:31-60 | exactly when a defined container has every virtual method of its base under the same name with the same index, and that its indices are then in order and a numbering |
| TypeDefinitions.DefinedNew | src/ast/astgen/container/contdef_pars.c:20-60 | a definition adds nothing to the table but the container, the copies it inherits, and what its body brings |
| TypeDefinitions.DefinedMeasured | src/ast/astgen/container/contdef_pars.c:20-60 | the copies that come with the fields of a definition have the layout of what they were made of, if the body leaves that alone |
| TypeDefinitions.DefinedFamily | src/ast/astgen/container/contdef_pars.c:31-60 | a container with a base of the family, or none, joins the family: it is fit to be a base itself, and no other container changes |
| TypeDefinitions.OneMoreCopied | src/symtab/typetb.c:405-424 | while a definition that was refused goes on, every copy asked for is there, every new entry is one of them, and nothing that was there changes |
| TypeDesigners.NameComesFrom | src/symtab/typetb.c:823-839 | a name that is in use after a definition was in use before, or is that of the container |
| TypeDesigners.NamesInUse | src/symtab/typetb.c:823-839 | after any run of definitions the names in use are those from before it and those of the containers made in it |
| TypeDesigners.RefusedWhen | src/symtab/typetb.c:368-373 | a definition in a run is refused if its name was known before the run or is that of a container made earlier in it, and only if it was in use or is |
| TypeDesigners.SelfContainedIsProper | src/ast/astgen/container/contdef_pars.c:20-62 | a designer whose definitions use the answers before, new methods and the container itself can be served in every run |
| TypeDesigners.RecordsAreMade | src/ast/astgen/container/contdef_pars.c:20-62 | of records under new names that differ, each with a field of the type before and a pointer to itself, none is refused |
| TypeTab.TypeTab.FindMember | src/symtab/typetb.c:70-82 | in a given container, the first member that matches |
| TypeTab.TypeTab.FindMemberAnywhere | src/symtab/typetb.c:84-92 | without a container, a first match in one that has any |
| TypeTab.TypeTab.GetInfo | src/symtab/typetb.c:823-839 | found exactly if some entry goes by that name in that scope |
| TypeTab.TypeTab.AddCopy | src/symtab/typetb.c:405-424 | an existing copy of the same type with the same depth of indirection if there is one, else a new entry with name, scope and body copied; a generic type itself, and NONE for what is not there. With some indirection it takes a word; a new one without takes what the copied type takes, with its alignment, its kind, its element and length, and one that is found keeps the size it had |
| TypeTab.TypeTab.RecalculateLayout | src/symtab/typetb.c:228-243 | the loop stores the size of the layout |
| TypeTab.TypeTab.GetChildVtableIndex | src/symtab/typetb.c:245-264 | the index of a child, with the fallback count |
| TypeTab.TypeTab.NextVtableIndex | src/symtab/typetb.c:266-284 | the next free index |
| TypeTab.TypeTab.SetAsVtableMethod | src/symtab/typetb.c:565-582 | marks the method with the inherited or the next index and answers the child that bore the name |
| TypeTab.TypeTab.EnableVtable | src/symtab/typetb.c:584-593 | a container stays a container, a struct a struct, with the same members; its size is current, and without the vtable word it is what it was |
| TypeTab.TypeTab.AddAsChild | src/symtab/typetb.c:595-639 | the whole new state, in every branch |
| TypeTab.TypeTab.GetChildOffsetName | src/symtab/typetb.c:682-718 | the offset by name, in every branch |
| TypeTab.TypeTab.GetVtableIndex | src/symtab/typetb.c:790-809 | the index by function |
| TypeTab.TypeTab.NewContainer | src/symtab/typetb.c:368-390 | refused exactly if the name is known in the scope; else a fresh id for a container without children, which meets everything a container keeps |
| TypeTab.TypeTab.DeclareBody | src/symtab/typetb.c:565-639 | any sequence of existing types, virtual or not, variables and new virtual methods leaves exactly the members of the reference run, in its order, with its indices; the layout is what it was, with a vtable if a method asked for one, and a current size; if no virtual method comes from elsewhere the methods stay numbered and the rest of the table stays as it was |
| TypeTab.TypeTab.DeclareVariable | src/ast/astgen/decl/vardecl_pars.c:142-153 | one variable, in that run |
| TypeTab.TypeTab.DeclareVirtual | src/ast/astgen/func/funcdef_pars.c:188-210 | enabling the vtable, making the method virtual and adding it, as one step |
| TypeTab.TypeTab.InheritFrom | src/ast/astgen/container/contdef_pars.c:40-55 | a copy of every virtual method of the base, in order and under its name, with the index of the existing copy or else that of the base, and its vtable; nothing else in the table changes |
| TypeTab.TypeTab.InheritNowhere | src/ast/astgen/container/contdef_pars.c:40-55 | when the container was refused: a copy of every virtual method of the base is there afterwards, and nothing else changed |
| TypeTab.TypeTab.DeclareNowhere | src/ast/astgen/decl/vardecl_pars.c:142-153 | the body of a container that was refused: a copy of the type of every variable is there afterwards, and nothing else changed |
| TypeTab.TypeTab.DefineContainer | src/ast/astgen/container/contdef_pars.c:20-62 | a whole definition with one base or none: refused exactly if the name is known, and then only copies are made; else the id, name, layout and entries of the container, what else is new, when it carries the indices of the base, and that a family of containers grows by it |
| TypeTab.TypeTab.DefineAll | src/ast/astgen/container/contdef_pars.c:20-62 | any number of definitions, each decided from the answers before, by a designer that in all runs of such definitions uses what is there: each is refused exactly if its name is known, and at the end every container has every virtual method of its base under the same name with the same index, however deep the inheritance and whatever overrides what |
| TypeTab.TypeTab.DefineRecords | src/ast/astgen/container/contdef_pars.c:20-62 | a client: any number of records, each with a field of the type before and a pointer to itself, all of which are made |
| LinkedList.List.Add | std/list.c:28-44 | appends, both links set |
| LinkedList.List.Insert | std/list.c:86-124 | inserts before the first occurrence of an element, or at the end |
| LinkedList.List.Remove | std/list.c:126-146 | unlinks the first occurrence only; the other nodes stay where they are, so a cursor on another node stays good |
| Markup.RemoveToken | src/prep/markup.c:143-150 | the token in hand leaves the list, the cursor that has passed it stays in it |
| Markup.ApplyModifiers | src/prep/markup.c:163-185 | the resulting list and the flags of every token, while nodes are removed during the walk |
| Markup.GatheredSinceLast | src/prep/markup.c:163-180 | an ordinary token is given just the modifiers between it and the ordinary token before it, with the number of ptr |
| Markup.ResultHolds | src/prep/markup.c:170-182 | the list that is left holds the last token and every token that is no glob, ptr or ro |
| Markup.OrderIsKept | src/prep/markup.c:170-182 | tokens that are left stand in their old order |
| Markup.LostWhen | src/prep/markup.c:163-185 | a modifier is given to no token exactly if the next ordinary token, if any, is the last of the list |
| Markup.PtrBeforeLast | src/prep/markup.c:163-185 | in a list of ptr and a type, only the type is left, and it is no pointer |

## Left out

- The branch of std/mm.c under PROD_MALLOC, and a second call of `mm_init` while blocks are live.
- Heap.Allocator.Free: for a pointer that is not live though the bytes in front of it pass the test, by a stale header or by payload bytes that imitate one, nothing is promised, and so it is for Heap.Allocator.Realloc.
- HeapRuns.Serve: programs that free or resize what they do not own though the test accepts it, or write outside what they own, are excluded. The runs it speaks of fix answers, live blocks and payloads, not the order of the free lists or where free blocks lie between.
- HeapHistories.PassesWhen: speaks of an allocation; a realloc that uses up the free block around a stale pointer is not described.
- The width of the counter of allocated bytes; it is an integer.
- Failing allocations inside maps, lists, stack maps and walks.
- `map_decompress`, which only clears the flag, so that lookups do not survive it; `map_intersect_op`; freeing maps and sets.
- HashMap.Map.Compress: assumes that every key indexes the table; negative and larger keys make the original write outside it. MapRuns.Run demands the same of its sequences.
- HashMap.Map.Resize: capacities are unbounded, so that doubling never overflows.
- The overflow of `int` in the sizes of a stack map.
- StackRuns.Serve: programs free by the end or by the start what they were given and what these clear, and nothing below the base (StackRuns.BelowBase says what happens there).
- The `int` length of `crc64` when negative.
- CfgWalk.WalkState: the logic does not change successors or marks while the walk runs, and counters do not wrap.
- TypeFind.FindTypeInitSlot: types that contain themselves by value are excluded; the original recurses without end on them.
- TypeTab.TypeTab.DeclareBody: a virtual method that comes from elsewhere is added at most once, and carries an index.
- TypeSlots.SlotsTile: demands that every stored size is current; a container that grows after it was embedded or copied elsewhere leaves an old size there.
- `TPTB_link_child` on containers, which updates only one of the two member lists, and offsets by type id when two fields share a type.
- TypeTab.TypeTab.DefineContainer: at most one base; TypeContainers.AddNew, TypeContainers.AddTaken and TypeContainers.OverrideElsewhere say what the steps of a second one do. Its body declares no virtual method that is in the table already, and no variable of the type of a method.
- TypeTab.TypeTab.DeclareVirtual: the function is a new one, so that no entry is found for it.
- The search for an existing entry by a token, and type parameters: the type of a variable is an entry that is there, or none.
- The text of the assembly output; initialisers are directives with their widths, and a missing string reads as zeros.
- What `TKN_unload_token` frees; a removed token is just no longer in the list.
- Null arguments and the early returns for them.
- IntSet.MinusSet: the two sets are different objects, and so is the destination of IntSet.Intersect from both arguments; the original would change a set while it iterates over it.
- Markup.ApplyModifiers: every token object occurs once in the list.
- The remaining list operations: both ends, replacing, backward iteration.
- The passes of the compiler that work on HIR and LIR, the preprocessor, files, logging and the command line.
