# talloc in Dafny

A model of talloc, a small `malloc`/`free` replacement in a single header,
`talloc.h`, with proofs about it.

**Arenas.** talloc gets memory from the operating system in *arenas*:
- each arena is mapped with `mmap`;
- each is at least `TALLOC_ALLOC_PAGES` pages;
- the arenas are chained in a doubly linked list that starts at
  `state.arena_head`.

**Free chunks.** An arena's body after its header is cut into chunks:
- a free chunk (`talloc_chunk_t`) is on the arena's singly linked free list,
  in address order;
- an allocated block carries a `talloc_header_t` holding its size and the
  magic word.

**The two operations.**
- `TAlloc_malloc`:
  - picks the first arena whose `max_free_space` is large enough, or maps a
    new one;
  - takes the first free chunk that fits, splitting off the excess when it
    exceeds a chunk header;
  - stamps the header;
  - rescans `max_free_space` when it may have dropped.
- `TAlloc_free`:
  - checks the pointer: an arena holds it and the magic word is there;
  - links the chunk back into the free list in address order;
  - merges it with touching free chunks;
  - unmaps an arena other than the first once it is wholly free.

**How the model is built.** The model is imperative, like the source. The
global `state` is the class `Allocator.Allocator`:
- `mem: map<int, int>` is the address space, one word per slot;
- C structure fields are slots at fixed offsets, with the LP64 layout in
  `Layout`;
- every function of the header is a method that reads and writes `mem`;
- the loops of the source are `while` loops with invariants.

**Ghost state.** Two ghost fields record what the memory means:
- `arenas` lists the arenas in list order;
- `blocks` gives, for each arena, the blocks that tile its body (free,
  allocated, or lost).

**The class invariant.** `Valid` pins those two fields to `mem` through
`Arena.ArenasOk`. That predicate says, for every arena:
- the blocks tile the body;
- no two free blocks touch;
- the free list holds exactly the free blocks, in address order;
- every allocated block carries its header;
- `max_free_space` is the largest free chunk.

It also says the arenas are disjoint and correctly doubly linked.

**What is proved.** Every public operation (the constructor, `Initialize`,
`Malloc` and `Free`) establishes or keeps `Valid`, and each one's effect is
stated in terms of the free list and the blocks. So do the larger steps
they are made of (`AllocMoreSpace`, `FreeArena`, `ReleaseBlock`,
`ReleaseArena`, `GetAccommodatingArena`, `Allocate`, `AllocateIn`,
`TakeChunk`). The walks (`FindArena`, `FindInsertion`, `FindFit`,
`FindRoomyArena`) change nothing. The smaller steps that write memory
(`CreateArena`, `InitArena`, `Coalesce`, `AdjustSpace`, `InsertChunk`,
`Rescan`, `SplitChunk`, `SplitOff`, `GrantChunk`, `TakeMemStep`, `TakeStep`)
pass through states that break `Valid`. They state their effect on memory,
and their caller restores `Valid`.

**The value-level layer.** These pure functions and lemmas carry most of the
proof:
- `Sizing`: the reservation arithmetic;
- `FreeList`: chunk lists, coalescing, maxima;
- `Memory`: list segments in memory;
- `Blocks`: the block tilings, with `Release` and `TakeIntended`;
- `Arena`: one arena and the arena list;
- `Freeing` and `Taking`: the memory effect of one free and one malloc
  inside an arena.

The operating system's answers are parameters of the methods:
- `getpagesize` is `pageSize`;
- `mmap` is an `Option<nat>` region, where `None` is failure;
- `munmap` is a `bool`, true on success.

## Model

| member | source | states |
|---|---|---|
| Layout.MagicOf | talloc.h:20-23 | the `int` magic field reads the low 32 bits of its word, so a value below 2^32 reads back unchanged |
| Layout.WithMagic | talloc.h:288 | storing the magic sets exactly the low 32 bits: the field then reads the magic and the high half is kept |
| Sizing.RoundUp | talloc.h:98-99 | a page multiple at least the requirement and less than one page above it |
| Sizing.ArenaReservation | talloc.h:87-100 | as written: `Wraps` exactly when `space_needed + OVERHEAD` overflows; `Unset` exactly when it equals `minallocsize`; the minimum below it; above it, the page round-up modulo 2^64 |
| Sizing.ReservationUnsetAtMinimum | talloc.h:92-100 | with 4096-byte pages, a request of 4096000 - 56 bytes leaves `to_allocate` unset |
| Sizing.IntendedReservation | talloc.h:92-100 | the corrected choice is never unset, and wraps exactly when the requirement overflows |
| Sizing.IntendedReservationCovers | talloc.h:81-100 | without rounding overflow, the reservation holds the requirement and the minimum; it is the minimum up to the minimum, and beyond it the least whole number of pages |
| Sizing.ReservationWrapsToZero | talloc.h:99 | a requirement just below 2^64 rounds up to 2^64, and the reservation wraps to 0 bytes |
| Sizing.ReservationZeroOrCovers | talloc.h:85-100 | with a page size dividing 2^64, the reservation is 0 (which `mmap` refuses) or holds the requirement |
| Sizing.ReservationRoom | talloc.h:85-100 | a nonzero reservation holds the requirement and the minimum |
| FreeList.Merge | talloc.h:148-150 | the merged chunk keeps the first chunk's address and ends where the second one ends |
| FreeList.CoalescePreservesSpan | talloc.h:145-152 | coalescing keeps the bytes covered by the list's chunks and headers |
| FreeList.CoalesceEffect | talloc.h:145-152 | coalescing keeps address order; when the chunks touch it merges them into one of size `c.size + H + next.size`, ending where the successor ended; otherwise it changes nothing |
| FreeList.MaxSize | talloc.h:34 | an upper bound of every chunk size that some chunk reaches, 0 for the empty list |
| FreeList.MaxSizeUnique | talloc.h:34 | any such bound is the maximum |
| FreeList.AdjustMax | talloc.h:156-160 | the adjusted maximum is the larger of the old value and the chunk size: it never decreases |
| FreeList.InsertMax | talloc.h:194-199 | inserting a chunk raises the list maximum as the adjustment rule does |
| FreeList.CoalesceMax | talloc.h:198-210 | after a coalesce, the list maximum is the old one adjusted by the (possibly merged) chunk |
| FreeList.InsertCoalesceMax | talloc.h:196-208 | inserting a chunk and coalescing it keeps the maximum exact under the adjustment rule |
| FreeList.MaxAfterTake | talloc.h:268-306 | after a malloc, the recorded maximum is the rescan, the old value, or the split remainder |
| FreeList.TakeMax | talloc.h:268-306 | as written, the recorded maximum stays an upper bound of the true one; it is exact when the taken chunk was first or second on the list |
| FreeList.TakeIntendedMax | talloc.h:268-306 | with the intended unlinking, an exact maximum stays exact |
| FreeList.ScanMaxPrefix | talloc.h:298-304 | after `k` chunks, the scan holds the largest of their sizes |
| FreeList.ScanMaxIsMax | talloc.h:295-305 | the whole scan finds the list maximum, 0 for an empty list |
| Memory.CoalesceList | talloc.h:145-152 | coalescing a chunk in memory turns the list it holds into `CoalesceAt` of that list |
| Memory.CoalesceFrame | talloc.h:145-152 | coalescing writes only the chunk's two slots |
| Memory.InsertOnly | talloc.h:191-193 | a lone chunk with a NULL `next` is a list of one |
| Memory.InsertFront | talloc.h:195-197 | a chunk linked in front of the head extends the list by itself |
| Memory.InsertAfter | talloc.h:205-206 | a chunk linked after the last chunk of a prefix sits between that prefix and the rest |
| Memory.PlaceChunk | talloc.h:274-275 | the remainder chunk written in front of the list heads it |
| Memory.LinkAfter | talloc.h:292 | relinking the predecessor's `next` makes the list the prefix followed by the new tail |
| Memory.ListAt | talloc.h:257-260 | the `j`-th list chunk's size slot holds its size, and its `next` names the chunk after it, NULL at the end |
| Blocks.TilesCover | talloc.h:163-165 | an address is in an arena's range exactly when it lies in one of its blocks |
| Blocks.ReleaseTiles | talloc.h:188-211 | freeing a non-free block keeps the tiling and leaves no two free blocks touching |
| Blocks.ReleaseRightChunks | talloc.h:188-211 | on the free list, a free is "insert in address order, then coalesce with the successor" |
| Blocks.TakeTiles | talloc.h:264-292 | the as-written take keeps the tiling and leaves no two free blocks touching |
| Blocks.TakeIntendedTiles | talloc.h:264-292 | the intended take does the same |
| Blocks.TakeChunks | talloc.h:264-292 | the free list after a take: as written, only the head of the chunks before the taken one survives; as intended, all of them do; then the carved remainder and the rest |
| Blocks.TakeIntendedNoLost | talloc.h:291-292 | the intended take leaves every free block on its list |
| Blocks.LossExampleFirstFit | talloc.h:257-260 | in the example arena, a 32-byte request walks past two free chunks to the third |
| Blocks.TakeLosesFreeBlock | talloc.h:292 | as written, that take drops the second free block from the list |
| Blocks.TakeLossExampleChunks | talloc.h:291-292 | as written, the free list that results lacks the block at 104 |
| Blocks.TakeIntendedLossExampleChunks | talloc.h:291-292 | as intended, it keeps the block at 104 |
| Blocks.FirstFitFromList | talloc.h:257-260 | the first list chunk that is large enough is the first free block that is large enough |
| Blocks.TakeIntendedKeeps | talloc.h:264-292 | every non-free block other than the one taken is still a block of the arena after a malloc |
| Blocks.TakeKeepsLive | talloc.h:250-310 | taking a free block of one arena keeps every non-free block of every arena in its arena, also when arenas were appended |
| Blocks.FreeChunksIndex | talloc.h:257-260 | the `j`-th free chunk is a free block whose predecessors hold exactly the chunks before it |
| Blocks.WhollyFree | talloc.h:214 | the largest free chunk spans the body exactly when the arena is one free chunk |
| Arena.InitArenaOk | talloc.h:55-65 | a fresh arena is one free chunk spanning its body, recorded as the maximum, with `next` and `prev` NULL |
| Arena.InitArenaFrame | talloc.h:55-65 | initialising writes only inside the arena |
| Arena.AdjustFrame | talloc.h:156-160 | only `max_free_space` changes, and it becomes the larger of itself and the chunk's size |
| Arena.Unlink | talloc.h:138-139 | unlinking writes only `prev->next` and, when there is a next arena, `next->prev` |
| Arena.ArenasRemove | talloc.h:137-140 | unlinking a non-first arena leaves a valid, linked list of the others |
| Arena.AppendedArenaOk | talloc.h:117-129 | a fresh arena apart from every arena, linked after the last, extends the valid list by itself |
| Arena.NewArenaKeepsList | talloc.h:85-113 | initialising a region apart from the list keeps every arena valid |
| Arena.FirstArenaOk | talloc.h:68-79 | the first arena, freshly initialised, is a valid list of one |
| Arena.PtrInBlocks | talloc.h:163-165 | `TAlloc_ptr_in_arena` (`Arena.PtrInArena`) holds exactly for addresses inside the arena's blocks |
| Arena.PtrInOneArena | talloc.h:163-172 | an address lies in at most one arena of a valid list |
| Arena.UsedPtrAccepted | talloc.h:179-186 | the address past an allocated block's header lies in its arena and no other, and finds the magic word |
| Arena.ArenaMax | talloc.h:223 | an arena's `max_free_space` is its largest free chunk |
| Arena.ArenasTooSmall | talloc.h:223 | arenas the walk skips have no free chunk of the requested size |
| Arena.DropTail | talloc.h:133-141 | after an unlink, the last arena is the predecessor when the unlinked one was last, and otherwise the old last one |
| Arena.NullTailWrite | talloc.h:124 | with a NULL tail, the link write stores the new arena's address in the word at address 24, the `next` slot of a header at address 0 |
| Allocator.FailedInitLink | talloc.h:71-74 | after a fresh allocator's first `mmap` fails, the tail is still NULL and memory unchanged, so the link at talloc.h:124 writes the new arena's address into word 24 |
| Arena.StaleTailOutside | talloc.h:133-141 | the tail left behind after its arena is unlinked lies in none of the arenas that remain |
| Freeing.InsertFreedOk | talloc.h:188-211 | freeing an allocated block leaves the arena holding `Release(bs, i)`, writing only its own slots and body |
| Freeing.FreedListOk | talloc.h:188-211 | freeing a block keeps the whole arena list valid |
| Freeing.FreeableAt | talloc.h:188-211 | an allocated block is not on the free list, and its header lies in the body |
| Freeing.InsertionIndex | talloc.h:201-204 | the insertion walk stops at the last free chunk below the freed one |
| Freeing.ReleasedWhole | talloc.h:214 | `allocated == max_free_space + OVERHEAD` exactly when the arena is one free chunk |
| Taking.SplitKeepsSize | talloc.h:271-277 | the split leaves the taken chunk's size slot alone |
| Taking.TakeMemTaken | talloc.h:264-292 | a take writes only the arena's slots and body; the other allocated blocks keep their headers; the granted block has its header; the list holds the free chunks of `TakeIntended` |
| Taking.TakeMemMax | talloc.h:268-292 | when no rescan is called for, `max_free_space` is already the largest free chunk |
| Taking.MallocMemOk | talloc.h:264-306 | a malloc in the arena leaves it holding `TakeIntended(bs, i, size)`, writing only its slots and body |
| Taking.FitAtFirstFit | talloc.h:256-260 | where the walk stops, with no larger chunk before it on the list, is the first free block large enough |
| Taking.FitTakeAt | talloc.h:256-260 | where the first-fit walk stops in a valid arena, the take's preconditions hold |
| Taking.TakeList | talloc.h:264-292 | after the take, the list holds the free chunks of `TakeIntended`, all past the arena header |
| Taking.MallocListOk | talloc.h:264-306 | a malloc in one arena keeps the whole arena list valid |
| Taking.GrantedAt | talloc.h:287-289 | the granted block replaces block `i`: allocated, at the chunk's address, at least `size` and at most the chunk's bytes |
| Taking.WholeMaxOk | talloc.h:268 | handing out a whole chunk that was not the maximum keeps `max_free_space` exact |
| Taking.SplitMaxOk | talloc.h:277-280 | after a split that the test of :280 finds harmless, `max_free_space` is the largest chunk |
| Allocator.Allocator.Reserve | talloc.h:87-100 | a nonzero reservation holds the requirement with overhead, and the minimum |
| Allocator.Allocator.constructor | talloc.h:51-52 | the zeroed global state: uninitialised, with no arenas |
| Allocator.Allocator.InitArena | talloc.h:55-65 | memory becomes `InitArenaMem` (whose meaning is `Arena.InitArenaOk`) |
| Allocator.Allocator.Initialize | talloc.h:68-79 | the page size and minimum are recorded; on `mmap` failure the allocator stays uninitialised and unchanged; otherwise the first arena is a fresh arena and the tail |
| Allocator.Allocator.CreateArena | talloc.h:85-113 | NULL exactly when the requirement wraps or `mmap` fails, and then nothing changes; otherwise the region is initialised with the reservation |
| Allocator.Allocator.AllocMoreSpace | talloc.h:117-129 | NULL exactly when the arena cannot be created, and nothing changes; otherwise the new arena is appended after the old tail and becomes the tail; the list stays valid |
| Allocator.Allocator.FreeArena | talloc.h:133-141 | on failed `munmap` nothing changes; on success the arena leaves the list, the rest stay valid, and the tail is the last remaining arena |
| Allocator.Allocator.FindArena | talloc.h:168-172 | the first arena in list order holding `ptr`, or NULL exactly when none does |
| Allocator.Allocator.Coalesce | talloc.h:145-152 | memory becomes `CoalesceMem` (whose meaning is `Memory.CoalesceList`) |
| Allocator.Allocator.AdjustSpace | talloc.h:156-160 | memory becomes `AdjustMem` (whose meaning is `Arena.AdjustFrame`) |
| Allocator.Allocator.FindInsertion | talloc.h:201-204 | the walk stops at the last free chunk below the freed one |
| Allocator.Allocator.InsertChunk | talloc.h:190-211 | the three insertion cases, with where the walk stopped |
| Allocator.Allocator.Free | talloc.h:178-217 | nothing changes unless the allocator is initialised, an arena holds `ptr` and the magic matches; otherwise the first arena holding `ptr` has its block released (`Release`); the arena is unlinked exactly when it is not the first, is one free chunk, and `munmap` succeeds; the list stays valid |
| Allocator.Allocator.ReleaseBlock | talloc.h:188-211 | the block is released and the list stays valid |
| Allocator.Allocator.ReleaseArena | talloc.h:213-216 | the arena is unlinked exactly when it is not the first, is one free chunk, and `munmap` succeeds |
| Allocator.Allocator.Rescan | talloc.h:294-306 | `max_free_space` becomes the largest free chunk, or 0; nothing else changes |
| Allocator.Allocator.FindFit | talloc.h:255-262 | the first free chunk of at least `size` bytes, with its predecessor; NULL only when no chunk is that large |
| Allocator.Allocator.SplitChunk | talloc.h:264-285 | the split when the excess exceeds a header, otherwise the whole chunk is granted; plus the `affected` verdict |
| Allocator.Allocator.SplitOff | talloc.h:270-281 | the remainder is placed, coalesced and counted, as `SplitMem` |
| Allocator.Allocator.GrantChunk | talloc.h:286-292 | header stamped; the list head or `prev` skips to the next free chunk |
| Allocator.Allocator.TakeMemStep | talloc.h:264-292 | memory becomes `TakeMem`, with the `affected` verdict |
| Allocator.Allocator.TakeStep | talloc.h:264-306 | memory becomes `MallocMem` with the maximum of the new list |
| Allocator.Allocator.TakeChunk | talloc.h:264-306 | the arena holds `TakeIntended` and the list stays valid |
| Allocator.Allocator.FindRoomyArena | talloc.h:222-223 | the first arena whose largest free chunk holds `size`, or NULL exactly when none does |
| Allocator.Allocator.GetAccommodatingArena | talloc.h:221-230 | the first roomy arena, unchanged; else a newly appended arena; NULL exactly when no arena has room and none can be made, with nothing changed |
| Allocator.Allocator.AllocateIn | talloc.h:254-310 | in an arena with room, the first fit is taken; the pointer is past its header; the arena holds `TakeIntended` |
| Allocator.Allocator.Allocate | talloc.h:250-310 | NULL exactly when no arena has room and none can be made, with nothing changed; otherwise the first fit in the first roomy or new arena is taken |
| Allocator.Allocator.Malloc | talloc.h:246-310 | initialises first; NULL for size 0 and when uninitialised, with the tail and memory untouched when initialising fails; otherwise NULL exactly when no room can be found, with nothing changed when already initialised and only the fresh first arena (its blocks and memory) when this call initialised; a returned pointer is handed out (an allocated block of at least `size` bytes that `TAlloc_free` accepts), it is the first fit of the first arena with room or of a new arena appended to the list, the blocks are those before the call (or the fresh first arena) with only that block taken, and every live block survives |
| Allocator.Allocator.MallocReady | talloc.h:250-310 | the same once initialised and `size > 0`: NULL exactly when no room can be found, with nothing changed; else a handed-out pointer to the first fit of the first arena with room, or of a new arena appended, with the blocks before the call changed only by that take and every live block kept |
| Allocator.Allocator.GrantedHandedOut | talloc.h:286-310 | the block granted by the take is handed out |
| Allocator.Allocator.HandedOutAccepted | talloc.h:179-186 | what malloc hands out passes the checks of free, and identifies the block free releases |

## Left out

- `TAlloc_debug_print` (talloc.h:315-340) prints diagnostics; it is not part of this model.
- `getpagesize`, `mmap` and `munmap` are parameters. The page size must be a positive `int` dividing 2^64 that keeps `pagesize * 1000` from wrapping (`Sizing.PageSizeOk`). A mapped region must be nonzero, fit below 2^64, and lie apart from every arena (`MapAnswer`).
- `mmap` zeroing the region is not modelled. The model's memory keeps whatever it held.
- A successful `munmap` does not remove the region from `mem`. The arena only leaves `arenas` and `blocks`.
- The contents of client payloads are not modelled, beyond their not overlapping an arena's metadata.
- Concurrency is left out. The state is global and unlocked, and sequential use is assumed.
- Slot arithmetic (`size`, pointer sums) is on unbounded integers, with no reduction modulo 2^64. Only the reservation of talloc.h:99 wraps explicitly. Everywhere else the invariants keep arenas below 2^64.
- Allocator.Allocator.Coalesce: requires the chunk's size slot to be non-negative, as a `size_t` always is.
- Allocator.Allocator.Free: requires `FreeOk`, the client's promise. A pointer that passes the arena and magic checks must be one `TAlloc_malloc` handed out and that is not yet freed. Stray pointers, and payloads that happen to contain the magic word, are outside the model.
- Blocks.Take: models talloc.h:292 as written only on the block level, with its counterexample. The allocator methods use the corrected unlinking (Finding B).
- Allocator.Allocator.Allocate: does not restate the new memory as one equation. GetAccommodatingArena (`LinkNewArena`) and AllocateIn (`MallocMem`) state it step by step. The same holds for MallocReady and Malloc.

## Findings

| source | as written | input that shows it | evidently intended | confidence | as-written member | corrected member |
|---|---|---|---|---|---|---|
| talloc.h:92-100 | neither branch assigns `to_allocate` when `space_needed + OVERHEAD == minallocsize`, so `mmap` gets an uninitialised size | 4096-byte pages, `TAlloc_malloc(4096000 - 56)` when no arena has room | a requirement up to the minimum reserves the minimum | not executed | Sizing.ReservationUnsetAtMinimum | Sizing.IntendedReservationCovers |
| talloc.h:292 | `arena->free_list->next = next_free_chunk` relinks the list head rather than `prev`, dropping the chunks between them | free chunks of 16, 16 and 64 bytes separated by allocated blocks, then `TAlloc_malloc(32)` | `prev->next = next_free_chunk` | not executed | Blocks.TakeLosesFreeBlock | Blocks.TakeIntendedNoLost |
| talloc.h:133-141 with :124 | `TAlloc_free_arena` never moves `state.arena_tail` off the unlinked last arena, so the next new arena is linked through unmapped memory | two arenas; freeing everything in the second unmaps it; a later malloc that needs a new arena writes through the stale tail | set the tail to `prev` when `next` is NULL | not executed | Arena.StaleTailOutside | Allocator.Allocator.FreeArena |
| talloc.h:247-248 with :124 | when the first `mmap` fails, `TAlloc_malloc` goes on; a later successful `mmap` in `TAlloc_alloc_more_space` writes through a NULL `state.arena_tail` | first `mmap` fails, the second succeeds | return NULL while uninitialised | not executed | Allocator.FailedInitLink | Allocator.Allocator.Malloc |
