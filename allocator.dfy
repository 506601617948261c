/** The allocator of talloc.h: its global state (talloc.h:43-52) as a class
    over one word memory, and its functions (talloc.h:55-311) as methods.
    What the operating system answers (`getpagesize`, `mmap`, `munmap`) is
    passed in as parameters. */
module Allocator {
  import opened Layout
  import opened Sizing
  import opened FreeList
  import opened Memory
  import opened Blocks
  import opened Arena
  import opened Freeing
  import opened Taking

  datatype Option<T> = None | Some(value: T)

  /** Arena `idx` was the one found for `size` bytes among arenas `a0`
      holding blocks `b0` (talloc.h:220-243): no arena before it has room,
      and either it is one of `a0` and nothing changed, or none had room and
      it is a new arena of reservation `r`, mapped at `region`, appended to
      the list with one free block. `a` and `bss1` are the arenas and blocks
      once it is found. */
  ghost predicate FoundArena(a0: seq<int>, b0: seq<seq<Block>>, a: seq<int>, bss1: seq<seq<Block>>,
                             idx: nat, size: nat, r: Reservation, region: Option<nat>)
  {
    && idx <= |a0| && |b0| == |a0|
    && (forall k :: 0 <= k < idx ==> MaxSize(FreeChunks(b0[k])) < size)
    && (idx < |a0| ==> a == a0 && bss1 == b0)
    && (idx == |a0| ==>
          && r.Bytes? && r.n > OVERHEAD && idx < |a| && 0 < a[idx] && region == Some(a[idx])
          && a == a0 + [a[idx]]
          && bss1 == b0 + [FreshBlocks(a[idx], r.n)])
  }

  /** What a successful malloc of `size` bytes from arenas `a0` holding
      blocks `b0`, leaving arenas `a` holding blocks `bss`, did: arena `idx`
      was found as `FoundArena` says, giving the blocks `bss1`; in it the
      first fit, block `i` of `bs`, was taken as `TakeIntended` says, and no
      other block changed; `ptr` is the address past its header, and every
      non-free block of `b0` is still in its arena. */
  ghost predicate Served(ptr: int, idx: nat, i: nat, size: nat, bs: seq<Block>, bss1: seq<seq<Block>>,
                         a0: seq<int>, b0: seq<seq<Block>>, a: seq<int>, bss: seq<seq<Block>>,
                         r: Reservation, region: Option<nat>)
  {
    && idx < |bss1| && bs == bss1[idx] && FirstFit(bs, i, size) && ptr == bs[i].addr + H
    && bss == bss1[idx := TakeIntended(bs, i, size)]
    && FoundArena(a0, b0, a, bss1, idx, size, r, region)
    && LiveKept(b0, bss)
  }

  /** The path talloc.h:247 leaves open, as written: a fresh allocator
      whose first `mmap` fails (talloc.h:71-74) keeps `state.arena_tail`
      NULL, so when `TAlloc_alloc_more_space` later gets an arena `v` of `n`
      bytes, the link at talloc.h:124 stores `v` in the word at address 24. */
  method FailedInitLink(m: Mem, pageSize: nat, v: int, n: int) returns (tail: int, linked: Mem)
    requires PageSizeOk(pageSize) && 0 < v && OVERHEAD < n
    ensures tail == NULL && linked == LinkNewArena(m, NULL, v, n)
    ensures Read(linked, NULL + ARENA_NEXT_SLOT) == v
  {
    var al := new Allocator(m);
    al.Initialize(pageSize, None);
    tail := al.arenaTail;
    linked := LinkNewArena(al.mem, tail, v, n);
    NullTailWrite(m, v, n);
  }

  class Allocator {
    /** The address space; the arenas and their chunks live in it. */
    var mem: Mem
    /** `state.arena_head` and `state.arena_tail`. */
    var arenaHead: int
    var arenaTail: int
    /** `state.minallocsize` and `state.pagesize`. */
    var minallocsize: nat
    var pagesize: nat
    /** `state.initialized`. */
    var initialized: bool
    /** The arenas in list order, and the blocks each of them holds. */
    ghost var arenas: seq<int>
    ghost var blocks: seq<seq<Block>>

    /** The page size is usable and the minimum arena is
        `TALLOC_ALLOC_PAGES` pages (talloc.h:69-70). */
    ghost predicate Configured()
      reads this`pagesize, this`minallocsize
    {
      PageSizeOk(pagesize) && minallocsize == pagesize * ALLOC_PAGES
    }

    /** `state.arena_tail` names the last arena of the list. */
    ghost predicate TailLive()
      reads this`arenas, this`arenaTail
    {
      arenas != [] && arenaTail == arenas[|arenas| - 1]
    }

    /** The arena list from `arena_head` to `arena_tail` is valid, and it is
        nonempty exactly when the allocator is initialised. */
    ghost predicate Valid()
      reads this
    {
      && ArenasOk(mem, arenas, blocks)
      && arenaHead == (if arenas == [] then NULL else arenas[0])
      && (initialized <==> arenas != [])
      && (initialized ==> Configured() && TailLive())
    }

    /** What `mmap` may answer for `n` bytes: failure, or a nonzero address
        whose `n` bytes fit in the address space and overlap no arena. */
    ghost predicate MapAnswer(region: Option<nat>, n: int)
      reads this
    {
      region.Some? ==>
        && 0 < n && 0 < region.value && region.value + n <= WORD_LIMIT
        && forall k :: 0 <= k < |arenas| ==> Apart(arenas[k], Allocated(mem, arenas[k]), region.value, n)
    }

    /** The bytes `TAlloc_create_arena` maps for `spaceNeeded`
        (talloc.h:87-100), with a requirement equal to the minimum given the
        minimum. Unless it wraps to nothing, it holds the requirement, the
        arena overhead and the minimum. */
    function Reserve(spaceNeeded: nat): (r: Reservation)
      reads this`pagesize, this`minallocsize
      requires Configured() && spaceNeeded < WORD_LIMIT
      ensures r.Bytes? && r.n != 0 ==> r.n >= spaceNeeded + OVERHEAD && r.n >= minallocsize > OVERHEAD
    {
      var r := IntendedReservation(spaceNeeded, minallocsize, pagesize);
      if r.Bytes? && r.n != 0 then
        ReservationRoom(spaceNeeded, minallocsize, pagesize);
        r
      else r
    }

    /** An allocator before its first call: nothing initialised. */
    constructor (m: Mem)
      ensures Valid() && mem == m && !initialized && arenas == [] && blocks == []
      ensures arenaHead == NULL && arenaTail == NULL
    {
      mem := m;
      arenaHead := NULL;
      arenaTail := NULL;
      minallocsize := 0;
      pagesize := 0;
      initialized := false;
      arenas := [];
      blocks := [];
    }

    /** `TAlloc_init_arena` (talloc.h:55-65): the arena at `a` becomes one
        free chunk spanning its body, linked to no other arena. */
    method InitArena(a: int, alloc: int)
      requires 0 < a && OVERHEAD < alloc && a + alloc <= WORD_LIMIT
      modifies this`mem
      ensures mem == InitArenaMem(old(mem), a, alloc)
    {
      mem := mem[a + ALLOCATED_SLOT := alloc];
      mem := mem[a + MAX_FREE_SLOT := alloc - OVERHEAD];
      mem := mem[a + ARENA_NEXT_SLOT := NULL];
      mem := mem[a + ARENA_PREV_SLOT := NULL];
      var freeList := a + A;
      mem := mem[freeList + SIZE_SLOT := Read(mem, a + MAX_FREE_SLOT)];
      mem := mem[freeList + NEXT_SLOT := NULL];
      mem := mem[a + FREE_LIST_SLOT := freeList];
    }

    /** `TAlloc_initialize` (talloc.h:68-79): `pageSize` is what
        `getpagesize` answers and `region` what `mmap` answers for the first
        arena. */
    method Initialize(pageSize: nat, region: Option<nat>)
      requires Valid() && !initialized && PageSizeOk(pageSize)
      requires MapAnswer(region, pageSize * ALLOC_PAGES)
      modifies this
      ensures Valid() && Configured() && pagesize == pageSize
      ensures region.None? ==>
                && !initialized && arenaHead == NULL && arenas == [] && blocks == []
                && mem == old(mem) && arenaTail == old(arenaTail)
      ensures region.Some? ==>
                && initialized && arenas == [region.value] && TailLive()
                && blocks == [FreshBlocks(region.value, minallocsize)]
                && mem == InitArenaMem(old(mem), region.value, minallocsize)
    {
      pagesize := pageSize;
      minallocsize := pagesize * ALLOC_PAGES;
      if region.None? {
        arenaHead := NULL;
        return;
      }
      arenaHead := region.value;
      arenaTail := arenaHead;
      FirstArenaOk(mem, arenaHead, minallocsize);
      InitArena(arenaHead, minallocsize);
      initialized := true;
      arenas := [arenaHead];
      blocks := [FreshBlocks(arenaHead, minallocsize)];
    }

    /** `TAlloc_create_arena` (talloc.h:85-113): `region` is what `mmap`
        answers. It fails when the requirement overflows or the map fails;
        otherwise the mapped region is initialised as a fresh arena of the
        reserved size, and nothing else changes. */
    method CreateArena(spaceNeeded: nat, region: Option<nat>) returns (arena: int)
      requires Configured() && spaceNeeded < WORD_LIMIT
      requires Reserve(spaceNeeded).Bytes? ==> MapAnswer(region, Reserve(spaceNeeded).n)
      modifies this`mem
      ensures arena == NULL <==> Reserve(spaceNeeded).Wraps? || region.None?
      ensures arena == NULL ==> mem == old(mem)
      ensures arena != NULL ==>
                && Reserve(spaceNeeded).Bytes? && arena == region.value
                && Reserve(spaceNeeded).n > OVERHEAD
                && mem == InitArenaMem(old(mem), arena, Reserve(spaceNeeded).n)
    {
      var r := Reserve(spaceNeeded);
      if r.Wraps? {
        return NULL;
      }
      if region.None? {
        return NULL;
      }
      arena := region.value;
      InitArena(arena, r.n);
    }

    /** `TAlloc_alloc_more_space` (talloc.h:117-129): a new arena is linked
        after `state.arena_tail`, the last arena, and becomes the last. */
    method AllocMoreSpace(spaceNeeded: nat, region: Option<nat>) returns (arena: int)
      requires Valid() && initialized && spaceNeeded < WORD_LIMIT
      requires Reserve(spaceNeeded).Bytes? ==> MapAnswer(region, Reserve(spaceNeeded).n)
      modifies this`mem, this`arenaTail, this`arenas, this`blocks
      ensures Valid()
      ensures arena == NULL <==> Reserve(spaceNeeded).Wraps? || region.None?
      ensures arena == NULL ==>
                mem == old(mem) && arenas == old(arenas) && blocks == old(blocks) && arenaTail == old(arenaTail)
      ensures arena != NULL ==>
                && Reserve(spaceNeeded).Bytes? && Reserve(spaceNeeded).n > OVERHEAD
                && region == Some(arena) && 0 < arena
                && arenas == old(arenas) + [arena]
                && blocks == old(blocks) + [FreshBlocks(arena, Reserve(spaceNeeded).n)]
                && arenaTail == arena
                && mem == LinkNewArena(old(mem), old(arenaTail), arena, Reserve(spaceNeeded).n)
    {
      ghost var m0 := mem;
      arena := CreateArena(spaceNeeded, region);
      if arena == NULL {
        return;
      }
      ghost var n := Reserve(spaceNeeded).n;
      ghost var t := arenaTail;
      AppendedArenaOk(m0, arenas, blocks, arena, n);
      mem := mem[arenaTail + ARENA_NEXT_SLOT := arena];
      mem := mem[arena + ARENA_PREV_SLOT := arenaTail];
      assert mem == LinkNewArena(m0, t, arena, n);
      arenaTail := arena;
      arenas := arenas + [arena];
      blocks := blocks + [FreshBlocks(arena, n)];
    }

    /** `TAlloc_free_arena` (talloc.h:133-141) for arena `idx`, which is not
        the first; `unmapped` is whether `munmap` succeeds. Only then does
        the arena leave the list; when it was the last, its predecessor
        becomes `state.arena_tail`, which talloc.h:133-141 omit. */
    method FreeArena(arena: int, unmapped: bool, ghost idx: nat)
      requires Valid() && 0 < idx < |arenas| && arena == arenas[idx]
      modifies this`mem, this`arenaTail, this`arenas, this`blocks
      ensures Valid()
      ensures !unmapped ==>
                mem == old(mem) && arenas == old(arenas) && blocks == old(blocks) && arenaTail == old(arenaTail)
      ensures unmapped ==>
                && mem == Unlink(old(mem), old(arenas)[idx - 1], NextOf(old(arenas), idx))
                && arenas == Drop(old(arenas), idx) && blocks == Drop(old(blocks), idx)
                && arenaTail == arenas[|arenas| - 1]
    {
      ArenaLinks(mem, arenas, blocks, idx);
      var prev := Read(mem, arena + ARENA_PREV_SLOT);
      var next := Read(mem, arena + ARENA_NEXT_SLOT);
      if unmapped {
        ArenasRemove(mem, arenas, blocks, idx);
        DropTail(mem, arenas, blocks, idx);
        mem := mem[prev + ARENA_NEXT_SLOT := next];
        if next != NULL {
          mem := mem[next + ARENA_PREV_SLOT := prev];
        } else {
          arenaTail := prev;
        }
        arenas := Drop(arenas, idx);
        blocks := Drop(blocks, idx);
      }
    }

    /** `TAlloc_find_arena` (talloc.h:168-172): the first arena in list
        order whose range holds `ptr`, or NULL when none does. */
    method FindArena(ptr: int) returns (arena: int, ghost idx: nat)
      requires Valid()
      ensures arena == NULL <==> forall k :: 0 <= k < |arenas| ==> !PtrInArena(mem, arenas[k], ptr)
      ensures arena != NULL ==>
                && idx < |arenas| && arena == arenas[idx] && PtrInArena(mem, arena, ptr)
                && forall k :: 0 <= k < idx ==> !PtrInArena(mem, arenas[k], ptr)
    {
      arena := arenaHead;
      idx := 0;
      if arenas != [] {
        ArenaNext(mem, arenas, blocks, 0);
      }
      while arena != NULL && !PtrInArena(mem, arena, ptr)
        invariant idx <= |arenas|
        invariant arena == (if idx < |arenas| then arenas[idx] else NULL)
        invariant idx < |arenas| ==> arena != NULL
        invariant forall k :: 0 <= k < idx ==> !PtrInArena(mem, arenas[k], ptr)
        decreases |arenas| - idx
      {
        ArenaNext(mem, arenas, blocks, idx);
        arena := Read(mem, arena + ARENA_NEXT_SLOT);
        idx := idx + 1;
        if idx < |arenas| {
          ArenaNext(mem, arenas, blocks, idx);
        }
      }
    }

    /** `TAlloc_coalesce` (talloc.h:145-152); a chunk's size is a `size_t`. */
    method Coalesce(c: int)
      requires 0 <= Read(mem, c + SIZE_SLOT)
      modifies this`mem
      ensures mem == CoalesceMem(old(mem), c)
    {
      if Read(mem, c + NEXT_SLOT) == c + Read(mem, c + SIZE_SLOT) + H {
        mem := mem[c + SIZE_SLOT := Read(mem, c + SIZE_SLOT) + H + Read(mem, Read(mem, c + NEXT_SLOT) + SIZE_SLOT)];
        mem := mem[c + NEXT_SLOT := Read(mem, Read(mem, c + NEXT_SLOT) + NEXT_SLOT)];
      }
    }

    /** `TAlloc_adjust_space_for_new_chunk` (talloc.h:156-160). */
    method AdjustSpace(a: int, c: int)
      modifies this`mem
      ensures mem == AdjustMem(old(mem), a, c)
    {
      if Read(mem, c + SIZE_SLOT) > Read(mem, a + MAX_FREE_SLOT) {
        mem := mem[a + MAX_FREE_SLOT := Read(mem, c + SIZE_SLOT)];
      }
    }

    /** The walk of talloc.h:201-204 over a free list holding `fs`, none of
        whose chunks is at `c`: it stops at the last chunk below `c`. */
    method FindInsertion(a: int, c: int, ghost fs: seq<Chunk>) returns (ia: int, ghost j: nat)
      requires List(mem, Read(mem, a + FREE_LIST_SLOT), fs) == true
      requires forall k :: 0 <= k < |fs| ==> fs[k].addr != c
      requires Read(mem, a + FREE_LIST_SLOT) != NULL && Read(mem, a + FREE_LIST_SLOT) <= c
      ensures InsertionPoint(fs, c, ia, j) && Read(mem, ia + SIZE_SLOT) == fs[j].size
    {
      ia := Read(mem, a + FREE_LIST_SLOT);
      ghost var L := ia;
      SegAt(mem, L, fs, NULL, 0);
      j := 0;
      while Read(mem, ia + NEXT_SLOT) != NULL && Read(mem, ia + NEXT_SLOT) < c
        invariant j < |fs| && ia == fs[j].addr && ia < c
        invariant Read(mem, ia + SIZE_SLOT) == fs[j].size
        invariant Read(mem, ia + NEXT_SLOT) == Start(fs[j + 1..], NULL)
        decreases |fs| - j
      {
        SegAt(mem, L, fs, NULL, j + 1);
        ia := Read(mem, ia + NEXT_SLOT);
        j := j + 1;
      }
      if j + 1 < |fs| {
        SegAt(mem, L, fs, NULL, j + 1);
      }
    }
 
    /** talloc.h:190-211: the chunk at `c`, none of the free list's, is
        linked into the free list of the arena at `a` in address order,
        merged with the free chunks that touch it, and `max_free_space`
        adjusted; `ia` is where the walk stopped when it ran. */
    method InsertChunk(a: int, c: int, ghost fs: seq<Chunk>) returns (ghost ia: int, ghost j: nat)
      requires List(mem, Read(mem, a + FREE_LIST_SLOT), fs) == true
      requires forall k :: 0 <= k < |fs| ==> fs[k].addr != c
      requires Above(fs, a + A) && a + A <= c && 0 <= Read(mem, c + SIZE_SLOT)
      modifies this`mem
      ensures Read(old(mem), a + FREE_LIST_SLOT) != NULL && Read(old(mem), a + FREE_LIST_SLOT) <= c ==>
                InsertionPoint(fs, c, ia, j)
      ensures mem == InsertFreed(old(mem), a, c, ia)
    {
      ia, j := NULL, 0;
      if Read(mem, a + FREE_LIST_SLOT) == NULL {
        mem := mem[a + FREE_LIST_SLOT := c];
        mem := mem[c + NEXT_SLOT := NULL];
        mem := mem[a + MAX_FREE_SLOT := Read(mem, c + SIZE_SLOT)];
      } else if c < Read(mem, a + FREE_LIST_SLOT) {
        mem := mem[c + NEXT_SLOT := Read(mem, a + FREE_LIST_SLOT)];
        mem := mem[a + FREE_LIST_SLOT := c];
        Coalesce(c);
        AdjustSpace(a, c);
      } else {
        var insertAfter;
        insertAfter, j := FindInsertion(a, c, fs);
        ia := insertAfter;
        mem := mem[c + NEXT_SLOT := Read(mem, insertAfter + NEXT_SLOT)];
        mem := mem[insertAfter + NEXT_SLOT := c];
        Coalesce(c);
        AdjustSpace(a, c);
        Coalesce(insertAfter);
        AdjustSpace(a, insertAfter);
      }
    }
 
    /** `TAlloc_free` acts on `ptr`: the allocator is initialised, an arena
        holds `ptr`, and the header before it carries the magic word
        (talloc.h:179-186). */
    ghost predicate Accepts(ptr: int)
      reads this
    {
      && initialized
      && (exists k :: 0 <= k < |arenas| && PtrInArena(mem, arenas[k], ptr))
      && MagicOf(Read(mem, ptr - H + MAGIC_SLOT)) == MAGIC
    }

    /** What the caller of `TAlloc_free` promises: a pointer that passes
        those checks is one `TAlloc_malloc` handed out and that is not yet
        freed, so an allocated block of its arena starts at its header. */
    ghost predicate FreeOk(ptr: int)
      reads this
    {
      forall k :: 0 <= k < |arenas| && PtrInArena(mem, arenas[k], ptr) && MagicOf(Read(mem, ptr - H + MAGIC_SLOT)) == MAGIC ==>
        k < |blocks| && exists i :: 0 <= i < |blocks[k]| && blocks[k][i].addr == ptr - H && blocks[k][i].status == Used
    }

    /** `TAlloc_free` (talloc.h:178-217); `unmapped` is whether `munmap`
        succeeds. A pointer the checks reject changes nothing. Otherwise
        block `i` of arena `idx`, the first arena holding `ptr`, is released
        into the free list, merged with its free neighbours; the arena is
        then unmapped and unlinked exactly when it is not the first, it is
        one free chunk again, and `munmap` succeeds. */
    method Free(ptr: int, unmapped: bool) returns (ghost idx: nat, ghost i: nat, ghost ia: int)
      requires Valid() && FreeOk(ptr)
      modifies this`mem, this`arenaTail, this`arenas, this`blocks
      ensures Valid()
      ensures !old(Accepts(ptr)) ==>
                mem == old(mem) && arenas == old(arenas) && blocks == old(blocks) && arenaTail == old(arenaTail)
      ensures old(Accepts(ptr)) ==>
                && idx < |old(arenas)| && PtrInArena(old(mem), old(arenas)[idx], ptr)
                && (forall k :: 0 <= k < idx ==> !PtrInArena(old(mem), old(arenas)[k], ptr))
                && i < |old(blocks)[idx]| && old(blocks)[idx][i].addr == ptr - H && old(blocks)[idx][i].status == Used
                && var m1 := InsertFreed(old(mem), old(arenas)[idx], ptr - H, ia);
                   var rel := Release(old(blocks)[idx], i);
                   var gone := idx > 0 && unmapped && |rel| == 1 && rel[0].status.Free?;
                   && (gone ==>
                         && mem == Unlink(m1, old(arenas)[idx - 1], NextOf(old(arenas), idx))
                         && arenas == Drop(old(arenas), idx) && blocks == Drop(old(blocks)[idx := rel], idx))
                   && (!gone ==> mem == m1 && arenas == old(arenas) && blocks == old(blocks)[idx := rel])
    {
      idx, i, ia := 0, 0, NULL;
      if !initialized {
        return;
      }
      var arena;
      arena, idx := FindArena(ptr);
      if arena == NULL {
        return;
      }
      var header := ptr - H;
      if MagicOf(Read(mem, header + MAGIC_SLOT)) != MAGIC {
        return;
      }
      var chunk := header;
      i :| 0 <= i < |blocks[idx]| && blocks[idx][i].addr == chunk && blocks[idx][i].status == Used;
      ia := ReleaseBlock(arena, chunk, idx, i);
      ReleaseArena(arena, unmapped, idx);
    }

    /** talloc.h:188-211 for block `i` of arena `idx`: the block is released
        into the arena's free list, which keeps the list valid. */
    method ReleaseBlock(arena: int, chunk: int, ghost idx: nat, ghost i: nat) returns (ghost ia: int)
      requires Valid() && idx < |arenas| && arena == arenas[idx]
      requires i < |blocks[idx]| && blocks[idx][i].addr == chunk && blocks[idx][i].status == Used
      modifies this`mem, this`blocks
      ensures Valid()
      ensures mem == InsertFreed(old(mem), arena, chunk, ia)
      ensures blocks == old(blocks)[idx := Release(old(blocks)[idx], i)]
    {
      ghost var m0 := mem;
      ghost var bs := blocks[idx];
      FreeableAt(m0, arenas, blocks, idx, i);
      ghost var j;
      ia, j := InsertChunk(arena, chunk, FreeChunks(bs));
      FreedListOk(m0, arenas, blocks, idx, i, ia, j);
      ghost var bss := blocks[idx := Release(bs, i)];
      assert ArenasOk(mem, arenas, bss);
      blocks := bss;
    }

    /** talloc.h:213-216: arena `idx` is unmapped and unlinked exactly when
        it is not the first, it is one free chunk, and `munmap` succeeds. */
    method ReleaseArena(arena: int, unmapped: bool, ghost idx: nat)
      requires Valid() && idx < |arenas| && arena == arenas[idx]
      modifies this`mem, this`arenaTail, this`arenas, this`blocks
      ensures Valid()
      ensures var gone := idx > 0 && unmapped && |old(blocks)[idx]| == 1 && old(blocks)[idx][0].status.Free?;
              && (gone ==>
                    && mem == Unlink(old(mem), old(arenas)[idx - 1], NextOf(old(arenas), idx))
                    && arenas == Drop(old(arenas), idx) && blocks == Drop(old(blocks), idx))
              && (!gone ==> mem == old(mem) && arenas == old(arenas) && blocks == old(blocks))
    {
      ReleasedWhole(mem, arenas, blocks, idx);
      HeadOnlyFirst(mem, arenas, blocks, idx);
      if arena != arenaHead && Allocated(mem, arena) == Read(mem, arena + MAX_FREE_SLOT) + OVERHEAD {
        FreeArena(arena, unmapped, idx);
      }
    }
 
    /** The rescan of talloc.h:295-305 over a free list holding `cs`, all past
        the arena header: `max_free_space` becomes the largest size, 0 for an
        empty list, and nothing else changes. */
    method Rescan(a: int, ghost cs: seq<Chunk>)
      requires List(mem, Read(mem, a + FREE_LIST_SLOT), cs) == true && Above(cs, a + A)
      modifies this`mem
      ensures mem == old(mem)[a + MAX_FREE_SLOT := MaxSize(cs)]
    {
      ghost var m0 := mem;
      ghost var L := Read(mem, a + FREE_LIST_SLOT);
      ListHead(m0, L, cs);
      ScanMaxIsMax(cs);
      if Read(mem, a + FREE_LIST_SLOT) == NULL {
        mem := mem[a + MAX_FREE_SLOT := 0];
      } else {
        var chunk := Read(mem, a + FREE_LIST_SLOT);
        ListAtBelow(m0, L, cs, 0, a + A, a + MAX_FREE_SLOT, 0);
        mem := mem[a + MAX_FREE_SLOT := Read(mem, chunk + SIZE_SLOT)];
        ghost var k := 1;
        chunk := Read(mem, chunk + NEXT_SLOT);
        while chunk != NULL
          invariant 1 <= k <= |cs| && chunk == if k < |cs| then cs[k].addr else NULL
          invariant k < |cs| ==> cs[k].addr != NULL
          invariant mem == m0[a + MAX_FREE_SLOT := ScanMax(cs, k)]
          decreases |cs| - k
        {
          ListAtBelow(m0, L, cs, k, a + A, a + MAX_FREE_SLOT, ScanMax(cs, k));
          if Read(mem, chunk + SIZE_SLOT) > Read(mem, a + MAX_FREE_SLOT) {
            mem := mem[a + MAX_FREE_SLOT := Read(mem, chunk + SIZE_SLOT)];
          }
          chunk := Read(mem, chunk + NEXT_SLOT);
          k := k + 1;
        }
      }
    }

    /** The first-fit walk of talloc.h:256-260 over a free list holding
        `fs`: it stops at the first chunk of at least `size` bytes, with
        `prev` the chunk before it, or at NULL when no chunk is that large. */
    method FindFit(a: int, size: nat, ghost fs: seq<Chunk>) returns (head: int, prev: int, ghost j: nat)
      requires List(mem, Read(mem, a + FREE_LIST_SLOT), fs) == true && 0 < size
      ensures head == NULL ==> MaxSize(fs) < size
      ensures head != NULL ==>
                && j < |fs| && head == fs[j].addr && size <= fs[j].size && MaxSize(fs[..j]) < size
                && prev == (if j == 0 then NULL else fs[j - 1].addr)
    {
      ghost var L := Read(mem, a + FREE_LIST_SLOT);
      head := Read(mem, a + FREE_LIST_SLOT);
      prev := NULL;
      j := 0;
      ListHead(mem, L, fs);
      if fs != [] {
        ListAt(mem, L, fs, 0);
      }
      while head != NULL && Read(mem, head + SIZE_SLOT) < size
        invariant j <= |fs| && head == Start(fs[j..], NULL)
        invariant j < |fs| ==> fs[j].addr != NULL && Read(mem, fs[j].addr + SIZE_SLOT) == fs[j].size
        invariant forall k :: 0 <= k < j ==> fs[k].size < size
        invariant prev == (if j == 0 then NULL else fs[j - 1].addr)
        decreases |fs| - j
      {
        ListAt(mem, L, fs, j);
        prev := head;
        head := Read(mem, head + NEXT_SLOT);
        j := j + 1;
        if j < |fs| {
          ListAt(mem, L, fs, j);
        }
      }
      assert fs[..j] == fs[..j];
    }

    /** talloc.h:264-285 for the free chunk at `head` of the arena at `a`:
        when its excess over `size` exceeds a chunk header, the excess
        becomes a free chunk in front of `head`'s successor, merged with it
        and counted in `max_free_space`; otherwise the whole chunk is handed
        out. `nfc` is the chunk that takes `head`'s place in the list,
        `granted` the size handed out, and `affected` whether
        `max_free_space` may have dropped. */
    method SplitChunk(a: int, head: int, size: nat) returns (nfc: int, granted: int, affected: bool)
      requires a + A <= head
      modifies this`mem
      ensures affected == Affected(old(mem), a, head, size)
      ensures Splits(old(mem), head, size) ==>
                mem == SplitMem(old(mem), a, head, size) && nfc == head + H + size && granted == size
      ensures !Splits(old(mem), head, size) ==>
                && mem == old(mem)
                && nfc == Read(old(mem), head + NEXT_SLOT) && granted == Read(old(mem), head + SIZE_SLOT)
    {
      ghost var m0 := mem;
      SplitKeepsSize(m0, a, head, size);
      var excessSpace := Read(mem, head + SIZE_SLOT) - size;
      granted := size;
      affected := Read(mem, head + SIZE_SLOT) >= Read(mem, a + MAX_FREE_SLOT);
      if excessSpace > H {
        nfc := SplitOff(a, head, size);
        affected := affected && Read(mem, head + SIZE_SLOT) > Read(mem, nfc + SIZE_SLOT);
      } else {
        nfc := Read(mem, head + NEXT_SLOT);
        granted := granted + excessSpace;
      }
    }

    /** talloc.h:272-281: the remainder past `size` bytes of the chunk at
        `head` becomes the free chunk `nfc` in front of `head`'s successor,
        merged with it when they touch and counted in `max_free_space`. */
    method SplitOff(a: int, head: int, size: nat) returns (nfc: int)
      requires a + A <= head && Splits(mem, head, size)
      modifies this`mem
      ensures nfc == head + H + size && mem == SplitMem(old(mem), a, head, size)
    {
      ghost var m0 := mem;
      nfc := head + H + size;
      mem := mem[nfc + SIZE_SLOT := Read(mem, head + SIZE_SLOT) - size - H];
      assert Read(mem, head + NEXT_SLOT) == Read(m0, head + NEXT_SLOT);
      mem := mem[nfc + NEXT_SLOT := Read(mem, head + NEXT_SLOT)];
      ghost var m1 := mem;
      Coalesce(nfc);
      ghost var m2 := mem;
      AdjustSpace(a, nfc);
      SplitMemOfSteps(m0, m1, m2, mem, a, head, size);
    }

    /** talloc.h:287-292 as intended: the chunk at `head` gets the header of
        an allocated block of `granted` bytes, and the list head, or its
        predecessor `prev`, skips to `nfc`. */
    method GrantChunk(a: int, head: int, prev: int, nfc: int, granted: int)
      modifies this`mem
      ensures mem == UnlinkChunk(HeaderMem(old(mem), head, granted), a, prev, nfc)
    {
      mem := mem[head + MAGIC_SLOT := WithMagic(Read(mem, head + MAGIC_SLOT), MAGIC)];
      mem := mem[head + SIZE_SLOT := granted];
      if prev == NULL {
        mem := mem[a + FREE_LIST_SLOT := nfc];
      } else {
        mem := mem[prev + NEXT_SLOT := nfc];
      }
    }

    /** talloc.h:264-292 for the free chunk at `head`, whose list
        predecessor is `prev`; `affected` is talloc.h:268 and 280's verdict
        on `max_free_space`. */
    method TakeMemStep(a: int, head: int, prev: int, size: nat) returns (affected: bool)
      requires a + A <= head
      modifies this`mem
      ensures affected == Affected(old(mem), a, head, size)
      ensures mem == TakeMem(old(mem), a, head, prev, size)
    {
      ghost var m0 := mem;
      var nfc, allocatedSpace;
      nfc, allocatedSpace, affected := SplitChunk(a, head, size);
      ghost var m1 := mem;
      GrantChunk(a, head, prev, nfc, allocatedSpace);
      TakeMemOfSteps(m0, m1, mem, a, head, prev, size, nfc, allocatedSpace);
    }

    /** talloc.h:264-306 for the free chunk at `head`, whose list
        predecessor is `prev`, with `nfs` what the free list holds once the
        chunk is taken. */
    method TakeStep(a: int, head: int, prev: int, size: nat, ghost nfs: seq<Chunk>)
      requires a + A <= head
      requires var mt := TakeMem(mem, a, head, prev, size);
               List(mt, Read(mt, a + FREE_LIST_SLOT), nfs) == true && Above(nfs, a + A)
      modifies this`mem
      ensures mem == MallocMem(old(mem), a, head, prev, size, MaxSize(nfs))
    {
      ghost var m0 := mem;
      var affected := TakeMemStep(a, head, prev, size);
      ghost var mt := mem;
      if affected {
        Rescan(a, nfs);
      }
      MallocMemOfSteps(m0, mt, mem, a, head, prev, size, MaxSize(nfs));
    }

    /** talloc.h:264-306 for block `i` of arena `idx`, where the first-fit
        walk stopped: the block is handed out, split when large enough, and
        `max_free_space` rescanned when it may have dropped; the arena then
        holds `TakeIntended`. */
    method TakeChunk(arena: int, head: int, prev: int, size: nat, ghost idx: nat, ghost i: nat, ghost j: nat)
      requires Valid() && idx < |arenas| && arena == arenas[idx]
      requires FitAt(blocks[idx], i, j, size, prev) && head == blocks[idx][i].addr
      modifies this`mem, this`blocks
      ensures Valid() && blocks == old(blocks)[idx := TakeIntended(old(blocks)[idx], i, size)]
      ensures mem == MallocMem(old(mem), arena, head, prev, size, MaxSize(FreeChunks(blocks[idx])))
    {
      ghost var bs := blocks[idx];
      ghost var nbss := blocks[idx := TakeIntended(bs, i, size)];
      ghost var r := MallocMem(mem, arena, head, prev, size, MaxSize(FreeChunks(TakeIntended(bs, i, size))));
      FitTakeAt(mem, arenas, blocks, idx, i, j, size, prev);
      BlockInBody(mem, arena, bs, i);
      TakeList(mem, arena, bs, i, j, size, prev);
      MallocListOk(mem, arenas, blocks, idx, i, j, size, prev);
      TakeStep(arena, head, prev, size, FreeChunks(TakeIntended(bs, i, size)));
      blocks := nbss;
    }

    /** The walk of talloc.h:223: the first arena in list order whose
        `max_free_space` holds `size` bytes, or NULL when none does. */
    method FindRoomyArena(size: nat) returns (arena: int, ghost idx: nat)
      requires Valid()
      ensures idx <= |arenas| && arena == (if idx < |arenas| then arenas[idx] else NULL)
      ensures arena == NULL <==> idx == |arenas|
      ensures forall k :: 0 <= k < idx ==> MaxSize(FreeChunks(blocks[k])) < size
      ensures idx < |arenas| ==> size <= MaxSize(FreeChunks(blocks[idx]))
    {
      arena := arenaHead;
      idx := 0;
      if arenas != [] {
        ArenaNext(mem, arenas, blocks, 0);
      }
      while arena != NULL && Read(mem, arena + MAX_FREE_SLOT) < size
        invariant idx <= |arenas|
        invariant arena == (if idx < |arenas| then arenas[idx] else NULL)
        invariant idx < |arenas| ==> arena != NULL
        invariant forall k :: 0 <= k < idx ==> Read(mem, arenas[k] + MAX_FREE_SLOT) < size
        decreases |arenas| - idx
      {
        ArenaNext(mem, arenas, blocks, idx);
        arena := Read(mem, arena + ARENA_NEXT_SLOT);
        idx := idx + 1;
        if idx < |arenas| {
          ArenaNext(mem, arenas, blocks, idx);
        }
      }
      ArenasTooSmall(mem, arenas, blocks, idx, size);
      if idx < |arenas| {
        ArenaMax(mem, arenas, blocks, idx);
      }
    }

    /** `TAlloc_get_accommodating_arena` (talloc.h:221-231): the first arena
        in list order whose `max_free_space` holds `size` bytes; when none
        does, a new arena from `TAlloc_alloc_more_space`, or NULL when that
        fails. */
    method GetAccommodatingArena(size: nat, region: Option<nat>) returns (arena: int, ghost idx: nat)
      requires Valid() && initialized && 0 < size < WORD_LIMIT
      requires Reserve(size).Bytes? ==> MapAnswer(region, Reserve(size).n)
      modifies this`mem, this`arenaTail, this`arenas, this`blocks
      ensures Valid() && idx <= |old(arenas)|
      ensures forall k :: 0 <= k < idx ==> MaxSize(FreeChunks(old(blocks)[k])) < size
      ensures arena == NULL <==>
                && (forall k :: 0 <= k < |old(arenas)| ==> MaxSize(FreeChunks(old(blocks)[k])) < size)
                && (Reserve(size).Wraps? || region.None?)
      ensures arena == NULL ==>
                && idx == |old(arenas)|
                && mem == old(mem) && arenas == old(arenas) && blocks == old(blocks)
      ensures arena != NULL ==>
                && idx < |arenas| && arena == arenas[idx] && 0 < arena
                && size <= MaxSize(FreeChunks(blocks[idx]))
      ensures arena != NULL && idx < |old(arenas)| ==>
                mem == old(mem) && arenas == old(arenas) && blocks == old(blocks) && arenaTail == old(arenaTail)
      ensures arena != NULL && idx == |old(arenas)| ==>
                && Reserve(size).Bytes? && Reserve(size).n > OVERHEAD && region == Some(arena)
                && arenas == old(arenas) + [arena]
                && blocks == old(blocks) + [FreshBlocks(arena, Reserve(size).n)]
                && arenaTail == arena
                && mem == LinkNewArena(old(mem), old(arenaTail), arena, Reserve(size).n)
    {
      arena, idx := FindRoomyArena(size);
      if arena == NULL {
        arena := AllocMoreSpace(size, region);
        if arena != NULL {
          FreshMax(arena, Reserve(size).n);
        }
      } else {
        ArenaMax(mem, arenas, blocks, idx);
      }
    }

    /** talloc.h:250-310 once the allocator is initialised and `size` is
        not 0: the first arena with room for `size` bytes, or a new one, is
        found; in it the first free chunk of `size` bytes is handed out.
        NULL comes back exactly when no arena has room and no new arena can
        be made, and then nothing changes. Otherwise block `i` (`bs` before
        the take) of arena `idx` is taken, the arenas before it lacking
        room, and `ptr` is the address past its header. `bss1` are the
        blocks once the arena is found: as before, or with a new arena
        appended. */
    method Allocate(size: nat, region: Option<nat>)
      returns (ptr: int, ghost idx: nat, ghost bs: seq<Block>, ghost i: nat, ghost j: nat, ghost prev: int,
               ghost bss1: seq<seq<Block>>)
      requires Valid() && initialized && 0 < size < WORD_LIMIT
      requires Reserve(size).Bytes? ==> MapAnswer(region, Reserve(size).n)
      modifies this`mem, this`arenaTail, this`arenas, this`blocks
      ensures Valid()
      ensures ptr == NULL <==>
                && (forall k :: 0 <= k < |old(arenas)| ==> MaxSize(FreeChunks(old(blocks)[k])) < size)
                && (Reserve(size).Wraps? || region.None?)
      ensures ptr == NULL ==> mem == old(mem) && arenas == old(arenas) && blocks == old(blocks)
      ensures ptr != NULL ==>
                && idx < |arenas| && idx <= |old(arenas)|
                && (forall k :: 0 <= k < idx ==> MaxSize(FreeChunks(old(blocks)[k])) < size)
                && FitAt(bs, i, j, size, prev) && MaxSize(FreeChunks(bs[..i])) < size
                && idx < |bss1| && bs == bss1[idx] && blocks == bss1[idx := TakeIntended(bs, i, size)]
                && blocks[idx] == TakeIntended(bs, i, size) && ptr == bs[i].addr + H
      ensures ptr != NULL && idx < |old(arenas)| ==>
                arenas == old(arenas) && bss1 == old(blocks)
      ensures ptr != NULL && idx == |old(arenas)| ==>
                && Reserve(size).Bytes? && Reserve(size).n > OVERHEAD && region == Some(arenas[idx])
                && arenas == old(arenas) + [arenas[idx]]
                && bss1 == old(blocks) + [FreshBlocks(arenas[idx], Reserve(size).n)]
    {
      ptr, bs, i, j, prev, bss1 := NULL, [], 0, 0, NULL, blocks;
      var arena;
      arena, idx := GetAccommodatingArena(size, region);
      if arena == NULL {
        return;
      }
      bs, bss1 := blocks[idx], blocks;
      ptr, i, j, prev := AllocateIn(arena, size, idx, bs);
    }

    /** talloc.h:254-310 in arena `idx`, whose largest free chunk holds
        `size` bytes: the first such chunk, block `i` and the `j`-th free
        chunk, is handed out, and the pointer is the address past its
        header. */
    method AllocateIn(arena: int, size: nat, ghost idx: nat, ghost bs: seq<Block>) returns (ptr: int, ghost i: nat, ghost j: nat, ghost prev: int)
      requires Valid() && idx < |arenas| && arena == arenas[idx] && bs == blocks[idx]
      requires 0 < size <= MaxSize(FreeChunks(bs))
      modifies this`mem, this`blocks
      ensures Valid() && ptr != NULL
      ensures FitAt(bs, i, j, size, prev) && MaxSize(FreeChunks(bs[..i])) < size
      ensures ptr == bs[i].addr + H
      ensures blocks == old(blocks)[idx := TakeIntended(bs, i, size)]
      ensures mem == MallocMem(old(mem), arena, bs[i].addr, prev, size, MaxSize(FreeChunks(blocks[idx])))
    {
      ArenaList(mem, arenas, blocks, idx);
      ArenaNext(mem, arenas, blocks, idx);
      var head, before;
      head, before, j := FindFit(arena, size, FreeChunks(bs));
      if head == NULL {
        assert false;
        return;
      }
      prev := before;
      i := FreeChunksIndex(bs, j);
      TakeChunk(arena, head, before, size, idx, i, j);
      ptr := head + H;
    }

    /** What `getpagesize` and `mmap` may answer to a `TAlloc_malloc` of
        `size` bytes: `pageSize` and `initRegion` for the first arena while
        the allocator is not initialised, and `region` for a new arena of
        the reserved size, which must also miss that first arena. */
    ghost predicate MallocAnswers(size: nat, pageSize: nat, initRegion: Option<nat>, region: Option<nat>)
      reads this
    {
      var ps := if initialized then pagesize else pageSize;
      && (!initialized ==> PageSizeOk(pageSize) && MapAnswer(initRegion, pageSize * ALLOC_PAGES))
      && (PageSizeOk(ps) && size < WORD_LIMIT ==>
            var r := IntendedReservation(size, ps * ALLOC_PAGES, ps);
            r.Bytes? ==>
              && MapAnswer(region, r.n)
              && (!initialized && initRegion.Some? && region.Some? ==>
                    Apart(initRegion.value, pageSize * ALLOC_PAGES, region.value, r.n)))
    }

    /** `TAlloc_malloc` (talloc.h:246-310): the allocator is initialised
        first when it is not; when that fails nothing is allocated, which
        talloc.h:247 omits. A request for 0 bytes gets NULL. Otherwise NULL
        comes back only when no arena has room and no new arena can be
        made, and then nothing changes. A pointer that comes back is the
        address past the header of an allocated block of at least `size`
        bytes, one that `TAlloc_free` accepts: the first fit, block `i`
        (`bs` before the take) of the first arena `idx` with room. `bss1`
        are the blocks once that arena is found: those before the call, or
        the fresh first arena, with a new arena appended when none had room.
        Every other block is as it was, so no live allocation is lost. */
    method Malloc(size: nat, pageSize: nat, initRegion: Option<nat>, region: Option<nat>)
      returns (ptr: int, ghost idx: nat, ghost i: nat, ghost bs: seq<Block>, ghost bss1: seq<seq<Block>>)
      requires Valid() && size < WORD_LIMIT && MallocAnswers(size, pageSize, initRegion, region)
      modifies this
      ensures Valid()
      ensures old(initialized) ==> initialized && pagesize == old(pagesize) && minallocsize == old(minallocsize)
      ensures !old(initialized) ==>
                pagesize == pageSize && minallocsize == pageSize * ALLOC_PAGES && (initialized <==> initRegion.Some?)
      ensures !initialized ==>
                ptr == NULL && mem == old(mem) && arenas == [] && blocks == [] && arenaTail == old(arenaTail)
      ensures !old(initialized) && initialized && ptr == NULL ==>
                && initRegion.Some? && arenas == [initRegion.value]
                && blocks == [FreshBlocks(initRegion.value, minallocsize)]
                && mem == InitArenaMem(old(mem), initRegion.value, minallocsize)
      ensures size == 0 ==> ptr == NULL
      ensures ptr == NULL && initialized && 0 < size ==>
                && (forall k :: 0 <= k < |arenas| ==> MaxSize(FreeChunks(blocks[k])) < size)
                && (Reserve(size).Wraps? || region.None?)
      ensures old(initialized) && ptr == NULL ==> mem == old(mem) && arenas == old(arenas) && blocks == old(blocks)
      ensures ptr != NULL ==>
                && 0 < size && HandedOut(ptr, idx, i, size)
                && (old(initialized) ==>
                      Served(ptr, idx, i, size, bs, bss1, old(arenas), old(blocks), arenas, blocks, Reserve(size), region))
                && (!old(initialized) ==>
                      && initRegion.Some?
                      && Served(ptr, idx, i, size, bs, bss1, [initRegion.value],
                                [FreshBlocks(initRegion.value, minallocsize)], arenas, blocks, Reserve(size), region))
                && LiveKept(old(blocks), blocks)
    {
      ptr, idx, i, bs, bss1 := NULL, 0, 0, [], [];
      if !initialized {
        Initialize(pageSize, initRegion);
        if !initialized {
          return;
        }
      }
      if size == 0 {
        return;
      }
      ptr, idx, i, bs, bss1 := MallocReady(size, region);
    }

    /** A request of `size` bytes to an initialised allocator
        (talloc.h:251-309): NULL comes back exactly when no arena has room
        and no new arena can be made, and then nothing changes. A pointer
        that comes back is handed out: it is the first fit, block `i` (`bs`
        before the take), of the first arena `idx` with room, which is a new
        arena appended to the list when none had room; every other block of
        every arena is as before, so no live allocation is lost. */
    method MallocReady(size: nat, region: Option<nat>)
      returns (ptr: int, ghost idx: nat, ghost i: nat, ghost bs: seq<Block>, ghost bss1: seq<seq<Block>>)
      requires Valid() && initialized && 0 < size < WORD_LIMIT
      requires Reserve(size).Bytes? ==> MapAnswer(region, Reserve(size).n)
      modifies this`mem, this`arenaTail, this`arenas, this`blocks
      ensures Valid()
      ensures ptr == NULL <==>
                && (forall k :: 0 <= k < |old(arenas)| ==> MaxSize(FreeChunks(old(blocks)[k])) < size)
                && (Reserve(size).Wraps? || region.None?)
      ensures ptr == NULL ==> mem == old(mem) && arenas == old(arenas) && blocks == old(blocks)
      ensures ptr != NULL ==>
                && HandedOut(ptr, idx, i, size)
                && Served(ptr, idx, i, size, bs, bss1, old(arenas), old(blocks), arenas, blocks, Reserve(size), region)
    {
      ghost var j, prev;
      ptr, idx, bs, i, j, prev, bss1 := Allocate(size, region);
      if ptr != NULL {
        GrantedHandedOut(ptr, idx, i, size, bs, bss1);
        FitAtFirstFit(bs, i, j, size, prev);
        assert old(blocks) <= bss1;
        TakeKeepsLive(old(blocks), bss1, idx, i, size);
      }
    }

    /** The block granted by `TakeIntended` is handed out. */
    lemma GrantedHandedOut(ptr: int, idx: nat, i: nat, size: nat, bs: seq<Block>, bss1: seq<seq<Block>>)
      requires Valid() && idx < |arenas| && idx < |bss1| && i < |bs| && size <= bs[i].size
      requires blocks == bss1[idx := TakeIntended(bs, i, size)] && ptr == bs[i].addr + H
      ensures HandedOut(ptr, idx, i, size)
    {
      GrantedAt(bs, i, size);
      HandedOutAccepted(ptr, idx, i, size);
    }

    /** `ptr` is the address past the header of block `i` of arena `idx`,
        an allocated block of at least `size` bytes, and `TAlloc_free`
        accepts it. */
    ghost predicate HandedOut(ptr: int, idx: nat, i: nat, size: nat)
      reads this
    {
      && idx < |arenas| && idx < |blocks| && i < |blocks[idx]|
      && blocks[idx][i].status == Used && blocks[idx][i].addr + H == ptr && size <= blocks[idx][i].size
      && Accepts(ptr) && FreeOk(ptr)
    }

    /** The address past the header of an allocated block passes the checks
        of `TAlloc_free` (talloc.h:179-186), and the block is the one found
        there: what `TAlloc_malloc` hands out, `TAlloc_free` takes back. */
    lemma HandedOutAccepted(ptr: int, idx: nat, i: nat, size: nat)
      requires Valid() && idx < |arenas| && i < |blocks[idx]| && blocks[idx][i].status == Used
      requires size <= blocks[idx][i].size && ptr == blocks[idx][i].addr + H
      ensures HandedOut(ptr, idx, i, size)
    {
      UsedPtrAccepted(mem, arenas, blocks, idx, i);
    }
  }
}
