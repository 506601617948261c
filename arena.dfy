/** One arena in memory: its header (talloc.h:32-38), the blocks of its body,
    and what each step of `TAlloc_init_arena`, `TAlloc_free` and
    `TAlloc_malloc` does to them. */
module Arena {
  import opened Layout
  import opened FreeList
  import opened Memory
  import opened Blocks

  /** `arena->allocated`. */
  function Allocated(m: Mem, a: int): int
  {
    Read(m, a + ALLOCATED_SLOT)
  }

  /** An allocated block's header: its size and the magic word (talloc.h:287-289). */
  ghost predicate HeaderOk(m: Mem, b: Block)
  {
    Read(m, b.addr + SIZE_SLOT) == b.size && MagicOf(Read(m, b.addr + MAGIC_SLOT)) == MAGIC
  }

  /** Every allocated block is nonempty and carries its header. */
  ghost predicate UsedOk(m: Mem, bs: seq<Block>)
  {
    forall k :: 0 <= k < |bs| && bs[k].status == Used ==> 0 < bs[k].size && HeaderOk(m, bs[k])
  }

  /** The arena at `a` holds the blocks `bs`: they tile its body, no two free
      blocks touch, every free block is on the free list in address order,
      allocated blocks carry their headers, and `max_free_space` is the size
      of the largest free chunk. */
  ghost predicate ArenaOk(m: Mem, a: int, bs: seq<Block>)
  {
    var alloc := Allocated(m, a);
    && 0 < a && OVERHEAD < alloc && a + alloc <= WORD_LIMIT
    && Tiles(bs, a + A, a + alloc) && NoAdjacentFree(bs) && NoLost(bs)
    && List(m, Read(m, a + FREE_LIST_SLOT), FreeChunks(bs))
    && UsedOk(m, bs)
    && Read(m, a + MAX_FREE_SLOT) == MaxSize(FreeChunks(bs))
  }

  /** Both memories agree on `[lo, hi)`. */
  ghost predicate AgreeOn(m1: Mem, m2: Mem, lo: int, hi: int)
  {
    forall x :: lo <= x < hi ==> Read(m1, x) == Read(m2, x)
  }

  /** Both memories agree on everything an arena's invariant reads: the
      `allocated`, `max_free_space` and `free_list` slots and the body. */
  ghost predicate ArenaAgree(m1: Mem, m2: Mem, a: int)
  {
    && Read(m1, a + ALLOCATED_SLOT) == Read(m2, a + ALLOCATED_SLOT)
    && Read(m1, a + MAX_FREE_SLOT) == Read(m2, a + MAX_FREE_SLOT)
    && Read(m1, a + FREE_LIST_SLOT) == Read(m2, a + FREE_LIST_SLOT)
    && AgreeOn(m1, m2, a + A, a + Allocated(m1, a))
  }

  lemma {:induction false} ChunksAgree(m1: Mem, m2: Mem, cs: seq<Chunk>, lo: nat, hi: nat)
    requires Within(cs, lo, hi) && AgreeOn(m1, m2, lo, hi)
    ensures SameHeaders(m1, m2, cs)
  {
    forall k | 0 <= k < |cs|
      ensures Read(m1, cs[k].addr + SIZE_SLOT) == Read(m2, cs[k].addr + SIZE_SLOT)
      ensures Read(m1, cs[k].addr + NEXT_SLOT) == Read(m2, cs[k].addr + NEXT_SLOT)
    {
      assert lo <= cs[k].addr && cs[k].addr + H <= hi;
    }
  }

  lemma {:induction false} UsedAgree(m1: Mem, m2: Mem, bs: seq<Block>, lo: nat, hi: nat)
    requires Tiles(bs, lo, hi) && UsedOk(m1, bs) && AgreeOn(m1, m2, lo, hi)
    ensures UsedOk(m2, bs)
  {
    forall k | 0 <= k < |bs| && bs[k].status == Used ensures HeaderOk(m2, bs[k]) {
      TilesWithin(bs, lo, hi, k);
      assert Read(m1, bs[k].addr + SIZE_SLOT) == Read(m2, bs[k].addr + SIZE_SLOT);
      assert Read(m1, bs[k].addr + MAGIC_SLOT) == Read(m2, bs[k].addr + MAGIC_SLOT);
    }
  }

  /** An arena's invariant only reads its own header slots and body. */
  lemma {:induction false} ArenaFrame(m1: Mem, m2: Mem, a: int, bs: seq<Block>)
    requires ArenaOk(m1, a, bs) && ArenaAgree(m1, m2, a)
    ensures ArenaOk(m2, a, bs)
  {
    var lo := a + A;
    var hi := a + Allocated(m1, a);
    TilesChunksWithin(bs, lo, hi);
    ChunksAgree(m1, m2, FreeChunks(bs), lo, hi);
    SegFrame(m1, m2, Read(m1, a + FREE_LIST_SLOT), FreeChunks(bs), NULL);
    UsedAgree(m1, m2, bs, lo, hi);
  }

  /** Memory after `TAlloc_init_arena(a, alloc)` (talloc.h:55-65). */
  function InitArenaMem(m: Mem, a: int, alloc: int): (r: Mem)
    requires OVERHEAD < alloc
  {
    m[a + ALLOCATED_SLOT := alloc]
     [a + MAX_FREE_SLOT := alloc - OVERHEAD]
     [a + ARENA_NEXT_SLOT := NULL]
     [a + ARENA_PREV_SLOT := NULL]
     [a + A + SIZE_SLOT := alloc - OVERHEAD]
     [a + A + NEXT_SLOT := NULL]
     [a + FREE_LIST_SLOT := a + A]
  }

  /** Initialising an arena writes only inside it. */
  lemma {:induction false} InitArenaFrame(m: Mem, a: int, alloc: int)
    requires OVERHEAD < alloc
    ensures forall x :: (x < a || a + alloc <= x) ==> Read(InitArenaMem(m, a, alloc), x) == Read(m, x)
  {
  }

  /** The single free chunk a fresh arena of `alloc` bytes holds. */
  function FreshBlocks(a: int, alloc: int): seq<Block>
    requires 0 <= a && OVERHEAD < alloc
  {
    [Block(a + A, alloc - OVERHEAD, Free)]
  }

  /** A freshly initialised arena is one free chunk spanning its body,
      recorded as the largest, and linked to no other arena. */
  lemma {:induction false} InitArenaOk(m: Mem, a: int, alloc: int)
    requires 0 < a && OVERHEAD < alloc && a + alloc <= WORD_LIMIT
    ensures ArenaOk(InitArenaMem(m, a, alloc), a, FreshBlocks(a, alloc))
    ensures NextLink(InitArenaMem(m, a, alloc), a) == NULL
    ensures PrevLink(InitArenaMem(m, a, alloc), a) == NULL
  {
    var r := InitArenaMem(m, a, alloc);
    var bs := FreshBlocks(a, alloc);
    var c := Chunk(a + A, alloc - OVERHEAD);
    FreeChunksOne(bs[0]);
    assert FreeChunks(bs) == [c];
    assert [c][1..] == [];
    assert List(r, a + A, [c]);
    assert MaxSize([c]) == c.size;
  }

  /** `TAlloc_adjust_space_for_new_chunk(a, c)` on memory (talloc.h:156-160). */
  function AdjustMem(m: Mem, a: int, c: int): Mem
  {
    if Read(m, c + SIZE_SLOT) > Read(m, a + MAX_FREE_SLOT) then m[a + MAX_FREE_SLOT := Read(m, c + SIZE_SLOT)]
    else m
  }

  /** Only `max_free_space` changes, and it becomes the larger of its old
      value and the chunk's size. */
  lemma {:induction false} AdjustFrame(m: Mem, a: int, c: int)
    ensures var r := AdjustMem(m, a, c);
            && (forall x :: x != a + MAX_FREE_SLOT ==> Read(r, x) == Read(m, x))
            && Read(r, a + MAX_FREE_SLOT) ==
               (if Read(m, c + SIZE_SLOT) > Read(m, a + MAX_FREE_SLOT) then Read(m, c + SIZE_SLOT)
                else Read(m, a + MAX_FREE_SLOT))
  {
  }

  /** The arena after `k` in the list, or NULL. */
  function NextOf(arenas: seq<int>, k: nat): int
    requires k < |arenas|
  {
    if k + 1 < |arenas| then arenas[k + 1] else NULL
  }

  /** The arena before `k` in the list, or NULL. */
  function PrevOf(arenas: seq<int>, k: nat): int
    requires k < |arenas|
  {
    if k > 0 then arenas[k - 1] else NULL
  }

  /** Two address ranges `[a1, a1 + n1)` and `[a2, a2 + n2)` do not overlap. */
  predicate Apart(a1: int, n1: int, a2: int, n2: int)
  {
    a1 + n1 <= a2 || a2 + n2 <= a1
  }

  /** Every arena of the list holds its blocks. */
  ghost predicate AllArenasOk(m: Mem, arenas: seq<int>, bss: seq<seq<Block>>)
  {
    |arenas| == |bss| && forall k {:trigger ArenaOk(m, arenas[k], bss[k])} :: 0 <= k < |arenas| ==> ArenaOk(m, arenas[k], bss[k])
  }

  /** No two arenas overlap. */
  ghost predicate Disjoint(m: Mem, arenas: seq<int>)
  {
    forall k, l {:trigger Apart(arenas[k], Allocated(m, arenas[k]), arenas[l], Allocated(m, arenas[l]))} ::
      0 <= k < l < |arenas| ==> Apart(arenas[k], Allocated(m, arenas[k]), arenas[l], Allocated(m, arenas[l]))
  }

  /** `arena->next`. */
  function NextLink(m: Mem, a: int): int
  {
    Read(m, a + ARENA_NEXT_SLOT)
  }

  /** `arena->prev`. */
  function PrevLink(m: Mem, a: int): int
  {
    Read(m, a + ARENA_PREV_SLOT)
  }

  /** The `next` and `prev` slots chain the arenas in list order. */
  ghost predicate Linked(m: Mem, arenas: seq<int>)
  {
    forall k {:trigger NextLink(m, arenas[k])} {:trigger PrevLink(m, arenas[k])} :: 0 <= k < |arenas| ==>
      NextLink(m, arenas[k]) == NextOf(arenas, k) && PrevLink(m, arenas[k]) == PrevOf(arenas, k)
  }

  /** The whole arena list (talloc.h:25-38, 43-49). */
  ghost predicate ArenasOk(m: Mem, arenas: seq<int>, bss: seq<seq<Block>>)
  {
    AllArenasOk(m, arenas, bss) && Disjoint(m, arenas) && Linked(m, arenas)
  }

  /** `m` differs from `m0` only in the `max_free_space` and `free_list`
      slots of the arena at `a` and in its body. */
  ghost predicate BodyOnly(m0: Mem, m: Mem, a: int)
  {
    forall x :: Read(m0, x) != Read(m, x) ==>
      (a + MAX_FREE_SLOT <= x < a + ARENA_NEXT_SLOT) || (a + A <= x < a + Allocated(m0, a))
  }

  lemma {:induction false} ApartOf(m: Mem, arenas: seq<int>, k: nat, l: nat)
    requires Disjoint(m, arenas) && k < |arenas| && l < |arenas| && k != l
    ensures Apart(arenas[k], Allocated(m, arenas[k]), arenas[l], Allocated(m, arenas[l]))
  {
    if l < k {
      assert Apart(arenas[l], Allocated(m, arenas[l]), arenas[k], Allocated(m, arenas[k]));
    }
  }

  /** Agreement on a whole arena covers what its invariant and its links read. */
  lemma {:induction false} AgreeArena(m0: Mem, m: Mem, a: int)
    requires OVERHEAD < Allocated(m0, a) && AgreeOn(m0, m, a, a + Allocated(m0, a))
    ensures ArenaAgree(m0, m, a)
    ensures NextLink(m0, a) == NextLink(m, a)
    ensures PrevLink(m0, a) == PrevLink(m, a)
  {
  }

  /** A change confined to one arena spares every other arena. */
  lemma {:induction false} OtherArenaKept(m0: Mem, m: Mem, arenas: seq<int>, bss: seq<seq<Block>>, idx: nat, k: nat)
    requires AllArenasOk(m0, arenas, bss) && Disjoint(m0, arenas)
    requires idx < |arenas| && k < |arenas| && k != idx && BodyOnly(m0, m, arenas[idx])
    ensures ArenaAgree(m0, m, arenas[k])
    ensures NextLink(m0, arenas[k]) == NextLink(m, arenas[k])
    ensures PrevLink(m0, arenas[k]) == PrevLink(m, arenas[k])
  {
    ApartOf(m0, arenas, k, idx);
    assert ArenaOk(m0, arenas[k], bss[k]) && ArenaOk(m0, arenas[idx], bss[idx]);
    var a := arenas[k];
    forall x | a <= x < a + Allocated(m0, a) ensures Read(m0, x) == Read(m, x) {
    }
    AgreeArena(m0, m, a);
  }

  /** What one arena's step leaves of every arena's slots. */
  lemma {:induction false} ArenaSlotsKept(m0: Mem, m: Mem, arenas: seq<int>, bss: seq<seq<Block>>, idx: nat, k: nat)
    requires AllArenasOk(m0, arenas, bss) && Disjoint(m0, arenas)
    requires idx < |arenas| && k < |arenas| && BodyOnly(m0, m, arenas[idx])
    ensures Allocated(m, arenas[k]) == Allocated(m0, arenas[k])
    ensures NextLink(m0, arenas[k]) == NextLink(m, arenas[k])
    ensures PrevLink(m0, arenas[k]) == PrevLink(m, arenas[k])
    ensures k != idx ==> ArenaOk(m, arenas[k], bss[k])
  {
    if k != idx {
      OtherArenaKept(m0, m, arenas, bss, idx, k);
      ArenaFrame(m0, m, arenas[k], bss[k]);
    } else {
      var a := arenas[k];
      assert Read(m0, a + ALLOCATED_SLOT) == Read(m, a + ALLOCATED_SLOT);
      assert NextLink(m0, a) == NextLink(m, a);
      assert PrevLink(m0, a) == PrevLink(m, a);
    }
  }

  /** Arenas whose `allocated` slots are kept stay disjoint. */
  lemma {:induction false} DisjointKept(m0: Mem, m: Mem, arenas: seq<int>)
    requires Disjoint(m0, arenas)
    requires forall k :: 0 <= k < |arenas| ==> Allocated(m, arenas[k]) == Allocated(m0, arenas[k])
    ensures Disjoint(m, arenas)
  {
  }

  /** Arenas whose link slots are kept stay linked. */
  lemma {:induction false} LinkedKept(m0: Mem, m: Mem, arenas: seq<int>)
    requires Linked(m0, arenas)
    requires forall k :: 0 <= k < |arenas| ==>
               NextLink(m, arenas[k]) == NextLink(m0, arenas[k]) &&
               PrevLink(m, arenas[k]) == PrevLink(m0, arenas[k])
    ensures Linked(m, arenas)
  {
  }

  /** A step inside one arena keeps every arena's `allocated` and link slots. */
  lemma {:induction false} SlotsKept(m0: Mem, m: Mem, arenas: seq<int>, bss: seq<seq<Block>>, idx: nat)
    requires AllArenasOk(m0, arenas, bss) && Disjoint(m0, arenas)
    requires idx < |arenas| && BodyOnly(m0, m, arenas[idx])
    ensures forall k :: 0 <= k < |arenas| ==> Allocated(m, arenas[k]) == Allocated(m0, arenas[k])
    ensures forall k :: 0 <= k < |arenas| ==>
              NextLink(m, arenas[k]) == NextLink(m0, arenas[k]) &&
              PrevLink(m, arenas[k]) == PrevLink(m0, arenas[k])
  {
    forall k | 0 <= k < |arenas|
      ensures Allocated(m, arenas[k]) == Allocated(m0, arenas[k])
      ensures NextLink(m, arenas[k]) == NextLink(m0, arenas[k])
      ensures PrevLink(m, arenas[k]) == PrevLink(m0, arenas[k])
    {
      ArenaSlotsKept(m0, m, arenas, bss, idx, k);
    }
  }

  /** A free or a malloc inside arena `idx` keeps the list valid, with that
      arena's blocks replaced. */
  lemma {:induction false} ArenasUpdate(m0: Mem, m: Mem, arenas: seq<int>, bss: seq<seq<Block>>, idx: nat, bs: seq<Block>)
    requires ArenasOk(m0, arenas, bss) && idx < |arenas|
    requires BodyOnly(m0, m, arenas[idx]) && ArenaOk(m, arenas[idx], bs)
    ensures ArenasOk(m, arenas, bss[idx := bs])
  {
    var bss2 := bss[idx := bs];
    forall k | 0 <= k < |arenas| ensures ArenaOk(m, arenas[k], bss2[k]) {
      ArenaSlotsKept(m0, m, arenas, bss, idx, k);
    }
    SlotsKept(m0, m, arenas, bss, idx);
    DisjointKept(m0, m, arenas);
    LinkedKept(m0, m, arenas);
  }

  /** A change outside an arena's range spares it. */
  lemma {:induction false} FarArenaKept(m0: Mem, m: Mem, a: int, bs: seq<Block>, lo: int, hi: int)
    requires ArenaOk(m0, a, bs) && Apart(a, Allocated(m0, a), lo, hi - lo)
    requires forall x :: (x < lo || hi <= x) ==> Read(m, x) == Read(m0, x)
    ensures ArenaOk(m, a, bs) && Allocated(m, a) == Allocated(m0, a)
    ensures NextLink(m0, a) == NextLink(m, a)
    ensures PrevLink(m0, a) == PrevLink(m, a)
  {
    forall x | a <= x < a + Allocated(m0, a) ensures Read(m0, x) == Read(m, x) {
    }
    AgreeArena(m0, m, a);
    ArenaFrame(m0, m, a, bs);
  }

  /** Writing a fresh arena's memory apart from the list keeps the list. */
  lemma {:induction false} ArenasFar(m0: Mem, m: Mem, arenas: seq<int>, bss: seq<seq<Block>>, lo: int, hi: int)
    requires ArenasOk(m0, arenas, bss)
    requires forall k :: 0 <= k < |arenas| ==> Apart(arenas[k], Allocated(m0, arenas[k]), lo, hi - lo)
    requires forall x :: (x < lo || hi <= x) ==> Read(m, x) == Read(m0, x)
    ensures ArenasOk(m, arenas, bss)
  {
    forall k | 0 <= k < |arenas|
      ensures ArenaOk(m, arenas[k], bss[k])
      ensures Allocated(m, arenas[k]) == Allocated(m0, arenas[k])
      ensures NextLink(m, arenas[k]) == NextLink(m0, arenas[k])
      ensures PrevLink(m, arenas[k]) == PrevLink(m0, arenas[k])
    {
      FarArenaKept(m0, m, arenas[k], bss[k], lo, hi);
    }
    DisjointKept(m0, m, arenas);
    LinkedKept(m0, m, arenas);
  }

  /** A write to an arena's own link slots, or outside it, spares its invariant. */
  lemma {:induction false} LinkSlotSpares(m: Mem, a: int, bs: seq<Block>, x: int, v: int)
    requires ArenaOk(m, a, bs)
    requires x == a + ARENA_NEXT_SLOT || x == a + ARENA_PREV_SLOT || x < a || a + Allocated(m, a) <= x
    ensures ArenaOk(m[x := v], a, bs) && Allocated(m[x := v], a) == Allocated(m, a)
  {
    assert ArenaAgree(m, m[x := v], a);
    ArenaFrame(m, m[x := v], a, bs);
  }

  /** Writing one arena's `next` or `prev` slot spares every arena's
      invariant and size. */
  lemma {:induction false} LinkSlotWrite(m: Mem, arenas: seq<int>, bss: seq<seq<Block>>, j: nat, x: int, v: int)
    requires AllArenasOk(m, arenas, bss) && Disjoint(m, arenas) && j < |arenas|
    requires x == arenas[j] + ARENA_NEXT_SLOT || x == arenas[j] + ARENA_PREV_SLOT
    ensures AllArenasOk(m[x := v], arenas, bss) && Disjoint(m[x := v], arenas)
  {
    var m2 := m[x := v];
    assert ArenaOk(m, arenas[j], bss[j]);
    forall k | 0 <= k < |arenas|
      ensures ArenaOk(m2, arenas[k], bss[k]) && Allocated(m2, arenas[k]) == Allocated(m, arenas[k])
    {
      if k != j {
        ApartOf(m, arenas, k, j);
      }
      LinkSlotSpares(m, arenas[k], bss[k], x, v);
    }
    DisjointKept(m, m2, arenas);
  }

  /** Link slots of distinct arenas are distinct. */
  lemma {:induction false} SlotsDistinct(m: Mem, arenas: seq<int>, bss: seq<seq<Block>>, k: nat, l: nat, c1: int, c2: int)
    requires AllArenasOk(m, arenas, bss) && Disjoint(m, arenas)
    requires k < |arenas| && l < |arenas| && k != l && 0 <= c1 < A && 0 <= c2 < A
    ensures arenas[k] + c1 != arenas[l] + c2
  {
    ApartOf(m, arenas, k, l);
    assert ArenaOk(m, arenas[k], bss[k]) && ArenaOk(m, arenas[l], bss[l]);
  }

  /** A new arena apart from the list, appended at its end. */
  lemma {:induction false} ArenasExtend(m: Mem, arenas: seq<int>, bss: seq<seq<Block>>, v: int, bs: seq<Block>)
    requires AllArenasOk(m, arenas, bss) && Disjoint(m, arenas) && ArenaOk(m, v, bs)
    requires forall k :: 0 <= k < |arenas| ==> Apart(arenas[k], Allocated(m, arenas[k]), v, Allocated(m, v))
    ensures AllArenasOk(m, arenas + [v], bss + [bs]) && Disjoint(m, arenas + [v])
  {
    var as2 := arenas + [v];
    var bss2 := bss + [bs];
    forall k | 0 <= k < |as2| ensures ArenaOk(m, as2[k], bss2[k]) {
      if k < |arenas| {
        assert as2[k] == arenas[k] && bss2[k] == bss[k];
      }
    }
    forall k, l | 0 <= k < l < |as2|
      ensures Apart(as2[k], Allocated(m, as2[k]), as2[l], Allocated(m, as2[l]))
    {
      assert as2[k] == arenas[k];
      if l < |arenas| {
        assert as2[l] == arenas[l];
      }
    }
  }

  /** Arena addresses at least a header apart. */
  predicate Spaced(s: seq<int>)
  {
    forall k, l :: 0 <= k < l < |s| ==> s[k] + A <= s[l] || s[l] + A <= s[k]
  }

  lemma {:induction false} SpacedOf(m: Mem, arenas: seq<int>, bss: seq<seq<Block>>)
    requires AllArenasOk(m, arenas, bss) && Disjoint(m, arenas)
    ensures Spaced(arenas)
  {
    forall k, l | 0 <= k < l < |arenas| ensures arenas[k] + A <= arenas[l] || arenas[l] + A <= arenas[k] {
      assert ArenaOk(m, arenas[k], bss[k]) && ArenaOk(m, arenas[l], bss[l]);
      assert Apart(arenas[k], Allocated(m, arenas[k]), arenas[l], Allocated(m, arenas[l]));
    }
  }

  /** The links after appending `v` behind the tail. */
  lemma {:induction false} LinkedAppend(m: Mem, arenas: seq<int>, v: int)
    requires Linked(m, arenas) && arenas != [] && NextLink(m, v) == NULL
    requires forall k :: 0 <= k < |arenas| ==> arenas[k] + A <= v || v + A <= arenas[k]
    requires forall k :: 0 <= k < |arenas| - 1 ==>
               arenas[k] + A <= arenas[|arenas| - 1] || arenas[|arenas| - 1] + A <= arenas[k]
    ensures var t := arenas[|arenas| - 1];
            Linked(m[t + ARENA_NEXT_SLOT := v][v + ARENA_PREV_SLOT := t], arenas + [v])
  {
    var n := |arenas|;
    var t := arenas[n - 1];
    var as2 := arenas + [v];
    var m2 := m[t + ARENA_NEXT_SLOT := v][v + ARENA_PREV_SLOT := t];
    assert as2[n - 1] == t && as2[n] == v;
    forall k | 0 <= k < |as2|
      ensures NextLink(m2, as2[k]) == NextOf(as2, k)
      ensures PrevLink(m2, as2[k]) == PrevOf(as2, k)
    {
      if k < n {
        assert as2[k] == arenas[k];
        assert NextLink(m, arenas[k]) == NextOf(arenas, k) && PrevLink(m, arenas[k]) == PrevOf(arenas, k);
      }
    }
  }

  /** Spacing of a list with one more arena, seen from the old list. */
  lemma {:induction false} SpacedAppend(arenas: seq<int>, v: int)
    requires Spaced(arenas + [v]) && arenas != []
    ensures forall k :: 0 <= k < |arenas| ==> arenas[k] + A <= v || v + A <= arenas[k]
    ensures forall k :: 0 <= k < |arenas| - 1 ==>
              arenas[k] + A <= arenas[|arenas| - 1] || arenas[|arenas| - 1] + A <= arenas[k]
  {
    var as2 := arenas + [v];
    var n := |arenas|;
    forall k | 0 <= k < n ensures arenas[k] + A <= v || v + A <= arenas[k] {
      assert as2[k] == arenas[k] && as2[n] == v;
    }
    forall k | 0 <= k < n - 1 ensures arenas[k] + A <= arenas[n - 1] || arenas[n - 1] + A <= arenas[k] {
      assert as2[k] == arenas[k] && as2[n - 1] == arenas[n - 1];
    }
  }

  /** The arenas and their spacing after `v` is appended and linked. */
  lemma {:induction false} AppendArenasOk(m: Mem, arenas: seq<int>, bss: seq<seq<Block>>, v: int, bs: seq<Block>)
    requires AllArenasOk(m, arenas, bss) && Disjoint(m, arenas) && arenas != [] && ArenaOk(m, v, bs)
    requires forall k :: 0 <= k < |arenas| ==> Apart(arenas[k], Allocated(m, arenas[k]), v, Allocated(m, v))
    ensures var t := arenas[|arenas| - 1];
            var m2 := m[t + ARENA_NEXT_SLOT := v][v + ARENA_PREV_SLOT := t];
            AllArenasOk(m2, arenas + [v], bss + [bs]) && Disjoint(m2, arenas + [v]) && Spaced(arenas + [v])
  {
    var n := |arenas|;
    var t := arenas[n - 1];
    var as2 := arenas + [v];
    var bss2 := bss + [bs];
    ArenasExtend(m, arenas, bss, v, bs);
    SpacedOf(m, as2, bss2);
    assert as2[n - 1] == t && as2[n] == v;
    AppendLinks(m, as2, bss2, n, t, v);
  }

  /** The two link writes of talloc.h:124-125 keep every arena whole. */
  lemma {:induction false} AppendLinks(m: Mem, as2: seq<int>, bss2: seq<seq<Block>>, n: nat, t: int, v: int)
    requires AllArenasOk(m, as2, bss2) && Disjoint(m, as2) && 0 < n < |as2| && as2[n - 1] == t && as2[n] == v
    ensures var m2 := m[t + ARENA_NEXT_SLOT := v][v + ARENA_PREV_SLOT := t];
            AllArenasOk(m2, as2, bss2) && Disjoint(m2, as2)
  {
    LinkSlotWrite(m, as2, bss2, n - 1, t + ARENA_NEXT_SLOT, v);
    LinkSlotWrite(m[t + ARENA_NEXT_SLOT := v], as2, bss2, n, v + ARENA_PREV_SLOT, t);
  }

  /** talloc.h:124-126: the new arena `v` linked after the tail. */
  lemma {:induction false} ArenasAppend(m: Mem, arenas: seq<int>, bss: seq<seq<Block>>, v: int, bs: seq<Block>)
    requires ArenasOk(m, arenas, bss) && arenas != [] && ArenaOk(m, v, bs)
    requires NextLink(m, v) == NULL
    requires forall k :: 0 <= k < |arenas| ==> Apart(arenas[k], Allocated(m, arenas[k]), v, Allocated(m, v))
    ensures var t := arenas[|arenas| - 1];
            ArenasOk(m[t + ARENA_NEXT_SLOT := v][v + ARENA_PREV_SLOT := t], arenas + [v], bss + [bs])
  {
    AppendArenasOk(m, arenas, bss, v, bs);
    SpacedAppend(arenas, v);
    LinkedAppend(m, arenas, v);
  }

  /** talloc.h:138-139: `prev->next = next`, then `next->prev = prev` when
      there is a next arena. */
  function Unlink(m: Mem, prev: int, next: int): (r: Mem)
    ensures forall x :: x != prev + ARENA_NEXT_SLOT && (next == NULL || x != next + ARENA_PREV_SLOT) ==>
              Read(r, x) == Read(m, x)
  {
    var m1 := m[prev + ARENA_NEXT_SLOT := next];
    if next != NULL then m1[next + ARENA_PREV_SLOT := prev] else m1
  }

  /** The list without its element `i`. */
  function Drop<T>(s: seq<T>, i: nat): (r: seq<T>)
    requires i < |s|
    ensures |r| == |s| - 1
    ensures forall k :: 0 <= k < |r| ==> r[k] == if k < i then s[k] else s[k + 1]
  {
    s[..i] + s[i + 1..]
  }

  /** Dropping an arena keeps the others valid and apart. */
  lemma {:induction false} DropArenasOk(m: Mem, arenas: seq<int>, bss: seq<seq<Block>>, idx: nat)
    requires AllArenasOk(m, arenas, bss) && Disjoint(m, arenas) && idx < |arenas|
    ensures AllArenasOk(m, Drop(arenas, idx), Drop(bss, idx)) && Disjoint(m, Drop(arenas, idx))
  {
    var ds := Drop(arenas, idx);
    forall k, l | 0 <= k < l < |ds|
      ensures Apart(ds[k], Allocated(m, ds[k]), ds[l], Allocated(m, ds[l]))
    {
      var k' := if k < idx then k else k + 1;
      var l' := if l < idx then l else l + 1;
      assert ds[k] == arenas[k'] && ds[l] == arenas[l'];
    }
  }

  /** The arenas after talloc.h:138-139 unlinks arena `idx`. */
  lemma {:induction false} RemoveArenasOk(m: Mem, arenas: seq<int>, bss: seq<seq<Block>>, idx: nat)
    requires AllArenasOk(m, arenas, bss) && Disjoint(m, arenas) && 0 < idx < |arenas|
    ensures var prev := arenas[idx - 1];
            var next := NextOf(arenas, idx);
            var m2 := Unlink(m, prev, next);
            && AllArenasOk(m2, Drop(arenas, idx), Drop(bss, idx))
            && Disjoint(m2, Drop(arenas, idx)) && Spaced(arenas)
  {
    var ds := Drop(arenas, idx);
    var dbs := Drop(bss, idx);
    var prev := arenas[idx - 1];
    var next := NextOf(arenas, idx);
    var m1 := m[prev + ARENA_NEXT_SLOT := next];
    DropArenasOk(m, arenas, bss, idx);
    SpacedOf(m, arenas, bss);
    assert ds[idx - 1] == prev;
    LinkSlotWrite(m, ds, dbs, idx - 1, prev + ARENA_NEXT_SLOT, next);
    if next != NULL {
      assert ds[idx] == next;
      LinkSlotWrite(m1, ds, dbs, idx, next + ARENA_PREV_SLOT, prev);
    }
  }

  /** Spacing around the arena `idx` being unlinked. */
  lemma {:induction false} SpacedRemove(arenas: seq<int>, idx: nat)
    requires Spaced(arenas) && 0 < idx < |arenas|
    ensures forall k :: 0 <= k < |arenas| && k != idx - 1 ==>
              arenas[k] + A <= arenas[idx - 1] || arenas[idx - 1] + A <= arenas[k]
    ensures idx + 1 < |arenas| ==> forall k :: 0 <= k < |arenas| && k != idx + 1 ==>
              arenas[k] + A <= arenas[idx + 1] || arenas[idx + 1] + A <= arenas[k]
  {
  }

  /** One remaining arena's links after talloc.h:138-139 unlinks arena `idx`. */
  lemma {:induction false} RelinkAt(m: Mem, arenas: seq<int>, idx: nat, k: nat)
    requires 0 < idx < |arenas| && k < |arenas| && k != idx
    requires idx + 1 < |arenas| ==> arenas[idx + 1] != NULL
    requires NextLink(m, arenas[k]) == NextOf(arenas, k) && PrevLink(m, arenas[k]) == PrevOf(arenas, k)
    requires k != idx - 1 ==> arenas[k] + A <= arenas[idx - 1] || arenas[idx - 1] + A <= arenas[k]
    requires idx + 1 < |arenas| ==>
               k == idx + 1 || arenas[k] + A <= arenas[idx + 1] || arenas[idx + 1] + A <= arenas[k]
    requires idx + 1 < |arenas| ==>
               arenas[idx - 1] + A <= arenas[idx + 1] || arenas[idx + 1] + A <= arenas[idx - 1]
    ensures var prev := arenas[idx - 1];
            var next := NextOf(arenas, idx);
            var m2 := Unlink(m, prev, next);
            && NextLink(m2, arenas[k]) == (if k == idx - 1 then next else NextOf(arenas, k))
            && PrevLink(m2, arenas[k]) == (if k == idx + 1 then prev else PrevOf(arenas, k))
  {
  }

  /** The links after talloc.h:138-139 unlinks arena `idx`. */
  lemma {:induction false} LinkedRemove(m: Mem, arenas: seq<int>, idx: nat)
    requires Linked(m, arenas) && 0 < idx < |arenas|
    requires idx + 1 < |arenas| ==> arenas[idx + 1] != NULL
    requires forall k :: 0 <= k < |arenas| && k != idx - 1 ==>
               arenas[k] + A <= arenas[idx - 1] || arenas[idx - 1] + A <= arenas[k]
    requires idx + 1 < |arenas| ==> forall k :: 0 <= k < |arenas| && k != idx + 1 ==>
               arenas[k] + A <= arenas[idx + 1] || arenas[idx + 1] + A <= arenas[k]
    ensures var prev := arenas[idx - 1];
            var next := NextOf(arenas, idx);
            var m2 := Unlink(m, prev, next);
            Linked(m2, Drop(arenas, idx))
  {
    var ds := Drop(arenas, idx);
    var prev := arenas[idx - 1];
    var next := NextOf(arenas, idx);
    var m2 := Unlink(m, prev, next);
    forall k | 0 <= k < |ds|
      ensures NextLink(m2, ds[k]) == NextOf(ds, k) && PrevLink(m2, ds[k]) == PrevOf(ds, k)
    {
      var k' := if k < idx then k else k + 1;
      assert NextLink(m, arenas[k']) == NextOf(arenas, k') && PrevLink(m, arenas[k']) == PrevOf(arenas, k');
      RelinkDropAt(m, arenas, idx, k);
    }
  }

  /** Arena `k` of the shortened list after talloc.h:138-139. */
  lemma {:induction false} RelinkDropAt(m: Mem, arenas: seq<int>, idx: nat, k: nat)
    requires 0 < idx < |arenas| && k < |arenas| - 1
    requires idx + 1 < |arenas| ==> arenas[idx + 1] != NULL
    requires var k' := if k < idx then k else k + 1;
             NextLink(m, arenas[k']) == NextOf(arenas, k') && PrevLink(m, arenas[k']) == PrevOf(arenas, k')
    requires var k' := if k < idx then k else k + 1;
             k' != idx - 1 ==> arenas[k'] + A <= arenas[idx - 1] || arenas[idx - 1] + A <= arenas[k']
    requires var k' := if k < idx then k else k + 1;
             idx + 1 < |arenas| ==>
               k' == idx + 1 || arenas[k'] + A <= arenas[idx + 1] || arenas[idx + 1] + A <= arenas[k']
    requires idx + 1 < |arenas| ==>
               arenas[idx - 1] + A <= arenas[idx + 1] || arenas[idx + 1] + A <= arenas[idx - 1]
    ensures var prev := arenas[idx - 1];
            var next := NextOf(arenas, idx);
            var m2 := Unlink(m, prev, next);
            var ds := Drop(arenas, idx);
            NextLink(m2, ds[k]) == NextOf(ds, k) && PrevLink(m2, ds[k]) == PrevOf(ds, k)
  {
    var k' := if k < idx then k else k + 1;
    DropNeighbours(arenas, idx, k);
    RelinkAt(m, arenas, idx, k');
  }

  /** The neighbours of an arena once arena `idx` is dropped from the list. */
  lemma {:induction false} DropNeighbours(arenas: seq<int>, idx: nat, k: nat)
    requires 0 < idx < |arenas| && k < |arenas| - 1
    ensures var ds := Drop(arenas, idx);
            var k' := if k < idx then k else k + 1;
            && ds[k] == arenas[k']
            && NextOf(ds, k) == (if k' == idx - 1 then NextOf(arenas, idx) else NextOf(arenas, k'))
            && PrevOf(ds, k) == (if k' == idx + 1 then arenas[idx - 1] else PrevOf(arenas, k'))
  {
    var ds := Drop(arenas, idx);
    if k + 1 < |ds| {
      assert ds[k + 1] == if k + 1 < idx then arenas[k + 1] else arenas[k + 2];
    }
    if k > 0 {
      assert ds[k - 1] == if k - 1 < idx then arenas[k - 1] else arenas[k];
    }
  }

  /** talloc.h:137-140 after a successful `munmap`: arena `idx` leaves the
      list and every other arena stays valid and linked. */
  lemma {:induction false} ArenasRemove(m: Mem, arenas: seq<int>, bss: seq<seq<Block>>, idx: nat)
    requires ArenasOk(m, arenas, bss) && 0 < idx < |arenas|
    ensures var prev := arenas[idx - 1];
            var next := NextOf(arenas, idx);
            var m2 := Unlink(m, prev, next);
            ArenasOk(m2, Drop(arenas, idx), Drop(bss, idx))
  {
    RemoveArenasOk(m, arenas, bss, idx);
    if idx + 1 < |arenas| {
      assert ArenaOk(m, arenas[idx + 1], bss[idx + 1]);
    }
    SpacedRemove(arenas, idx);
    LinkedRemove(m, arenas, idx);
  }

  /** `TAlloc_ptr_in_arena` (talloc.h:163-165): `ptr` lies past the arena's
      header and below its end. */
  function PtrInArena(m: Mem, a: int, ptr: int): bool
  {
    a + A <= ptr < a + Allocated(m, a)
  }

  /** An address is in an arena's range exactly when it lies in one of the
      arena's blocks. */
  lemma {:induction false} PtrInBlocks(m: Mem, a: int, bs: seq<Block>, ptr: int)
    requires ArenaOk(m, a, bs)
    ensures PtrInArena(m, a, ptr) <==> exists k :: 0 <= k < |bs| && bs[k].addr <= ptr < End(bs[k])
  {
    TilesCover(bs, a + A, a + Allocated(m, a), ptr);
  }

  /** Arena `k` of a valid list: it holds its blocks, is not NULL, and its
      `next` slot names the arena after it. */
  lemma {:induction false} ArenaAt(m: Mem, arenas: seq<int>, bss: seq<seq<Block>>, k: nat)
    requires ArenasOk(m, arenas, bss) && k < |arenas|
    ensures ArenaOk(m, arenas[k], bss[k]) && 0 < arenas[k]
    ensures NextLink(m, arenas[k]) == NextOf(arenas, k)
    ensures PrevLink(m, arenas[k]) == PrevOf(arenas, k)
  {
    assert ArenaOk(m, arenas[k], bss[k]);
    assert NextLink(m, arenas[k]) == NextOf(arenas, k);
  }

  /** Only the first arena of a valid list is the head. */
  lemma {:induction false} HeadOnlyFirst(m: Mem, arenas: seq<int>, bss: seq<seq<Block>>, k: nat)
    requires ArenasOk(m, arenas, bss) && k < |arenas|
    ensures arenas[k] == arenas[0] <==> k == 0
  {
    if k > 0 {
      ArenaAt(m, arenas, bss, 0);
      ArenaAt(m, arenas, bss, k);
      ApartOf(m, arenas, 0, k);
    }
  }

  /** A fresh arena's largest free chunk is its whole body. */
  lemma {:induction false} FreshMax(a: int, alloc: int)
    requires 0 <= a && OVERHEAD < alloc
    ensures MaxSize(FreeChunks(FreshBlocks(a, alloc))) == alloc - OVERHEAD
  {
    var bs := FreshBlocks(a, alloc);
    FreeChunksOne(bs[0]);
    assert FreeChunks(bs) == [Chunk(a + A, alloc - OVERHEAD)];
    assert [Chunk(a + A, alloc - OVERHEAD)][1..] == [];
  }

  /** A list of one arena, linked to nothing. */
  lemma {:induction false} SingleArenaOk(m: Mem, v: int, bs: seq<Block>)
    requires ArenaOk(m, v, bs) && NextLink(m, v) == NULL && PrevLink(m, v) == NULL
    ensures ArenasOk(m, [v], [bs])
  {
    assert [v][0] == v && [bs][0] == bs;
  }

  /** talloc.h:68-79: the first arena, freshly initialised, is a valid list
      of one. */
  lemma {:induction false} FirstArenaOk(m: Mem, v: int, n: int)
    requires 0 < v && OVERHEAD < n && v + n <= WORD_LIMIT
    ensures ArenasOk(InitArenaMem(m, v, n), [v], [FreshBlocks(v, n)])
  {
    InitArenaOk(m, v, n);
    SingleArenaOk(InitArenaMem(m, v, n), v, FreshBlocks(v, n));
  }

  /** talloc.h:85-113: initialising a region apart from every arena keeps
      the list valid, and the new arena lies apart from all of them. */
  lemma {:induction false} NewArenaKeepsList(m: Mem, arenas: seq<int>, bss: seq<seq<Block>>, v: int, n: int)
    requires ArenasOk(m, arenas, bss) && OVERHEAD < n
    requires forall k :: 0 <= k < |arenas| ==> Apart(arenas[k], Allocated(m, arenas[k]), v, n)
    ensures var r := InitArenaMem(m, v, n);
            && ArenasOk(r, arenas, bss)
            && forall k :: 0 <= k < |arenas| ==> Apart(arenas[k], Allocated(r, arenas[k]), v, n)
  {
    var r := InitArenaMem(m, v, n);
    InitArenaFrame(m, v, n);
    ArenasFar(m, r, arenas, bss, v, v + n);
    forall k | 0 <= k < |arenas|
      ensures Apart(arenas[k], Allocated(r, arenas[k]), v, n)
    {
      ArenaAt(m, arenas, bss, k);
    }
  }

  /** Memory after `TAlloc_alloc_more_space` (talloc.h:117-126) maps `n`
      bytes at `v` and links them after the arena `t`. */
  function LinkNewArena(m: Mem, t: int, v: int, n: int): Mem
    requires OVERHEAD < n
  {
    InitArenaMem(m, v, n)[t + ARENA_NEXT_SLOT := v][v + ARENA_PREV_SLOT := t]
  }

  /** talloc.h:117-129: a fresh arena apart from every arena, linked after
      the last one, extends the valid list by itself. */
  lemma {:induction false} AppendedArenaOk(m: Mem, arenas: seq<int>, bss: seq<seq<Block>>, v: int, n: int)
    requires ArenasOk(m, arenas, bss) && arenas != []
    requires 0 < v && OVERHEAD < n && v + n <= WORD_LIMIT
    requires forall k :: 0 <= k < |arenas| ==> Apart(arenas[k], Allocated(m, arenas[k]), v, n)
    ensures ArenasOk(LinkNewArena(m, arenas[|arenas| - 1], v, n), arenas + [v], bss + [FreshBlocks(v, n)])
  {
    var r := InitArenaMem(m, v, n);
    InitArenaOk(m, v, n);
    NewArenaKeepsList(m, arenas, bss, v, n);
    ArenasAppend(r, arenas, bss, v, FreshBlocks(v, n));
  }

  /** The link slots of arena `k`, not the first, of a valid list. */
  lemma {:induction false} ArenaLinks(m: Mem, arenas: seq<int>, bss: seq<seq<Block>>, k: nat)
    requires ArenasOk(m, arenas, bss) && 0 < k < |arenas|
    ensures Read(m, arenas[k] + ARENA_PREV_SLOT) == arenas[k - 1]
    ensures Read(m, arenas[k] + ARENA_NEXT_SLOT) == NextOf(arenas, k)
  {
    ArenaAt(m, arenas, bss, k);
  }

  /** Arena `k` of a valid list is not NULL, and its `next` slot names the
      arena after it. */
  lemma {:induction false} ArenaNext(m: Mem, arenas: seq<int>, bss: seq<seq<Block>>, k: nat)
    requires ArenasOk(m, arenas, bss) && k < |arenas|
    ensures 0 < arenas[k] && Read(m, arenas[k] + ARENA_NEXT_SLOT) == NextOf(arenas, k)
  {
    ArenaAt(m, arenas, bss, k);
  }

  /** Arena `k` of a valid list is not NULL, its `next` slot names the arena
      after it, and its `max_free_space` is its largest free chunk. */
  lemma {:induction false} ArenaMax(m: Mem, arenas: seq<int>, bss: seq<seq<Block>>, k: nat)
    requires ArenasOk(m, arenas, bss) && k < |arenas|
    ensures 0 < arenas[k] && Read(m, arenas[k] + ARENA_NEXT_SLOT) == NextOf(arenas, k)
    ensures Read(m, arenas[k] + MAX_FREE_SLOT) == MaxSize(FreeChunks(bss[k]))
  {
    ArenaAt(m, arenas, bss, k);
  }

  /** The free list of arena `k` of a valid list holds its free chunks. */
  lemma {:induction false} ArenaList(m: Mem, arenas: seq<int>, bss: seq<seq<Block>>, k: nat)
    requires ArenasOk(m, arenas, bss) && k < |arenas|
    ensures List(m, Read(m, arenas[k] + FREE_LIST_SLOT), FreeChunks(bss[k])) == true
  {
    ArenaAt(m, arenas, bss, k);
  }

  /** An address lies in at most one arena of a valid list. */
  lemma {:induction false} PtrInOneArena(m: Mem, arenas: seq<int>, bss: seq<seq<Block>>, idx: nat, ptr: int)
    requires ArenasOk(m, arenas, bss) && idx < |arenas| && PtrInArena(m, arenas[idx], ptr)
    ensures forall k :: 0 <= k < |arenas| && k != idx ==> !PtrInArena(m, arenas[k], ptr)
  {
    forall k | 0 <= k < |arenas| && k != idx
      ensures !PtrInArena(m, arenas[k], ptr)
    {
      if k < idx {
        assert Apart(arenas[k], Allocated(m, arenas[k]), arenas[idx], Allocated(m, arenas[idx]));
      } else {
        assert Apart(arenas[idx], Allocated(m, arenas[idx]), arenas[k], Allocated(m, arenas[k]));
      }
    }
  }

  /** The address past the header of an allocated block lies in its arena,
      in no other, and finds the magic word before it: the checks of
      talloc.h:179-186 accept it. */
  lemma {:induction false} UsedPtrAccepted(m: Mem, arenas: seq<int>, bss: seq<seq<Block>>, idx: nat, i: nat)
    requires ArenasOk(m, arenas, bss) && idx < |arenas| && i < |bss[idx]| && bss[idx][i].status == Used
    ensures var ptr := bss[idx][i].addr + H;
            && PtrInArena(m, arenas[idx], ptr)
            && MagicOf(Read(m, ptr - H + MAGIC_SLOT)) == MAGIC
            && forall k :: 0 <= k < |arenas| && PtrInArena(m, arenas[k], ptr) ==> k == idx
  {
    var a, bs := arenas[idx], bss[idx];
    ArenaAt(m, arenas, bss, idx);
    TilesWithin(bs, a + A, a + Allocated(m, a), i);
    assert HeaderOk(m, bs[i]);
    PtrInOneArena(m, arenas, bss, idx, bs[i].addr + H);
  }

  /** Arenas whose `max_free_space` is below `size` have no free chunk of
      `size` bytes. */
  lemma {:induction false} ArenasTooSmall(m: Mem, arenas: seq<int>, bss: seq<seq<Block>>, n: nat, size: nat)
    requires ArenasOk(m, arenas, bss) && n <= |arenas|
    requires forall k :: 0 <= k < n ==> Read(m, arenas[k] + MAX_FREE_SLOT) < size
    ensures forall k :: 0 <= k < n ==> MaxSize(FreeChunks(bss[k])) < size
  {
    forall k | 0 <= k < n
      ensures MaxSize(FreeChunks(bss[k])) < size
    {
      ArenaMax(m, arenas, bss, k);
    }
  }

  /** After arena `idx` leaves the list, the last arena is the one before it
      when it was the last, and otherwise the old last one. */
  lemma {:induction false} DropTail(m: Mem, arenas: seq<int>, bss: seq<seq<Block>>, idx: nat)
    requires ArenasOk(m, arenas, bss) && 0 < idx < |arenas|
    ensures Drop(arenas, idx)[|arenas| - 2] ==
              if NextOf(arenas, idx) == NULL then arenas[idx - 1] else arenas[|arenas| - 1]
  {
    if idx + 1 < |arenas| {
      ArenaNext(m, arenas, bss, idx + 1);
    }
  }

  /** With no arena to link after, talloc.h:124 stores the new arena's
      address through a NULL `state.arena_tail`: it writes the `next` slot
      of an arena header taken to start at address 0, that is the word at
      address 24, within the first `A` bytes of the address space. Whether
      an arena covers that word depends on what `mmap` answered. */
  lemma {:induction false} NullTailWrite(m: Mem, v: int, n: int)
    requires 0 < v && OVERHEAD < n
    ensures Read(LinkNewArena(m, NULL, v, n), NULL + ARENA_NEXT_SLOT) == v
    ensures NULL + ARENA_NEXT_SLOT < A
  {
  }

  /** When the last arena of a list of several is unlinked, talloc.h:133-141
      leave `state.arena_tail` naming it, so that the next talloc.h:124
      writes into the unmapped arena, inside none of those that remain. */
  lemma {:induction false} StaleTailOutside(m: Mem, arenas: seq<int>, bss: seq<seq<Block>>)
    requires ArenasOk(m, arenas, bss) && 1 < |arenas|
    ensures var t := arenas[|arenas| - 1];
            var rest := Drop(arenas, |arenas| - 1);
            forall k :: 0 <= k < |rest| ==>
              !(rest[k] <= t + ARENA_NEXT_SLOT < rest[k] + Allocated(m, rest[k]))
  {
    var n := |arenas| - 1;
    var rest := Drop(arenas, n);
    forall k | 0 <= k < |rest|
      ensures !(rest[k] <= arenas[n] + ARENA_NEXT_SLOT < rest[k] + Allocated(m, rest[k]))
    {
      assert rest[k] == arenas[k];
      ArenaAt(m, arenas, bss, n);
      ApartOf(m, arenas, k, n);
    }
  }
}
