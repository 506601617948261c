/** What `TAlloc_free` does inside the arena that holds the pointer
    (talloc.h:188-211): the freed chunk is linked into the address-ordered
    free list, merged with the free chunks that touch it, and
    `max_free_space` follows the merged chunks.

    Each of the three cases is proved in three independent parts: the free
    list and its maximum (`...List`), the headers of the other allocated
    blocks (`...Used`) and the footprint (`...Body`). A `...Ready` predicate
    hands the facts of one lemma to the next; it is required as
    `Ready(...) == true` so that the verifier checks it as one fact rather
    than conjunct by conjunct. */
module Freeing {
  import opened Layout
  import opened FreeList
  import opened Memory
  import opened Blocks
  import opened Arena

  /** The free list of the arena at `a` holds `cs` and `max_free_space` is
      their largest size. */
  ghost predicate FreedList(m: Mem, a: int, cs: seq<Chunk>)
  {
    List(m, Read(m, a + FREE_LIST_SLOT), cs) && Read(m, a + MAX_FREE_SLOT) == MaxSize(cs)
  }

  /** Every allocated block other than `i` is nonempty and carries its header. */
  ghost predicate UsedOkBut(m: Mem, bs: seq<Block>, i: nat)
  {
    forall k {:trigger HeaderOk(m, bs[k])} :: 0 <= k < |bs| && k != i && bs[k].status == Used ==> 0 < bs[k].size && HeaderOk(m, bs[k])
  }

  /** Block `k` lies in the body of the arena at `a`. */
  lemma {:induction false} BlockInBody(m: Mem, a: int, bs: seq<Block>, k: nat)
    requires ArenaOk(m, a, bs) && k < |bs|
    ensures a + A <= bs[k].addr && bs[k].addr + H <= a + Allocated(m, a)
  {
    TilesWithin(bs, a + A, a + Allocated(m, a), k);
  }

  // The footprint: each step writes only the arena's own slots and body.

  lemma {:induction false} WriteBody(m0: Mem, m: Mem, a: int, x: int, v: int)
    requires BodyOnly(m0, m, a)
    requires (a + MAX_FREE_SLOT <= x < a + ARENA_NEXT_SLOT) || (a + A <= x < a + Allocated(m0, a))
    ensures BodyOnly(m0, m[x := v], a)
  {
  }

  lemma {:induction false} CoalesceBody(m0: Mem, m: Mem, a: int, c: int)
    requires BodyOnly(m0, m, a) && a + A <= c && c + H <= a + Allocated(m0, a)
    ensures BodyOnly(m0, CoalesceMem(m, c), a)
  {
    var next := Read(m, c + NEXT_SLOT);
    if next == c + Read(m, c + SIZE_SLOT) + H {
      var v := Read(m, c + SIZE_SLOT) + H + Read(m, next + SIZE_SLOT);
      WriteBody(m0, m, a, c + SIZE_SLOT, v);
      WriteBody(m0, m[c + SIZE_SLOT := v], a, c + NEXT_SLOT, Read(m, next + NEXT_SLOT));
    }
  }

  lemma {:induction false} AdjustBody(m0: Mem, m: Mem, a: int, c: int)
    requires BodyOnly(m0, m, a)
    ensures BodyOnly(m0, AdjustMem(m, a, c), a)
  {
    if Read(m, c + SIZE_SLOT) > Read(m, a + MAX_FREE_SLOT) {
      WriteBody(m0, m, a, a + MAX_FREE_SLOT, Read(m, c + SIZE_SLOT));
    }
  }

  lemma {:induction false} CoalesceAdjustBody(m0: Mem, m: Mem, a: int, c: int)
    requires BodyOnly(m0, m, a) && a + A <= c && c + H <= a + Allocated(m0, a)
    ensures BodyOnly(m0, AdjustMem(CoalesceMem(m, c), a, c), a)
  {
    CoalesceBody(m0, m, a, c);
    AdjustBody(m0, CoalesceMem(m, c), a, c);
  }

  // The other allocated blocks: no step writes into their headers.

  lemma {:induction false} WriteSlotUsed(m: Mem, bs: seq<Block>, i: nat, lo: nat, hi: nat, x: int, v: int)
    requires Tiles(bs, lo, hi) && UsedOkBut(m, bs, i) && x < lo
    ensures UsedOkBut(m[x := v], bs, i)
  {
    forall k | 0 <= k < |bs| && k != i && bs[k].status == Used
      ensures 0 < bs[k].size && HeaderOk(m[x := v], bs[k])
    {
      assert HeaderOk(m, bs[k]);
      TilesWithin(bs, lo, hi, k);
    }
  }

  /** Writing inside the header of block `i` or of a free block. */
  lemma {:induction false} WriteHeaderUsed(m: Mem, bs: seq<Block>, i: nat, lo: nat, hi: nat, j: nat, x: int, v: int)
    requires Tiles(bs, lo, hi) && UsedOkBut(m, bs, i)
    requires j < |bs| && (j == i || bs[j].status == Free) && bs[j].addr <= x < bs[j].addr + H
    ensures UsedOkBut(m[x := v], bs, i)
  {
    forall k | 0 <= k < |bs| && k != i && bs[k].status == Used
      ensures 0 < bs[k].size && HeaderOk(m[x := v], bs[k])
    {
      assert HeaderOk(m, bs[k]);
      if k < j {
        TilesApart(bs, lo, hi, k, j);
      } else {
        TilesApart(bs, lo, hi, j, k);
      }
    }
  }

  lemma {:induction false} CoalesceUsed(m: Mem, bs: seq<Block>, i: nat, lo: nat, hi: nat, j: nat)
    requires Tiles(bs, lo, hi) && UsedOkBut(m, bs, i) && j < |bs| && (j == i || bs[j].status == Free)
    ensures UsedOkBut(CoalesceMem(m, bs[j].addr), bs, i)
  {
    var r := CoalesceMem(m, bs[j].addr);
    CoalesceFrame(m, bs[j].addr);
    forall k | 0 <= k < |bs| && k != i && bs[k].status == Used
      ensures 0 < bs[k].size && HeaderOk(r, bs[k])
    {
      assert HeaderOk(m, bs[k]);
      if k < j {
        TilesApart(bs, lo, hi, k, j);
      } else {
        TilesApart(bs, lo, hi, j, k);
      }
    }
  }

  lemma {:induction false} CoalesceAdjustUsed(m: Mem, bs: seq<Block>, i: nat, lo: nat, hi: nat, a: int, j: nat)
    requires Tiles(bs, lo, hi) && UsedOkBut(m, bs, i) && j < |bs| && (j == i || bs[j].status == Free)
    requires a + MAX_FREE_SLOT < lo
    ensures UsedOkBut(AdjustMem(CoalesceMem(m, bs[j].addr), a, bs[j].addr), bs, i)
  {
    var c := bs[j].addr;
    CoalesceUsed(m, bs, i, lo, hi, j);
    var m2 := CoalesceMem(m, c);
    if Read(m2, c + SIZE_SLOT) > Read(m2, a + MAX_FREE_SLOT) {
      WriteSlotUsed(m2, bs, i, lo, hi, a + MAX_FREE_SLOT, Read(m2, c + SIZE_SLOT));
    }
  }

  /** Once block `i` is released, every allocated block carries its header. */
  lemma {:induction false} ReleaseUsed(m: Mem, bs: seq<Block>, i: nat)
    requires i < |bs| && UsedOkBut(m, bs, i) && NoLost(bs)
    ensures UsedOk(m, Release(bs, i)) && NoLost(Release(bs, i))
  {
    var r := Release(bs, i);
    forall k | 0 <= k < |r| && r[k].status != Free
      ensures r[k].status == Used && 0 < r[k].size && HeaderOk(m, r[k])
    {
      ReleaseFrom(bs, i, r[k]);
      var k2 :| 0 <= k2 < |bs| && k2 != i && bs[k2] == r[k];
      assert bs[k2].status != Lost;
      assert HeaderOk(m, bs[k2]);
    }
  }

  /** The arena once a free is over: its size is unchanged, the other
      allocated blocks keep their headers, the list holds the free chunks of
      `Release(bs, i)` and `max_free_space` their largest size. */
  lemma {:induction false} ReleaseOk(m0: Mem, m: Mem, a: int, bs: seq<Block>, i: nat)
    requires ArenaOk(m0, a, bs) && i < |bs| && bs[i].status == Used
    requires Allocated(m, a) == Allocated(m0, a) && UsedOkBut(m, bs, i)
    requires FreedList(m, a, FreeChunks(Release(bs, i)))
    ensures ArenaOk(m, a, Release(bs, i))
  {
    ReleaseTiles(bs, i, a + A, a + Allocated(m0, a));
    ReleaseUsed(m, bs, i);
  }

  /** The free list around block `i`: the chunks before it, the chunks after
      it, and the list once it is freed and merged. */
  lemma {:induction false} FreeOrder(bs: seq<Block>, i: nat, lo: nat, hi: nat)
    requires Tiles(bs, lo, hi) && i < |bs| && bs[i].status == Used
    ensures var p := FreeChunks(bs[..i]);
            var q := FreeChunks(bs[i + 1..]);
            var x := ChunkOf(bs[i]);
            var ins := CoalesceAt(p + [x] + q, |p|);
            && FreeChunks(bs) == p + q
            && Ordered(p + [x] + q)
            && FreeChunks(Release(bs, i)) == (if p == [] then ins else CoalesceAt(ins, |p| - 1))
  {
    ReleaseChunks(bs, i, lo, hi);
    var bf := bs[i := AsFree(bs[i])];
    assert SameShape(bs, bf);
    SameShapeTiles(bs, bf, lo, hi);
    TilesChunks(bf, lo, hi);
    FreeChunksAround(bf, i);
    assert bf[..i] == bs[..i] && bf[i + 1..] == bs[i + 1..];
  }

  /** Where the chunks around block `i` lie. */
  lemma {:induction false} FreeBounds(bs: seq<Block>, i: nat, lo: nat, hi: nat)
    requires Tiles(bs, lo, hi) && i < |bs|
    ensures var p := FreeChunks(bs[..i]);
            var q := FreeChunks(bs[i + 1..]);
            var x := ChunkOf(bs[i]);
            && (forall k :: 0 <= k < |p| ==> lo <= p[k].addr < x.addr)
            && (forall k :: 0 <= k < |q| ==> x.addr < q[k].addr)
            && lo <= x.addr
  {
    TilesSplit(bs, lo, hi, i);
    TilesChunksWithin(bs[..i], lo, bs[i].addr);
    TilesChunksWithin(bs[i + 1..], End(bs[i]), hi);
    TilesWithin(bs, lo, hi, i);
  }

  /** What freeing block `i` does to the free list, on the chunk sequences
      alone: `fs` is the list, `p` and `q` its parts before and after the
      freed chunk `x`, all above `lo`, and `rel` the list once `x` is merged. */
  ghost predicate SetupShape(fs: seq<Chunk>, p: seq<Chunk>, x: Chunk, q: seq<Chunk>, rel: seq<Chunk>, lo: int)
  {
    && fs == p + q && Ordered(p + [x] + q) && lo <= x.addr
    && rel == (if p == [] then CoalesceAt(p + [x] + q, |p|) else CoalesceAt(CoalesceAt(p + [x] + q, |p|), |p| - 1))
    && (forall k :: 0 <= k < |p| ==> lo <= p[k].addr < x.addr)
    && (forall k :: 0 <= k < |q| ==> x.addr < q[k].addr)
  }

  /** The memory side: the arena's list holds `fs`, its maximum is right,
      and the header of `x` holds its size. */
  ghost predicate SetupMem(m: Mem, a: int, fs: seq<Chunk>, x: Chunk)
  {
    0 < a && List(m, Read(m, a + FREE_LIST_SLOT), fs) && Read(m, a + MAX_FREE_SLOT) == MaxSize(fs)
    && Read(m, x.addr + SIZE_SLOT) == x.size
  }

  lemma {:induction false} ShapeOf(bs: seq<Block>, i: nat, lo: nat, hi: nat)
    requires Tiles(bs, lo, hi) && i < |bs| && bs[i].status == Used
    ensures SetupShape(FreeChunks(bs), FreeChunks(bs[..i]), ChunkOf(bs[i]), FreeChunks(bs[i + 1..]),
                       FreeChunks(Release(bs, i)), lo) == true
  {
    FreeOrder(bs, i, lo, hi);
    FreeBounds(bs, i, lo, hi);
  }

  /** The memory side of freeing the allocated block `i` of the arena at `a`. */
  lemma {:induction false} MemOf(m: Mem, a: int, bs: seq<Block>, i: nat)
    requires ArenaOk(m, a, bs) == true && i < |bs| && bs[i].status == Used
    ensures SetupMem(m, a, FreeChunks(bs), ChunkOf(bs[i]))
  {
    assert HeaderOk(m, bs[i]);
  }

  /** The list with the freed chunk inserted lies above the arena header. */
  lemma {:induction false} InsertedAbove(p: seq<Chunk>, x: Chunk, q: seq<Chunk>, lo: int)
    requires forall k :: 0 <= k < |p| ==> lo <= p[k].addr
    requires lo <= x.addr && forall k :: 0 <= k < |q| ==> x.addr < q[k].addr
    ensures Above(p + [x] + q, lo) && Above(p + q, lo)
  {
    var s := p + [x] + q;
    forall k | 0 <= k < |s| ensures lo <= s[k].addr {
      if k < |p| {
        assert s[k] == p[k];
      } else if k > |p| {
        assert s[k] == q[k - |p| - 1];
      }
    }
    forall k | 0 <= k < |p + q| ensures lo <= (p + q)[k].addr {
      if k < |p| {
        assert (p + q)[k] == p[k];
      } else {
        assert (p + q)[k] == q[k - |p|];
      }
    }
  }

  /** The head of the list is the freed chunk's neighbour below it, when
      there is one (talloc.h:195). */
  lemma {:induction false} HeadSide(p: seq<Chunk>, q: seq<Chunk>, c: int)
    requires forall k :: 0 <= k < |p| ==> p[k].addr < c
    requires forall k :: 0 <= k < |q| ==> c < q[k].addr
    requires p + q != []
    ensures (p + q)[0].addr != c
    ensures p == [] <==> c < (p + q)[0].addr
  {
    if p != [] {
      assert (p + q)[0] == p[0];
    } else {
      assert (p + q)[0] == q[0];
    }
  }

  /** The chunk the insertion loop of talloc.h:201-204 stops at is the last
      one below the freed chunk. */
  lemma {:induction false} InsertionIndex(p: seq<Chunk>, q: seq<Chunk>, c: int, j: nat)
    requires forall k :: 0 <= k < |p| ==> p[k].addr < c
    requires forall k :: 0 <= k < |q| ==> c < q[k].addr
    requires j < |p + q| && (p + q)[j].addr < c
    requires j + 1 < |p + q| ==> (p + q)[j + 1].addr >= c
    ensures p != [] && j == |p| - 1
  {
  }

  /** Coalescing chunk `j` keeps the chunks before it and its address. */
  lemma {:induction false} CoalescePrefix(cs: seq<Chunk>, j: nat)
    requires j < |cs|
    ensures j < |CoalesceAt(cs, j)|
    ensures CoalesceAt(cs, j)[..j] == cs[..j] && CoalesceAt(cs, j)[j].addr == cs[j].addr
  {
    if Adjacent(cs, j) {
      var r := cs[..j] + [Merge(cs[j], cs[j + 1])] + cs[j + 2..];
      assert r[..j] == cs[..j];
    }
  }

  /** One `TAlloc_coalesce` on the chunk at position `j` of the list. */
  lemma {:induction false} CoalesceStep(m: Mem, a: int, p: int, cs: seq<Chunk>, j: nat)
    requires List(m, p, cs) && Ordered(cs) && j < |cs| && Above(cs, a + A)
    ensures var c := cs[j].addr;
            var m2 := CoalesceMem(m, c);
            var cs2 := CoalesceAt(cs, j);
            && j < |cs2| && cs2[j].addr == c && cs2[..j] == cs[..j]
            && List(m2, p, cs2) && Ordered(cs2) && Above(cs2, a + A)
            && Read(m2, c + SIZE_SLOT) == cs2[j].size
            && Read(m2, a + FREE_LIST_SLOT) == Read(m, a + FREE_LIST_SLOT)
            && Read(m2, a + MAX_FREE_SLOT) == Read(m, a + MAX_FREE_SLOT)
  {
    var c := cs[j].addr;
    CoalesceList(m, p, cs, j);
    CoalesceEffect(cs, j);
    CoalesceAbove(cs, j, a + A);
    CoalescePrefix(cs, j);
    SegAt(CoalesceMem(m, c), p, CoalesceAt(cs, j), NULL, j);
    CoalesceFrame(m, c);
  }

  /** `TAlloc_adjust_space_for_new_chunk` leaves a list above the arena
      header and the `free_list` slot as they were. */
  lemma {:induction false} AdjustStep(m: Mem, a: int, p: int, cs: seq<Chunk>, c: int)
    requires List(m, p, cs) && Above(cs, a + A)
    ensures var r := AdjustMem(m, a, c);
            && List(r, p, cs) && Read(r, a + FREE_LIST_SLOT) == Read(m, a + FREE_LIST_SLOT)
            && Read(r, a + MAX_FREE_SLOT) ==
               (if Read(m, c + SIZE_SLOT) > Read(m, a + MAX_FREE_SLOT) then Read(m, c + SIZE_SLOT)
                else Read(m, a + MAX_FREE_SLOT))
  {
    AdjustList(m, a, p, cs, c);
    AdjustFrame(m, a, c);
  }

  /** Raising `max_free_space` leaves a list above the arena header intact. */
  lemma {:induction false} AdjustList(m: Mem, a: int, p: int, cs: seq<Chunk>, c: int)
    requires List(m, p, cs) && Above(cs, a + A)
    ensures List(AdjustMem(m, a, c), p, cs)
  {
    if Read(m, c + SIZE_SLOT) > Read(m, a + MAX_FREE_SLOT) {
      WriteBelow(m, p, cs, a + A, a + MAX_FREE_SLOT, Read(m, c + SIZE_SLOT));
    }
  }

  /** One `TAlloc_coalesce` followed by `TAlloc_adjust_space_for_new_chunk`
      on the chunk at position `j` of the list. */
  lemma {:induction false} CoalesceAdjust(m: Mem, a: int, p: int, cs: seq<Chunk>, j: nat)
    requires List(m, p, cs) && Ordered(cs) && j < |cs| && Above(cs, a + A)
    ensures var c := cs[j].addr;
            var r := AdjustMem(CoalesceMem(m, c), a, c);
            var cs2 := CoalesceAt(cs, j);
            var mx := Read(m, a + MAX_FREE_SLOT);
            && j < |cs2| && cs2[j].addr == c && cs2[..j] == cs[..j]
            && List(r, p, cs2) && Ordered(cs2) && Above(cs2, a + A)
            && Read(r, a + FREE_LIST_SLOT) == Read(m, a + FREE_LIST_SLOT)
            && Read(r, a + MAX_FREE_SLOT) == (if cs2[j].size > mx then cs2[j].size else mx)
  {
    CoalesceStep(m, a, p, cs, j);
    AdjustStep(CoalesceMem(m, cs[j].addr), a, p, CoalesceAt(cs, j), cs[j].addr);
  }

  // talloc.h:191-194: the free list is empty.

  /** Memory after talloc.h:191-194: the freed chunk `c` becomes the whole list. */
  function FreeIntoEmpty(m: Mem, a: int, c: int): Mem
  {
    var m1 := m[a + FREE_LIST_SLOT := c][c + NEXT_SLOT := NULL];
    m1[a + MAX_FREE_SLOT := Read(m1, c + SIZE_SLOT)]
  }

  /** The freed chunk `x` at `c` is the only free chunk once freed. */
  ghost predicate EmptyReady(m: Mem, a: int, c: int, x: Chunk, rel: seq<Chunk>)
  {
    0 < a && a + A <= c && c == x.addr && Read(m, c + SIZE_SLOT) == x.size && rel == [x]
  }

  /** With no free chunk, the released block is the only one in the list. */
  lemma {:induction false} EmptyGlue(m: Mem, a: int, fs: seq<Chunk>, p: seq<Chunk>, x: Chunk, q: seq<Chunk>, rel: seq<Chunk>)
    requires SetupMem(m, a, fs, x) == true && SetupShape(fs, p, x, q, rel, a + A) == true
    requires Read(m, a + FREE_LIST_SLOT) == NULL
    ensures EmptyReady(m, a, x.addr, x, rel) == true
  {
    EmptyFacts(p, x, q);
  }

  lemma {:induction false} EmptyFacts(p: seq<Chunk>, x: Chunk, q: seq<Chunk>)
    requires p + q == []
    ensures p == [] && CoalesceAt(p + [x] + q, |p|) == [x]
  {
    assert p == [] && q == [];
    assert p + [x] + q == [x];
  }

  lemma {:induction false} FreeIntoEmptyCore(m: Mem, a: int, c: int, x: Chunk, rel: seq<Chunk>)
    requires EmptyReady(m, a, c, x, rel) == true
    ensures FreedList(FreeIntoEmpty(m, a, c), a, rel)
  {
    var m1 := m[a + FREE_LIST_SLOT := c];
    InsertOnly(m1, x);
    SingleChunk(x, a + A);
    WriteBelow(m1[c + NEXT_SLOT := NULL], c, [x], a + A, a + MAX_FREE_SLOT, x.size);
  }

  lemma {:induction false} SingleChunk(x: Chunk, lo: int)
    requires lo <= x.addr
    ensures Above([x], lo) && MaxSize([x]) == x.size
  {
    assert [x][0] == x;
  }

  lemma {:induction false} FreeIntoEmptyList(m: Mem, a: int, bs: seq<Block>, i: nat)
    requires ArenaOk(m, a, bs) && i < |bs| && bs[i].status == Used
    requires Read(m, a + FREE_LIST_SLOT) == NULL
    ensures FreedList(FreeIntoEmpty(m, a, bs[i].addr), a, FreeChunks(Release(bs, i)))
  {
    var p, x, q, rel := FreeChunks(bs[..i]), ChunkOf(bs[i]), FreeChunks(bs[i + 1..]), FreeChunks(Release(bs, i));
    MemOf(m, a, bs, i);
    ShapeOf(bs, i, a + A, a + Allocated(m, a));
    EmptyGlue(m, a, FreeChunks(bs), p, x, q, rel);
    FreeIntoEmptyCore(m, a, x.addr, x, rel);
  }

  lemma {:induction false} FreeIntoEmptyBody(m: Mem, a: int, c: int)
    requires a + A <= c && c + H <= a + Allocated(m, a)
    ensures BodyOnly(m, FreeIntoEmpty(m, a, c), a)
  {
    var m1 := m[a + FREE_LIST_SLOT := c];
    var m2 := m1[c + NEXT_SLOT := NULL];
    WriteBody(m, m, a, a + FREE_LIST_SLOT, c);
    WriteBody(m, m1, a, c + NEXT_SLOT, NULL);
    WriteBody(m, m2, a, a + MAX_FREE_SLOT, Read(m2, c + SIZE_SLOT));
  }

  lemma {:induction false} FreeIntoEmptyUsed(m: Mem, bs: seq<Block>, i: nat, lo: nat, hi: nat, a: int)
    requires Tiles(bs, lo, hi) && UsedOkBut(m, bs, i) && i < |bs| && lo == a + A
    ensures UsedOkBut(FreeIntoEmpty(m, a, bs[i].addr), bs, i)
  {
    var c := bs[i].addr;
    var m1 := m[a + FREE_LIST_SLOT := c];
    var m2 := m1[c + NEXT_SLOT := NULL];
    WriteSlotUsed(m, bs, i, lo, hi, a + FREE_LIST_SLOT, c);
    WriteHeaderUsed(m1, bs, i, lo, hi, i, c + NEXT_SLOT, NULL);
    WriteSlotUsed(m2, bs, i, lo, hi, a + MAX_FREE_SLOT, Read(m2, c + SIZE_SLOT));
  }

  /** Freeing into an empty free list (talloc.h:191-194) leaves the arena
      holding `Release(bs, i)` and writes only its own slots and body. */
  lemma {:induction false} FreeIntoEmptyOk(m: Mem, a: int, bs: seq<Block>, i: nat)
    requires ArenaOk(m, a, bs) && i < |bs| && bs[i].status == Used
    requires Read(m, a + FREE_LIST_SLOT) == NULL
    ensures var r := FreeIntoEmpty(m, a, bs[i].addr);
            ArenaOk(r, a, Release(bs, i)) && BodyOnly(m, r, a)
  {
    var r := FreeIntoEmpty(m, a, bs[i].addr);
    FreeIntoEmptyList(m, a, bs, i);
    BlockInBody(m, a, bs, i);
    FreeIntoEmptyBody(m, a, bs[i].addr);
    FreeIntoEmptyUsed(m, bs, i, a + A, a + Allocated(m, a), a);
    ReleaseOk(m, r, a, bs, i);
  }

  // talloc.h:195-199: the freed chunk lies below the head of the list.

  /** Memory after talloc.h:195-199: the freed chunk `c` pushed in front of
      the list, coalesced, and the maximum adjusted. */
  function FreeAtFront(m: Mem, a: int, c: int): Mem
  {
    var m1 := m[c + NEXT_SLOT := Read(m, a + FREE_LIST_SLOT)][a + FREE_LIST_SLOT := c];
    AdjustMem(CoalesceMem(m1, c), a, c)
  }

  /** The freed chunk `x` at `c` comes before every chunk of the list `q`,
      all above the arena header, and merging it gives `rel`. */
  ghost predicate FrontReady(m: Mem, a: int, c: int, x: Chunk, q: seq<Chunk>, rel: seq<Chunk>)
  {
    && List(m, Read(m, a + FREE_LIST_SLOT), q) && Ordered([x] + q) && Above([x] + q, a + A)
    && Read(m, x.addr + SIZE_SLOT) == x.size && x.addr != NULL && c == x.addr
    && Read(m, a + MAX_FREE_SLOT) == MaxSize(q) && rel == CoalesceAt([x] + q, 0)
  }

  /** Below the head of the list, the freed chunk goes in front of all the
      free chunks, which all lie after it. */
  lemma {:induction false} FrontGlue(m: Mem, a: int, fs: seq<Chunk>, p: seq<Chunk>, x: Chunk, q: seq<Chunk>, rel: seq<Chunk>)
    requires SetupMem(m, a, fs, x) == true && SetupShape(fs, p, x, q, rel, a + A) == true
    requires Read(m, a + FREE_LIST_SLOT) != NULL && x.addr < Read(m, a + FREE_LIST_SLOT)
    ensures FrontReady(m, a, x.addr, x, q, rel) == true
  {
    FrontFacts(p, x, q, a + A, Read(m, a + FREE_LIST_SLOT));
  }

  /** Below the head of the list nothing precedes the freed chunk. */
  lemma {:induction false} FrontFacts(p: seq<Chunk>, x: Chunk, q: seq<Chunk>, lo: int, head: int)
    requires forall k :: 0 <= k < |p| ==> lo <= p[k].addr < x.addr
    requires forall k :: 0 <= k < |q| ==> x.addr < q[k].addr
    requires lo <= x.addr && x.addr < head
    requires head != NULL && p + q != [] && head == (p + q)[0].addr
    ensures p == [] && p + [x] + q == [x] + q && p + q == q && Above([x] + q, lo)
  {
    HeadSide(p, q, x.addr);
    InsertedAbove(p, x, q, lo);
    assert p == [] && p + [x] + q == [x] + q;
  }

  /** talloc.h:196-197: the freed chunk `x` pushed in front of the list `q`. */
  lemma {:induction false} FrontPush(m: Mem, a: int, x: Chunk, q: seq<Chunk>)
    requires List(m, Read(m, a + FREE_LIST_SLOT), q) && Ordered([x] + q) && Above([x] + q, a + A)
    requires Read(m, x.addr + SIZE_SLOT) == x.size && x.addr != NULL
    ensures var m1 := m[x.addr + NEXT_SLOT := Read(m, a + FREE_LIST_SLOT)][a + FREE_LIST_SLOT := x.addr];
            List(m1, x.addr, [x] + q) && Read(m1, a + MAX_FREE_SLOT) == Read(m, a + MAX_FREE_SLOT)
            && Read(m1, a + FREE_LIST_SLOT) == x.addr
  {
    var head := Read(m, a + FREE_LIST_SLOT);
    InsertFront(m, head, x, q);
    WriteBelow(m[x.addr + NEXT_SLOT := head], x.addr, [x] + q, a + A, a + FREE_LIST_SLOT, x.addr);
  }

  lemma {:induction false} FreeAtFrontCore(m: Mem, a: int, c: int, x: Chunk, q: seq<Chunk>, rel: seq<Chunk>)
    requires FrontReady(m, a, c, x, q, rel) == true
    ensures FreedList(FreeAtFront(m, a, c), a, rel)
  {
    FrontPush(m, a, x, q);
    var m1 := m[c + NEXT_SLOT := Read(m, a + FREE_LIST_SLOT)][a + FREE_LIST_SLOT := c];
    CoalesceAdjust(m1, a, c, [x] + q, 0);
    FrontCoalesceMax(x, q);
  }

  /** `InsertCoalesceMax` with nothing before the inserted chunk. */
  lemma {:induction false} FrontCoalesceMax(x: Chunk, q: seq<Chunk>)
    ensures 0 < |CoalesceAt([x] + q, 0)|
    ensures MaxSize(CoalesceAt([x] + q, 0)) == AdjustMax(MaxSize(q), CoalesceAt([x] + q, 0)[0])
  {
    InsertCoalesceMax([], x, q);
    assert [] + [x] + q == [x] + q && [] + q == q;
  }

  lemma {:induction false} FreeAtFrontList(m: Mem, a: int, bs: seq<Block>, i: nat)
    requires ArenaOk(m, a, bs) && i < |bs| && bs[i].status == Used
    requires Read(m, a + FREE_LIST_SLOT) != NULL && bs[i].addr < Read(m, a + FREE_LIST_SLOT)
    ensures FreedList(FreeAtFront(m, a, bs[i].addr), a, FreeChunks(Release(bs, i)))
  {
    var p, x, q, rel := FreeChunks(bs[..i]), ChunkOf(bs[i]), FreeChunks(bs[i + 1..]), FreeChunks(Release(bs, i));
    MemOf(m, a, bs, i);
    ShapeOf(bs, i, a + A, a + Allocated(m, a));
    FrontGlue(m, a, FreeChunks(bs), p, x, q, rel);
    FreeAtFrontCore(m, a, x.addr, x, q, rel);
  }

  lemma {:induction false} FreeAtFrontBody(m: Mem, a: int, c: int)
    requires a + A <= c && c + H <= a + Allocated(m, a)
    ensures BodyOnly(m, FreeAtFront(m, a, c), a)
  {
    var m0 := m[c + NEXT_SLOT := Read(m, a + FREE_LIST_SLOT)];
    var m1 := m0[a + FREE_LIST_SLOT := c];
    WriteBody(m, m, a, c + NEXT_SLOT, Read(m, a + FREE_LIST_SLOT));
    WriteBody(m, m0, a, a + FREE_LIST_SLOT, c);
    CoalesceAdjustBody(m, m1, a, c);
  }

  lemma {:induction false} FreeAtFrontUsed(m: Mem, bs: seq<Block>, i: nat, lo: nat, hi: nat, a: int)
    requires Tiles(bs, lo, hi) && UsedOkBut(m, bs, i) && i < |bs| && lo == a + A
    ensures UsedOkBut(FreeAtFront(m, a, bs[i].addr), bs, i)
  {
    var c := bs[i].addr;
    var m0 := m[c + NEXT_SLOT := Read(m, a + FREE_LIST_SLOT)];
    var m1 := m0[a + FREE_LIST_SLOT := c];
    WriteHeaderUsed(m, bs, i, lo, hi, i, c + NEXT_SLOT, Read(m, a + FREE_LIST_SLOT));
    WriteSlotUsed(m0, bs, i, lo, hi, a + FREE_LIST_SLOT, c);
    CoalesceAdjustUsed(m1, bs, i, lo, hi, a, i);
  }

  /** Freeing below the head of the list (talloc.h:195-199) leaves the arena
      holding `Release(bs, i)` and writes only its own slots and body. */
  lemma {:induction false} FreeAtFrontOk(m: Mem, a: int, bs: seq<Block>, i: nat)
    requires ArenaOk(m, a, bs) && i < |bs| && bs[i].status == Used
    requires Read(m, a + FREE_LIST_SLOT) != NULL && bs[i].addr < Read(m, a + FREE_LIST_SLOT)
    ensures var r := FreeAtFront(m, a, bs[i].addr);
            ArenaOk(r, a, Release(bs, i)) && BodyOnly(m, r, a)
  {
    var r := FreeAtFront(m, a, bs[i].addr);
    FreeAtFrontList(m, a, bs, i);
    BlockInBody(m, a, bs, i);
    FreeAtFrontBody(m, a, bs[i].addr);
    FreeAtFrontUsed(m, bs, i, a + A, a + Allocated(m, a), a);
    ReleaseOk(m, r, a, bs, i);
  }

  // talloc.h:200-211: the freed chunk lies above the head of the list.

  /** Memory after talloc.h:205-210: the freed chunk `c` linked after the
      chunk `ia`, then each coalesced with its successor and the maximum
      adjusted. */
  function FreeAfter(m: Mem, a: int, c: int, ia: int): Mem
  {
    var m1 := m[c + NEXT_SLOT := Read(m, ia + NEXT_SLOT)][ia + NEXT_SLOT := c];
    var m2 := AdjustMem(CoalesceMem(m1, c), a, c);
    AdjustMem(CoalesceMem(m2, ia), a, ia)
  }

  /** The free list is `p + q`, the freed chunk `x` at `c` goes between
      them, after `ia`, the last chunk of `p`, and merging `x` and then `ia`
      gives `rel`. */
  ghost predicate AfterReady(m: Mem, a: int, c: int, p: seq<Chunk>, x: Chunk, q: seq<Chunk>, ia: int, rel: seq<Chunk>)
  {
    && List(m, Read(m, a + FREE_LIST_SLOT), p + q) && Ordered(p + [x] + q) && Above(p + [x] + q, a + A)
    && Read(m, c + SIZE_SLOT) == x.size && c == x.addr && 0 < a && a + A <= c
    && Read(m, a + MAX_FREE_SLOT) == MaxSize(p + q)
    && p != [] && ia == p[|p| - 1].addr && a + A <= ia
    && rel == CoalesceAt(CoalesceAt(p + [x] + q, |p|), |p| - 1)
  }

  /** The chunk the insertion loop of talloc.h:201-204 stops at is the last
      free chunk below the freed one. */
  lemma {:induction false} AfterFacts(p: seq<Chunk>, x: Chunk, q: seq<Chunk>, lo: int, ia: int, j: nat)
    requires forall k :: 0 <= k < |p| ==> lo <= p[k].addr < x.addr
    requires forall k :: 0 <= k < |q| ==> x.addr < q[k].addr
    requires lo <= x.addr
    requires j < |p + q| && (p + q)[j].addr == ia && ia < x.addr
    requires j + 1 < |p + q| ==> (p + q)[j + 1].addr >= x.addr
    ensures p != [] && ia == p[|p| - 1].addr && lo <= ia && Above(p + [x] + q, lo)
  {
    InsertionIndex(p, q, x.addr, j);
    assert (p + q)[j] == p[j];
    InsertedAbove(p, x, q, lo);
  }

  /** Above the head of the list, the released block has free chunks on its
      left, the last of which is where the loop stopped. */
  lemma {:induction false} AfterGlue(m: Mem, a: int, fs: seq<Chunk>, p: seq<Chunk>, x: Chunk, q: seq<Chunk>,
                                     ia: int, j: nat, rel: seq<Chunk>)
    requires SetupMem(m, a, fs, x) == true && SetupShape(fs, p, x, q, rel, a + A) == true
    requires j < |fs| && fs[j].addr == ia && ia < x.addr
    requires j + 1 < |fs| ==> fs[j + 1].addr >= x.addr
    ensures AfterReady(m, a, x.addr, p, x, q, ia, rel) == true
  {
    AfterFacts(p, x, q, a + A, ia, j);
  }

  /** The first two writes of talloc.h:205-206, which leave the arena
      slots alone. */
  lemma {:induction false} FreeAfterInsert(m: Mem, a: int, c: int, ia: int, p: seq<Chunk>, x: Chunk, q: seq<Chunk>)
    requires List(m, Read(m, a + FREE_LIST_SLOT), p + q) && Ordered(p + [x] + q) && p != []
    requires c == x.addr && ia == p[|p| - 1].addr && 0 < a && a + A <= c && a + A <= ia
    requires Read(m, c + SIZE_SLOT) == x.size
    ensures var m1 := m[c + NEXT_SLOT := Read(m, ia + NEXT_SLOT)][ia + NEXT_SLOT := c];
            && List(m1, Read(m, a + FREE_LIST_SLOT), p + [x] + q)
            && Read(m1, a + FREE_LIST_SLOT) == Read(m, a + FREE_LIST_SLOT)
            && Read(m1, a + MAX_FREE_SLOT) == Read(m, a + MAX_FREE_SLOT)
  {
    var j := |p| - 1;
    assert (p + q)[j] == p[j] && (p + q)[j + 1..] == q;
    SegAt(m, Read(m, a + FREE_LIST_SLOT), p + q, NULL, j);
    InsertAfter(m, Read(m, a + FREE_LIST_SLOT), p, x, q);
  }

  lemma {:induction false} FreeAfterCore(m: Mem, a: int, c: int, p: seq<Chunk>, x: Chunk, q: seq<Chunk>, ia: int, rel: seq<Chunk>)
    requires AfterReady(m, a, c, p, x, q, ia, rel) == true
    ensures FreedList(FreeAfter(m, a, c, ia), a, rel)
  {
    FreeAfterInsert(m, a, c, ia, p, x, q);
    var m1 := m[c + NEXT_SLOT := Read(m, ia + NEXT_SLOT)][ia + NEXT_SLOT := c];
    FreeAfterMerge(m1, a, c, ia, Read(m, a + FREE_LIST_SLOT), p, x, q);
    FreeAfterSteps(m, a, c, ia);
  }

  /** `FreeAfter` is the link writes followed by two merges. */
  lemma {:induction false} FreeAfterSteps(m: Mem, a: int, c: int, ia: int)
    ensures var m1 := m[c + NEXT_SLOT := Read(m, ia + NEXT_SLOT)][ia + NEXT_SLOT := c];
            FreeAfter(m, a, c, ia) == AdjustMem(CoalesceMem(AdjustMem(CoalesceMem(m1, c), a, c), ia), a, ia)
  {
  }

  /** The two coalescing steps of talloc.h:207-210 on the list `p + [x] + q`. */
  lemma {:induction false} FreeAfterMerge(m1: Mem, a: int, c: int, ia: int, head: int, p: seq<Chunk>, x: Chunk, q: seq<Chunk>)
    requires List(m1, head, p + [x] + q) && Ordered(p + [x] + q) && Above(p + [x] + q, a + A) && p != []
    requires c == x.addr && ia == p[|p| - 1].addr
    requires Read(m1, a + MAX_FREE_SLOT) == MaxSize(p + q) && Read(m1, a + FREE_LIST_SLOT) == head
    ensures var r := AdjustMem(CoalesceMem(AdjustMem(CoalesceMem(m1, c), a, c), ia), a, ia);
            var rel := CoalesceAt(CoalesceAt(p + [x] + q, |p|), |p| - 1);
            List(r, head, rel) && Read(r, a + MAX_FREE_SLOT) == MaxSize(rel) && Read(r, a + FREE_LIST_SLOT) == head
  {
    var s := p + [x] + q;
    assert s[|p|] == x && s[|p| - 1] == p[|p| - 1];
    CoalesceAdjust(m1, a, head, s, |p|);
    InsertCoalesceMax(p, x, q);
    var m2 := AdjustMem(CoalesceMem(m1, c), a, c);
    var ins := CoalesceAt(s, |p|);
    assert ins[|p| - 1] == ins[..|p|][|p| - 1] == s[..|p|][|p| - 1];
    CoalesceAdjust(m2, a, head, ins, |p| - 1);
    CoalesceMax(ins, |p| - 1);
  }

  lemma {:induction false} FreeAfterList(m: Mem, a: int, bs: seq<Block>, i: nat, ia: int, j: nat)
    requires ArenaOk(m, a, bs) && i < |bs| && bs[i].status == Used
    requires j < |FreeChunks(bs)| && FreeChunks(bs)[j].addr == ia && ia < bs[i].addr
    requires j + 1 < |FreeChunks(bs)| ==> FreeChunks(bs)[j + 1].addr >= bs[i].addr
    ensures FreedList(FreeAfter(m, a, bs[i].addr, ia), a, FreeChunks(Release(bs, i)))
  {
    var p, x, q, rel := FreeChunks(bs[..i]), ChunkOf(bs[i]), FreeChunks(bs[i + 1..]), FreeChunks(Release(bs, i));
    MemOf(m, a, bs, i);
    ShapeOf(bs, i, a + A, a + Allocated(m, a));
    AfterGlue(m, a, FreeChunks(bs), p, x, q, ia, j, rel);
    FreeAfterCore(m, a, x.addr, p, x, q, ia, rel);
  }

  lemma {:induction false} FreeAfterBody(m: Mem, a: int, c: int, ia: int)
    requires a + A <= c && c + H <= a + Allocated(m, a)
    requires a + A <= ia && ia + H <= a + Allocated(m, a)
    ensures BodyOnly(m, FreeAfter(m, a, c, ia), a)
  {
    var m0 := m[c + NEXT_SLOT := Read(m, ia + NEXT_SLOT)];
    var m1 := m0[ia + NEXT_SLOT := c];
    WriteBody(m, m, a, c + NEXT_SLOT, Read(m, ia + NEXT_SLOT));
    WriteBody(m, m0, a, ia + NEXT_SLOT, c);
    CoalesceAdjustBody(m, m1, a, c);
    CoalesceAdjustBody(m, AdjustMem(CoalesceMem(m1, c), a, c), a, ia);
  }

  lemma {:induction false} FreeAfterUsed(m: Mem, bs: seq<Block>, i: nat, lo: nat, hi: nat, a: int, i2: nat)
    requires Tiles(bs, lo, hi) && UsedOkBut(m, bs, i) && i < |bs| && lo == a + A
    requires i2 < |bs| && bs[i2].status == Free
    ensures UsedOkBut(FreeAfter(m, a, bs[i].addr, bs[i2].addr), bs, i)
  {
    var c := bs[i].addr;
    var ia := bs[i2].addr;
    var m1 := m[c + NEXT_SLOT := Read(m, ia + NEXT_SLOT)][ia + NEXT_SLOT := c];
    LinkAfterUsed(m, bs, i, lo, hi, i2);
    CoalesceAdjustUsed(m1, bs, i, lo, hi, a, i);
    CoalesceAdjustUsed(AdjustMem(CoalesceMem(m1, c), a, c), bs, i, lo, hi, a, i2);
  }

  lemma {:induction false} LinkAfterUsed(m: Mem, bs: seq<Block>, i: nat, lo: nat, hi: nat, i2: nat)
    requires Tiles(bs, lo, hi) && UsedOkBut(m, bs, i) && i < |bs| && i2 < |bs| && bs[i2].status == Free
    ensures var c := bs[i].addr;
            var ia := bs[i2].addr;
            UsedOkBut(m[c + NEXT_SLOT := Read(m, ia + NEXT_SLOT)][ia + NEXT_SLOT := c], bs, i)
  {
    var c := bs[i].addr;
    var ia := bs[i2].addr;
    WriteHeaderUsed(m, bs, i, lo, hi, i, c + NEXT_SLOT, Read(m, ia + NEXT_SLOT));
    WriteHeaderUsed(m[c + NEXT_SLOT := Read(m, ia + NEXT_SLOT)], bs, i, lo, hi, i2, ia + NEXT_SLOT, c);
  }

  /** Freeing above the head of the list (talloc.h:200-211), once the loop
      has stopped at the chunk `ia` at position `j`, leaves the arena
      holding `Release(bs, i)` and writes only its own slots and body. */
  lemma {:induction false} FreeAfterOk(m: Mem, a: int, bs: seq<Block>, i: nat, ia: int, j: nat)
    requires ArenaOk(m, a, bs) && i < |bs| && bs[i].status == Used
    requires j < |FreeChunks(bs)| && FreeChunks(bs)[j].addr == ia && ia < bs[i].addr
    requires j + 1 < |FreeChunks(bs)| ==> FreeChunks(bs)[j + 1].addr >= bs[i].addr
    ensures var r := FreeAfter(m, a, bs[i].addr, ia);
            ArenaOk(r, a, Release(bs, i)) && BodyOnly(m, r, a)
  {
    var r := FreeAfter(m, a, bs[i].addr, ia);
    FreeAfterList(m, a, bs, i, ia, j);
    var i2 := FreeChunksIndex(bs, j);
    FreeAfterFrame(m, a, bs, i, i2);
    ReleaseOk(m, r, a, bs, i);
  }

  lemma {:induction false} FreeAfterFrame(m: Mem, a: int, bs: seq<Block>, i: nat, i2: nat)
    requires ArenaOk(m, a, bs) && i < |bs| && i2 < |bs| && bs[i2].status == Free
    ensures var r := FreeAfter(m, a, bs[i].addr, bs[i2].addr);
            BodyOnly(m, r, a) && UsedOkBut(r, bs, i)
  {
    BlockInBody(m, a, bs, i);
    BlockInBody(m, a, bs, i2);
    FreeAfterBody(m, a, bs[i].addr, bs[i2].addr);
    FreeAfterUsed(m, bs, i, a + A, a + Allocated(m, a), a, i2);
  }

  /** No free chunk starts at an allocated block. */
  lemma {:induction false} UsedNotListed(bs: seq<Block>, i: nat, lo: nat, hi: nat)
    requires Tiles(bs, lo, hi) && i < |bs| && bs[i].status == Used
    ensures forall k :: 0 <= k < |FreeChunks(bs)| ==> FreeChunks(bs)[k].addr != bs[i].addr
  {
    var p := FreeChunks(bs[..i]);
    var q := FreeChunks(bs[i + 1..]);
    FreeOrder(bs, i, lo, hi);
    FreeBounds(bs, i, lo, hi);
    var fs := FreeChunks(bs);
    forall k | 0 <= k < |fs| ensures fs[k].addr != bs[i].addr {
      if k < |p| {
        assert fs[k] == p[k];
      } else {
        assert fs[k] == q[k - |p|];
      }
    }
  }

  /** Where the walk of talloc.h:201-204 stops in a free list holding `fs`:
      at the chunk `ia`, the `j`-th, the last one below `c`. */
  predicate InsertionPoint(fs: seq<Chunk>, c: int, ia: int, j: nat)
  {
    j < |fs| && fs[j].addr == ia && ia < c && (j + 1 < |fs| ==> fs[j + 1].addr >= c)
  }

  /** Memory after talloc.h:190-211 link the chunk at `c` into the free
      list of the arena at `a`: as the whole list, at its front, or after
      `ia`. */
  function InsertFreed(m: Mem, a: int, c: int, ia: int): Mem
  {
    if Read(m, a + FREE_LIST_SLOT) == NULL then FreeIntoEmpty(m, a, c)
    else if c < Read(m, a + FREE_LIST_SLOT) then FreeAtFront(m, a, c)
    else FreeAfter(m, a, c, ia)
  }

  /** Whichever case applies, freeing the allocated block `i` leaves the
      arena holding `Release(bs, i)`, writing only its own slots and body. */
  lemma {:induction false} InsertFreedOk(m: Mem, a: int, bs: seq<Block>, i: nat, ia: int, j: nat)
    requires ArenaOk(m, a, bs) && i < |bs| && bs[i].status == Used
    requires Read(m, a + FREE_LIST_SLOT) != NULL && Read(m, a + FREE_LIST_SLOT) <= bs[i].addr ==>
               InsertionPoint(FreeChunks(bs), bs[i].addr, ia, j)
    ensures var r := InsertFreed(m, a, bs[i].addr, ia);
            ArenaOk(r, a, Release(bs, i)) && BodyOnly(m, r, a)
  {
    var head := Read(m, a + FREE_LIST_SLOT);
    if head == NULL {
      FreeIntoEmptyOk(m, a, bs, i);
    } else if bs[i].addr < head {
      FreeAtFrontOk(m, a, bs, i);
    } else {
      FreeAfterOk(m, a, bs, i, ia, j);
    }
  }

  /** Freeing block `i` of arena `idx` keeps the whole arena list valid. */
  lemma {:induction false} FreedListOk(m: Mem, arenas: seq<int>, bss: seq<seq<Block>>, idx: nat, i: nat, ia: int, j: nat)
    requires ArenasOk(m, arenas, bss) && idx < |arenas| && i < |bss[idx]| && bss[idx][i].status == Used
    requires Read(m, arenas[idx] + FREE_LIST_SLOT) != NULL && Read(m, arenas[idx] + FREE_LIST_SLOT) <= bss[idx][i].addr ==>
               InsertionPoint(FreeChunks(bss[idx]), bss[idx][i].addr, ia, j)
    ensures ArenasOk(InsertFreed(m, arenas[idx], bss[idx][i].addr, ia), arenas, bss[idx := Release(bss[idx], i)])
  {
    var a := arenas[idx];
    ArenaAt(m, arenas, bss, idx);
    InsertFreedOk(m, a, bss[idx], i, ia, j);
    ArenasUpdate(m, InsertFreed(m, a, bss[idx][i].addr, ia), arenas, bss, idx, Release(bss[idx], i));
  }

  /** What the walk needs of block `i` of arena `idx`: the free list holds
      the arena's free chunks, none of them at the block, and the block's
      header lies in the body with a positive size. */
  lemma {:induction false} FreeableAt(m: Mem, arenas: seq<int>, bss: seq<seq<Block>>, idx: nat, i: nat)
    requires ArenasOk(m, arenas, bss) && idx < |arenas| && i < |bss[idx]| && bss[idx][i].status == Used
    ensures List(m, Read(m, arenas[idx] + FREE_LIST_SLOT), FreeChunks(bss[idx])) == true
    ensures forall k :: 0 <= k < |FreeChunks(bss[idx])| ==> FreeChunks(bss[idx])[k].addr != bss[idx][i].addr
    ensures Above(FreeChunks(bss[idx]), arenas[idx] + A)
    ensures arenas[idx] + A <= bss[idx][i].addr && 0 <= Read(m, bss[idx][i].addr + SIZE_SLOT)
  {
    var a := arenas[idx];
    ArenaAt(m, arenas, bss, idx);
    BlockInBody(m, a, bss[idx], i);
    UsedNotListed(bss[idx], i, a + A, a + Allocated(m, a));
    TilesChunksWithin(bss[idx], a + A, a + Allocated(m, a));
    assert HeaderOk(m, bss[idx][i]);
  }

  /** The test of talloc.h:214: an arena's `allocated` exceeds its
      `max_free_space` by the overhead exactly when the arena is one free
      chunk again. */
  lemma {:induction false} ReleasedWhole(m: Mem, arenas: seq<int>, bss: seq<seq<Block>>, k: nat)
    requires ArenasOk(m, arenas, bss) && k < |arenas|
    ensures var a := arenas[k];
            && 0 <= a && OVERHEAD < Allocated(m, a)
            && (Allocated(m, a) == Read(m, a + MAX_FREE_SLOT) + OVERHEAD <==> bss[k] == FreshBlocks(a, Allocated(m, a)))
            && (bss[k] == FreshBlocks(a, Allocated(m, a)) <==> |bss[k]| == 1 && bss[k][0].status == Free)
  {
    var a := arenas[k];
    ArenaAt(m, arenas, bss, k);
    WhollyFree(bss[k], a + A, a + Allocated(m, a));
  }
}
