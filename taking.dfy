/** What `TAlloc_malloc` does inside the arena it has chosen
    (talloc.h:254-306), with talloc.h:292 linking the predecessor of the
    taken chunk as evidently intended: the first free chunk large enough is
    split when its excess exceeds a chunk header, the remainder is merged
    with its successor and counted in `max_free_space`, the header of the
    handed-out block is written, the chunk leaves the free list, and
    `max_free_space` is rescanned when it may have dropped.

    As for a free, the proof comes in parts: the free list and its maximum,
    the footprint of the writes, and the headers of the allocated blocks. */
module Taking {
  import opened Layout
  import opened FreeList
  import opened Memory
  import opened Blocks
  import opened Arena
  import opened Freeing

  /** talloc.h:270: the chunk at `h` is split when its excess over `size`
      exceeds a chunk header. */
  predicate Splits(m: Mem, h: int, size: int)
  {
    Read(m, h + SIZE_SLOT) - size > H
  }

  /** Memory after talloc.h:271-277: the remainder past `size` bytes of the
      chunk at `h` becomes a free chunk in front of `h`'s successor, is merged
      with it when they touch, and is counted in `max_free_space`. */
  function SplitMem(m: Mem, a: int, h: int, size: int): Mem
  {
    var r := h + H + size;
    var m1 := m[r + SIZE_SLOT := Read(m, h + SIZE_SLOT) - size - H][r + NEXT_SLOT := Read(m, h + NEXT_SLOT)];
    AdjustMem(CoalesceMem(m1, r), a, r)
  }

  /** The two slot writes, the merge and the `max_free_space` update, in
      turn, leave the memory `SplitMem` gives. */
  lemma {:induction false} SplitMemOfSteps(m: Mem, m1: Mem, m2: Mem, m3: Mem, a: int, h: int, size: int)
    requires m1 == m[h + H + size + SIZE_SLOT := Read(m, h + SIZE_SLOT) - size - H]
                    [h + H + size + NEXT_SLOT := Read(m, h + NEXT_SLOT)]
    requires m2 == CoalesceMem(m1, h + H + size) && m3 == AdjustMem(m2, a, h + H + size)
    ensures m3 == SplitMem(m, a, h, size)
  {
  }

  /** talloc.h:268 and 280: `max_free_space` may have dropped, because the
      taken chunk was at least as large as it and no larger remainder took
      its place. */
  predicate Affected(m: Mem, a: int, h: int, size: int)
  {
    var hs := Read(m, h + SIZE_SLOT);
    && hs >= Read(m, a + MAX_FREE_SLOT)
    && (!Splits(m, h, size) || hs > Read(SplitMem(m, a, h, size), h + H + size + SIZE_SLOT))
  }

  /** Memory after talloc.h:287-289: the header of the handed-out block holds
      its size, and the magic word in the low half of the word after it. */
  function HeaderMem(m: Mem, h: int, granted: int): Mem
  {
    m[h + MAGIC_SLOT := WithMagic(Read(m, h + MAGIC_SLOT), MAGIC)][h + SIZE_SLOT := granted]
  }

  /** Memory after talloc.h:291-292 as intended: the list head, or the
      predecessor `prev` of the taken chunk, skips to `nfc`. */
  function UnlinkChunk(m: Mem, a: int, prev: int, nfc: int): Mem
  {
    if prev == NULL then m[a + FREE_LIST_SLOT := nfc] else m[prev + NEXT_SLOT := nfc]
  }

  /** Memory after talloc.h:264-292 when the free chunk at `h`, whose list
      predecessor is `prev` (NULL when it heads the list), is split for
      `size` bytes. */
  function TakeSplitMem(m: Mem, a: int, h: int, prev: int, size: int): Mem
  {
    UnlinkChunk(HeaderMem(SplitMem(m, a, h, size), h, size), a, prev, h + H + size)
  }

  /** Memory after talloc.h:264-292 when the free chunk at `h` is handed out
      whole. */
  function TakeWholeMem(m: Mem, a: int, h: int, prev: int): Mem
  {
    UnlinkChunk(HeaderMem(m, h, Read(m, h + SIZE_SLOT)), a, prev, Read(m, h + NEXT_SLOT))
  }

  /** The remainder chunk of talloc.h:271-274, before any merging. */
  function RemainderChunk(ch: Chunk, size: nat): Chunk
    requires size + H < ch.size
  {
    Chunk(ch.addr + H + size, ch.size - size - H)
  }

  /** What replaces the taken chunk `ch` and its successors `q` on the list. */
  function Rest(ch: Chunk, size: nat, q: seq<Chunk>): seq<Chunk>
  {
    if size + H < ch.size then CoalesceAt([RemainderChunk(ch, size)] + q, 0) else q
  }

  // The free list around the taken block, on chunk sequences alone.

  /** The list `fs` is `p`, the taken chunk `ch`, then `q`, inside `[lo, hi)`. */
  ghost predicate TakeParts(fs: seq<Chunk>, p: seq<Chunk>, ch: Chunk, q: seq<Chunk>, lo: nat, hi: nat)
  {
    && fs == p + [ch] + q && Ordered(p + [ch] + q)
    && lo <= ch.addr && ChunkEnd(ch) <= hi
    && Within(p, lo, ch.addr) && Within(q, ChunkEnd(ch), hi) && Ordered(q)
  }

  /** The list after the malloc is `p + t`, where `t` replaces `ch` and `q`. */
  ghost predicate TakeResult(p: seq<Chunk>, ch: Chunk, q: seq<Chunk>, size: nat, t: seq<Chunk>, nfs: seq<Chunk>, lo: nat, hi: nat)
  {
    && size <= ch.size && t == Rest(ch, size, q)
    && nfs == p + t && Ordered(nfs) && Within(nfs, lo, hi)
  }

  lemma {:induction false} TakePartsOf(bs: seq<Block>, i: nat, lo: nat, hi: nat)
    requires Tiles(bs, lo, hi) && i < |bs| && bs[i].status == Free
    ensures TakeParts(FreeChunks(bs), FreeChunks(bs[..i]), ChunkOf(bs[i]), FreeChunks(bs[i + 1..]), lo, hi) == true
  {
    FreeChunksAround(bs, i);
    TilesChunks(bs, lo, hi);
    TakePartsWithin(bs, i, lo, hi);
  }

  lemma {:induction false} TakePartsWithin(bs: seq<Block>, i: nat, lo: nat, hi: nat)
    requires Tiles(bs, lo, hi) && i < |bs|
    ensures Within(FreeChunks(bs[..i]), lo, bs[i].addr)
    ensures Within(FreeChunks(bs[i + 1..]), End(bs[i]), hi) && Ordered(FreeChunks(bs[i + 1..]))
    ensures lo <= bs[i].addr && End(bs[i]) <= hi
  {
    TilesSplit(bs, lo, hi, i);
    TilesChunksWithin(bs[..i], lo, bs[i].addr);
    TilesChunks(bs[i + 1..], End(bs[i]), hi);
    TilesWithin(bs, lo, hi, i);
  }

  lemma {:induction false} TakeResultOf(bs: seq<Block>, i: nat, size: nat, lo: nat, hi: nat)
    requires Tiles(bs, lo, hi) && NoAdjacentFree(bs) && i < |bs| && size <= bs[i].size
    ensures TakeResult(FreeChunks(bs[..i]), ChunkOf(bs[i]), FreeChunks(bs[i + 1..]), size,
                       FreeChunks(Carve(bs[i], size, bs[i + 1..])), FreeChunks(TakeIntended(bs, i, size)), lo, hi) == true
  {
    TakeRestChunks(bs, i, size, lo, hi);
    TakeChunks(bs, i, size, lo, hi);
    TakeIntendedTiles(bs, i, size, lo, hi);
    TilesChunks(TakeIntended(bs, i, size), lo, hi);
  }

  lemma {:induction false} TakeRestChunks(bs: seq<Block>, i: nat, size: nat, lo: nat, hi: nat)
    requires Tiles(bs, lo, hi) && i < |bs| && size <= bs[i].size
    ensures FreeChunks(Carve(bs[i], size, bs[i + 1..])) == Rest(ChunkOf(bs[i]), size, FreeChunks(bs[i + 1..]))
  {
    TilesSplit(bs, lo, hi, i);
    CarveChunks(bs[i], size, bs[i + 1..], hi);
    if bs[i].size - size > H {
      assert ChunkOf(Remainder(bs[i], size)) == RemainderChunk(ChunkOf(bs[i]), size);
    }
  }

  // The free list in memory.

  lemma {:induction false} ClearBelowWithin(cs: seq<Chunk>, lo: nat, hi: nat, x: int)
    requires Within(cs, lo, hi) && (x < lo || hi <= x)
    ensures Clear(cs, x)
  {
  }

  lemma {:induction false} ClearBelowAbove(cs: seq<Chunk>, lo: int, x: int)
    requires Above(cs, lo) && x < lo
    ensures Clear(cs, x)
  {
  }

  /** Chunks inside `[lo, hi)` lie above `lo` and above anything below it. */
  lemma {:induction false} WithinAbove(cs: seq<Chunk>, lo: nat, hi: nat, y: int)
    requires Within(cs, lo, hi) && y <= lo
    ensures Above(cs, y)
  {
  }

  /** A memory that differs from `m1` at most in three slots, all clear of
      the headers of `cs`, agrees with it on those headers. */
  lemma {:induction false} ChangedOnlyAt(m1: Mem, m2: Mem, cs: seq<Chunk>, x1: int, x2: int, x3: int)
    requires forall x :: x != x1 && x != x2 && x != x3 ==> Read(m2, x) == Read(m1, x)
    requires Clear(cs, x1) && Clear(cs, x2) && Clear(cs, x3)
    ensures SameHeaders(m1, m2, cs)
  {
  }

  /** The list `p + [ch] + q` seen from the taken chunk: the segment up to
      it, its own slots, and the list after it. */
  lemma {:induction false} TakeSegs(m: Mem, L: int, p: seq<Chunk>, ch: Chunk, q: seq<Chunk>)
    requires List(m, L, p + [ch] + q)
    ensures Seg(m, L, p, ch.addr) && ch.addr != NULL
    ensures Read(m, ch.addr + SIZE_SLOT) == ch.size && Read(m, ch.addr + NEXT_SLOT) == Start(q, NULL)
    ensures List(m, Start(q, NULL), q)
  {
    var cs := p + [ch] + q;
    SegAt(m, L, cs, NULL, |p|);
    assert cs[..|p|] == p && cs[|p|] == ch && cs[|p| + 1..] == q;
  }

  /** talloc.h:271-277 in memory: the remainder heads the list `Rest(ch,
      size, q)`, and `max_free_space` counts it. */
  lemma {:induction false} SplitList(m: Mem, a: int, ch: Chunk, size: nat, q: seq<Chunk>, hi: nat)
    requires Read(m, ch.addr + SIZE_SLOT) == ch.size && Read(m, ch.addr + NEXT_SLOT) == Start(q, NULL)
    requires List(m, Start(q, NULL), q) && Ordered(q) && Within(q, ChunkEnd(ch), hi)
    requires 0 < a && a + A <= ch.addr && size + H < ch.size
    ensures var ms := SplitMem(m, a, ch.addr, size);
            var t := Rest(ch, size, q);
            var mx := Read(m, a + MAX_FREE_SLOT);
            && t != [] && t[0].addr == ch.addr + H + size
            && List(ms, t[0].addr, t)
            && Read(ms, t[0].addr + SIZE_SLOT) == t[0].size
            && Read(ms, a + MAX_FREE_SLOT) == (if t[0].size > mx then t[0].size else mx)
            && Read(ms, a + FREE_LIST_SLOT) == Read(m, a + FREE_LIST_SLOT)
  {
    var rc := RemainderChunk(ch, size);
    var m1 := m[rc.addr + SIZE_SLOT := rc.size][rc.addr + NEXT_SLOT := Start(q, NULL)];
    SplitPlace(m, a, ch, size, q, hi);
    SplitMemSteps(m, a, ch, size, q);
    CoalesceAdjust(m1, a, rc.addr, [rc] + q, 0);
  }

  /** talloc.h:271-275: the remainder written in front of `q`. */
  lemma {:induction false} SplitPlace(m: Mem, a: int, ch: Chunk, size: nat, q: seq<Chunk>, hi: nat)
    requires List(m, Start(q, NULL), q) && Ordered(q) && Within(q, ChunkEnd(ch), hi)
    requires 0 < a && a + A <= ch.addr && size + H < ch.size
    ensures var rc := RemainderChunk(ch, size);
            var m1 := m[rc.addr + SIZE_SLOT := rc.size][rc.addr + NEXT_SLOT := Start(q, NULL)];
            && List(m1, rc.addr, [rc] + q) && Ordered([rc] + q) && Above([rc] + q, a + A)
            && Read(m1, a + FREE_LIST_SLOT) == Read(m, a + FREE_LIST_SLOT)
            && Read(m1, a + MAX_FREE_SLOT) == Read(m, a + MAX_FREE_SLOT)
  {
    var rc := RemainderChunk(ch, size);
    OrderedCons(rc, q);
    PlaceChunk(m, rc, q);
    RemainderAbove(rc, q, ChunkEnd(ch), hi, a + A);
  }

  /** `SplitMem` spelled out for a chunk whose slots hold `ch` and point at `q`. */
  lemma {:induction false} SplitMemSteps(m: Mem, a: int, ch: Chunk, size: nat, q: seq<Chunk>)
    requires Read(m, ch.addr + SIZE_SLOT) == ch.size && Read(m, ch.addr + NEXT_SLOT) == Start(q, NULL)
    requires size + H < ch.size
    ensures var rc := RemainderChunk(ch, size);
            var m1 := m[rc.addr + SIZE_SLOT := rc.size][rc.addr + NEXT_SLOT := Start(q, NULL)];
            SplitMem(m, a, ch.addr, size) == AdjustMem(CoalesceMem(m1, rc.addr), a, rc.addr)
  {
  }

  lemma {:induction false} RemainderAbove(rc: Chunk, q: seq<Chunk>, lo: nat, hi: nat, y: int)
    requires Within(q, lo, hi) && y <= rc.addr && y <= lo
    ensures Above([rc] + q, y)
  {
    var s := [rc] + q;
    forall k | 0 <= k < |s| ensures y <= s[k].addr {
      if k > 0 {
        assert s[k] == q[k - 1];
      }
    }
  }

  /** The writes of talloc.h:271-277 are the remainder's two slots and
      `max_free_space`. */
  lemma {:induction false} SplitFrame(m: Mem, a: int, h: int, size: int)
    ensures var r := h + H + size;
            forall x :: x != r + SIZE_SLOT && x != r + NEXT_SLOT && x != a + MAX_FREE_SLOT ==>
              Read(SplitMem(m, a, h, size), x) == Read(m, x)
  {
    var r := h + H + size;
    var m1 := m[r + SIZE_SLOT := Read(m, h + SIZE_SLOT) - size - H][r + NEXT_SLOT := Read(m, h + NEXT_SLOT)];
    CoalesceFrame(m1, r);
    AdjustFrame(CoalesceMem(m1, r), a, r);
  }

  /** Those writes spare the chunks before the taken one. */
  lemma {:induction false} SplitKeepsPrefix(m: Mem, a: int, L: int, p: seq<Chunk>, h: nat, size: nat)
    requires Seg(m, L, p, h) && 0 < a && Within(p, a + A, h)
    ensures Seg(SplitMem(m, a, h, size), L, p, h)
  {
    var r := h + H + size;
    SplitFrame(m, a, h, size);
    ClearBelowWithin(p, a + A, h, r + SIZE_SLOT);
    ClearBelowWithin(p, a + A, h, r + NEXT_SLOT);
    ClearBelowWithin(p, a + A, h, a + MAX_FREE_SLOT);
    ChangedOnlyAt(m, SplitMem(m, a, h, size), p, r + SIZE_SLOT, r + NEXT_SLOT, a + MAX_FREE_SLOT);
    SegFrame(m, SplitMem(m, a, h, size), L, p, h);
  }

  /** talloc.h:287-289: the header writes lie outside every chunk of `p`
      and of `t`. */
  lemma {:induction false} HeaderKeeps(m: Mem, L: int, p: seq<Chunk>, h: nat, t: seq<Chunk>, granted: int, lo: nat)
    requires Seg(m, L, p, h) && List(m, Start(t, NULL), t)
    requires Within(p, lo, h) && Above(t, h + H)
    ensures var mh := HeaderMem(m, h, granted);
            Seg(mh, L, p, h) && List(mh, Start(t, NULL), t)
  {
    var w := WithMagic(Read(m, h + MAGIC_SLOT), MAGIC);
    var mh := HeaderMem(m, h, granted);
    ClearBelowWithin(p, lo, h, h + MAGIC_SLOT);
    ClearBelowWithin(p, lo, h, h + SIZE_SLOT);
    ClearBelowAbove(t, h + H, h + MAGIC_SLOT);
    ClearBelowAbove(t, h + H, h + SIZE_SLOT);
    WriteTwoClear(m, p, h + MAGIC_SLOT, w, h + SIZE_SLOT, granted);
    WriteTwoClear(m, t, h + MAGIC_SLOT, w, h + SIZE_SLOT, granted);
    SegFrame(m, mh, L, p, h);
    SegFrame(m, mh, Start(t, NULL), t, NULL);
  }

  /** talloc.h:291-292 as intended: the list becomes `p + t`. */
  lemma {:induction false} UnlinkList(m: Mem, a: int, L: int, p: seq<Chunk>, h: int, t: seq<Chunk>, prev: int)
    requires Seg(m, L, p, h) && List(m, Start(t, NULL), t) && Ordered(p + t)
    requires 0 < a && Read(m, a + FREE_LIST_SLOT) == L && Above(p, a + A) && Above(t, a + A)
    requires prev == (if p == [] then NULL else p[|p| - 1].addr)
    ensures var mu := UnlinkChunk(m, a, prev, Start(t, NULL));
            && List(mu, Read(mu, a + FREE_LIST_SLOT), p + t)
            && Read(mu, a + MAX_FREE_SLOT) == Read(m, a + MAX_FREE_SLOT)
  {
    var mu := UnlinkChunk(m, a, prev, Start(t, NULL));
    if p == [] {
      ClearBelowAbove(t, a + A, a + FREE_LIST_SLOT);
      WriteClear(m, t, a + FREE_LIST_SLOT, Start(t, NULL));
      SegFrame(m, mu, Start(t, NULL), t, NULL);
      assert p + t == t;
    } else {
      assert a + A <= p[|p| - 1].addr;
      LinkAfter(m, L, p, h, t);
    }
  }

  /** talloc.h:287-292 once the remainder, if any, is in place. */
  lemma {:induction false} TakeTail(m: Mem, a: int, L: int, p: seq<Chunk>, h: nat, t: seq<Chunk>, prev: int, granted: int)
    requires Seg(m, L, p, h) && List(m, Start(t, NULL), t) && Ordered(p + t)
    requires 0 < a && a + A <= h && Read(m, a + FREE_LIST_SLOT) == L
    requires Within(p, a + A, h) && Above(t, h + H)
    requires prev == (if p == [] then NULL else p[|p| - 1].addr)
    ensures var mt := UnlinkChunk(HeaderMem(m, h, granted), a, prev, Start(t, NULL));
            && List(mt, Read(mt, a + FREE_LIST_SLOT), p + t)
            && Read(mt, a + MAX_FREE_SLOT) == Read(m, a + MAX_FREE_SLOT)
  {
    HeaderKeeps(m, L, p, h, t, granted, a + A);
    WithinAbove(p, a + A, h, a + A);
    UnlinkList(HeaderMem(m, h, granted), a, L, p, h, t, prev);
  }

  /** What replaces the taken chunk lies past its header. */
  lemma {:induction false} RestAbove(ch: Chunk, size: nat, q: seq<Chunk>, hi: nat)
    requires Within(q, ChunkEnd(ch), hi)
    ensures Above(Rest(ch, size, q), ch.addr + H)
  {
    if size + H < ch.size {
      RemainderAbove(RemainderChunk(ch, size), q, ChunkEnd(ch), hi, ch.addr + H);
      CoalesceAbove([RemainderChunk(ch, size)] + q, 0, ch.addr + H);
    } else {
      WithinAbove(q, ChunkEnd(ch), hi, ch.addr + H);
    }
  }

  /** The state after talloc.h:271-277 that the rest of the split path
      needs: the chunks before `h` are untouched and the remainder heads `t`. */
  ghost predicate SplitDone(ms: Mem, a: int, L: int, p: seq<Chunk>, h: int, size: int, t: seq<Chunk>)
  {
    && Seg(ms, L, p, h) && Read(ms, a + FREE_LIST_SLOT) == L
    && t != [] && Start(t, NULL) == h + H + size && List(ms, h + H + size, t)
  }

  /** talloc.h:271-277 leave the list in the state `SplitDone` describes. */
  lemma {:induction false} SplitDoneOf(m: Mem, a: int, L: int, p: seq<Chunk>, ch: Chunk, q: seq<Chunk>, size: nat, hi: nat)
    requires Seg(m, L, p, ch.addr) && L == Read(m, a + FREE_LIST_SLOT)
    requires Read(m, ch.addr + SIZE_SLOT) == ch.size && Read(m, ch.addr + NEXT_SLOT) == Start(q, NULL)
    requires List(m, Start(q, NULL), q) && Ordered(q) && Within(q, ChunkEnd(ch), hi)
    requires 0 < a && a + A <= ch.addr && size + H < ch.size && Within(p, a + A, ch.addr)
    ensures var ms := SplitMem(m, a, ch.addr, size);
            var t := Rest(ch, size, q);
            var mx := Read(m, a + MAX_FREE_SLOT);
            && SplitDone(ms, a, L, p, ch.addr, size, t) == true
            && Read(ms, ch.addr + H + size + SIZE_SLOT) == t[0].size
            && Read(ms, a + MAX_FREE_SLOT) == (if t[0].size > mx then t[0].size else mx)
  {
    SplitList(m, a, ch, size, q, hi);
    SplitKeepsPrefix(m, a, L, p, ch.addr, size);
  }

  /** talloc.h:287-292 after a split. */
  lemma {:induction false} SplitTail(ms: Mem, a: int, L: int, p: seq<Chunk>, h: nat, size: int, t: seq<Chunk>, prev: int)
    requires SplitDone(ms, a, L, p, h, size, t) == true
    requires Ordered(p + t) && 0 < a && a + A <= h && Within(p, a + A, h) && Above(t, h + H)
    requires prev == (if p == [] then NULL else p[|p| - 1].addr)
    ensures var mt := UnlinkChunk(HeaderMem(ms, h, size), a, prev, h + H + size);
            && List(mt, Read(mt, a + FREE_LIST_SLOT), p + t)
            && Read(mt, a + MAX_FREE_SLOT) == Read(ms, a + MAX_FREE_SLOT)
  {
    TakeTail(ms, a, L, p, h, t, prev, size);
  }

  /** The shape a take's list proof starts from: the chunks `p` before the
      taken chunk `ch` and `q` after it lie in `[lo, hi)`, `t` is what
      replaces `ch` and `q`, and `prev` is the last chunk of `p`. */
  ghost predicate ShapeReady(p: seq<Chunk>, ch: Chunk, q: seq<Chunk>, size: nat, t: seq<Chunk>, prev: int, lo: nat, hi: nat)
  {
    && Ordered(q) && Within(q, ChunkEnd(ch), hi) && lo <= ch.addr && Within(p, lo, ch.addr)
    && size <= ch.size && t == Rest(ch, size, q) && Ordered(p + t) && Above(t, ch.addr + H)
    && prev == (if p == [] then NULL else p[|p| - 1].addr)
  }

  /** The memory a take's list proof starts from: the list of the arena at
      `a` runs through `p` to `ch`, whose slots lead on to the list `q`. */
  ghost predicate MemReady(m: Mem, a: int, L: int, p: seq<Chunk>, ch: Chunk, q: seq<Chunk>)
  {
    && 0 < a && Seg(m, L, p, ch.addr) && L == Read(m, a + FREE_LIST_SLOT)
    && Read(m, ch.addr + SIZE_SLOT) == ch.size && Read(m, ch.addr + NEXT_SLOT) == Start(q, NULL)
    && List(m, Start(q, NULL), q)
  }

  /** talloc.h:264-292 when the chunk is split: the list becomes `p + t`. */
  lemma {:induction false} TakeSplitList(m: Mem, a: int, L: int, p: seq<Chunk>, ch: Chunk, q: seq<Chunk>, size: nat, t: seq<Chunk>, prev: int, hi: nat)
    requires 0 < a && ShapeReady(p, ch, q, size, t, prev, a + A, hi) == true && MemReady(m, a, L, p, ch, q) == true
    requires size + H < ch.size
    ensures var mt := TakeSplitMem(m, a, ch.addr, prev, size);
            List(mt, Read(mt, a + FREE_LIST_SLOT), p + t) == true
  {
    SplitDoneOf(m, a, L, p, ch, q, size, hi);
    SplitTail(SplitMem(m, a, ch.addr, size), a, L, p, ch.addr, size, t, prev);
  }

  /** talloc.h:264-292 when the chunk is handed out whole: the list becomes
      `p + q`. */
  lemma {:induction false} TakeWholeList(m: Mem, a: int, L: int, p: seq<Chunk>, ch: Chunk, q: seq<Chunk>, size: nat, t: seq<Chunk>, prev: int, hi: nat)
    requires 0 < a && ShapeReady(p, ch, q, size, t, prev, a + A, hi) == true && MemReady(m, a, L, p, ch, q) == true
    requires !(size + H < ch.size)
    ensures var mt := TakeWholeMem(m, a, ch.addr, prev);
            t == q && List(mt, Read(mt, a + FREE_LIST_SLOT), p + t) == true
  {
    TakeTail(m, a, L, p, ch.addr, t, prev, ch.size);
  }

  /** The writes of talloc.h:287-292 miss the `max_free_space` slot. */
  lemma {:induction false} WholeKeepsMax(m: Mem, a: int, h: int, prev: int)
    requires a + A <= h && (prev == NULL || a + A <= prev)
    ensures Read(TakeWholeMem(m, a, h, prev), a + MAX_FREE_SLOT) == Read(m, a + MAX_FREE_SLOT)
  {
  }

  /** Handing out the whole chunk keeps `max_free_space`, which stays exact
      when talloc.h:268 finds it unaffected. */
  lemma {:induction false} WholeMaxOk(m: Mem, a: int, L: int, p: seq<Chunk>, ch: Chunk, q: seq<Chunk>, size: nat, t: seq<Chunk>, prev: int, hi: nat)
    requires 0 < a && ShapeReady(p, ch, q, size, t, prev, a + A, hi) == true && MemReady(m, a, L, p, ch, q) == true
    requires !(size + H < ch.size) && Read(m, a + MAX_FREE_SLOT) == MaxSize(p + [ch] + q)
    ensures var mt := TakeWholeMem(m, a, ch.addr, prev);
            && Read(m, ch.addr + SIZE_SLOT) == ch.size
            && Read(mt, a + MAX_FREE_SLOT) == Read(m, a + MAX_FREE_SLOT)
            && (!Affected(m, a, ch.addr, size) ==> Read(mt, a + MAX_FREE_SLOT) == MaxSize(p + t))
  {
    assert t == q;
    if p != [] {
      assert a + A <= p[|p| - 1].addr;
    }
    WholeKeepsMax(m, a, ch.addr, prev);
    if !Affected(m, a, ch.addr, size) {
      TakeWholeMax(p, ch, q, Read(m, a + MAX_FREE_SLOT));
    }
  }

  /** The free block `i` at position `j` of the free list, seen as chunks. */
  lemma {:induction false} ShapeReadyOf(bs: seq<Block>, i: nat, j: nat, size: nat, prev: int, lo: nat, hi: nat)
    requires Tiles(bs, lo, hi) && NoAdjacentFree(bs) && i < |bs| && bs[i].status == Free && size <= bs[i].size
    requires j < |FreeChunks(bs)| && FreeChunks(bs[..i]) == FreeChunks(bs)[..j]
    requires prev == (if j == 0 then NULL else FreeChunks(bs)[j - 1].addr)
    ensures var p, ch, q := FreeChunks(bs[..i]), ChunkOf(bs[i]), FreeChunks(bs[i + 1..]);
            var t := FreeChunks(Carve(bs[i], size, bs[i + 1..]));
            && ShapeReady(p, ch, q, size, t, prev, lo, hi) == true
            && FreeChunks(bs) == p + [ch] + q && FreeChunks(TakeIntended(bs, i, size)) == p + t
  {
    var p, ch, q := FreeChunks(bs[..i]), ChunkOf(bs[i]), FreeChunks(bs[i + 1..]);
    var t := FreeChunks(Carve(bs[i], size, bs[i + 1..]));
    TakePartsOf(bs, i, lo, hi);
    TakeResultOf(bs, i, size, lo, hi);
    RestAbove(ch, size, q, hi);
    assert |p| == j;
    if j > 0 {
      assert p[|p| - 1] == FreeChunks(bs)[j - 1];
    }
    assert Ordered(p + t) && t == Rest(ch, size, q);
  }

  lemma {:induction false} MemReadyOf(m: Mem, a: int, L: int, p: seq<Chunk>, ch: Chunk, q: seq<Chunk>)
    requires 0 < a && L == Read(m, a + FREE_LIST_SLOT) && List(m, L, p + [ch] + q) == true
    ensures MemReady(m, a, L, p, ch, q) == true
  {
    TakeSegs(m, L, p, ch, q);
  }

  // The maximum.

  /** talloc.h:277 and 280 in memory: the remainder's size after its merge,
      and `max_free_space` once it counts the remainder. */
  lemma {:induction false} SplitMaxOf(m: Mem, a: int, L: int, p: seq<Chunk>, ch: Chunk, q: seq<Chunk>, size: nat, t: seq<Chunk>, prev: int, hi: nat)
    requires 0 < a && ShapeReady(p, ch, q, size, t, prev, a + A, hi) == true && MemReady(m, a, L, p, ch, q) == true
    requires size + H < ch.size
    ensures var mx := Read(m, a + MAX_FREE_SLOT);
            var mt := TakeSplitMem(m, a, ch.addr, prev, size);
            && t != [] && Read(SplitMem(m, a, ch.addr, size), ch.addr + H + size + SIZE_SLOT) == t[0].size
            && Read(mt, a + MAX_FREE_SLOT) == (if t[0].size > mx then t[0].size else mx)
            && (Affected(m, a, ch.addr, size) <==> ch.size >= mx && ch.size > t[0].size)
  {
    if p != [] {
      assert a + A <= p[|p| - 1].addr;
    }
    SplitList(m, a, ch, size, q, hi);
    SplitAffected(m, a, ch, size, Rest(ch, size, q)[0].size);
  }

  /** The test of talloc.h:268 and talloc.h:280 in terms of the chunk sizes. */
  lemma SplitAffected(m: Mem, a: int, ch: Chunk, size: nat, ts: int)
    requires Read(m, ch.addr + SIZE_SLOT) == ch.size && size + H < ch.size
    requires Read(SplitMem(m, a, ch.addr, size), ch.addr + H + size + SIZE_SLOT) == ts
    ensures Affected(m, a, ch.addr, size) <==> ch.size >= Read(m, a + MAX_FREE_SLOT) && ch.size > ts
  {
  }

  /** When talloc.h:280 finds `max_free_space` unaffected after a split, the
      remainder's adjustment left it exact. */
  lemma {:induction false} TakeSplitMax(p: seq<Chunk>, ch: Chunk, q: seq<Chunk>, size: nat, t: seq<Chunk>, mx: nat)
    requires size + H < ch.size && t == Rest(ch, size, q) && mx == MaxSize(p + [ch] + q)
    requires t != [] && !(ch.size >= mx && ch.size > t[0].size)
    ensures (if t[0].size > mx then t[0].size else mx) == MaxSize(p + t)
  {
    FrontCoalesceMax(RemainderChunk(ch, size), q);
    TakeIntendedMax(p, ch, q, t, true, mx);
  }

  /** When talloc.h:280 finds `max_free_space` unaffected after a split,
      it is the largest chunk of `p + t`. */
  lemma {:induction false} SplitMaxOk(m: Mem, a: int, L: int, p: seq<Chunk>, ch: Chunk, q: seq<Chunk>, size: nat, t: seq<Chunk>, prev: int, hi: nat)
    requires 0 < a && ShapeReady(p, ch, q, size, t, prev, a + A, hi) == true && MemReady(m, a, L, p, ch, q) == true
    requires size + H < ch.size && Read(m, a + MAX_FREE_SLOT) == MaxSize(p + [ch] + q)
    ensures var mt := TakeSplitMem(m, a, ch.addr, prev, size);
            !Affected(m, a, ch.addr, size) ==> Read(mt, a + MAX_FREE_SLOT) == MaxSize(p + t)
  {
    SplitMaxOf(m, a, L, p, ch, q, size, t, prev, hi);
    if !Affected(m, a, ch.addr, size) {
      TakeSplitMax(p, ch, q, size, t, Read(m, a + MAX_FREE_SLOT));
    }
  }

  /** When talloc.h:268 finds `max_free_space` unaffected by handing out a
      chunk whole, it stays exact. */
  lemma {:induction false} TakeWholeMax(p: seq<Chunk>, ch: Chunk, q: seq<Chunk>, mx: nat)
    requires mx == MaxSize(p + [ch] + q) && ch.size < mx
    ensures mx == MaxSize(p + q)
  {
    TakeIntendedMax(p, ch, q, q, false, mx);
  }

  // The footprint.

  /** `m` differs from `m0` at most in the `max_free_space` and `free_list`
      slots of the arena at `a`, in `[h, top)` and in the `next` slot of
      `prev`. */
  ghost predicate Footprint(m0: Mem, m: Mem, a: int, h: int, top: int, prev: int)
  {
    forall x :: Read(m0, x) != Read(m, x) ==>
      x == a + MAX_FREE_SLOT || x == a + FREE_LIST_SLOT || (h <= x < top) || (prev != NULL && x == prev + NEXT_SLOT)
  }

  /** The writes of talloc.h:264-292 on a split: the remainder's slots, the
      arena's slots, the handed-out header, and the predecessor's link. */
  lemma {:induction false} TakeSplitFoot(m: Mem, a: int, h: int, prev: int, size: nat)
    ensures Footprint(m, TakeSplitMem(m, a, h, prev, size), a, h, h + H + size + H, prev) == true
  {
    SplitFrame(m, a, h, size);
  }

  /** The writes of talloc.h:264-292 when the chunk is handed out whole. */
  lemma {:induction false} TakeWholeFoot(m: Mem, a: int, h: int, prev: int)
    ensures Footprint(m, TakeWholeMem(m, a, h, prev), a, h, h + H, prev) == true
  {
  }

  /** A footprint inside the arena's slots and body. */
  lemma {:induction false} FootBody(m0: Mem, m: Mem, a: int, h: int, top: int, prev: int)
    requires Footprint(m0, m, a, h, top, prev) == true
    requires a + A <= h && top <= a + Allocated(m0, a)
    requires prev != NULL ==> a + A <= prev && prev + H <= a + Allocated(m0, a)
    ensures BodyOnly(m0, m, a)
  {
  }

  /** A footprint inside block `i` and the header of the free block `i2`
      spares the headers of the other allocated blocks. */
  lemma {:induction false} FootUsed(m0: Mem, m: Mem, a: int, bs: seq<Block>, i: nat, lo: nat, hi: nat, top: int, prev: int, i2: nat)
    requires Tiles(bs, lo, hi) && lo == a + A && i < |bs| && UsedOkBut(m0, bs, i) && top <= End(bs[i])
    requires Footprint(m0, m, a, bs[i].addr, top, prev) == true
    requires i2 < |bs| && (prev != NULL ==> bs[i2].status == Free && prev == bs[i2].addr)
    ensures UsedOkBut(m, bs, i)
  {
    forall k | 0 <= k < |bs| && k != i && bs[k].status == Used
      ensures 0 < bs[k].size && HeaderOk(m, bs[k])
    {
      assert HeaderOk(m0, bs[k]);
      TilesWithin(bs, lo, hi, k);
      if k < i {
        TilesApart(bs, lo, hi, k, i);
      } else {
        TilesApart(bs, lo, hi, i, k);
      }
      if prev != NULL {
        if k < i2 {
          TilesApart(bs, lo, hi, k, i2);
        } else {
          TilesApart(bs, lo, hi, i2, k);
        }
      }
    }
  }

  /** talloc.h:287-292: the handed-out block's header holds `granted` and
      the magic word, since the unlinking write lands elsewhere. */
  lemma {:induction false} GrantedHeader(m: Mem, a: int, h: int, prev: int, granted: int, nfc: int)
    requires a + A <= h && (prev == NULL || prev + H <= h)
    ensures var mt := UnlinkChunk(HeaderMem(m, h, granted), a, prev, nfc);
            Read(mt, h + SIZE_SLOT) == granted && MagicOf(Read(mt, h + MAGIC_SLOT)) == MAGIC
  {
  }

  /** After a split the handed-out block carries its header. */
  lemma {:induction false} SplitHeader(m: Mem, a: int, b: Block, prev: int, size: nat)
    requires a + A <= b.addr && (prev == NULL || prev + H <= b.addr) && size + H < b.size
    ensures HeaderOk(TakeSplitMem(m, a, b.addr, prev, size), Granted(b, size)) == true
  {
    GrantedHeader(SplitMem(m, a, b.addr, size), a, b.addr, prev, size, b.addr + H + size);
  }

  /** A chunk handed out whole carries its header. */
  lemma {:induction false} WholeHeader(m: Mem, a: int, b: Block, prev: int, size: nat)
    requires a + A <= b.addr && (prev == NULL || prev + H <= b.addr) && !(size + H < b.size)
    requires Read(m, b.addr + SIZE_SLOT) == b.size
    ensures HeaderOk(TakeWholeMem(m, a, b.addr, prev), Granted(b, size)) == true
  {
    GrantedHeader(m, a, b.addr, prev, b.size, Read(m, b.addr + NEXT_SLOT));
  }

  /** The chunk before the taken one on the list belongs to a free block
      `i2` that ends at or before the taken block; `i2` is `i` itself when
      the taken chunk heads the list. */
  lemma {:induction false} PrevBlock(bs: seq<Block>, i: nat, j: nat, prev: int, lo: nat, hi: nat) returns (i2: nat)
    requires Tiles(bs, lo, hi) && 0 < lo && i < |bs| && bs[i].status == Free
    requires j < |FreeChunks(bs)| && FreeChunks(bs[..i]) == FreeChunks(bs)[..j]
    requires prev == (if j == 0 then NULL else FreeChunks(bs)[j - 1].addr)
    ensures i2 < |bs|
    ensures prev == NULL ==> i2 == i
    ensures prev != NULL ==> bs[i2].status == Free && bs[i2].addr == prev && End(bs[i2]) <= bs[i].addr
  {
    i2 := i;
    if j > 0 {
      var fs := FreeChunks(bs);
      i2 := FreeChunksIndex(bs, j - 1);
      TakePartsOf(bs, i, lo, hi);
      assert fs[j] == ChunkOf(bs[i]);
      assert ChunkEnd(fs[j - 1]) <= fs[j].addr;
      TilesWithin(bs, lo, hi, i2);
      if i < i2 {
        TilesApart(bs, lo, hi, i, i2);
      } else if i2 < i {
        TilesApart(bs, lo, hi, i2, i);
      }
    }
  }

  // Each branch on the arena's blocks.

  /** The free block `i` of the arena at `a` is the `j`-th chunk of its free
      list, the first-fit loop of talloc.h:257-260 stopped there with `prev`
      the chunk before it, and `size` bytes are asked for. */
  ghost predicate TakeAt(m: Mem, a: int, bs: seq<Block>, i: nat, j: nat, size: nat, prev: int)
  {
    && ArenaOk(m, a, bs) && i < |bs| && bs[i].status == Free && 0 < size <= bs[i].size
    && j < |FreeChunks(bs)| && FreeChunks(bs[..i]) == FreeChunks(bs)[..j]
    && prev == (if j == 0 then NULL else FreeChunks(bs)[j - 1].addr)
  }

  lemma {:induction false} UsedOkButOf(m: Mem, bs: seq<Block>, i: nat)
    requires UsedOk(m, bs)
    ensures UsedOkBut(m, bs, i)
  {
    forall k | 0 <= k < |bs| && k != i && bs[k].status == Used
      ensures 0 < bs[k].size && HeaderOk(m, bs[k])
    {
    }
  }

  lemma SizeOfChunk(m: Mem, b: Block)
    requires Read(m, ChunkOf(b).addr + SIZE_SLOT) == ChunkOf(b).size
    ensures Read(m, b.addr + SIZE_SLOT) == b.size
  {
  }

  /** After a split the list holds the free chunks of `TakeIntended`. */
  lemma {:induction false} TakeSplitListOk(m: Mem, a: int, bs: seq<Block>, i: nat, j: nat, size: nat, prev: int)
    requires TakeAt(m, a, bs, i, j, size, prev) == true && size + H < bs[i].size
    ensures var mt := TakeSplitMem(m, a, bs[i].addr, prev, size);
            List(mt, Read(mt, a + FREE_LIST_SLOT), FreeChunks(TakeIntended(bs, i, size))) == true
  {
    var lo, hi := a + A, a + Allocated(m, a);
    var p, ch, q := FreeChunks(bs[..i]), ChunkOf(bs[i]), FreeChunks(bs[i + 1..]);
    var t := FreeChunks(Carve(bs[i], size, bs[i + 1..]));
    ShapeReadyOf(bs, i, j, size, prev, lo, hi);
    MemReadyOf(m, a, Read(m, a + FREE_LIST_SLOT), p, ch, q);
    TakeSplitList(m, a, Read(m, a + FREE_LIST_SLOT), p, ch, q, size, t, prev, hi);
  }

  /** After a split that talloc.h:280 finds harmless, `max_free_space` is
      the largest free chunk. */
  lemma {:induction false} TakeSplitMaxOk(m: Mem, a: int, bs: seq<Block>, i: nat, j: nat, size: nat, prev: int)
    requires TakeAt(m, a, bs, i, j, size, prev) == true && size + H < bs[i].size
    ensures var mt := TakeSplitMem(m, a, bs[i].addr, prev, size);
            !Affected(m, a, bs[i].addr, size) ==>
              Read(mt, a + MAX_FREE_SLOT) == MaxSize(FreeChunks(TakeIntended(bs, i, size)))
  {
    var lo, hi := a + A, a + Allocated(m, a);
    var p, ch, q := FreeChunks(bs[..i]), ChunkOf(bs[i]), FreeChunks(bs[i + 1..]);
    var t := FreeChunks(Carve(bs[i], size, bs[i + 1..]));
    ShapeReadyOf(bs, i, j, size, prev, lo, hi);
    MemReadyOf(m, a, Read(m, a + FREE_LIST_SLOT), p, ch, q);
    SplitMaxOk(m, a, Read(m, a + FREE_LIST_SLOT), p, ch, q, size, t, prev, hi);
  }

  /** A split writes only the arena's slots and body and spares the headers
      of the other allocated blocks; the handed-out block gets its header. */
  lemma {:induction false} TakeSplitFrameOk(m: Mem, a: int, bs: seq<Block>, i: nat, j: nat, size: nat, prev: int)
    requires TakeAt(m, a, bs, i, j, size, prev) == true && size + H < bs[i].size
    ensures var mt := TakeSplitMem(m, a, bs[i].addr, prev, size);
            BodyOnly(m, mt, a) && UsedOkBut(mt, bs, i) && HeaderOk(mt, Granted(bs[i], size)) == true
  {
    var lo, hi := a + A, a + Allocated(m, a);
    var h := bs[i].addr;
    var mt := TakeSplitMem(m, a, h, prev, size);
    var i2 := PrevBlock(bs, i, j, prev, lo, hi);
    TilesWithin(bs, lo, hi, i);
    TilesWithin(bs, lo, hi, i2);
    TakeSplitFoot(m, a, h, prev, size);
    FootBody(m, mt, a, h, h + H + size + H, prev);
    UsedOkButOf(m, bs, i);
    FootUsed(m, mt, a, bs, i, lo, hi, h + H + size + H, prev, i2);
    SplitHeader(m, a, bs[i], prev, size);
  }

  /** Handing out a whole chunk leaves the list holding the free chunks of
      `TakeIntended`. */
  lemma {:induction false} TakeWholeListOk(m: Mem, a: int, bs: seq<Block>, i: nat, j: nat, size: nat, prev: int)
    requires TakeAt(m, a, bs, i, j, size, prev) == true && !(size + H < bs[i].size)
    ensures var mt := TakeWholeMem(m, a, bs[i].addr, prev);
            && List(mt, Read(mt, a + FREE_LIST_SLOT), FreeChunks(TakeIntended(bs, i, size))) == true
            && Read(mt, a + MAX_FREE_SLOT) == Read(m, a + MAX_FREE_SLOT)
            && (!Affected(m, a, bs[i].addr, size) ==>
                  Read(mt, a + MAX_FREE_SLOT) == MaxSize(FreeChunks(TakeIntended(bs, i, size))))
  {
    var lo, hi := a + A, a + Allocated(m, a);
    var p, ch, q := FreeChunks(bs[..i]), ChunkOf(bs[i]), FreeChunks(bs[i + 1..]);
    var t := FreeChunks(Carve(bs[i], size, bs[i + 1..]));
    ShapeReadyOf(bs, i, j, size, prev, lo, hi);
    MemReadyOf(m, a, Read(m, a + FREE_LIST_SLOT), p, ch, q);
    TakeWholeList(m, a, Read(m, a + FREE_LIST_SLOT), p, ch, q, size, t, prev, hi);
    WholeMaxOk(m, a, Read(m, a + FREE_LIST_SLOT), p, ch, q, size, t, prev, hi);
  }

  /** The header of a free block holds its size. */
  lemma {:induction false} TakeAtSize(m: Mem, a: int, bs: seq<Block>, i: nat, j: nat, size: nat, prev: int)
    requires TakeAt(m, a, bs, i, j, size, prev) == true
    ensures Read(m, bs[i].addr + SIZE_SLOT) == bs[i].size
  {
    var p, ch, q := FreeChunks(bs[..i]), ChunkOf(bs[i]), FreeChunks(bs[i + 1..]);
    TakePartsOf(bs, i, a + A, a + Allocated(m, a));
    MemReadyOf(m, a, Read(m, a + FREE_LIST_SLOT), p, ch, q);
    SizeOfChunk(m, bs[i]);
  }

  /** Handing out a whole chunk writes only the arena's slots and the
      chunk's header, and the block gets its header. */
  lemma {:induction false} TakeWholeFrameOk(m: Mem, a: int, bs: seq<Block>, i: nat, j: nat, size: nat, prev: int)
    requires TakeAt(m, a, bs, i, j, size, prev) == true && !(size + H < bs[i].size)
    requires Read(m, bs[i].addr + SIZE_SLOT) == bs[i].size
    ensures var mt := TakeWholeMem(m, a, bs[i].addr, prev);
            BodyOnly(m, mt, a) && UsedOkBut(mt, bs, i) && HeaderOk(mt, Granted(bs[i], size)) == true
  {
    var lo, hi := a + A, a + Allocated(m, a);
    var h := bs[i].addr;
    var mt := TakeWholeMem(m, a, h, prev);
    var i2 := PrevBlock(bs, i, j, prev, lo, hi);
    TilesWithin(bs, lo, hi, i);
    TilesWithin(bs, lo, hi, i2);
    TakeWholeFoot(m, a, h, prev);
    FootBody(m, mt, a, h, h + H, prev);
    UsedOkButOf(m, bs, i);
    FootUsed(m, mt, a, bs, i, lo, hi, h + H, prev, i2);
    WholeHeader(m, a, bs[i], prev, size);
  }

  // The arena once talloc.h:294-306 have run.

  /** What talloc.h:264-292 leave of the arena at `a`, which held `bs` in
      `m0`, once block `i` is taken for `size` bytes: only the arena's slots
      and body are written, the other allocated blocks keep their headers,
      the handed-out block has its header, and the list holds the free
      chunks of `TakeIntended(bs, i, size)`. */
  ghost predicate Taken(m0: Mem, m: Mem, a: int, bs: seq<Block>, i: nat, size: nat)
  {
    && i < |bs| && size <= bs[i].size
    && BodyOnly(m0, m, a) && UsedOkBut(m, bs, i) && HeaderOk(m, Granted(bs[i], size))
    && List(m, Read(m, a + FREE_LIST_SLOT), FreeChunks(TakeIntended(bs, i, size)))
  }

  lemma {:induction false} TakeSplitTaken(m: Mem, a: int, bs: seq<Block>, i: nat, j: nat, size: nat, prev: int)
    requires TakeAt(m, a, bs, i, j, size, prev) == true && size + H < bs[i].size
    ensures Taken(m, TakeSplitMem(m, a, bs[i].addr, prev, size), a, bs, i, size)
  {
    TakeSplitListOk(m, a, bs, i, j, size, prev);
    TakeSplitFrameOk(m, a, bs, i, j, size, prev);
  }

  lemma {:induction false} TakeWholeTaken(m: Mem, a: int, bs: seq<Block>, i: nat, j: nat, size: nat, prev: int)
    requires TakeAt(m, a, bs, i, j, size, prev) == true && !(size + H < bs[i].size)
    ensures Taken(m, TakeWholeMem(m, a, bs[i].addr, prev), a, bs, i, size)
  {
    TakeWholeListOk(m, a, bs, i, j, size, prev);
    TakeAtSize(m, a, bs, i, j, size, prev);
    TakeWholeFrameOk(m, a, bs, i, j, size, prev);
  }

  /** The rescan of talloc.h:294-306 writes only `max_free_space`. */
  lemma {:induction false} TakenRescan(m0: Mem, m: Mem, a: int, bs: seq<Block>, i: nat, size: nat, v: int)
    requires ArenaOk(m0, a, bs) && i < |bs| && bs[i].status == Free && size <= bs[i].size
    requires Taken(m0, m, a, bs, i, size) == true
    ensures Taken(m0, m[a + MAX_FREE_SLOT := v], a, bs, i, size) == true
  {
    var lo, hi := a + A, a + Allocated(m0, a);
    var nfs := FreeChunks(TakeIntended(bs, i, size));
    TakeIntendedTiles(bs, i, size, lo, hi);
    TilesChunks(TakeIntended(bs, i, size), lo, hi);
    WithinAbove(nfs, lo, hi, lo);
    WriteBelow(m, Read(m, a + FREE_LIST_SLOT), nfs, lo, a + MAX_FREE_SLOT, v);
    WriteSlotUsed(m, bs, i, lo, hi, a + MAX_FREE_SLOT, v);
    WriteBody(m0, m, a, a + MAX_FREE_SLOT, v);
    TilesWithin(bs, lo, hi, i);
  }

  /** After a malloc every allocated block carries its header: the
      handed-out one and those that were allocated before. */
  lemma {:induction false} TakenUsed(m: Mem, bs: seq<Block>, i: nat, size: nat)
    requires i < |bs| && 0 < size <= bs[i].size
    requires UsedOkBut(m, bs, i) && HeaderOk(m, Granted(bs[i], size))
    ensures UsedOk(m, TakeIntended(bs, i, size))
  {
    var r := TakeIntended(bs, i, size);
    forall k | 0 <= k < |r| && r[k].status == Used
      ensures 0 < r[k].size && HeaderOk(m, r[k])
    {
      TakeIntendedFrom(bs, i, size, r[k]);
      if r[k] != Granted(bs[i], size) {
        var k2 :| 0 <= k2 < |bs| && k2 != i && bs[k2] == r[k];
        assert HeaderOk(m, bs[k2]);
      }
    }
  }

  /** Once `max_free_space` is exact again, the arena holds
      `TakeIntended(bs, i, size)`. */
  lemma {:induction false} TakenOk(m0: Mem, m: Mem, a: int, bs: seq<Block>, i: nat, size: nat)
    requires ArenaOk(m0, a, bs) && i < |bs| && bs[i].status == Free && 0 < size <= bs[i].size
    requires Taken(m0, m, a, bs, i, size) == true
    requires Read(m, a + MAX_FREE_SLOT) == MaxSize(FreeChunks(TakeIntended(bs, i, size)))
    ensures ArenaOk(m, a, TakeIntended(bs, i, size)) && BodyOnly(m0, m, a)
  {
    assert Read(m, a + ALLOCATED_SLOT) == Read(m0, a + ALLOCATED_SLOT);
    TakeIntendedTiles(bs, i, size, a + A, a + Allocated(m0, a));
    TakeIntendedNoLost(bs, i, size);
    TakenUsed(m, bs, i, size);
  }

  /** After a malloc the free chunks still lie past the arena header. */
  lemma {:induction false} TakenAbove(bs: seq<Block>, i: nat, size: nat, lo: nat, hi: nat)
    requires Tiles(bs, lo, hi) && NoAdjacentFree(bs) && i < |bs| && bs[i].status == Free && size <= bs[i].size
    ensures Above(FreeChunks(TakeIntended(bs, i, size)), lo)
  {
    TakeIntendedTiles(bs, i, size, lo, hi);
    TilesChunks(TakeIntended(bs, i, size), lo, hi);
    WithinAbove(FreeChunks(TakeIntended(bs, i, size)), lo, hi, lo);
  }

  // The whole of talloc.h:264-306 for the chunk the first-fit walk found.

  /** Memory after talloc.h:264-292 take the free chunk at `h`: split when
      its excess exceeds a chunk header, handed out whole otherwise. */
  function TakeMem(m: Mem, a: int, h: int, prev: int, size: int): Mem
  {
    if Splits(m, h, size) then TakeSplitMem(m, a, h, prev, size) else TakeWholeMem(m, a, h, prev)
  }

  /** Memory after talloc.h:264-306: `TakeMem`, then, when `max_free_space`
      may have dropped, the rescan storing `mx`, the largest free chunk. */
  function MallocMem(m: Mem, a: int, h: int, prev: int, size: int, mx: int): Mem
  {
    var mt := TakeMem(m, a, h, prev, size);
    if Affected(m, a, h, size) then mt[a + MAX_FREE_SLOT := mx] else mt
  }

  /** The split, or its absence, followed by the header and unlink writes
      leaves the memory `TakeMem` gives. */
  lemma {:induction false} TakeMemOfSteps(m: Mem, m1: Mem, m2: Mem, a: int, h: int, prev: int, size: int, nfc: int, granted: int)
    requires Splits(m, h, size) ==> m1 == SplitMem(m, a, h, size) && nfc == h + H + size && granted == size
    requires !Splits(m, h, size) ==>
               m1 == m && nfc == Read(m, h + NEXT_SLOT) && granted == Read(m, h + SIZE_SLOT)
    requires m2 == UnlinkChunk(HeaderMem(m1, h, granted), a, prev, nfc)
    ensures m2 == TakeMem(m, a, h, prev, size)
  {
  }

  /** The take followed, when `max_free_space` may have dropped, by the
      rescan leaves the memory `MallocMem` gives. */
  lemma {:induction false} MallocMemOfSteps(m: Mem, mt: Mem, r: Mem, a: int, h: int, prev: int, size: int, mx: int)
    requires mt == TakeMem(m, a, h, prev, size)
    requires r == if Affected(m, a, h, size) then mt[a + MAX_FREE_SLOT := mx] else mt
    ensures r == MallocMem(m, a, h, prev, size, mx)
  {
  }

  /** The first-fit walk of talloc.h:256-260 stopped at block `i`, the `j`-th
      free chunk of `bs`: it is free and holds `size` bytes, and `prev` is
      the free chunk before it, NULL when it heads the list. */
  ghost predicate FitAt(bs: seq<Block>, i: nat, j: nat, size: nat, prev: int)
  {
    && i < |bs| && bs[i].status == Free && 0 < size <= bs[i].size
    && j < |FreeChunks(bs)| && FreeChunks(bs[..i]) == FreeChunks(bs)[..j]
    && prev == (if j == 0 then NULL else FreeChunks(bs)[j - 1].addr)
  }

  /** A fit with no larger chunk before it on the list is the first fit. */
  lemma {:induction false} FitAtFirstFit(bs: seq<Block>, i: nat, j: nat, size: nat, prev: int)
    requires FitAt(bs, i, j, size, prev) && MaxSize(FreeChunks(bs[..i])) < size
    ensures FirstFit(bs, i, size)
  {
    forall k | 0 <= k < j ensures FreeChunks(bs)[k].size < size {
      assert FreeChunks(bs)[k] == FreeChunks(bs[..i])[k];
    }
    FirstFitFromList(bs, j, i, size);
  }

  /** Splitting off the remainder leaves the size of the chunk at `h`. */
  lemma {:induction false} SplitKeepsSize(m: Mem, a: int, h: int, size: int)
    requires a + A <= h && 0 <= size
    ensures Read(SplitMem(m, a, h, size), h + SIZE_SLOT) == Read(m, h + SIZE_SLOT)
  {
    SplitFrame(m, a, h, size);
  }

  /** Either way, talloc.h:264-292 leave the arena as `Taken` says. */
  lemma {:induction false} TakeMemTaken(m: Mem, a: int, bs: seq<Block>, i: nat, j: nat, size: nat, prev: int)
    requires TakeAt(m, a, bs, i, j, size, prev) == true
    requires Read(m, bs[i].addr + SIZE_SLOT) == bs[i].size
    ensures Taken(m, TakeMem(m, a, bs[i].addr, prev, size), a, bs, i, size) == true
  {
    var h := bs[i].addr;
    if size + H < bs[i].size {
      assert TakeMem(m, a, h, prev, size) == TakeSplitMem(m, a, h, prev, size);
      TakeSplitTaken(m, a, bs, i, j, size, prev);
    } else {
      assert TakeMem(m, a, h, prev, size) == TakeWholeMem(m, a, h, prev);
      TakeWholeTaken(m, a, bs, i, j, size, prev);
    }
  }

  /** Unless talloc.h:268 and 280 call for a rescan, `max_free_space` is
      already the largest free chunk after talloc.h:264-292. */
  lemma {:induction false} TakeMemMax(m: Mem, a: int, bs: seq<Block>, i: nat, j: nat, size: nat, prev: int)
    requires TakeAt(m, a, bs, i, j, size, prev) == true
    requires Read(m, bs[i].addr + SIZE_SLOT) == bs[i].size
    ensures !Affected(m, a, bs[i].addr, size) ==>
              Read(TakeMem(m, a, bs[i].addr, prev, size), a + MAX_FREE_SLOT) == MaxSize(FreeChunks(TakeIntended(bs, i, size)))
  {
    var h := bs[i].addr;
    if size + H < bs[i].size {
      assert TakeMem(m, a, h, prev, size) == TakeSplitMem(m, a, h, prev, size);
      TakeSplitMaxOk(m, a, bs, i, j, size, prev);
    } else {
      assert TakeMem(m, a, h, prev, size) == TakeWholeMem(m, a, h, prev);
      TakeWholeListOk(m, a, bs, i, j, size, prev);
    }
  }

  /** talloc.h:264-306 leave the arena holding `TakeIntended(bs, i, size)`,
      writing only its slots and body. */
  lemma {:induction false} MallocMemOk(m: Mem, a: int, bs: seq<Block>, i: nat, j: nat, size: nat, prev: int)
    requires TakeAt(m, a, bs, i, j, size, prev) == true
    ensures var r := MallocMem(m, a, bs[i].addr, prev, size, MaxSize(FreeChunks(TakeIntended(bs, i, size))));
            ArenaOk(r, a, TakeIntended(bs, i, size)) && BodyOnly(m, r, a)
  {
    var h := bs[i].addr;
    var mx := MaxSize(FreeChunks(TakeIntended(bs, i, size)));
    var mt := TakeMem(m, a, h, prev, size);
    TakeAtSize(m, a, bs, i, j, size, prev);
    TakeMemTaken(m, a, bs, i, j, size, prev);
    if Affected(m, a, h, size) {
      TakenRescan(m, mt, a, bs, i, size, mx);
      TakenOk(m, mt[a + MAX_FREE_SLOT := mx], a, bs, i, size);
    } else {
      TakeMemMax(m, a, bs, i, j, size, prev);
      TakenOk(m, mt, a, bs, i, size);
    }
  }

  /** The walk's stopping point in a valid arena list is a `TakeAt`. */
  lemma {:induction false} FitTakeAt(m: Mem, arenas: seq<int>, bss: seq<seq<Block>>, idx: nat, i: nat, j: nat, size: nat, prev: int)
    requires ArenasOk(m, arenas, bss) && idx < |arenas| && FitAt(bss[idx], i, j, size, prev)
    ensures TakeAt(m, arenas[idx], bss[idx], i, j, size, prev) == true
  {
    ArenaAt(m, arenas, bss, idx);
  }

  /** After talloc.h:264-292 the free list holds the free chunks of
      `TakeIntended`, all past the arena header, as the rescan needs. */
  lemma {:induction false} TakeList(m: Mem, a: int, bs: seq<Block>, i: nat, j: nat, size: nat, prev: int)
    requires TakeAt(m, a, bs, i, j, size, prev) == true
    ensures var mt := TakeMem(m, a, bs[i].addr, prev, size);
            var nfs := FreeChunks(TakeIntended(bs, i, size));
            List(mt, Read(mt, a + FREE_LIST_SLOT), nfs) == true && Above(nfs, a + A)
  {
    TakeAtSize(m, a, bs, i, j, size, prev);
    TakeMemTaken(m, a, bs, i, j, size, prev);
    TakenAbove(bs, i, size, a + A, a + Allocated(m, a));
  }

  /** talloc.h:264-306 on arena `idx` keep the arena list valid, the arena
      now holding `TakeIntended`. */
  lemma {:induction false} MallocListOk(m: Mem, arenas: seq<int>, bss: seq<seq<Block>>, idx: nat, i: nat, j: nat, size: nat, prev: int)
    requires ArenasOk(m, arenas, bss) && idx < |arenas| && FitAt(bss[idx], i, j, size, prev)
    ensures var a, bs := arenas[idx], bss[idx];
            ArenasOk(MallocMem(m, a, bs[i].addr, prev, size, MaxSize(FreeChunks(TakeIntended(bs, i, size)))),
                     arenas, bss[idx := TakeIntended(bs, i, size)])
  {
    var a, bs := arenas[idx], bss[idx];
    ArenaAt(m, arenas, bss, idx);
    assert TakeAt(m, a, bs, i, j, size, prev);
    MallocMemOk(m, a, bs, i, j, size, prev);
    ArenasUpdate(m, MallocMem(m, a, bs[i].addr, prev, size, MaxSize(FreeChunks(TakeIntended(bs, i, size)))),
                 arenas, bss, idx, TakeIntended(bs, i, size));
  }

  /** The handed-out block takes the place of block `i`: allocated, at the
      chunk's address, with at least `size` bytes. */
  lemma {:induction false} GrantedAt(bs: seq<Block>, i: nat, size: nat)
    requires i < |bs| && size <= bs[i].size
    ensures i < |TakeIntended(bs, i, size)| && TakeIntended(bs, i, size)[i] == Granted(bs[i], size)
    ensures Granted(bs[i], size).status == Used && Granted(bs[i], size).addr == bs[i].addr
    ensures size <= Granted(bs[i], size).size <= bs[i].size
  {
    assert Carve(bs[i], size, bs[i + 1..])[0] == Granted(bs[i], size);
  }
}
