/** Word memory and the singly linked free list laid out in it
    (talloc.h:10-15, 145-152). */
module Memory {
  import opened Layout
  import opened FreeList

  /** Memory as a map from slot addresses to word values. */
  type Mem = map<int, int>

  /** The word at `x`; a slot never written reads as 0. */
  function Read(m: Mem, x: int): int
  {
    if x in m then m[x] else 0
  }

  /** Where a list segment holding `cs` and then reaching `q` starts. */
  function Start(cs: seq<Chunk>, q: int): int
  {
    if cs == [] then q else cs[0].addr
  }

  /** Following `next` pointers from `p` visits exactly the chunks `cs`, each
      with its `size` slot right, and then arrives at `q`. */
  ghost predicate Seg(m: Mem, p: int, cs: seq<Chunk>, q: int)
    decreases |cs|
  {
    if cs == [] then p == q
    else
      && p == cs[0].addr && p != NULL
      && Read(m, p + SIZE_SLOT) == cs[0].size
      && Seg(m, Read(m, p + NEXT_SLOT), cs[1..], q)
  }

  /** A NULL-terminated free list holding `cs`. */
  ghost predicate List(m: Mem, p: int, cs: seq<Chunk>)
  {
    Seg(m, p, cs, NULL)
  }

  /** A segment splits wherever its chunk sequence does. */
  lemma {:induction false} SegAppend(m: Mem, p: int, a: seq<Chunk>, b: seq<Chunk>, q: int)
    ensures Seg(m, p, a + b, q) <==> Seg(m, p, a, Start(b, q)) && Seg(m, Start(b, q), b, q)
    decreases |a|
  {
    if a == [] {
      assert a + b == b;
    } else {
      assert (a + b)[0] == a[0];
      assert (a + b)[1..] == a[1..] + b;
      SegAppend(m, Read(m, a[0].addr + NEXT_SLOT), a[1..], b, q);
    }
  }

  /** The chunk at position `j` of a segment: where its list reaches it,
      and what its `next` slot holds. */
  lemma {:induction false} SegAt(m: Mem, p: int, cs: seq<Chunk>, q: int, j: nat)
    requires Seg(m, p, cs, q) && j < |cs|
    ensures Seg(m, p, cs[..j], cs[j].addr)
    ensures Seg(m, cs[j].addr, cs[j..], q)
    ensures Read(m, cs[j].addr + SIZE_SLOT) == cs[j].size && cs[j].addr != NULL
    ensures Read(m, cs[j].addr + NEXT_SLOT) == Start(cs[j + 1..], q)
    ensures Seg(m, Start(cs[j + 1..], q), cs[j + 1..], q)
  {
    assert cs == cs[..j] + cs[j..];
    SegAppend(m, p, cs[..j], cs[j..], q);
    assert cs[j..][1..] == cs[j + 1..];
  }

  /** Both memories agree on the two slots of every chunk of `cs`. */
  ghost predicate SameHeaders(m1: Mem, m2: Mem, cs: seq<Chunk>)
  {
    forall k :: 0 <= k < |cs| ==>
      Read(m1, cs[k].addr + SIZE_SLOT) == Read(m2, cs[k].addr + SIZE_SLOT) &&
      Read(m1, cs[k].addr + NEXT_SLOT) == Read(m2, cs[k].addr + NEXT_SLOT)
  }

  /** A segment only depends on the headers of its own chunks. */
  lemma {:induction false} SegFrame(m1: Mem, m2: Mem, p: int, cs: seq<Chunk>, q: int)
    requires Seg(m1, p, cs, q) && SameHeaders(m1, m2, cs)
    ensures Seg(m2, p, cs, q)
    decreases |cs|
  {
    if cs != [] {
      assert SameHeaders(m1, m2, cs[1..]) by {
        forall k | 0 <= k < |cs[1..]|
          ensures Read(m1, cs[1..][k].addr + SIZE_SLOT) == Read(m2, cs[1..][k].addr + SIZE_SLOT)
          ensures Read(m1, cs[1..][k].addr + NEXT_SLOT) == Read(m2, cs[1..][k].addr + NEXT_SLOT)
        {
          assert cs[1..][k] == cs[k + 1];
        }
      }
      assert Read(m1, cs[0].addr + NEXT_SLOT) == Read(m2, cs[0].addr + NEXT_SLOT);
      SegFrame(m1, m2, Read(m1, cs[0].addr + NEXT_SLOT), cs[1..], q);
    }
  }

  /** A chunk whose slots point at a segment extends it by one. */
  lemma {:induction false} SegCons(m: Mem, x: Chunk, t: seq<Chunk>, q: int)
    requires Read(m, x.addr + SIZE_SLOT) == x.size && x.addr != NULL
    requires Read(m, x.addr + NEXT_SLOT) == Start(t, q) && Seg(m, Start(t, q), t, q)
    ensures Seg(m, x.addr, [x] + t, q)
  {
    assert ([x] + t)[1..] == t;
  }

  /** The chunks before position `j` keep their segment in a memory that
      agrees on their headers. */
  lemma {:induction false} SegPrefixKept(m: Mem, m2: Mem, p: int, cs: seq<Chunk>, q: int, j: nat)
    requires Seg(m, p, cs, q) && j < |cs| && SameHeaders(m, m2, cs[..j])
    ensures Seg(m2, p, cs[..j], cs[j].addr) && cs[j].addr != NULL
  {
    SegAt(m, p, cs, q, j);
    SegFrame(m, m2, p, cs[..j], cs[j].addr);
  }

  /** The chunks after position `j` keep their segment in a memory that
      agrees on their headers. */
  lemma {:induction false} SegSuffixKept(m: Mem, m2: Mem, p: int, cs: seq<Chunk>, q: int, j: nat)
    requires Seg(m, p, cs, q) && j < |cs| && SameHeaders(m, m2, cs[j + 1..])
    ensures Seg(m2, Start(cs[j + 1..], q), cs[j + 1..], q)
  {
    SegAt(m, p, cs, q, j);
    SegFrame(m, m2, Start(cs[j + 1..], q), cs[j + 1..], q);
  }

  /** Two chunks linked to each other and then to a segment extend it by two. */
  lemma {:induction false} SegCons2(m: Mem, l: Chunk, x: Chunk, q: seq<Chunk>)
    requires Read(m, l.addr + SIZE_SLOT) == l.size && l.addr != NULL
    requires Read(m, l.addr + NEXT_SLOT) == x.addr
    requires Read(m, x.addr + SIZE_SLOT) == x.size && x.addr != NULL
    requires Read(m, x.addr + NEXT_SLOT) == Start(q, NULL) && List(m, Start(q, NULL), q)
    ensures Seg(m, l.addr, [l] + ([x] + q), NULL)
  {
    SegCons(m, x, q, NULL);
    SegCons(m, l, [x] + q, NULL);
  }

  /** A segment up to chunk `x` followed by one starting at `x` joins. */
  lemma {:induction false} SegJoin(m: Mem, p: int, a: seq<Chunk>, x: Chunk, t: seq<Chunk>, q: int)
    requires Seg(m, p, a, x.addr) && Seg(m, x.addr, [x] + t, q)
    ensures Seg(m, p, a + [x] + t, q)
  {
    SegAppend(m, p, a, [x] + t, q);
    assert a + [x] + t == a + ([x] + t);
  }

  /** Address `x` lies outside the header of every chunk of `cs`. */
  predicate Clear(cs: seq<Chunk>, x: int)
  {
    forall k :: 0 <= k < |cs| ==> x < cs[k].addr || cs[k].addr + H <= x
  }

  /** Writing outside the headers of `cs` leaves them as they were. */
  lemma {:induction false} WriteClear(m: Mem, cs: seq<Chunk>, x: int, v: int)
    requires Clear(cs, x)
    ensures SameHeaders(m, m[x := v], cs)
  {
  }

  /** In an ordered list, an address inside chunk `j` is clear of the headers
      of all the other chunks. */
  lemma {:induction false} ClearAround(cs: seq<Chunk>, j: nat, x: int)
    requires Ordered(cs) && j < |cs| && cs[j].addr <= x < ChunkEnd(cs[j])
    ensures Clear(cs[..j], x) && Clear(cs[j + 1..], x)
  {
    ClearBefore(cs, j, x);
    ClearAfter(cs, j, x);
  }

  lemma {:induction false} ClearBefore(cs: seq<Chunk>, j: nat, x: int)
    requires Ordered(cs) && j < |cs| && cs[j].addr <= x < ChunkEnd(cs[j])
    ensures Clear(cs[..j], x)
  {
    forall k | 0 <= k < j ensures x < cs[..j][k].addr || cs[..j][k].addr + H <= x {
      OrderedBefore(cs, k, j);
      assert cs[..j][k] == cs[k];
    }
  }

  lemma {:induction false} ClearAfter(cs: seq<Chunk>, j: nat, x: int)
    requires Ordered(cs) && j < |cs| && cs[j].addr <= x < ChunkEnd(cs[j])
    ensures Clear(cs[j + 1..], x)
  {
    forall k | j + 1 <= k < |cs| ensures x < cs[k].addr || cs[k].addr + H <= x {
      OrderedBefore(cs, j, k);
    }
  }

  /** `TAlloc_coalesce(c)` on memory (talloc.h:145-152): when the chunk named
      by `c`'s `next` starts right after `c`, `c` absorbs it. Only the two
      slots of `c` change. */
  function CoalesceMem(m: Mem, c: int): Mem
  {
    var next := Read(m, c + NEXT_SLOT);
    if next == c + Read(m, c + SIZE_SLOT) + H then
      m[c + SIZE_SLOT := Read(m, c + SIZE_SLOT) + H + Read(m, next + SIZE_SLOT)]
       [c + NEXT_SLOT := Read(m, next + NEXT_SLOT)]
    else m
  }

  /** Only the two slots of `c` change. */
  lemma {:induction false} CoalesceFrame(m: Mem, c: int)
    ensures forall x :: x != c + SIZE_SLOT && x != c + NEXT_SLOT ==> Read(CoalesceMem(m, c), x) == Read(m, x)
  {
  }

  /** Writing the two slots of chunk `j` leaves the headers of the chunks
      before it and of those after its successor as they were. */
  lemma {:induction false} WriteChunkFrame(m: Mem, cs: seq<Chunk>, j: nat, v1: int, v2: int)
    requires Ordered(cs) && j < |cs|
    ensures var m2 := m[cs[j].addr + SIZE_SLOT := v1][cs[j].addr + NEXT_SLOT := v2];
            SameHeaders(m, m2, cs[..j]) && SameHeaders(m, m2, cs[j + 1..]) &&
            (j + 2 <= |cs| ==> SameHeaders(m, m2, cs[j + 2..]))
  {
    WriteChunkBefore(m, cs, j, v1, v2);
    WriteChunkAfter(m, cs, j, v1, v2);
    if j + 2 <= |cs| {
      SameHeadersTail(m, m[cs[j].addr + SIZE_SLOT := v1][cs[j].addr + NEXT_SLOT := v2], cs, j + 1);
    }
  }

  lemma {:induction false} WriteChunkBefore(m: Mem, cs: seq<Chunk>, j: nat, v1: int, v2: int)
    requires Ordered(cs) && j < |cs|
    ensures SameHeaders(m, m[cs[j].addr + SIZE_SLOT := v1][cs[j].addr + NEXT_SLOT := v2], cs[..j])
  {
    ClearBefore(cs, j, cs[j].addr + SIZE_SLOT);
    ClearBefore(cs, j, cs[j].addr + NEXT_SLOT);
    WriteTwoClear(m, cs[..j], cs[j].addr + SIZE_SLOT, v1, cs[j].addr + NEXT_SLOT, v2);
  }

  lemma {:induction false} WriteChunkAfter(m: Mem, cs: seq<Chunk>, j: nat, v1: int, v2: int)
    requires Ordered(cs) && j < |cs|
    ensures SameHeaders(m, m[cs[j].addr + SIZE_SLOT := v1][cs[j].addr + NEXT_SLOT := v2], cs[j + 1..])
  {
    ClearAfter(cs, j, cs[j].addr + SIZE_SLOT);
    ClearAfter(cs, j, cs[j].addr + NEXT_SLOT);
    WriteTwoClear(m, cs[j + 1..], cs[j].addr + SIZE_SLOT, v1, cs[j].addr + NEXT_SLOT, v2);
  }

  /** Two writes outside the headers of `cs` leave them as they were. */
  lemma {:induction false} WriteTwoClear(m: Mem, cs: seq<Chunk>, x1: int, v1: int, x2: int, v2: int)
    requires Clear(cs, x1) && Clear(cs, x2)
    ensures SameHeaders(m, m[x1 := v1][x2 := v2], cs)
  {
    WriteClear(m, cs, x1, v1);
    WriteClear(m[x1 := v1], cs, x2, v2);
  }

  /** Headers that agree on a suffix agree on every shorter one. */
  lemma {:induction false} SameHeadersTail(m1: Mem, m2: Mem, cs: seq<Chunk>, j: nat)
    requires j < |cs| && SameHeaders(m1, m2, cs[j..])
    ensures SameHeaders(m1, m2, cs[j + 1..])
  {
    assert cs[j + 1..] == cs[j..][1..];
  }

  /** The merging case of `CoalesceList`, once the two writes are known to
      spare the other headers. */
  lemma {:induction false} CoalesceListMergeCore(m: Mem, m2: Mem, p: int, cs: seq<Chunk>, j: nat)
    requires List(m, p, cs) && Adjacent(cs, j)
    requires m2 == m[cs[j].addr + SIZE_SLOT := Merge(cs[j], cs[j + 1]).size]
                    [cs[j].addr + NEXT_SLOT := Start(cs[j + 2..], NULL)]
    requires SameHeaders(m, m2, cs[..j]) && SameHeaders(m, m2, cs[j + 2..])
    ensures List(m2, p, CoalesceAt(cs, j))
  {
    var c := cs[j].addr;
    var pre := cs[..j];
    var post := cs[j + 2..];
    var mg := Merge(cs[j], cs[j + 1]);
    SegPrefixKept(m, m2, p, cs, NULL, j);
    SegSuffixKept(m, m2, p, cs, NULL, j + 1);
    SegCons(m2, mg, post, NULL);
    SegJoin(m2, p, pre, mg, post, NULL);
  }

  /** The merging case of `CoalesceList`. */
  lemma {:induction false} CoalesceListMerge(m: Mem, p: int, cs: seq<Chunk>, j: nat)
    requires List(m, p, cs) && Ordered(cs) && Adjacent(cs, j)
    ensures List(CoalesceMem(m, cs[j].addr), p, CoalesceAt(cs, j))
  {
    var c := cs[j].addr;
    var post := cs[j + 2..];
    var mg := Merge(cs[j], cs[j + 1]);
    var m2 := m[c + SIZE_SLOT := mg.size][c + NEXT_SLOT := Start(post, NULL)];
    assert CoalesceMem(m, c) == m2 by {
      SegAt(m, p, cs, NULL, j);
      SegAt(m, p, cs, NULL, j + 1);
      assert cs[j + 1..][1..] == post;
    }
    WriteChunkFrame(m, cs, j, mg.size, Start(post, NULL));
    CoalesceListMergeCore(m, m2, p, cs, j);
  }

  /** Coalescing in memory is coalescing of the list it holds: the merge
      happens exactly when the chunks touch. */
  lemma {:induction false} CoalesceList(m: Mem, p: int, cs: seq<Chunk>, j: nat)
    requires List(m, p, cs) && Ordered(cs) && j < |cs|
    ensures List(CoalesceMem(m, cs[j].addr), p, CoalesceAt(cs, j))
  {
    if Adjacent(cs, j) {
      CoalesceListMerge(m, p, cs, j);
    } else {
      var c := cs[j].addr;
      SegAt(m, p, cs, NULL, j);
      if j + 1 < |cs| {
        assert Read(m, c + NEXT_SLOT) == cs[j + 1].addr;
      }
      assert CoalesceMem(m, c) == m;
    }
  }

  /** Every chunk starts at or after `lo`. */
  predicate Above(cs: seq<Chunk>, lo: int)
  {
    forall k :: 0 <= k < |cs| ==> lo <= cs[k].addr
  }

  /** Coalescing keeps every chunk's start. */
  lemma {:induction false} CoalesceAbove(cs: seq<Chunk>, j: nat, lo: int)
    requires j < |cs| && Above(cs, lo)
    ensures Above(CoalesceAt(cs, j), lo)
  {
    var r := CoalesceAt(cs, j);
    if Adjacent(cs, j) {
      forall k | 0 <= k < |r| ensures lo <= r[k].addr {
        if k < j {
          assert r[k] == cs[k];
        } else if k > j {
          assert r[k] == cs[k + 1];
        }
      }
    }
  }

  /** A write below every chunk leaves the list as it was. */
  lemma {:induction false} WriteBelow(m: Mem, p: int, cs: seq<Chunk>, lo: int, x: int, v: int)
    requires List(m, p, cs) && Above(cs, lo) && x + H <= lo
    ensures List(m[x := v], p, cs)
  {
    WriteClear(m, cs, x, v);
    SegFrame(m, m[x := v], p, cs, NULL);
  }

  /** talloc.h:192-193: a single chunk becomes the whole list. */
  lemma {:induction false} InsertOnly(m: Mem, x: Chunk)
    requires Read(m, x.addr + SIZE_SLOT) == x.size && x.addr != NULL
    ensures List(m[x.addr + NEXT_SLOT := NULL], x.addr, [x])
  {
    assert [x][1..] == [];
  }

  /** talloc.h:196-197: a chunk below the head is linked in front of it. */
  lemma {:induction false} InsertFront(m: Mem, p: int, x: Chunk, q: seq<Chunk>)
    requires List(m, p, q) && Ordered([x] + q) && x.addr != NULL
    requires Read(m, x.addr + SIZE_SLOT) == x.size
    ensures List(m[x.addr + NEXT_SLOT := p], x.addr, [x] + q)
  {
    var m2 := m[x.addr + NEXT_SLOT := p];
    ClearAround([x] + q, 0, x.addr + NEXT_SLOT);
    assert ([x] + q)[1..] == q;
    WriteClear(m, q, x.addr + NEXT_SLOT, p);
    SegFrame(m, m2, p, q, NULL);
    if q != [] {
      assert p == q[0].addr;
    }
  }

  /** The `next` slots of the last chunk of `pr` and of `x` lie clear of the
      headers before that last chunk. */
  lemma {:induction false} InsertClearBefore(pr: seq<Chunk>, x: Chunk, q: seq<Chunk>)
    requires Ordered(pr + [x] + q) && pr != []
    ensures var n := |pr| - 1;
            Clear(pr[..n], x.addr + NEXT_SLOT) && Clear(pr[..n], pr[n].addr + NEXT_SLOT)
  {
    var n := |pr| - 1;
    var cs := pr + [x] + q;
    assert cs[n] == pr[n] && cs[n + 1] == x;
    OrderedBefore(cs, n, n + 1);
    forall k | 0 <= k < n
      ensures pr[..n][k].addr + H <= x.addr + NEXT_SLOT && pr[..n][k].addr + H <= pr[n].addr + NEXT_SLOT
    {
      assert cs[k] == pr[..n][k];
      OrderedBefore(cs, k, n);
    }
  }

  /** The same slots lie clear of the headers of `q`. */
  lemma {:induction false} InsertClearAfter(pr: seq<Chunk>, x: Chunk, q: seq<Chunk>)
    requires Ordered(pr + [x] + q) && pr != []
    ensures Clear(q, x.addr + NEXT_SLOT) && Clear(q, pr[|pr| - 1].addr + NEXT_SLOT)
  {
    var n := |pr| - 1;
    var cs := pr + [x] + q;
    assert cs[n] == pr[n] && cs[n + 1] == x;
    OrderedBefore(cs, n, n + 1);
    forall k | 0 <= k < |q|
      ensures x.addr + NEXT_SLOT < q[k].addr && pr[n].addr + NEXT_SLOT < q[k].addr
    {
      assert cs[n + 2 + k] == q[k];
      OrderedBefore(cs, n + 1, n + 2 + k);
    }
  }

  /** The two writes of `InsertAfter` touch no other chunk's header. */
  lemma {:induction false} InsertAfterFrame(m: Mem, pr: seq<Chunk>, x: Chunk, q: seq<Chunk>, v: int)
    requires Ordered(pr + [x] + q) && pr != []
    ensures var n := |pr| - 1;
            var m2 := m[x.addr + NEXT_SLOT := v][pr[n].addr + NEXT_SLOT := x.addr];
            SameHeaders(m, m2, pr[..n]) && SameHeaders(m, m2, q)
  {
    var n := |pr| - 1;
    var m1 := m[x.addr + NEXT_SLOT := v];
    InsertClearBefore(pr, x, q);
    InsertClearAfter(pr, x, q);
    WriteClear(m, pr[..n], x.addr + NEXT_SLOT, v);
    WriteClear(m1, pr[..n], pr[n].addr + NEXT_SLOT, x.addr);
    WriteClear(m, q, x.addr + NEXT_SLOT, v);
    WriteClear(m1, q, pr[n].addr + NEXT_SLOT, x.addr);
  }

  /** After the writes of `InsertAfter`, the last chunk of `pr` heads `x`
      and then `q`. */
  lemma {:induction false} InsertTailSeg(m: Mem, m2: Mem, p: int, pr: seq<Chunk>, x: Chunk, q: seq<Chunk>)
    requires Seg(m, p, pr, Start(q, NULL)) && List(m, Start(q, NULL), q) && pr != []
    requires x.addr != NULL && Read(m, x.addr + SIZE_SLOT) == x.size
    requires ChunkEnd(pr[|pr| - 1]) <= x.addr
    requires m2 == m[x.addr + NEXT_SLOT := Start(q, NULL)][pr[|pr| - 1].addr + NEXT_SLOT := x.addr]
    requires SameHeaders(m, m2, q)
    ensures Seg(m2, pr[|pr| - 1].addr, [pr[|pr| - 1]] + ([x] + q), NULL)
  {
    SegAt(m, p, pr, Start(q, NULL), |pr| - 1);
    SegFrame(m, m2, Start(q, NULL), q, NULL);
    SegCons2(m2, pr[|pr| - 1], x, q);
  }

  /** `InsertAfter` once its writes are known to spare the other headers. */
  lemma {:induction false} InsertAfterCore(m: Mem, m2: Mem, p: int, pr: seq<Chunk>, x: Chunk, q: seq<Chunk>)
    requires Seg(m, p, pr, Start(q, NULL)) && List(m, Start(q, NULL), q) && pr != []
    requires x.addr != NULL && Read(m, x.addr + SIZE_SLOT) == x.size
    requires ChunkEnd(pr[|pr| - 1]) <= x.addr
    requires m2 == m[x.addr + NEXT_SLOT := Start(q, NULL)][pr[|pr| - 1].addr + NEXT_SLOT := x.addr]
    requires SameHeaders(m, m2, pr[..|pr| - 1]) && SameHeaders(m, m2, q)
    ensures List(m2, p, pr + [x] + q)
  {
    var n := |pr| - 1;
    var l := pr[n];
    SegPrefixKept(m, m2, p, pr, Start(q, NULL), n);
    InsertTailSeg(m, m2, p, pr, x, q);
    SegJoin(m2, p, pr[..n], l, [x] + q, NULL);
    assert pr[..n] + [l] + ([x] + q) == pr + [x] + q;
  }

  /** talloc.h:205-206: a chunk linked in after the last chunk of `pr`. */
  lemma {:induction false} InsertAfter(m: Mem, p: int, pr: seq<Chunk>, x: Chunk, q: seq<Chunk>)
    requires List(m, p, pr + q) && Ordered(pr + [x] + q) && pr != [] && x.addr != NULL
    requires Read(m, x.addr + SIZE_SLOT) == x.size
    ensures var ia := pr[|pr| - 1].addr;
            List(m[x.addr + NEXT_SLOT := Start(q, NULL)][ia + NEXT_SLOT := x.addr], p, pr + [x] + q)
  {
    var n := |pr| - 1;
    SegAppend(m, p, pr, q, NULL);
    InsertAfterFrame(m, pr, x, q, Start(q, NULL));
    assert (pr + [x] + q)[n] == pr[n] && (pr + [x] + q)[n + 1] == x;
    assert ChunkEnd(pr[n]) <= x.addr;
    InsertAfterCore(m, m[x.addr + NEXT_SLOT := Start(q, NULL)][pr[n].addr + NEXT_SLOT := x.addr], p, pr, x, q);
  }

  /** talloc.h:274-275: a new chunk written in front of the list `q`. */
  lemma {:induction false} PlaceChunk(m: Mem, r: Chunk, q: seq<Chunk>)
    requires List(m, Start(q, NULL), q) && Ordered([r] + q) && r.addr != NULL
    ensures List(m[r.addr + SIZE_SLOT := r.size][r.addr + NEXT_SLOT := Start(q, NULL)], r.addr, [r] + q)
  {
    WriteChunkFrame(m, [r] + q, 0, r.size, Start(q, NULL));
    assert ([r] + q)[1..] == q;
    var m2 := m[r.addr + SIZE_SLOT := r.size][r.addr + NEXT_SLOT := Start(q, NULL)];
    SegFrame(m, m2, Start(q, NULL), q, NULL);
  }

  /** The write of `LinkAfter` touches no other chunk's header. */
  lemma {:induction false} LinkAfterFrame(m: Mem, pr: seq<Chunk>, t: seq<Chunk>, v: int)
    requires Ordered(pr + t) && pr != []
    ensures var n := |pr| - 1;
            var m2 := m[pr[n].addr + NEXT_SLOT := v];
            SameHeaders(m, m2, pr[..n]) && SameHeaders(m, m2, t)
  {
    var n := |pr| - 1;
    ClearAround(pr + t, n, pr[n].addr + NEXT_SLOT);
    assert (pr + t)[..n] == pr[..n] && (pr + t)[n + 1..] == t && (pr + t)[n] == pr[n];
    WriteClear(m, pr[..n], pr[n].addr + NEXT_SLOT, v);
    WriteClear(m, t, pr[n].addr + NEXT_SLOT, v);
  }

  /** The last chunk of a segment, relinked to the list `t`, heads `[l] + t`. */
  lemma {:induction false} SegRelinkLast(m: Mem, p: int, pr: seq<Chunk>, q: int, t: seq<Chunk>)
    requires Seg(m, p, pr, q) && pr != [] && List(m, Start(t, NULL), t)
    requires SameHeaders(m, m[pr[|pr| - 1].addr + NEXT_SLOT := Start(t, NULL)], t)
    ensures var l := pr[|pr| - 1];
            Seg(m[l.addr + NEXT_SLOT := Start(t, NULL)], l.addr, [l] + t, NULL)
  {
    var l := pr[|pr| - 1];
    var m2 := m[l.addr + NEXT_SLOT := Start(t, NULL)];
    SegAt(m, p, pr, q, |pr| - 1);
    SegFrame(m, m2, Start(t, NULL), t, NULL);
    assert Read(m2, l.addr + SIZE_SLOT) == l.size;
    SegCons(m2, l, t, NULL);
  }

  /** `LinkAfter` once its write is known to spare the other headers. */
  lemma {:induction false} LinkAfterCore(m: Mem, m2: Mem, p: int, pr: seq<Chunk>, q: int, t: seq<Chunk>)
    requires Seg(m, p, pr, q) && pr != [] && List(m, Start(t, NULL), t)
    requires m2 == m[pr[|pr| - 1].addr + NEXT_SLOT := Start(t, NULL)]
    requires SameHeaders(m, m2, pr[..|pr| - 1]) && SameHeaders(m, m2, t)
    ensures List(m2, p, pr + t)
  {
    var n := |pr| - 1;
    var l := pr[n];
    SegPrefixKept(m, m2, p, pr, q, n);
    SegRelinkLast(m, p, pr, q, t);
    SegJoin(m2, p, pr[..n], l, t, NULL);
    assert pr[..n] + [l] == pr;
  }

  /** talloc.h:292 as intended: the last chunk of `pr` is linked to the list
      `t`. */
  lemma {:induction false} LinkAfter(m: Mem, p: int, pr: seq<Chunk>, q: int, t: seq<Chunk>)
    requires Seg(m, p, pr, q) && pr != [] && List(m, Start(t, NULL), t) && Ordered(pr + t)
    ensures List(m[pr[|pr| - 1].addr + NEXT_SLOT := Start(t, NULL)], p, pr + t)
  {
    LinkAfterFrame(m, pr, t, Start(t, NULL));
    LinkAfterCore(m, m[pr[|pr| - 1].addr + NEXT_SLOT := Start(t, NULL)], p, pr, q, t);
  }

  /** A list starts at its first chunk, and is empty exactly when it starts
      at NULL. */
  lemma {:induction false} ListHead(m: Mem, p: int, cs: seq<Chunk>)
    requires List(m, p, cs) == true
    ensures p == Start(cs, NULL) && (p == NULL <==> cs == [])
  {
  }

  /** The `j`-th chunk of a list: its size slot, and its `next` slot naming
      the chunk after it. */
  lemma {:induction false} ListAt(m: Mem, p: int, cs: seq<Chunk>, j: nat)
    requires List(m, p, cs) == true && j < |cs|
    ensures Read(m, cs[j].addr + SIZE_SLOT) == cs[j].size && cs[j].addr != NULL
    ensures Read(m, cs[j].addr + NEXT_SLOT) == Start(cs[j + 1..], NULL)
  {
    SegAt(m, p, cs, NULL, j);
  }

  /** The chunks of a list, all past `lo`, read the same once a slot below
      `lo` is overwritten: chunk `j`'s size, and its `next` naming the chunk
      after it. */
  lemma {:induction false} ListAtBelow(m: Mem, p: int, cs: seq<Chunk>, j: nat, lo: int, x: int, v: int)
    requires List(m, p, cs) == true && Above(cs, lo) && x < lo && j < |cs|
    ensures Read(m[x := v], cs[j].addr + SIZE_SLOT) == cs[j].size
    ensures Read(m[x := v], cs[j].addr + NEXT_SLOT) == if j + 1 < |cs| then cs[j + 1].addr else NULL
    ensures j + 1 < |cs| ==> cs[j + 1].addr != NULL
    ensures cs[j].addr + SIZE_SLOT != x && cs[j].addr + NEXT_SLOT != x
  {
    ListAt(m, p, cs, j);
    if j + 1 < |cs| {
      ListAt(m, p, cs, j + 1);
    }
  }
}
