/** An arena's memory after its header as a sequence of blocks that tile
    `[arena + A, arena + allocated)`: free chunks, allocated blocks, and
    chunks that were unlinked from the free list without being handed out
    (talloc.h:292 can do that). */
module Blocks {
  import opened Layout
  import opened FreeList

  datatype Status = Free | Used | Lost

  /** A block: the address of its header, its usable size, its state. */
  datatype Block = Block(addr: nat, size: nat, status: Status)

  function End(b: Block): nat
  {
    b.addr + H + b.size
  }

  function ChunkOf(b: Block): Chunk
  {
    Chunk(b.addr, b.size)
  }

  /** The blocks cover `[lo, hi)` exactly, each starting where the previous
      one ends. */
  predicate Tiles(bs: seq<Block>, lo: nat, hi: nat)
  {
    if bs == [] then lo == hi
    else
      && bs[0].addr == lo
      && End(bs[|bs| - 1]) == hi
      && forall k :: 0 <= k < |bs| - 1 ==> End(bs[k]) == bs[k + 1].addr
  }

  /** No two free blocks are neighbours in memory. */
  predicate NoAdjacentFree(bs: seq<Block>)
  {
    forall k :: 0 <= k < |bs| - 1 ==> !(bs[k].status == Free && bs[k + 1].status == Free)
  }

  /** Two runs without adjacent free blocks, joined where at most one side is
      free. */
  lemma {:induction false} NoAdjacentFreeJoin(a: seq<Block>, b: seq<Block>)
    requires NoAdjacentFree(a) && NoAdjacentFree(b)
    requires a != [] && b != [] ==> !(a[|a| - 1].status == Free && b[0].status == Free)
    ensures NoAdjacentFree(a + b)
  {
    var ab := a + b;
    forall k | 0 <= k < |ab| - 1 ensures !(ab[k].status == Free && ab[k + 1].status == Free) {
      if k < |a| - 1 {
        assert ab[k] == a[k] && ab[k + 1] == a[k + 1];
      } else if k == |a| - 1 {
        assert ab[k] == a[k] && ab[k + 1] == b[0];
      } else {
        assert ab[k] == b[k - |a|] && ab[k + 1] == b[k - |a| + 1];
      }
    }
  }

  /** The free blocks, in address order: what the free list must hold. */
  function FreeChunks(bs: seq<Block>): seq<Chunk>
  {
    if bs == [] then []
    else (if bs[0].status == Free then [ChunkOf(bs[0])] else []) + FreeChunks(bs[1..])
  }

  lemma {:induction false} FreeChunksAppend(a: seq<Block>, b: seq<Block>)
    ensures FreeChunks(a + b) == FreeChunks(a) + FreeChunks(b)
  {
    if a == [] {
      assert a + b == b;
    } else {
      assert (a + b)[1..] == a[1..] + b;
      FreeChunksAppend(a[1..], b);
    }
  }

  lemma {:induction false} FreeChunksOne(b: Block)
    ensures FreeChunks([b]) == if b.status == Free then [ChunkOf(b)] else []
  {
    assert [b][1..] == [];
  }

  /** The free list of a sequence with its first block split off. */
  lemma {:induction false} FreeChunksFirst(bs: seq<Block>)
    requires bs != []
    ensures FreeChunks(bs) == FreeChunks([bs[0]]) + FreeChunks(bs[1..])
  {
    assert bs == [bs[0]] + bs[1..];
    FreeChunksAppend([bs[0]], bs[1..]);
  }

  /** Splitting a block sequence around position `i`. */
  lemma {:induction false} FreeChunksAround(bs: seq<Block>, i: nat)
    requires i < |bs|
    ensures FreeChunks(bs) == FreeChunks(bs[..i]) + FreeChunks([bs[i]]) + FreeChunks(bs[i + 1..])
    ensures FreeChunks([bs[i]]) == if bs[i].status == Free then [ChunkOf(bs[i])] else []
  {
    assert bs == bs[..i] + [bs[i]] + bs[i + 1..];
    FreeChunksAppend(bs[..i] + [bs[i]], bs[i + 1..]);
    FreeChunksAppend(bs[..i], [bs[i]]);
    FreeChunksOne(bs[i]);
  }

  lemma {:induction false} TilesSplit(bs: seq<Block>, lo: nat, hi: nat, i: nat)
    requires Tiles(bs, lo, hi) && i < |bs|
    ensures Tiles(bs[..i], lo, bs[i].addr)
    ensures Tiles(bs[i + 1..], End(bs[i]), hi)
  {
  }

  lemma {:induction false} TilesSuffix(bs: seq<Block>, lo: nat, hi: nat, i: nat)
    requires Tiles(bs, lo, hi) && i < |bs|
    ensures Tiles(bs[i + 1..], End(bs[i]), hi)
  {
    TilesSplit(bs, lo, hi, i);
  }

  lemma {:induction false} TilesPrefix(bs: seq<Block>, lo: nat, hi: nat, i: nat)
    requires Tiles(bs, lo, hi) && i < |bs|
    ensures Tiles(bs[..i], lo, bs[i].addr)
  {
    TilesSplit(bs, lo, hi, i);
  }

  lemma {:induction false} TilesJoin(a: seq<Block>, b: seq<Block>, lo: nat, mid: nat, hi: nat)
    requires Tiles(a, lo, mid) && Tiles(b, mid, hi)
    ensures Tiles(a + b, lo, hi)
  {
    var ab := a + b;
    if a != [] && b != [] {
      forall k | 0 <= k < |ab| - 1 ensures End(ab[k]) == ab[k + 1].addr {
        if k < |a| - 1 {
          assert ab[k] == a[k] && ab[k + 1] == a[k + 1];
        } else if k == |a| - 1 {
          assert ab[k] == a[k] && ab[k + 1] == b[0];
        } else {
          assert ab[k] == b[k - |a|] && ab[k + 1] == b[k - |a| + 1];
        }
      }
    } else if a == [] {
      assert ab == b;
    } else {
      assert ab == a;
    }
  }

  lemma {:induction false} TilesBounds(bs: seq<Block>, lo: nat, hi: nat)
    requires Tiles(bs, lo, hi)
    ensures lo <= hi
    ensures bs != [] ==> lo < hi
    decreases |bs|
  {
    if bs != [] {
      TilesSplit(bs, lo, hi, 0);
      TilesBounds(bs[1..], End(bs[0]), hi);
    }
  }

  /** Every chunk lies inside `[lo, hi)`. */
  predicate Within(cs: seq<Chunk>, lo: nat, hi: nat)
  {
    forall k :: 0 <= k < |cs| ==> lo <= cs[k].addr && ChunkEnd(cs[k]) <= hi
  }

  /** The first block of a nonempty tiling starts it, and the rest tiles
      the remainder. */
  lemma {:induction false} TilesFirst(bs: seq<Block>, lo: nat, hi: nat)
    requires Tiles(bs, lo, hi) && bs != []
    ensures bs[0].addr == lo && End(bs[0]) <= hi && Tiles(bs[1..], End(bs[0]), hi)
  {
    TilesSplit(bs, lo, hi, 0);
    TilesBounds(bs[1..], End(bs[0]), hi);
  }

  /** Through a tiling of `[lo, hi)`, the free chunks lie inside `[lo, hi)`. */
  lemma {:induction false} TilesChunksWithin(bs: seq<Block>, lo: nat, hi: nat)
    requires Tiles(bs, lo, hi)
    ensures Within(FreeChunks(bs), lo, hi)
    decreases |bs|
  {
    if bs != [] {
      TilesFirst(bs, lo, hi);
      TilesChunksWithin(bs[1..], End(bs[0]), hi);
    }
  }

  /** Through a tiling, the free chunks are in address order. */
  lemma {:induction false} TilesChunks(bs: seq<Block>, lo: nat, hi: nat)
    requires Tiles(bs, lo, hi)
    ensures Ordered(FreeChunks(bs)) && Within(FreeChunks(bs), lo, hi)
    decreases |bs|
  {
    TilesChunksWithin(bs, lo, hi);
    if bs != [] {
      TilesFirst(bs, lo, hi);
      TilesChunks(bs[1..], End(bs[0]), hi);
      FreeChunksFirst(bs);
      FreeChunksOne(bs[0]);
      if bs[0].status == Free {
        OrderedCons(ChunkOf(bs[0]), FreeChunks(bs[1..]));
      }
    }
  }

  /** Without adjacent free blocks, the free chunks of a tiling are separated
      by gaps. */
  lemma {:induction false} TilesChunksSeparated(bs: seq<Block>, lo: nat, hi: nat)
    requires Tiles(bs, lo, hi) && NoAdjacentFree(bs)
    ensures Separated(FreeChunks(bs))
    decreases |bs|
  {
    if bs != [] {
      var rest := bs[1..];
      TilesFirst(bs, lo, hi);
      assert NoAdjacentFree(rest);
      TilesChunksSeparated(rest, End(bs[0]), hi);
      FreeChunksFirst(bs);
      FreeChunksOne(bs[0]);
      if bs[0].status == Free {
        if rest != [] {
          assert rest[0].status != Free;
          TilesFirst(rest, End(bs[0]), hi);
          TilesChunksWithin(rest[1..], End(rest[0]), hi);
          FreeChunksFirst(rest);
          FreeChunksOne(rest[0]);
        }
        SeparatedCons(ChunkOf(bs[0]), FreeChunks(rest));
      }
    }
  }

  /** The same footprint reinterpreted as a free chunk (talloc.h:188). */
  function AsFree(b: Block): Block
  {
    b.(status := Free)
  }

  /** One free block covering `b`, its successor's header and the successor. */
  function MergeBlocks(b: Block, c: Block): (r: Block)
    ensures r.addr == b.addr && r.status == Free
  {
    Block(b.addr, b.size + H + c.size, Free)
  }

  /** Coalescing a free block with what follows it in memory. */
  function JoinRight(x: Block, post: seq<Block>): (r: seq<Block>)
  {
    if post != [] && post[0].status == Free then [MergeBlocks(x, post[0])] + post[1..]
    else [x] + post
  }

  /** Coalescing the block before `rest` with the free block `rest[0]`. */
  function JoinLeft(pre: seq<Block>, rest: seq<Block>): (r: seq<Block>)
    requires rest != []
  {
    if pre != [] && pre[|pre| - 1].status == Free then
      pre[..|pre| - 1] + [MergeBlocks(pre[|pre| - 1], rest[0])] + rest[1..]
    else pre + rest
  }

  /** The arena after block `i` is freed: it becomes free and is merged with a
      free neighbour on either side (talloc.h:188-211). */
  function Release(bs: seq<Block>, i: nat): seq<Block>
    requires i < |bs|
  {
    JoinLeft(bs[..i], JoinRight(AsFree(bs[i]), bs[i + 1..]))
  }

  lemma {:induction false} JoinRightTiles(x: Block, post: seq<Block>, hi: nat)
    requires x.status == Free && Tiles(post, End(x), hi) && NoAdjacentFree(post)
    ensures var r := JoinRight(x, post);
            Tiles(r, x.addr, hi) && NoAdjacentFree(r) && r[0].addr == x.addr && r[0].status == Free
  {
    var r := JoinRight(x, post);
    if post != [] && post[0].status == Free {
      TilesFirst(post, End(x), hi);
      var m := MergeBlocks(x, post[0]);
      assert Tiles([m], x.addr, End(post[0]));
      TilesJoin([m], post[1..], x.addr, End(post[0]), hi);
    } else {
      assert Tiles([x], x.addr, End(x));
      TilesJoin([x], post, x.addr, End(x), hi);
    }
  }

  lemma {:induction false} JoinLeftTiles(pre: seq<Block>, rest: seq<Block>, lo: nat, mid: nat, hi: nat)
    requires Tiles(pre, lo, mid) && Tiles(rest, mid, hi)
    requires NoAdjacentFree(pre) && NoAdjacentFree(rest)
    requires rest != [] && rest[0].status == Free
    ensures Tiles(JoinLeft(pre, rest), lo, hi) && NoAdjacentFree(JoinLeft(pre, rest))
  {
    var r := JoinLeft(pre, rest);
    if pre != [] && pre[|pre| - 1].status == Free {
      var n := |pre| - 1;
      TilesSplit(pre, lo, mid, n);
      TilesFirst(rest, mid, hi);
      var m := MergeBlocks(pre[n], rest[0]);
      assert Tiles([m], pre[n].addr, End(rest[0]));
      TilesJoin([m], rest[1..], pre[n].addr, End(rest[0]), hi);
      TilesJoin(pre[..n], [m] + rest[1..], lo, pre[n].addr, hi);
      assert r == pre[..n] + ([m] + rest[1..]);
      forall k | 0 <= k < |r| - 1 ensures !(r[k].status == Free && r[k + 1].status == Free) {
        if k < n - 1 {
          assert r[k] == pre[k] && r[k + 1] == pre[k + 1];
        } else if k == n - 1 {
          assert r[k] == pre[n - 1] && pre[n].status == Free;
        } else {
          assert r[k + 1] == rest[k - n + 1];
          if k > n {
            assert r[k] == rest[k - n];
          }
        }
      }
    } else {
      TilesJoin(pre, rest, lo, mid, hi);
      forall k | 0 <= k < |r| - 1 ensures !(r[k].status == Free && r[k + 1].status == Free) {
        if k < |pre| - 1 {
          assert r[k] == pre[k] && r[k + 1] == pre[k + 1];
        } else if k == |pre| - 1 {
          assert r[k] == pre[k];
        } else {
          assert r[k] == rest[k - |pre|] && r[k + 1] == rest[k - |pre| + 1];
        }
      }
    }
  }

  /** Freeing a block that is not free keeps the tiling and the coalescing
      invariant. */
  lemma {:induction false} ReleaseTiles(bs: seq<Block>, i: nat, lo: nat, hi: nat)
    requires Tiles(bs, lo, hi) && NoAdjacentFree(bs) && i < |bs| && bs[i].status != Free
    ensures Tiles(Release(bs, i), lo, hi) && NoAdjacentFree(Release(bs, i))
  {
    TilesSplit(bs, lo, hi, i);
    var x := AsFree(bs[i]);
    assert NoAdjacentFree(bs[i + 1..]);
    assert NoAdjacentFree(bs[..i]);
    JoinRightTiles(x, bs[i + 1..], hi);
    JoinLeftTiles(bs[..i], JoinRight(x, bs[i + 1..]), lo, bs[i].addr, hi);
  }

  /** Coalescing inside a list only looks at the two chunks concerned. */
  lemma {:induction false} CoalesceShift(p: seq<Chunk>, cs: seq<Chunk>, j: nat)
    requires j < |cs|
    ensures CoalesceAt(p + cs, |p| + j) == p + CoalesceAt(cs, j)
  {
    var pc := p + cs;
    assert pc[|p| + j] == cs[j];
    assert j + 1 < |cs| ==> pc[|p| + j + 1] == cs[j + 1];
    if Adjacent(cs, j) {
      assert pc[..|p| + j] == p + cs[..j];
      assert pc[|p| + j + 2..] == cs[j + 2..];
    }
  }

  lemma {:induction false} JoinRightChunks(x: Block, post: seq<Block>, hi: nat)
    requires x.status == Free && Tiles(post, End(x), hi)
    ensures FreeChunks(JoinRight(x, post)) == CoalesceAt([ChunkOf(x)] + FreeChunks(post), 0)
  {
    var cs := [ChunkOf(x)] + FreeChunks(post);
    if post != [] && post[0].status == Free {
      var m := MergeBlocks(x, post[0]);
      FreeChunksAppend([m], post[1..]);
      FreeChunksOne(m);
      assert post == [post[0]] + post[1..];
      FreeChunksAppend([post[0]], post[1..]);
      FreeChunksOne(post[0]);
      assert Adjacent(cs, 0);
      assert cs[2..] == FreeChunks(post[1..]);
    } else {
      FreeChunksAppend([x], post);
      FreeChunksOne(x);
      if post != [] {
        TilesFirst(post, End(x), hi);
        TilesChunksWithin(post[1..], End(post[0]), hi);
        assert post == [post[0]] + post[1..];
        FreeChunksAppend([post[0]], post[1..]);
        FreeChunksOne(post[0]);
        assert FreeChunks(post) == FreeChunks(post[1..]);
      }
      assert !Adjacent(cs, 0);
    }
  }

  /** Coalescing two touching chunks in the middle of a list. */
  lemma {:induction false} CoalesceTouching(p0: seq<Chunk>, cl: Chunk, cr: Chunk, r1: seq<Chunk>)
    requires cr.addr == ChunkEnd(cl)
    ensures CoalesceAt(p0 + [cl, cr] + r1, |p0|) == p0 + [Merge(cl, cr)] + r1
  {
    var lq := [cl, cr] + r1;
    assert Adjacent(lq, 0);
    assert lq[2..] == r1;
    CoalesceShift(p0, lq, 0);
    assert p0 + [cl, cr] + r1 == p0 + lq;
  }

  /** A block sequence split around one block, on the free list. */
  lemma {:induction false} FreeChunksSplice(a: seq<Block>, b: Block, c: seq<Block>)
    ensures FreeChunks(a + [b] + c) ==
              FreeChunks(a) + (if b.status == Free then [ChunkOf(b)] else []) + FreeChunks(c)
  {
    FreeChunksAppend(a + [b], c);
    FreeChunksAppend(a, [b]);
    FreeChunksOne(b);
  }

  /** The free list of a sequence whose last block is free. */
  lemma {:induction false} FreeChunksLastFree(bs: seq<Block>)
    requires bs != [] && bs[|bs| - 1].status == Free
    ensures FreeChunks(bs) == FreeChunks(bs[..|bs| - 1]) + [ChunkOf(bs[|bs| - 1])]
  {
    assert bs == bs[..|bs| - 1] + [bs[|bs| - 1]];
    FreeChunksAppend(bs[..|bs| - 1], [bs[|bs| - 1]]);
    FreeChunksOne(bs[|bs| - 1]);
  }

  /** The free list of a sequence whose first block is free. */
  lemma {:induction false} FreeChunksFirstFree(bs: seq<Block>)
    requires bs != [] && bs[0].status == Free
    ensures FreeChunks(bs) == [ChunkOf(bs[0])] + FreeChunks(bs[1..])
  {
    FreeChunksAround(bs, 0);
    assert bs[..0] == [];
  }

  /** The free list after merging the free block ending `pre` into `rest`. */
  lemma {:induction false} JoinLeftMergedChunks(pre: seq<Block>, rest: seq<Block>)
    requires rest != [] && pre != [] && pre[|pre| - 1].status == Free
    ensures FreeChunks(JoinLeft(pre, rest)) ==
              FreeChunks(pre[..|pre| - 1]) + [ChunkOf(MergeBlocks(pre[|pre| - 1], rest[0]))] +
              FreeChunks(rest[1..])
  {
    FreeChunksSplice(pre[..|pre| - 1], MergeBlocks(pre[|pre| - 1], rest[0]), rest[1..]);
  }

  /** Two free blocks meeting at the junction of `pre` and `rest`. */
  lemma {:induction false} FreePairChunks(pre: seq<Block>, rest: seq<Block>)
    requires rest != [] && rest[0].status == Free && pre != [] && pre[|pre| - 1].status == Free
    ensures FreeChunks(pre) + FreeChunks(rest) ==
              FreeChunks(pre[..|pre| - 1]) + [ChunkOf(pre[|pre| - 1]), ChunkOf(rest[0])] +
              FreeChunks(rest[1..])
  {
    FreeChunksLastFree(pre);
    FreeChunksFirstFree(rest);
  }

  lemma {:induction false} JoinLeftChunksMerge(pre: seq<Block>, rest: seq<Block>, lo: nat, mid: nat)
    requires Tiles(pre, lo, mid) && rest != [] && rest[0].addr == mid && rest[0].status == Free
    requires pre != [] && pre[|pre| - 1].status == Free
    ensures var p := FreeChunks(pre);
            p != [] && FreeChunks(JoinLeft(pre, rest)) == CoalesceAt(p + FreeChunks(rest), |p| - 1)
  {
    var l := pre[|pre| - 1];
    var p0 := FreeChunks(pre[..|pre| - 1]);
    var r1 := FreeChunks(rest[1..]);
    var cl := ChunkOf(l);
    var cr := ChunkOf(rest[0]);
    var p := FreeChunks(pre);
    FreeChunksLastFree(pre);
    FreePairChunks(pre, rest);
    assert p + FreeChunks(rest) == p0 + [cl, cr] + r1;
    assert |p| - 1 == |p0|;
    assert End(l) == mid by {
      TilesSplit(pre, lo, mid, |pre| - 1);
    }
    CoalesceTouching(p0, cl, cr, r1);
    JoinLeftMergedChunks(pre, rest);
    assert ChunkOf(MergeBlocks(l, rest[0])) == Merge(cl, cr);
  }

  lemma {:induction false} JoinLeftChunksKeep(pre: seq<Block>, rest: seq<Block>, lo: nat, mid: nat)
    requires Tiles(pre, lo, mid) && rest != [] && rest[0].addr == mid && rest[0].status == Free
    requires !(pre != [] && pre[|pre| - 1].status == Free)
    ensures var p := FreeChunks(pre);
            FreeChunks(JoinLeft(pre, rest)) ==
              if p == [] then FreeChunks(rest) else CoalesceAt(p + FreeChunks(rest), |p| - 1)
  {
    var p := FreeChunks(pre);
    var q := FreeChunks(rest);
    FreeChunksAppend(pre, rest);
    if p != [] {
      var n := |pre| - 1;
      assert p == FreeChunks(pre[..n]) by {
        assert pre == pre[..n] + [pre[n]];
        FreeChunksAppend(pre[..n], [pre[n]]);
        FreeChunksOne(pre[n]);
      }
      TilesSplit(pre, lo, mid, n);
      TilesChunksWithin(pre[..n], lo, pre[n].addr);
      assert ChunkEnd(p[|p| - 1]) <= pre[n].addr;
      assert q[0] == ChunkOf(rest[0]) by {
        assert rest == [rest[0]] + rest[1..];
        FreeChunksAppend([rest[0]], rest[1..]);
        FreeChunksOne(rest[0]);
      }
      var pq := p + q;
      assert pq[|p| - 1] == p[|p| - 1];
      assert pq[|p|] == q[0];
      assert !Adjacent(pq, |p| - 1);
    }
  }

  /** Inserting a free block's chunk after `p` and coalescing it with its
      successor gives the free list of `JoinRight`. */
  lemma {:induction false} JoinRightList(p: seq<Chunk>, x: Block, post: seq<Block>, hi: nat)
    requires x.status == Free && Tiles(post, End(x), hi)
    ensures CoalesceAt(p + [ChunkOf(x)] + FreeChunks(post), |p|) == p + FreeChunks(JoinRight(x, post))
  {
    JoinRightChunks(x, post, hi);
    CoalesceShift(p, [ChunkOf(x)] + FreeChunks(post), 0);
    assert p + [ChunkOf(x)] + FreeChunks(post) == p + ([ChunkOf(x)] + FreeChunks(post));
  }

  /** The free list after a release is what talloc.h:188-211 builds: the
      chunk inserted in address order, coalesced with its successor, then
      its predecessor coalesced with it. */
  lemma {:induction false} ReleaseRightChunks(bs: seq<Block>, i: nat, lo: nat, hi: nat)
    requires Tiles(bs, lo, hi) && i < |bs| && bs[i].status != Free
    ensures var p := FreeChunks(bs[..i]);
            var q := FreeChunks(bs[i + 1..]);
            var right := JoinRight(AsFree(bs[i]), bs[i + 1..]);
            && FreeChunks(bs) == p + q
            && CoalesceAt(p + [ChunkOf(bs[i])] + q, |p|) == p + FreeChunks(right)
            && right != [] && right[0].addr == bs[i].addr && right[0].status == Free
  {
    FreeChunksAround(bs, i);
    TilesSuffix(bs, lo, hi, i);
    assert ChunkOf(AsFree(bs[i])) == ChunkOf(bs[i]);
    JoinRightList(FreeChunks(bs[..i]), AsFree(bs[i]), bs[i + 1..], hi);
  }

  lemma {:induction false} ReleaseChunks(bs: seq<Block>, i: nat, lo: nat, hi: nat)
    requires Tiles(bs, lo, hi) && i < |bs| && bs[i].status != Free
    ensures var p := FreeChunks(bs[..i]);
            var q := FreeChunks(bs[i + 1..]);
            var inserted := CoalesceAt(p + [ChunkOf(bs[i])] + q, |p|);
            && FreeChunks(bs) == p + q
            && FreeChunks(Release(bs, i)) == if p == [] then inserted else CoalesceAt(inserted, |p| - 1)
  {
    ReleaseRightChunks(bs, i, lo, hi);
    TilesPrefix(bs, lo, hi, i);
    var right := JoinRight(AsFree(bs[i]), bs[i + 1..]);
    if i > 0 && bs[i - 1].status == Free {
      assert bs[..i][i - 1] == bs[i - 1];
      JoinLeftChunksMerge(bs[..i], right, lo, bs[i].addr);
    } else {
      assert i > 0 ==> bs[..i][i - 1] == bs[i - 1];
      JoinLeftChunksKeep(bs[..i], right, lo, bs[i].addr);
    }
  }

  /** Same addresses and sizes, block for block; only states may differ. */
  predicate SameShape(a: seq<Block>, b: seq<Block>)
  {
    |a| == |b| && forall k :: 0 <= k < |a| ==> a[k].addr == b[k].addr && a[k].size == b[k].size
  }

  lemma {:induction false} SameShapeTiles(a: seq<Block>, b: seq<Block>, lo: nat, hi: nat)
    requires SameShape(a, b) && Tiles(a, lo, hi)
    ensures Tiles(b, lo, hi)
  {
    if a != [] {
      assert End(b[|b| - 1]) == End(a[|a| - 1]);
      forall k | 0 <= k < |b| - 1 ensures End(b[k]) == b[k + 1].addr {
        assert End(a[k]) == a[k + 1].addr;
      }
    }
  }

  /** A free block that dropped out of the free list. */
  function Lose(b: Block): Block
  {
    if b.status == Free then b.(status := Lost) else b
  }

  /** Every free block dropped from the list; nothing else changes. */
  function LoseAll(bs: seq<Block>): (r: seq<Block>)
    ensures SameShape(bs, r)
    ensures forall k :: 0 <= k < |r| ==>
              r[k].status != Free && (r[k] == bs[k] || (bs[k].status == Free && r[k].status == Lost))
    decreases |bs|
  {
    if bs == [] then []
    else
      var rest := LoseAll(bs[1..]);
      var r := [Lose(bs[0])] + rest;
      assert forall k :: 1 <= k < |r| ==> r[k] == rest[k - 1] && bs[k] == bs[1..][k - 1];
      r
  }

  lemma {:induction false} LoseAllChunks(bs: seq<Block>)
    ensures FreeChunks(LoseAll(bs)) == []
    decreases |bs|
  {
    if bs != [] {
      var r := LoseAll(bs);
      assert r[1..] == LoseAll(bs[1..]);
      LoseAllChunks(bs[1..]);
    }
  }

  /** The blocks before the chosen chunk after talloc.h:292: every free block
      but the first one is dropped from the list; nothing else changes. */
  function LoseAfterFirst(bs: seq<Block>): (r: seq<Block>)
    ensures SameShape(bs, r)
    ensures forall k :: 0 <= k < |r| ==> r[k] == bs[k] || (bs[k].status == Free && r[k].status == Lost)
    decreases |bs|
  {
    if bs == [] then []
    else
      var rest := if bs[0].status == Free then LoseAll(bs[1..]) else LoseAfterFirst(bs[1..]);
      var r := [bs[0]] + rest;
      assert forall k :: 1 <= k < |r| ==> r[k] == rest[k - 1] && bs[k] == bs[1..][k - 1];
      r
  }

  lemma {:induction false} LoseAfterFirstChunks(bs: seq<Block>)
    ensures FreeChunks(LoseAfterFirst(bs)) == FirstOnly(FreeChunks(bs))
    decreases |bs|
  {
    if bs != [] {
      var r := LoseAfterFirst(bs);
      FreeChunksAround(bs, 0);
      FreeChunksAround(r, 0);
      assert bs[..0] == [] && r[..0] == [] && r[0] == bs[0];
      if bs[0].status == Free {
        assert r[1..] == LoseAll(bs[1..]);
        LoseAllChunks(bs[1..]);
      } else {
        assert r[1..] == LoseAfterFirst(bs[1..]);
        LoseAfterFirstChunks(bs[1..]);
      }
    }
  }

  /** Dropping free blocks from the list creates no adjacent free pair. */
  lemma {:induction false} LoseAfterFirstSeparate(bs: seq<Block>)
    requires NoAdjacentFree(bs)
    ensures NoAdjacentFree(LoseAfterFirst(bs))
  {
  }

  /** The free remainder talloc.h:271-274 carves after a block of `size`. */
  function Remainder(h: Block, size: nat): Block
    requires size + H < h.size
  {
    Block(h.addr + H + size, h.size - size - H, Free)
  }

  /** The block a malloc hands out from block `h`. */
  function Granted(h: Block, size: nat): Block
  {
    Block(h.addr, if h.size - size > H then size else h.size, Used)
  }

  /** The chosen free block `h` handed out for `size` bytes: split when the
      excess exceeds one header, the remainder coalesced with its successor
      (talloc.h:266-289). */
  function Carve(h: Block, size: nat, post: seq<Block>): seq<Block>
    requires size <= h.size
  {
    if h.size - size > H then [Block(h.addr, size, Used)] + JoinRight(Remainder(h, size), post)
    else [Block(h.addr, h.size, Used)] + post
  }

  /** The arena after `TAlloc_malloc` takes block `i` for `size` bytes, as
      written: the head of the free list is linked to what follows the taken
      chunk (talloc.h:291-292). */
  function Take(bs: seq<Block>, i: nat, size: nat): seq<Block>
    requires i < |bs| && size <= bs[i].size
  {
    LoseAfterFirst(bs[..i]) + Carve(bs[i], size, bs[i + 1..])
  }

  /** The same with `prev->next = next_free_chunk`: nothing before the taken
      chunk changes. */
  function TakeIntended(bs: seq<Block>, i: nat, size: nat): seq<Block>
    requires i < |bs| && size <= bs[i].size
  {
    bs[..i] + Carve(bs[i], size, bs[i + 1..])
  }

  lemma {:induction false} CarveTiles(h: Block, size: nat, post: seq<Block>, hi: nat)
    requires size <= h.size && Tiles(post, End(h), hi) && NoAdjacentFree(post)
    ensures var c := Carve(h, size, post);
            && Tiles(c, h.addr, hi) && NoAdjacentFree(c)
            && c[0] == Granted(h, size)
  {
    if h.size - size > H {
      var u := Block(h.addr, size, Used);
      var rm := Remainder(h, size);
      assert End(rm) == End(h);
      JoinRightTiles(rm, post, hi);
      var jr := JoinRight(rm, post);
      assert Tiles([u], h.addr, rm.addr);
      TilesJoin([u], jr, h.addr, rm.addr, hi);
      NoAdjacentFreeJoin([u], jr);
    } else {
      var u := Block(h.addr, h.size, Used);
      assert Tiles([u], h.addr, End(h));
      TilesJoin([u], post, h.addr, End(h), hi);
      NoAdjacentFreeJoin([u], post);
    }
  }

  /** A valid run followed by a valid run that starts with a block in use. */
  lemma {:induction false} JoinTiled(a: seq<Block>, c: seq<Block>, lo: nat, mid: nat, hi: nat)
    requires Tiles(a, lo, mid) && NoAdjacentFree(a) && Tiles(c, mid, hi) && NoAdjacentFree(c)
    requires c != [] && c[0].status != Free
    ensures Tiles(a + c, lo, hi) && NoAdjacentFree(a + c)
  {
    TilesJoin(a, c, lo, mid, hi);
    NoAdjacentFreeJoin(a, c);
  }

  /** The blocks before and after block `i` of a valid tiling are valid. */
  lemma {:induction false} ValidAround(bs: seq<Block>, i: nat, lo: nat, hi: nat)
    requires Tiles(bs, lo, hi) && NoAdjacentFree(bs) && i < |bs|
    ensures Tiles(bs[..i], lo, bs[i].addr) && NoAdjacentFree(bs[..i])
    ensures Tiles(bs[i + 1..], End(bs[i]), hi) && NoAdjacentFree(bs[i + 1..])
  {
    TilesSplit(bs, lo, hi, i);
    assert NoAdjacentFree(bs[i + 1..]) && NoAdjacentFree(bs[..i]);
  }

  /** The carved block and what follows it, inside a valid tiling. */
  lemma {:induction false} CarveValid(bs: seq<Block>, i: nat, size: nat, lo: nat, hi: nat)
    requires Tiles(bs, lo, hi) && NoAdjacentFree(bs) && i < |bs| && size <= bs[i].size
    ensures var c := Carve(bs[i], size, bs[i + 1..]);
            Tiles(c, bs[i].addr, hi) && NoAdjacentFree(c) && c[0].status == Used
  {
    ValidAround(bs, i, lo, hi);
    CarveTiles(bs[i], size, bs[i + 1..], hi);
  }

  /** The blocks before the taken one, as written: still a valid run. */
  lemma {:induction false} LostValid(bs: seq<Block>, i: nat, lo: nat, hi: nat)
    requires Tiles(bs, lo, hi) && NoAdjacentFree(bs) && i < |bs|
    ensures var lost := LoseAfterFirst(bs[..i]);
            Tiles(lost, lo, bs[i].addr) && NoAdjacentFree(lost)
  {
    ValidAround(bs, i, lo, hi);
    SameShapeTiles(bs[..i], LoseAfterFirst(bs[..i]), lo, bs[i].addr);
    LoseAfterFirstSeparate(bs[..i]);
  }

  /** Taking a free block keeps the tiling and the coalescing invariant. */
  lemma {:induction false} TakeTiles(bs: seq<Block>, i: nat, size: nat, lo: nat, hi: nat)
    requires Tiles(bs, lo, hi) && NoAdjacentFree(bs) && i < |bs| && size <= bs[i].size
    ensures Tiles(Take(bs, i, size), lo, hi) && NoAdjacentFree(Take(bs, i, size))
  {
    CarveValid(bs, i, size, lo, hi);
    LostValid(bs, i, lo, hi);
    JoinTiled(LoseAfterFirst(bs[..i]), Carve(bs[i], size, bs[i + 1..]), lo, bs[i].addr, hi);
  }

  /** The same for the intended unlinking. */
  lemma {:induction false} TakeIntendedTiles(bs: seq<Block>, i: nat, size: nat, lo: nat, hi: nat)
    requires Tiles(bs, lo, hi) && NoAdjacentFree(bs) && i < |bs| && size <= bs[i].size
    ensures Tiles(TakeIntended(bs, i, size), lo, hi) && NoAdjacentFree(TakeIntended(bs, i, size))
  {
    CarveValid(bs, i, size, lo, hi);
    ValidAround(bs, i, lo, hi);
    JoinTiled(bs[..i], Carve(bs[i], size, bs[i + 1..]), lo, bs[i].addr, hi);
  }

  lemma {:induction false} CarveChunks(h: Block, size: nat, post: seq<Block>, hi: nat)
    requires size <= h.size && Tiles(post, End(h), hi)
    ensures FreeChunks(Carve(h, size, post)) ==
              if h.size - size > H then CoalesceAt([ChunkOf(Remainder(h, size))] + FreeChunks(post), 0)
              else FreeChunks(post)
  {
    var c := Carve(h, size, post);
    FreeChunksAround(c, 0);
    assert c[..0] == [];
    if h.size - size > H {
      var rm := Remainder(h, size);
      assert End(rm) == End(h);
      JoinRightChunks(rm, post, hi);
      assert c[1..] == JoinRight(rm, post);
    } else {
      assert c[1..] == post;
    }
  }

  /** The free list after a malloc, as written and as intended. */
  lemma {:induction false} TakeChunks(bs: seq<Block>, i: nat, size: nat, lo: nat, hi: nat)
    requires Tiles(bs, lo, hi) && i < |bs| && size <= bs[i].size
    ensures FreeChunks(Take(bs, i, size)) ==
              FirstOnly(FreeChunks(bs[..i])) + FreeChunks(Carve(bs[i], size, bs[i + 1..]))
    ensures FreeChunks(TakeIntended(bs, i, size)) ==
              FreeChunks(bs[..i]) + FreeChunks(Carve(bs[i], size, bs[i + 1..]))
  {
    FreeChunksAppend(LoseAfterFirst(bs[..i]), Carve(bs[i], size, bs[i + 1..]));
    LoseAfterFirstChunks(bs[..i]);
    FreeChunksAppend(bs[..i], Carve(bs[i], size, bs[i + 1..]));
  }

  /** No block has dropped out of the free list. */
  predicate NoLost(bs: seq<Block>)
  {
    forall k :: 0 <= k < |bs| ==> bs[k].status != Lost
  }

  lemma {:induction false} NoLostAppend(a: seq<Block>, b: seq<Block>)
    ensures NoLost(a + b) <==> NoLost(a) && NoLost(b)
  {
    if NoLost(a) && NoLost(b) {
      forall k | 0 <= k < |a + b| ensures (a + b)[k].status != Lost {
        if k >= |a| {
          assert (a + b)[k] == b[k - |a|];
        }
      }
    }
    if NoLost(a + b) {
      forall k | 0 <= k < |a| ensures a[k].status != Lost {
        assert (a + b)[k] == a[k];
      }
      forall k | 0 <= k < |b| ensures b[k].status != Lost {
        assert (a + b)[|a| + k] == b[k];
      }
    }
  }

  /** As intended, a malloc leaves no free block unreachable: every free
      block of the arena is still on its list. */
  lemma {:induction false} TakeIntendedNoLost(bs: seq<Block>, i: nat, size: nat)
    requires i < |bs| && size <= bs[i].size && NoLost(bs)
    ensures NoLost(TakeIntended(bs, i, size))
  {
    var h := bs[i];
    var post := bs[i + 1..];
    assert NoLost(post) by {
      forall k | 0 <= k < |post| ensures post[k].status != Lost {
        assert post[k] == bs[i + 1 + k];
      }
    }
    var c := Carve(h, size, post);
    if h.size - size > H {
      var jr := JoinRight(Remainder(h, size), post);
      if post != [] && post[0].status == Free {
        assert post == [post[0]] + post[1..];
        NoLostAppend([post[0]], post[1..]);
        NoLostAppend([MergeBlocks(Remainder(h, size), post[0])], post[1..]);
      } else {
        NoLostAppend([Remainder(h, size)], post);
      }
      NoLostAppend([Block(h.addr, size, Used)], jr);
    } else {
      NoLostAppend([Block(h.addr, h.size, Used)], post);
    }
    assert bs == bs[..i] + bs[i..];
    NoLostAppend(bs[..i], bs[i..]);
    NoLostAppend(bs[..i], c);
  }

  /** An arena of three free blocks separated by two used ones. */
  function LossExample(): (bs: seq<Block>)
    ensures |bs| == 5
  {
    [Block(40, 16, Free), Block(72, 16, Used), Block(104, 16, Free),
     Block(136, 16, Used), Block(168, 64, Free)]
  }

  lemma {:induction false} LossExampleValid()
    ensures Tiles(LossExample(), 40, 248) && NoAdjacentFree(LossExample()) && NoLost(LossExample())
  {
  }

  /** The free list of `LossExample` before its last block. */
  lemma {:induction false} LossPrefixChunks()
    ensures FreeChunks(LossExample()[..4]) == [Chunk(40, 16), Chunk(104, 16)]
  {
    var s3 := [Block(136, 16, Used)];
    var s2 := [Block(104, 16, Free)] + s3;
    var s1 := [Block(72, 16, Used)] + s2;
    var pre := [Block(40, 16, Free)] + s1;
    assert LossExample()[..4] == pre;
    assert s3[1..] == [];
    assert FreeChunks(s3) == [];
    assert s2[1..] == s3;
    assert FreeChunks(s2) == [Chunk(104, 16)];
    assert s1[1..] == s2;
    assert FreeChunks(s1) == [Chunk(104, 16)];
    assert pre[1..] == s1;
  }

  /** The free list of the last block of `LossExample` once 32 bytes are
      carved from it: the remainder alone. */
  lemma {:induction false} LossCarveChunks()
    ensures FreeChunks(Carve(LossExample()[4], 32, LossExample()[5..])) == [Chunk(216, 16)]
  {
    assert LossExample()[4] == Block(168, 64, Free);
    assert LossExample()[5..] == [];
    var r1 := [Block(216, 16, Free)];
    var c := [Block(168, 32, Used)] + r1;
    assert Carve(Block(168, 64, Free), 32, []) == c;
    assert r1[1..] == [] && c[1..] == r1;
    assert FreeChunks(r1) == [Chunk(216, 16)];
  }

  /** A request of 32 bytes passes the first two free blocks of
      `LossExample`, both too small, and stops at the third. */
  lemma {:induction false} LossExampleFirstFit()
    ensures FirstFit(LossExample(), 4, 32)
  {
  }

  /** As written, taking the third free block of `LossExample` for 32 bytes
      drops the second one from the list for good: the head is linked past
      it (talloc.h:292). */
  lemma {:induction false} TakeLosesFreeBlock()
    ensures Take(LossExample(), 4, 32)[2] == Block(104, 16, Lost)
  {
    var pre := LossExample()[..4];
    var s1 := pre[1..];
    var s2 := s1[1..];
    assert s2[0] == Block(104, 16, Free);
    assert LoseAll(s2)[0] == Lose(s2[0]);
    assert LoseAll(s1)[1] == LoseAll(s2)[0];
    assert LoseAfterFirst(pre)[2] == LoseAll(s1)[1];
  }

  /** The free list that results as written: the lost block is missing. */
  lemma {:induction false} TakeLossExampleChunks()
    ensures FreeChunks(Take(LossExample(), 4, 32)) == [Chunk(40, 16), Chunk(216, 16)]
  {
    LossExampleValid();
    LossPrefixChunks();
    LossCarveChunks();
    TakeChunks(LossExample(), 4, 32, 40, 248);
    assert FirstOnly([Chunk(40, 16), Chunk(104, 16)]) == [Chunk(40, 16)];
  }

  /** As intended, the block stays on the list. */
  lemma {:induction false} TakeIntendedLossExampleChunks()
    ensures FreeChunks(TakeIntended(LossExample(), 4, 32)) == [Chunk(40, 16), Chunk(104, 16), Chunk(216, 16)]
  {
    LossExampleValid();
    LossPrefixChunks();
    LossCarveChunks();
    TakeChunks(LossExample(), 4, 32, 40, 248);
  }

  /** Every block of a tiling lies inside it. */
  lemma {:induction false} TilesWithin(bs: seq<Block>, lo: nat, hi: nat, k: nat)
    requires Tiles(bs, lo, hi) && k < |bs|
    ensures lo <= bs[k].addr && End(bs[k]) <= hi
  {
    TilesSplit(bs, lo, hi, k);
    TilesBounds(bs[..k], lo, bs[k].addr);
    TilesBounds(bs[k + 1..], End(bs[k]), hi);
  }

  /** Blocks of a tiling do not overlap. */
  lemma {:induction false} TilesApart(bs: seq<Block>, lo: nat, hi: nat, k: nat, l: nat)
    requires Tiles(bs, lo, hi) && k < l < |bs|
    ensures End(bs[k]) <= bs[l].addr
  {
    TilesPrefix(bs, lo, hi, l);
    TilesWithin(bs[..l], lo, bs[l].addr, k);
    assert bs[..l][k] == bs[k];
  }

  /** Indices of `JoinRight(x, post)` come from `x`, a merge, or `post`. */
  lemma {:induction false} JoinRightFrom(x: Block, post: seq<Block>, b: Block)
    requires b in JoinRight(x, post)
    ensures b.status == Free || b == x || b in post
  {
    if post != [] && post[0].status == Free {
      if b != MergeBlocks(x, post[0]) {
        assert b in post[1..];
      }
    }
  }

  lemma {:induction false} JoinLeftFrom(pre: seq<Block>, rest: seq<Block>, b: Block)
    requires rest != [] && b in JoinLeft(pre, rest)
    ensures b.status == Free || b in pre || b in rest
  {
    if pre != [] && pre[|pre| - 1].status == Free {
      var n := |pre| - 1;
      if b in pre[..n] {
        assert b in pre;
      } else if b in rest[1..] {
        assert b in rest;
      }
    }
  }

  /** The non-free blocks after a release are the blocks other than the one
      released. */
  lemma {:induction false} ReleaseFrom(bs: seq<Block>, i: nat, b: Block)
    requires i < |bs| && b in Release(bs, i)
    ensures b.status == Free || exists k :: 0 <= k < |bs| && k != i && bs[k] == b
  {
    var right := JoinRight(AsFree(bs[i]), bs[i + 1..]);
    JoinLeftFrom(bs[..i], right, b);
    if b in bs[..i] {
      var k :| 0 <= k < i && bs[..i][k] == b;
      assert bs[k] == b;
    } else if b in right {
      JoinRightFrom(AsFree(bs[i]), bs[i + 1..], b);
      if b in bs[i + 1..] {
        var k :| 0 <= k < |bs| - i - 1 && bs[i + 1..][k] == b;
        assert bs[i + 1 + k] == b;
      }
    }
  }

  /** The non-free blocks after a malloc are the handed-out block and the
      blocks other than the one it came from. */
  lemma {:induction false} TakeIntendedFrom(bs: seq<Block>, i: nat, size: nat, b: Block)
    requires i < |bs| && size <= bs[i].size && b in TakeIntended(bs, i, size)
    ensures b.status == Free || b == Granted(bs[i], size) ||
            exists k :: 0 <= k < |bs| && k != i && bs[k] == b
  {
    var h := bs[i];
    var post := bs[i + 1..];
    if b in bs[..i] {
      var k :| 0 <= k < i && bs[..i][k] == b;
      assert bs[k] == b;
    } else {
      assert b in Carve(h, size, post);
      var inPost := false;
      if h.size - size > H {
        if b != Granted(h, size) {
          assert b in JoinRight(Remainder(h, size), post);
          JoinRightFrom(Remainder(h, size), post, b);
          inPost := b in post;
        }
      } else {
        inPost := b != Granted(h, size);
        assert inPost ==> b in post;
      }
      if inPost && b.status != Free {
        assert b in post;
        var k :| 0 <= k < |post| && post[k] == b;
        assert bs[i + 1 + k] == b;
      }
    }
  }

  /** Every non-free block other than the one taken survives a malloc. */
  lemma {:induction false} TakeIntendedKeeps(bs: seq<Block>, i: nat, size: nat, k: nat)
    requires i < |bs| && size <= bs[i].size && k < |bs| && k != i && bs[k].status != Free
    ensures bs[k] in TakeIntended(bs, i, size)
  {
    var t := TakeIntended(bs, i, size);
    if k < i {
      assert bs[..i][k] == bs[k];
      assert t[k] == bs[k];
    } else {
      var post := bs[i + 1..];
      var p := k - i - 1;
      assert post[p] == bs[k];
      var c := Carve(bs[i], size, post);
      if bs[i].size - size > H {
        var r := JoinRight(Remainder(bs[i], size), post);
        if post[0].status == Free {
          assert r[p] == bs[k];
          assert c[p + 1] == bs[k];
        } else {
          assert r[p + 1] == bs[k];
          assert c[p + 2] == bs[k];
        }
      } else {
        assert c[p + 1] == bs[k];
      }
    }
  }

  /** Every non-free block of each arena in `before` is still a block of the
      same arena in `after`: no live allocation is lost or moved. */
  predicate LiveKept(before: seq<seq<Block>>, after: seq<seq<Block>>)
  {
    && |before| <= |after|
    && forall k, b :: 0 <= k < |before| && b in before[k] && b.status != Free ==> b in after[k]
  }

  /** Taking a free block of one arena keeps the live blocks of every arena,
      including those of arenas added after `before`. */
  lemma {:induction false} TakeKeepsLive(before: seq<seq<Block>>, bss: seq<seq<Block>>, idx: nat, i: nat, size: nat)
    requires before <= bss && idx < |bss| && i < |bss[idx]|
    requires bss[idx][i].status == Free && size <= bss[idx][i].size
    ensures LiveKept(before, bss[idx := TakeIntended(bss[idx], i, size)])
  {
    var bs := bss[idx];
    var after := bss[idx := TakeIntended(bs, i, size)];
    forall k, b | 0 <= k < |before| && b in before[k] && b.status != Free
      ensures b in after[k]
    {
      assert before[k] == bss[k];
      if k == idx {
        var l :| 0 <= l < |bs| && bs[l] == b;
        TakeIntendedKeeps(bs, i, size, l);
      }
    }
  }

  /** A free block's chunk is on the free list. */
  lemma {:induction false} FreeChunksMember(bs: seq<Block>, k: nat)
    requires k < |bs| && bs[k].status == Free
    ensures ChunkOf(bs[k]) in FreeChunks(bs)
  {
    FreeChunksAround(bs, k);
  }

  /** Shifting a position of `bs[1..]` to one of `bs`. */
  lemma {:induction false} FreeChunksShift(bs: seq<Block>, i: nat)
    requires i + 1 < |bs|
    ensures FreeChunks(bs[..i + 1]) == FreeChunks([bs[0]]) + FreeChunks(bs[1..][..i])
    ensures bs[1..][i + 1..] == bs[i + 2..] && bs[1..][i] == bs[i + 1]
  {
    assert bs[..i + 1] == [bs[0]] + bs[1..][..i];
    FreeChunksAppend([bs[0]], bs[1..][..i]);
  }

  /** Positions of `head + rest` past `head`, seen from `rest`. */
  lemma {:induction false} SliceShift(head: seq<Chunk>, rest: seq<Chunk>, j: nat)
    requires |head| <= j < |head| + |rest|
    ensures (head + rest)[j] == rest[j - |head|]
    ensures (head + rest)[..j] == head + rest[..j - |head|]
    ensures (head + rest)[j + 1..] == rest[j - |head| + 1..]
  {
  }

  /** The `j`-th chunk of the free list is a free block `i` whose
      predecessors hold exactly the chunks before it. */
  lemma {:induction false} FreeChunksIndex(bs: seq<Block>, j: nat) returns (i: nat)
    requires j < |FreeChunks(bs)|
    ensures i < |bs| && bs[i].status == Free && ChunkOf(bs[i]) == FreeChunks(bs)[j]
    ensures FreeChunks(bs[..i]) == FreeChunks(bs)[..j]
    ensures FreeChunks(bs[i + 1..]) == FreeChunks(bs)[j + 1..]
    decreases |bs|
  {
    var head := FreeChunks([bs[0]]);
    var rest := FreeChunks(bs[1..]);
    FreeChunksFirst(bs);
    FreeChunksOne(bs[0]);
    if bs[0].status == Free && j == 0 {
      i := 0;
      assert bs[..0] == [];
      assert (head + rest)[1..] == rest;
    } else {
      SliceShift(head, rest, j);
      var i' := FreeChunksIndex(bs[1..], j - |head|);
      i := i' + 1;
      FreeChunksShift(bs, i');
    }
  }

  /** The first-fit choice: the first free block large enough. */
  predicate FirstFit(bs: seq<Block>, i: nat, size: nat)
  {
    && i < |bs| && bs[i].status == Free && bs[i].size >= size
    && forall k :: 0 <= k < i && bs[k].status == Free ==> bs[k].size < size
  }

  /** The first chunk on the list that is large enough is the first fit. */
  lemma {:induction false} FirstFitFromList(bs: seq<Block>, j: nat, i: nat, size: nat)
    requires i < |bs| && bs[i].status == Free && bs[i].size >= size
    requires j <= |FreeChunks(bs)| && FreeChunks(bs[..i]) == FreeChunks(bs)[..j]
    requires forall k :: 0 <= k < j ==> FreeChunks(bs)[k].size < size
    ensures FirstFit(bs, i, size)
  {
    forall k | 0 <= k < i && bs[k].status == Free ensures bs[k].size < size {
      assert bs[..i][k] == bs[k];
      FreeChunksMember(bs[..i], k);
    }
  }

  /** A free block spanning the whole tiling is the only block. */
  lemma {:induction false} SpanningBlock(bs: seq<Block>, lo: nat, hi: nat, i: nat)
    requires Tiles(bs, lo, hi) && i < |bs| && End(bs[i]) - bs[i].addr == hi - lo
    ensures bs == [bs[i]] && bs[i].addr == lo
  {
    TilesWithin(bs, lo, hi, i);
    if i > 0 {
      TilesWithin(bs, lo, hi, 0);
      TilesApart(bs, lo, hi, 0, i);
    } else if |bs| > 1 {
      TilesWithin(bs, lo, hi, 1);
    }
  }

  /** An arena is wholly free exactly when its largest free chunk spans it:
      the test of talloc.h:214. */
  lemma {:induction false} WhollyFree(bs: seq<Block>, lo: nat, hi: nat)
    requires Tiles(bs, lo, hi) && lo + H < hi
    ensures MaxSize(FreeChunks(bs)) + H == hi - lo <==> bs == [Block(lo, hi - lo - H, Free)]
  {
    var cs := FreeChunks(bs);
    if bs == [Block(lo, hi - lo - H, Free)] {
      FreeChunksOne(bs[0]);
      assert cs == [Chunk(lo, hi - lo - H)];
      assert cs[1..] == [];
    }
    if MaxSize(cs) + H == hi - lo && cs != [] {
      var w :| 0 <= w < |cs| && cs[w].size == MaxSize(cs);
      var i := FreeChunksIndex(bs, w);
      SpanningBlock(bs, lo, hi, i);
    }
  }

  /** A tiling of `[lo, hi)` covers exactly the addresses in it: each lies
      in one of its blocks, header included, and no block reaches outside. */
  lemma {:induction false} TilesCover(bs: seq<Block>, lo: nat, hi: nat, x: int)
    requires Tiles(bs, lo, hi)
    ensures (lo <= x < hi) <==> exists k :: 0 <= k < |bs| && bs[k].addr <= x < End(bs[k])
    decreases |bs|
  {
    if bs != [] {
      TilesFirst(bs, lo, hi);
      TilesCover(bs[1..], End(bs[0]), hi, x);
      if k :| 0 <= k < |bs| && bs[k].addr <= x < End(bs[k]) {
        TilesWithin(bs, lo, hi, k);
      }
      if lo <= x < hi && End(bs[0]) <= x {
        var k :| 0 <= k < |bs[1..]| && bs[1..][k].addr <= x < End(bs[1..][k]);
        assert bs[k + 1] == bs[1..][k];
      }
    }
  }
}
