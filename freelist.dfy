/** The free-chunk list of one arena, as a value: the chunks it reaches, in
    list order (talloc.h:10-15, 145-160, 294-306). */
module FreeList {
  import opened Layout

  /** A free chunk: its address and its usable size (`talloc_chunk_t.size`). */
  datatype Chunk = Chunk(addr: nat, size: nat)

  /** The first address past a chunk's usable space. */
  function ChunkEnd(c: Chunk): nat
  {
    c.addr + H + c.size
  }

  /** Address order, each chunk ending at or before the next begins. */
  predicate Ordered(cs: seq<Chunk>)
  {
    forall k :: 0 <= k < |cs| - 1 ==> ChunkEnd(cs[k]) <= cs[k + 1].addr
  }

  /** Address order with a gap after every chunk: no two list neighbours are
      adjacent in memory (the coalescing invariant). */
  predicate Separated(cs: seq<Chunk>)
  {
    forall k :: 0 <= k < |cs| - 1 ==> ChunkEnd(cs[k]) < cs[k + 1].addr
  }

  lemma {:induction false} OrderedCons(c: Chunk, cs: seq<Chunk>)
    requires Ordered(cs) && (cs != [] ==> ChunkEnd(c) <= cs[0].addr)
    ensures Ordered([c] + cs)
  {
    var r := [c] + cs;
    forall k | 0 <= k < |r| - 1 ensures ChunkEnd(r[k]) <= r[k + 1].addr {
      if k > 0 {
        assert r[k] == cs[k - 1] && r[k + 1] == cs[k];
      }
    }
  }

  lemma {:induction false} SeparatedCons(c: Chunk, cs: seq<Chunk>)
    requires Separated(cs) && (cs != [] ==> ChunkEnd(c) < cs[0].addr)
    ensures Separated([c] + cs)
  {
    var r := [c] + cs;
    forall k | 0 <= k < |r| - 1 ensures ChunkEnd(r[k]) < r[k + 1].addr {
      if k > 0 {
        assert r[k] == cs[k - 1] && r[k + 1] == cs[k];
      }
    }
  }

  /** Chunk `j` is directly followed in memory by its list successor; this is
      the test of talloc.h:148 for a list whose last `next` is NULL. */
  predicate Adjacent(cs: seq<Chunk>, j: nat)
  {
    j + 1 < |cs| && cs[j + 1].addr == ChunkEnd(cs[j])
  }

  /** The chunk that results from merging `c` with the chunk after it. */
  function Merge(c: Chunk, d: Chunk): (r: Chunk)
    ensures r.addr == c.addr && ChunkEnd(r) == ChunkEnd(d) + (c.addr + H + c.size - d.addr)
  {
    Chunk(c.addr, c.size + H + d.size)
  }

  /** `TAlloc_coalesce` on the list: merge chunk `j` with its successor when
      they touch (talloc.h:145-152). */
  function CoalesceAt(cs: seq<Chunk>, j: nat): (r: seq<Chunk>)
    requires j < |cs|
  {
    if Adjacent(cs, j) then cs[..j] + [Merge(cs[j], cs[j + 1])] + cs[j + 2..] else cs
  }

  /** Bytes covered by the chunks and their headers. */
  function Span(cs: seq<Chunk>): nat
  {
    if cs == [] then 0 else H + cs[0].size + Span(cs[1..])
  }

  lemma {:induction false} SpanAppend(a: seq<Chunk>, b: seq<Chunk>)
    ensures Span(a + b) == Span(a) + Span(b)
  {
    if a == [] {
      assert a + b == b;
    } else {
      assert (a + b)[1..] == a[1..] + b;
      SpanAppend(a[1..], b);
    }
  }

  /** The span of a list split around one chunk. */
  lemma {:induction false} SpanAround(a: seq<Chunk>, c: Chunk, b: seq<Chunk>)
    ensures Span(a + [c] + b) == Span(a) + H + c.size + Span(b)
  {
    SpanAppend(a + [c], b);
    SpanAppend(a, [c]);
    assert [c][1..] == [];
  }

  /** Coalescing never loses or gains a byte: the merged chunk absorbs its
      successor's header. */
  lemma {:induction false} CoalescePreservesSpan(cs: seq<Chunk>, j: nat)
    requires j < |cs|
    ensures Span(CoalesceAt(cs, j)) == Span(cs)
  {
    if Adjacent(cs, j) {
      var pre := cs[..j];
      var post := cs[j + 2..];
      assert cs == pre + [cs[j]] + ([cs[j + 1]] + post);
      SpanAround(pre, cs[j], [cs[j + 1]] + post);
      assert ([cs[j + 1]] + post)[1..] == post;
      SpanAround(pre, Merge(cs[j], cs[j + 1]), post);
    }
  }

  /** Coalescing keeps the list in address order, merges exactly when the two
      chunks touch, and otherwise changes nothing. */
  lemma {:induction false} CoalesceEffect(cs: seq<Chunk>, j: nat)
    requires j < |cs| && Ordered(cs)
    ensures Ordered(CoalesceAt(cs, j))
    ensures Adjacent(cs, j) ==>
              |CoalesceAt(cs, j)| == |cs| - 1 &&
              CoalesceAt(cs, j)[j] == Chunk(cs[j].addr, cs[j].size + H + cs[j + 1].size) &&
              ChunkEnd(CoalesceAt(cs, j)[j]) == ChunkEnd(cs[j + 1])
    ensures !Adjacent(cs, j) ==> CoalesceAt(cs, j) == cs
  {
    var r := CoalesceAt(cs, j);
    if Adjacent(cs, j) {
      forall k | 0 <= k < |r| - 1 ensures ChunkEnd(r[k]) <= r[k + 1].addr {
        if k < j - 1 {
          assert r[k] == cs[k] && r[k + 1] == cs[k + 1];
        } else if k == j - 1 {
          assert r[k] == cs[k] && r[k + 1].addr == cs[j].addr;
        } else if k == j {
          assert ChunkEnd(r[k]) == ChunkEnd(cs[j + 1]) && r[k + 1] == cs[j + 2];
        } else {
          assert r[k] == cs[k + 1] && r[k + 1] == cs[k + 2];
        }
      }
    }
  }

  /** In an ordered list every chunk ends at or before every later chunk. */
  lemma {:induction false} OrderedBefore(cs: seq<Chunk>, i: nat, j: nat)
    requires Ordered(cs) && i < j < |cs|
    ensures ChunkEnd(cs[i]) <= cs[j].addr
    decreases j - i
  {
    if i + 1 < j {
      OrderedBefore(cs, i + 1, j);
    }
  }

  /** The largest chunk size, or 0 for the empty list; scanned left to right
      as in talloc.h:298-304. */
  function MaxSize(cs: seq<Chunk>): (m: nat)
    ensures forall k :: 0 <= k < |cs| ==> cs[k].size <= m
    ensures cs == [] ==> m == 0
    ensures cs != [] ==> exists k :: 0 <= k < |cs| && cs[k].size == m
    decreases |cs|
  {
    if cs == [] then 0
    else
      var rest := MaxSize(cs[1..]);
      if cs[0].size > rest then cs[0].size else rest
  }

  /** A bound that some chunk reaches (or 0 for no chunks) is the maximum. */
  lemma {:induction false} MaxSizeUnique(cs: seq<Chunk>, m: nat)
    requires forall k :: 0 <= k < |cs| ==> cs[k].size <= m
    requires (cs == [] && m == 0) || (exists k :: 0 <= k < |cs| && cs[k].size == m)
    ensures MaxSize(cs) == m
  {
  }

  /** `TAlloc_adjust_space_for_new_chunk` (talloc.h:156-160): the recorded
      maximum becomes the larger of itself and the chunk's size. */
  function AdjustMax(max: nat, c: Chunk): (r: nat)
    ensures r >= max && r >= c.size
    ensures r == max || r == c.size
  {
    if c.size > max then c.size else max
  }

  /** The chunks the list still reaches from its head once talloc.h:292 has
      linked the head straight to the chunk after the one taken: only the
      first. */
  function FirstOnly(cs: seq<Chunk>): seq<Chunk>
  {
    if cs == [] then [] else [cs[0]]
  }

  /** The larger of two sizes. */
  function Max2(x: nat, y: nat): (r: nat)
    ensures r >= x && r >= y && (r == x || r == y)
  {
    if x >= y then x else y
  }

  /** The maximum over two lists is the larger of their maxima. */
  lemma {:induction false} MaxAppend(a: seq<Chunk>, b: seq<Chunk>)
    ensures MaxSize(a + b) == Max2(MaxSize(a), MaxSize(b))
  {
    var ab := a + b;
    var m := if MaxSize(a) >= MaxSize(b) then MaxSize(a) else MaxSize(b);
    forall k | 0 <= k < |ab| ensures ab[k].size <= m {
      if k < |a| {
        assert ab[k] == a[k];
      } else {
        assert ab[k] == b[k - |a|];
      }
    }
    if ab == [] {
    } else if MaxSize(a) >= MaxSize(b) && a != [] {
      var w :| 0 <= w < |a| && a[w].size == MaxSize(a);
      assert ab[w] == a[w];
    } else {
      var w :| 0 <= w < |b| && b[w].size == MaxSize(b);
      assert ab[|a| + w] == b[w];
    }
    MaxSizeUnique(ab, m);
  }

  /** Inserting a chunk raises the maximum to at least its size. */
  lemma {:induction false} InsertMax(p: seq<Chunk>, c: Chunk, q: seq<Chunk>)
    ensures MaxSize(p + [c] + q) == AdjustMax(MaxSize(p + q), c)
  {
    MaxAppend(p + [c], q);
    MaxAppend(p, [c]);
    MaxAppend(p, q);
    assert [c][1..] == [];
  }

  /** After coalescing chunk `j`, the maximum is the larger of the old one
      and the (possibly merged) chunk at `j`: the rule of
      `TAlloc_adjust_space_for_new_chunk` after `TAlloc_coalesce`. */
  lemma {:induction false} CoalesceMax(cs: seq<Chunk>, j: nat)
    requires j < |cs|
    ensures j < |CoalesceAt(cs, j)|
    ensures MaxSize(CoalesceAt(cs, j)) == AdjustMax(MaxSize(cs), CoalesceAt(cs, j)[j])
  {
    var r := CoalesceAt(cs, j);
    if Adjacent(cs, j) {
      var mg := Merge(cs[j], cs[j + 1]);
      var m := AdjustMax(MaxSize(cs), mg);
      assert r[..j] == cs[..j] && r[j] == mg && r[j + 1..] == cs[j + 2..];
      forall k | 0 <= k < |r| ensures r[k].size <= m {
        if k < j {
          assert r[k] == cs[k];
        } else if k > j {
          assert r[k] == cs[k + 1];
        }
      }
      if m != mg.size {
        var w :| 0 <= w < |cs| && cs[w].size == MaxSize(cs);
        assert w != j && w != j + 1;
        if w < j {
          assert r[w] == cs[w];
        } else {
          assert r[w - 1] == cs[w];
        }
      }
      MaxSizeUnique(r, m);
    }
  }

  /** The chunk put in at position `|p|` and coalesced with its successor
      sets the maximum as `TAlloc_adjust_space_for_new_chunk` does. */
  lemma {:induction false} InsertCoalesceMax(p: seq<Chunk>, c: Chunk, q: seq<Chunk>)
    ensures |p| < |CoalesceAt(p + [c] + q, |p|)|
    ensures var ins := CoalesceAt(p + [c] + q, |p|);
            MaxSize(ins) == AdjustMax(MaxSize(p + q), ins[|p|])
  {
    var cs := p + [c] + q;
    assert cs[|p|] == c;
    InsertMax(p, c, q);
    CoalesceMax(cs, |p|);
    var ins := CoalesceAt(cs, |p|);
    assert ins[|p|].size >= c.size;
  }

  /** What talloc.h:268, 277, 280 and 294-306 leave in `max_free_space`:
      `hsize` is the taken chunk's size, `remAfter` the split remainder's size
      after its coalescing, `rescan` the maximum over the resulting list. */
  function MaxAfterTake(max: nat, hsize: nat, split: bool, remAfter: nat, rescan: nat): (r: nat)
    ensures r == rescan || r == max || (split && r == remAfter)
  {
    var affected := hsize >= max && (!split || hsize > remAfter);
    if affected then rescan else if split then AdjustMax(max, Chunk(0, remAfter)) else max
  }

  /** The arithmetic of `TakeMax`, over the maxima of the list's parts. */
  lemma {:induction false} TakeMaxArith(mp: nat, mf: nat, mq: nat, mt: nat, c: nat, t0: nat, split: bool, max: nat)
    requires mf <= mp
    requires mt == if split then Max2(mq, t0) else mq
    ensures var newMax := MaxAfterTake(max, c, split, if split then t0 else 0, Max2(mf, mt));
            && (max >= Max2(Max2(mp, mq), c) ==> newMax >= Max2(mf, mt))
            && (max == Max2(Max2(mp, mq), c) && mf == mp ==> newMax == Max2(mp, mt))
  {
  }

  /** The list head alone has no larger chunk than the whole prefix. */
  lemma {:induction false} FirstOnlyMax(p: seq<Chunk>)
    ensures MaxSize(FirstOnly(p)) <= MaxSize(p)
    ensures |p| <= 1 ==> FirstOnly(p) == p
  {
    if p != [] {
      assert FirstOnly(p)[0] == p[0];
      assert |FirstOnly(p)| == 1;
    }
  }

  /** The recorded maximum after a malloc. It stays an upper bound of the
      true maximum whatever the list lost, and it is exact when it was exact
      and the taken chunk was the first or second on the list. Here `p` are
      the chunks before the taken one `ch`, `q` those after it, and `t` what
      replaces `ch` and `q`: the coalesced remainder followed by the rest, or
      just `q`. */
  lemma {:induction false} TakeMax(p: seq<Chunk>, ch: Chunk, q: seq<Chunk>, t: seq<Chunk>, split: bool, max: nat)
    requires split ==> t != []
    requires split ==> MaxSize(t) == AdjustMax(MaxSize(q), t[0])
    requires !split ==> t == q
    ensures var newMax := MaxAfterTake(max, ch.size, split, if split then t[0].size else 0,
                                       MaxSize(FirstOnly(p) + t));
            && (max >= MaxSize(p + [ch] + q) ==> newMax >= MaxSize(FirstOnly(p) + t))
            && (max == MaxSize(p + [ch] + q) && |p| <= 1 ==> newMax == MaxSize(p + t))
  {
    InsertMax(p, ch, q);
    MaxAppend(p, q);
    MaxAppend(FirstOnly(p), t);
    MaxAppend(p, t);
    FirstOnlyMax(p);
    var t0 := if split then t[0].size else 0;
    assert MaxSize(t) == if split then Max2(MaxSize(q), t0) else MaxSize(q);
    TakeMaxArith(MaxSize(p), MaxSize(FirstOnly(p)), MaxSize(q), MaxSize(t), ch.size, t0, split, max);
  }

  /** With the intended unlinking the list after a malloc is `p + t`, and the
      recorded maximum stays exact whenever it was exact. */
  lemma {:induction false} TakeIntendedMax(p: seq<Chunk>, ch: Chunk, q: seq<Chunk>, t: seq<Chunk>, split: bool, max: nat)
    requires split ==> t != []
    requires split ==> MaxSize(t) == AdjustMax(MaxSize(q), t[0])
    requires !split ==> t == q
    requires max == MaxSize(p + [ch] + q)
    ensures MaxAfterTake(max, ch.size, split, if split then t[0].size else 0, MaxSize(p + t)) ==
              MaxSize(p + t)
  {
    InsertMax(p, ch, q);
    MaxAppend(p, q);
    MaxAppend(p, t);
    var t0 := if split then t[0].size else 0;
    assert MaxSize(t) == if split then Max2(MaxSize(q), t0) else MaxSize(q);
    TakeMaxArith(MaxSize(p), MaxSize(p), MaxSize(q), MaxSize(t), ch.size, t0, split, max);
  }

  /** One more chunk of a scan from the front raises the maximum seen so far
      to its size when it is larger. */
  lemma {:induction false} MaxPrefixStep(cs: seq<Chunk>, k: nat)
    requires k < |cs|
    ensures MaxSize(cs[..k + 1]) == if cs[k].size > MaxSize(cs[..k]) then cs[k].size else MaxSize(cs[..k])
  {
    assert cs[..k + 1] == cs[..k] + [cs[k]];
    MaxAppend(cs[..k], [cs[k]]);
    assert [cs[k]][1..] == [];
  }

  /** The maximum the scan of talloc.h:298-304 holds after the first `k`
      chunks: the first chunk's size, raised by every larger one after it. */
  function ScanMax(cs: seq<Chunk>, k: nat): nat
    requires k <= |cs|
  {
    if k == 0 then 0 else Max2(ScanMax(cs, k - 1), cs[k - 1].size)
  }

  /** The scan over the first `k` chunks finds their largest size. */
  lemma {:induction false} ScanMaxPrefix(cs: seq<Chunk>, k: nat)
    requires k <= |cs|
    ensures ScanMax(cs, k) == MaxSize(cs[..k])
  {
    if k == 0 {
      assert cs[..0] == [];
    } else {
      ScanMaxPrefix(cs, k - 1);
      MaxPrefixStep(cs, k - 1);
    }
  }

  /** The whole scan finds the largest chunk size, 0 for no chunks. */
  lemma {:induction false} ScanMaxIsMax(cs: seq<Chunk>)
    ensures ScanMax(cs, |cs|) == MaxSize(cs)
  {
    ScanMaxPrefix(cs, |cs|);
    assert cs[..|cs|] == cs;
  }
}
