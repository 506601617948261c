/** Arena sizing, the arithmetic of `TAlloc_create_arena` (talloc.h:85-100). */
module Sizing {
  import opened Layout

  /** What talloc.h:87-100 leaves in `to_allocate`. */
  datatype Reservation =
    | Wraps           // space_needed + OVERHEAD overflows size_t: return NULL
    | Unset           // space_needed + OVERHEAD == minallocsize: no branch assigns to_allocate
    | Bytes(n: nat)   // the byte count passed to mmap

  /** The least multiple of `pagesize` that is at least `need`. */
  function RoundUp(need: nat, pagesize: nat): (r: nat)
    requires pagesize > 0
    ensures r % pagesize == 0 && need <= r < need + pagesize
  {
    var q := need / pagesize;
    MulMod(pagesize, q);
    MulMod(pagesize, q + 1);
    if need % pagesize > 0 then pagesize * (q + 1) else pagesize * q
  }

  lemma {:induction false} MulMod(p: nat, k: nat)
    requires p > 0
    ensures (p * k) % p == 0
  {
    var q := (p * k) / p;
    var r := (p * k) % p;
    assert p * k == p * q + r;
    var d := k - q;
    assert p * d == r by {
      assert p * d == p * k - p * q;
    }
    assert d == 0;
  }

  /** The size `TAlloc_create_arena` requests from the OS: it rejects an
      overflowing requirement, grants at least `minallocsize`, and otherwise
      rounds up to whole pages, wrapping modulo 2^64 as `size_t` does. */
  function ArenaReservation(spaceNeeded: nat, minallocsize: nat, pagesize: nat): (r: Reservation)
    requires spaceNeeded < WORD_LIMIT && minallocsize < WORD_LIMIT && pagesize > 0
    ensures r == Wraps <==> spaceNeeded + OVERHEAD >= WORD_LIMIT
    ensures r == Unset <==> spaceNeeded + OVERHEAD == minallocsize
    ensures spaceNeeded + OVERHEAD < minallocsize ==> r == Bytes(minallocsize)
    ensures minallocsize < spaceNeeded + OVERHEAD < WORD_LIMIT ==>
              r == Bytes(RoundUp(spaceNeeded + OVERHEAD, pagesize) % WORD_LIMIT)
  {
    if spaceNeeded + OVERHEAD >= WORD_LIMIT then Wraps
    else
      var need := spaceNeeded + OVERHEAD;
      if need < minallocsize then Bytes(minallocsize)
      else if need > minallocsize then
        var addOne := if need % pagesize > 0 then 1 else 0;
        Bytes((pagesize * (need / pagesize + addOne)) % WORD_LIMIT)
      else Unset
  }

  /** A requirement that equals the minimum exactly meets neither test of
      talloc.h:92 and :95, so no size is chosen: with 4096-byte pages, a
      request of 4096000 - 56 bytes. */
  lemma {:induction false} ReservationUnsetAtMinimum()
    ensures ArenaReservation(4096 * ALLOC_PAGES - OVERHEAD, 4096 * ALLOC_PAGES, 4096) == Unset
  {
  }

  /** The evidently intended choice: a requirement up to and including the
      minimum reserves the minimum. */
  function IntendedReservation(spaceNeeded: nat, minallocsize: nat, pagesize: nat): (r: Reservation)
    requires spaceNeeded < WORD_LIMIT && minallocsize < WORD_LIMIT && pagesize > 0
    ensures !r.Unset?
    ensures r == Wraps <==> spaceNeeded + OVERHEAD >= WORD_LIMIT
  {
    var r := ArenaReservation(spaceNeeded, minallocsize, pagesize);
    if r.Unset? then Bytes(minallocsize) else r
  }

  /** Whenever the rounding does not wrap, the intended reservation holds the
      requirement and the minimum, and beyond the minimum it is the least
      whole number of pages that does. */
  lemma {:induction false} IntendedReservationCovers(spaceNeeded: nat, minallocsize: nat, pagesize: nat)
    requires spaceNeeded < WORD_LIMIT && minallocsize < WORD_LIMIT && pagesize > 0
    requires spaceNeeded + OVERHEAD + pagesize <= WORD_LIMIT
    ensures IntendedReservation(spaceNeeded, minallocsize, pagesize).Bytes?
    ensures var n := IntendedReservation(spaceNeeded, minallocsize, pagesize).n;
            && n >= spaceNeeded + OVERHEAD
            && n >= minallocsize
            && (spaceNeeded + OVERHEAD <= minallocsize ==> n == minallocsize)
            && (spaceNeeded + OVERHEAD > minallocsize ==>
                  n % pagesize == 0 && n < spaceNeeded + OVERHEAD + pagesize)
  {
    var need := spaceNeeded + OVERHEAD;
    if need > minallocsize {
      var r := RoundUp(need, pagesize);
      assert r < WORD_LIMIT;
      assert r % WORD_LIMIT == r;
    }
  }

  /** With 4096-byte pages a requirement just below 2^64 rounds up to 2^64,
      which wraps to a zero-byte request (talloc.h:99). */
  lemma {:induction false} ReservationWrapsToZero()
    ensures ArenaReservation(WORD_LIMIT - OVERHEAD - 1, 4096 * ALLOC_PAGES, 4096) == Bytes(0)
  {
    var need := WORD_LIMIT - 1;
    assert need / 4096 == WORD_LIMIT / 4096 - 1;
    assert need % 4096 == 4095;
    assert 4096 * (need / 4096 + 1) == WORD_LIMIT;
  }

  /** What `getpagesize` may return for the model: a positive `int` dividing
      2^64, so that `pagesize * TALLOC_ALLOC_PAGES` (talloc.h:70) does not wrap. */
  predicate PageSizeOk(pagesize: nat)
  {
    0 < pagesize < HALF_LIMIT / 2 && WORD_LIMIT % pagesize == 0
  }

  /** A whole number of pages past a requirement below 2^64 is at most 2^64
      when the page size divides 2^64. */
  lemma {:induction false} RoundUpBounded(need: nat, pagesize: nat)
    requires 0 < pagesize && WORD_LIMIT % pagesize == 0 && need < WORD_LIMIT
    ensures RoundUp(need, pagesize) <= WORD_LIMIT
  {
    var r := RoundUp(need, pagesize);
    var s := r / pagesize;
    var t := WORD_LIMIT / pagesize;
    assert r == pagesize * s;
    assert WORD_LIMIT == pagesize * t;
    assert pagesize * (t + 1) == WORD_LIMIT + pagesize;
    MulCancel(pagesize, s, t + 1);
    MulMono(pagesize, s, t);
  }

  lemma {:induction false} MulMono(p: nat, x: nat, y: nat)
    requires x <= y
    ensures p * x <= p * y
  {
    var d := y - x;
    assert p * y == p * x + p * d;
  }

  lemma {:induction false} MulCancel(p: nat, x: nat, y: nat)
    requires p * x < p * y
    ensures x < y
  {
    if x >= y {
      MulMono(p, y, x);
    }
  }

  /** With such a page size the reservation either wraps to zero bytes,
      which the OS refuses, or holds the requirement. */
  lemma {:induction false} ReservationZeroOrCovers(spaceNeeded: nat, minallocsize: nat, pagesize: nat)
    requires spaceNeeded < WORD_LIMIT && minallocsize < WORD_LIMIT && PageSizeOk(pagesize)
    requires IntendedReservation(spaceNeeded, minallocsize, pagesize).Bytes?
    ensures var n := IntendedReservation(spaceNeeded, minallocsize, pagesize).n;
            n == 0 || n >= spaceNeeded + OVERHEAD
  {
    var need := spaceNeeded + OVERHEAD;
    if need > minallocsize {
      RoundUpBounded(need, pagesize);
      var r := RoundUp(need, pagesize);
      if r < WORD_LIMIT {
        assert r % WORD_LIMIT == r;
      } else {
        assert r % WORD_LIMIT == 0;
      }
    }
  }

  /** A nonzero reservation made with such a page size holds the
      requirement and the minimum. */
  lemma {:induction false} ReservationRoom(spaceNeeded: nat, minallocsize: nat, pagesize: nat)
    requires spaceNeeded < WORD_LIMIT && minallocsize < WORD_LIMIT && PageSizeOk(pagesize)
    requires IntendedReservation(spaceNeeded, minallocsize, pagesize).Bytes?
    requires IntendedReservation(spaceNeeded, minallocsize, pagesize).n != 0
    ensures var n := IntendedReservation(spaceNeeded, minallocsize, pagesize).n;
            n >= spaceNeeded + OVERHEAD && n >= minallocsize
  {
    ReservationZeroOrCovers(spaceNeeded, minallocsize, pagesize);
  }
}
