/** Memory layout of the allocator's records on an LP64 target (talloc.h:12-38).
    Addresses are byte offsets in one flat address space; memory is a map from
    word-slot addresses to word values.  `talloc_chunk_t` (free chunk) and
    `talloc_header_t` (allocated block header) have the same size and share
    their first slot (`size`); the header's 32-bit `magic` lives in the low half
    of the slot that holds the chunk's `next` pointer. */
module Layout {

  /** The null pointer. */
  const NULL: nat := 0

  /** Values of `size_t` and pointers lie below this bound (64-bit words). */
  const WORD_LIMIT: nat := 0x1_0000_0000_0000_0000

  /** An `int` magic field covers the low 32 bits of its slot. */
  const HALF_LIMIT: nat := 0x1_0000_0000

  /** TALLOC_MAGIC (talloc.h:4). */
  const MAGIC: nat := 0xab91ea94

  /** TALLOC_ALLOC_PAGES (talloc.h:5). */
  const ALLOC_PAGES: nat := 1000

  /** Slots of a chunk / header, relative to its address. */
  const SIZE_SLOT: nat := 0
  const NEXT_SLOT: nat := 8
  const MAGIC_SLOT: nat := 8

  /** sizeof(talloc_chunk_t) == sizeof(talloc_header_t). */
  const H: nat := 16

  /** Slots of an arena header, relative to the arena's address. */
  const ALLOCATED_SLOT: nat := 0
  const MAX_FREE_SLOT: nat := 8
  const FREE_LIST_SLOT: nat := 16
  const ARENA_NEXT_SLOT: nat := 24
  const ARENA_PREV_SLOT: nat := 32

  /** sizeof(talloc_arena_t). */
  const A: nat := 40

  /** TALLOC_ARENA_OVERHEAD (talloc.h:41): the arena header plus one chunk header. */
  const OVERHEAD: nat := A + H

  /** The value an `int` field reads from a word slot: its low 32 bits. */
  function MagicOf(word: int): (m: int)
    ensures 0 <= m < HALF_LIMIT
    ensures word >= 0 && word < HALF_LIMIT ==> m == word
  {
    word % HALF_LIMIT
  }

  /** The word after storing `m` into the low 32 bits of `word`; the high
      half is kept. */
  function WithMagic(word: int, m: nat): (w: int)
    requires m < HALF_LIMIT
    ensures MagicOf(w) == m
    ensures w - m == word - MagicOf(word)
  {
    word - word % HALF_LIMIT + m
  }
}
