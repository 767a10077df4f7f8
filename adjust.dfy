/**
 * The request adjustment of mm_malloc: a payload of `size` bytes (a size_t) needs
 * a block of `size + 16` bytes, rounded up to a multiple of 8 and at least 32,
 * and block sizes are 32-bit.
 *
 * As written, the rounded value is stored into a uint32_t, so a request whose
 * block would not fit in 32 bits wraps to a small block size.  AdjustAsWritten
 * models that; Adjust is the corrected adjustment, which reports such requests
 * as unsatisfiable, and is the one the allocator uses.
 */
module Adjusting {
  import opened Wrappers
  import opened BlockLayout
  import opened SizeClass
  import opened Placement

  const SIZE_T_LIMIT: int := 0x1_0000_0000_0000_0000  // size_t is 64-bit

  /** mm_malloc's adjustment as written: size_t arithmetic, then truncation to uint32_t. */
  function AdjustAsWritten(size: int): (asize: int)
    requires 0 <= size < SIZE_T_LIMIT
    ensures Request(asize) && asize < WORD_LIMIT
  {
    var padded := (size + OVERHEAD) % SIZE_T_LIMIT;
    var rounded := (padded + 7) % SIZE_T_LIMIT / 8 * 8;
    var a := rounded % WORD_LIMIT;
    assert a % 8 == 0 by { WordsAligned(rounded / 8); }
    if a < MIN_BLOCK_SIZE then MIN_BLOCK_SIZE else a
  }

  /**
   * The adjustment as intended: the smallest multiple of 8 that holds the payload
   * and the two tag words and is at least 32, or None when that is not a 32-bit size.
   */
  function Adjust(size: int): (r: Option<int>)
    requires 0 <= size < SIZE_T_LIMIT
    ensures r.None? <==> size + OVERHEAD > WORD_LIMIT - 8
    ensures r.Some? ==> Request(r.value) && r.value < WORD_LIMIT && size + OVERHEAD <= r.value
    ensures r.Some? && r.value != MIN_BLOCK_SIZE ==> r.value < size + OVERHEAD + 8
  {
    var a := (size + OVERHEAD + 7) / 8 * 8;
    if a >= WORD_LIMIT then None
    else if a < MIN_BLOCK_SIZE then Some(MIN_BLOCK_SIZE)
    else Some(a)
  }

  /** Wherever the block fits in 32 bits, the source computes the intended size. */
  lemma AdjustAgrees(size: int)
    requires 0 <= size < SIZE_T_LIMIT && Adjust(size).Some?
    ensures AdjustAsWritten(size) == Adjust(size).value
  {
    assert (size + OVERHEAD) % SIZE_T_LIMIT == size + OVERHEAD;
    assert (size + OVERHEAD + 7) % SIZE_T_LIMIT == size + OVERHEAD + 7;
  }

  /**
   * A request of 2^32 - 16 bytes needs a block of 2^32 bytes; as written it gets a
   * 32-byte block, which holds only 16 of the requested bytes.
   */
  lemma AdjustTruncates()
    ensures var size := WORD_LIMIT - OVERHEAD;
            AdjustAsWritten(size) == MIN_BLOCK_SIZE && AdjustAsWritten(size) < size + OVERHEAD &&
            Adjust(size).None?
  {
    var size := WORD_LIMIT - OVERHEAD;
    assert (size + OVERHEAD) % SIZE_T_LIMIT == WORD_LIMIT;
    assert (WORD_LIMIT + 7) % SIZE_T_LIMIT / 8 * 8 == WORD_LIMIT;
  }
}
