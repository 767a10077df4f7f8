/**
 * Boundary-tag coalescing (mm.c coalesce) on the block view.
 *
 * A block that has just become free is merged with a free left neighbour, a
 * free right neighbour, both, or neither.  The prologue and the epilogue are
 * allocated, so the first and the last block have an allocated neighbour on
 * their outer side.
 */
module Coalescing {
  import opened BlockLayout
  import opened SizeClass

  /** Index of the first block of the merged run: the left neighbour if it is free. */
  function MergeLo(bs: seq<Tag>, k: int): int
    requires 0 <= k < |bs|
  {
    if k > 0 && !bs[k - 1].alloc then k - 1 else k
  }

  /** One past the last block of the merged run: past the right neighbour if it is free. */
  function MergeHi(bs: seq<Tag>, k: int): int
    requires 0 <= k < |bs|
  {
    if k + 1 < |bs| && !bs[k + 1].alloc then k + 2 else k + 1
  }

  /** The block view after coalesce(block k): the run MergeLo..MergeHi-1 becomes one free block. */
  function CoalesceBlocks(bs: seq<Tag>, k: int): seq<Tag>
    requires 0 <= k < |bs|
  {
    var lo := MergeLo(bs, k);
    var hi := MergeHi(bs, k);
    bs[..lo] + [Tag(Off(bs, hi) - Off(bs, lo), false)] + bs[hi..]
  }

  /**
   * The four cases of coalesce, each stated by the sizes it adds up:
   * (1) both neighbours allocated: nothing changes;
   * (2) only the right one free: block k absorbs it;
   * (3) only the left one free: it absorbs block k;
   * (4) both free: the left one absorbs block k and the right one.
   */
  lemma CoalesceCases(bs: seq<Tag>, k: int)
    requires 0 <= k < |bs| && !bs[k].alloc
    ensures var pa := k == 0 || bs[k - 1].alloc;
            var na := k == |bs| - 1 || bs[k + 1].alloc;
            var r := CoalesceBlocks(bs, k);
            (pa && na ==> r == bs) &&
            (pa && !na ==> r == bs[..k] + [Tag(bs[k].size + bs[k + 1].size, false)] + bs[k + 2..]) &&
            (!pa && na ==> r == bs[..k - 1] + [Tag(bs[k - 1].size + bs[k].size, false)] + bs[k + 1..]) &&
            (!pa && !na ==>
               r == bs[..k - 1] + [Tag(bs[k - 1].size + bs[k].size + bs[k + 1].size, false)] + bs[k + 2..])
  {
    OffNext(bs, k);
    if k > 0 {
      OffNext(bs, k - 1);
    }
    if k + 1 < |bs| {
      OffNext(bs, k + 1);
    }
    if (k == 0 || bs[k - 1].alloc) && (k == |bs| - 1 || bs[k + 1].alloc) {
      assert bs[..k] + [bs[k]] + bs[k + 1..] == bs;
    }
  }

  /** Splitting a span at an index in between adds up. */
  lemma {:induction false} SpanBetween(bs: seq<Tag>, p: int, q: int)
    requires WellSized(bs) && 0 <= p <= q <= |bs|
    ensures Off(bs, q) - Off(bs, p) <= Off(bs, |bs|) - Off(bs, 0)
  {
    OffMono(bs, 0, p);
    OffMono(bs, q, |bs|);
  }

  /** The merged run is the splice of one free block over blocks lo..hi-1, of their total size. */
  lemma CoalesceSplice(bs: seq<Tag>, k: int)
    requires WellSized(bs) && 0 <= k < |bs| && !bs[k].alloc && Off(bs, |bs|) < SIZE_LIMIT
    ensures var lo := MergeLo(bs, k);
            var hi := MergeHi(bs, k);
            var mid := [Tag(Off(bs, hi) - Off(bs, lo), false)];
            k - 1 <= lo <= k < hi <= k + 2 && hi <= |bs| &&
            CoalesceBlocks(bs, k) == bs[..lo] + mid + bs[hi..] && WellSized(mid) &&
            Off(bs, lo) + Span(mid) == Off(bs, hi)
  {
    var lo := MergeLo(bs, k);
    var hi := MergeHi(bs, k);
    var mid := [Tag(Off(bs, hi) - Off(bs, lo), false)];
    assert SpanTo(mid, 1) == SpanTo(mid, 0) + mid[0].size;
    OffMono(bs, lo, hi);
    SpanBetween(bs, lo, hi);
    OffAligned(bs, lo);
    OffAligned(bs, hi);
  }

  /** Replacing blocks i..j-1 by well-sized blocks keeps every block well sized. */
  lemma SpliceWellSized(bs: seq<Tag>, bs2: seq<Tag>, i: int, j: int, mid: seq<Tag>)
    requires 0 <= i <= j <= |bs| && bs2 == bs[..i] + mid + bs[j..] && WellSized(bs) && WellSized(mid)
    ensures WellSized(bs2)
  {
    forall p | 0 <= p < |bs2| ensures MIN_BLOCK_SIZE <= bs2[p].size < SIZE_LIMIT && bs2[p].size % 8 == 0 {
      if p >= i + |mid| {
        assert bs2[p] == bs[p - |mid| + (j - i)];
      } else if p < i {
        assert bs2[p] == bs[p];
      } else {
        assert bs2[p] == mid[p - i];
      }
    }
  }

  /**
   * coalesce leaves one free block where the run was, starting where the run started
   * and as large as the run; the blocks still tile the same bytes and stay well sized
   * while the heap is smaller than 2^31 bytes.
   */
  lemma CoalesceSpec(bs: seq<Tag>, k: int)
    requires WellSized(bs) && 0 <= k < |bs| && !bs[k].alloc && Off(bs, |bs|) < SIZE_LIMIT
    ensures var lo := MergeLo(bs, k);
            var hi := MergeHi(bs, k);
            var r := CoalesceBlocks(bs, k);
            k - 1 <= lo <= k < hi <= k + 2 && hi <= |bs| &&
            WellSized(r) && |r| == |bs| - (hi - lo) + 1 &&
            Off(r, lo) == Off(bs, lo) && Off(r, lo + 1) == Off(bs, hi) && Off(r, |r|) == Off(bs, |bs|) &&
            !r[lo].alloc && r[lo].size == Off(bs, hi) - Off(bs, lo)
  {
    var lo := MergeLo(bs, k);
    var hi := MergeHi(bs, k);
    var r := CoalesceBlocks(bs, k);
    var mid := [Tag(Off(bs, hi) - Off(bs, lo), false)];
    CoalesceSplice(bs, k);
    OffSplice(bs, r, lo, hi, mid);
    SpliceWellSized(bs, r, lo, hi, mid);
    assert Off(r, lo + 1) == Off(bs, hi);
  }

  /** When only block k could have had a free neighbour, coalescing leaves no two free blocks adjacent. */
  lemma CoalesceNoAdjacent(bs: seq<Tag>, k: int)
    requires 0 <= k < |bs| && !bs[k].alloc && NoAdjacentFreeBut(bs, k)
    ensures NoAdjacentFree(CoalesceBlocks(bs, k))
  {
    var lo := MergeLo(bs, k);
    var hi := MergeHi(bs, k);
    var r := CoalesceBlocks(bs, k);
    forall p | 0 <= p < |r| - 1 ensures r[p].alloc || r[p + 1].alloc {
      if p > lo {
        assert r[p] == bs[p - 1 + (hi - lo)] && r[p + 1] == bs[p + (hi - lo)];
      } else if p < lo - 1 {
        assert r[p] == bs[p] && r[p + 1] == bs[p + 1];
      } else if p == lo - 1 {
        assert r[p] == bs[lo - 1];
      } else {
        assert r[p + 1] == bs[hi];
      }
    }
  }

  /** coalesce merges only free blocks, so it leaves every allocated block where it was. */
  lemma CoalesceKeeps(bs: seq<Tag>, k: int)
    requires WellSized(bs) && 0 <= k < |bs| && !bs[k].alloc && Off(bs, |bs|) < SIZE_LIMIT
    ensures KeepsAllocated(bs, CoalesceBlocks(bs, k))
  {
    var lo, hi := MergeLo(bs, k), MergeHi(bs, k);
    CoalesceSplice(bs, k);
    SpliceKeeps(bs, CoalesceBlocks(bs, k), lo, hi, [Tag(Off(bs, hi) - Off(bs, lo), false)]);
  }
}
