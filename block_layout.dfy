/**
 * Block layout of the boundary-tag heap (mm.c, header_t / block_t / get_footer).
 *
 * A block is described by its boundary tag: its total size in bytes (header,
 * payload and footer) and its allocated bit.  The heap between the prologue
 * and the epilogue is viewed as the sequence of its blocks in address order;
 * offsets are byte offsets from the prologue, so block k starts at
 * Off(bs, k) and the epilogue header sits at Off(bs, |bs|).
 */
module BlockLayout {

  /** One header or footer word: `block_size` and the `allocated` bit. */
  datatype Tag = Tag(size: int, alloc: bool)

  const WSIZE: int := 8            // sizeof(header_t): one tag word
  const OVERHEAD: int := 16        // header plus footer
  const MIN_BLOCK_SIZE: int := 32  // header, next, prev, footer
  const CHUNKSIZE: int := 65536    // 1 << 16
  const SIZE_LIMIT: int := 0x8000_0000  // block_size is a 31-bit field

  /** The prologue: a header-only allocated block of one word. */
  const PROLOGUE: Tag := Tag(WSIZE, true)
  /** The epilogue: allocated, size 0 (the heap walk's terminator). */
  const EPILOGUE: Tag := Tag(0, true)

  /** Number of bytes covered by the first k blocks of `bs`. */
  function SpanTo(bs: seq<Tag>, k: int): int
    requires 0 <= k <= |bs|
  {
    if k == 0 then 0 else SpanTo(bs, k - 1) + bs[k - 1].size
  }

  /** Number of bytes covered by all the blocks of `bs`. */
  function Span(bs: seq<Tag>): int
  {
    SpanTo(bs, |bs|)
  }

  /** Offset of block k's header: right after the prologue and blocks 0..k-1. */
  function Off(bs: seq<Tag>, k: int): int
    requires 0 <= k <= |bs|
  {
    WSIZE + SpanTo(bs, k)
  }

  /** get_footer: the footer of the block whose header is at `b` and says `size`. */
  function GetFooter(b: int, size: int): (f: int)
    ensures f < b + size && f + WSIZE == b + size
  {
    b + size - WSIZE
  }

  /** Every block size is a multiple of 8, at least 32, and fits 31 bits. */
  ghost predicate WellSized(bs: seq<Tag>)
  {
    forall k :: 0 <= k < |bs| ==>
      MIN_BLOCK_SIZE <= bs[k].size < SIZE_LIMIT && bs[k].size % 8 == 0
  }

  ghost predicate HasTag(tags: map<int, Tag>, o: int, t: Tag)
  {
    o in tags && tags[o] == t
  }

  /** The prologue is in place and every block's header and footer hold its tag. */
  ghost predicate TagsAgree(tags: map<int, Tag>, bs: seq<Tag>)
  {
    HasTag(tags, 0, PROLOGUE) &&
    forall k {:trigger Off(bs, k)} :: 0 <= k < |bs| ==>
      HasTag(tags, Off(bs, k), bs[k]) &&
      HasTag(tags, GetFooter(Off(bs, k), bs[k].size), bs[k])
  }

  /** The epilogue header closes the block chain and is the last word of the arena. */
  ghost predicate EpilogueAt(tags: map<int, Tag>, bs: seq<Tag>, brk: int)
  {
    HasTag(tags, Off(bs, |bs|), EPILOGUE) && brk == Off(bs, |bs|) + WSIZE
  }

  /** No two physically adjacent blocks are both free. */
  ghost predicate NoAdjacentFree(bs: seq<Tag>)
  {
    forall k :: 0 <= k < |bs| - 1 ==> bs[k].alloc || bs[k + 1].alloc
  }

  /** As NoAdjacentFree, except for the pairs that contain block m. */
  ghost predicate NoAdjacentFreeBut(bs: seq<Tag>, m: int)
  {
    forall k :: 0 <= k < |bs| - 1 && k != m && k + 1 != m ==>
      bs[k].alloc || bs[k + 1].alloc
  }

  /** A block appended at the end leaves every pair of neighbours it is not part of as it was. */
  lemma AppendNoAdjacentBut(bs: seq<Tag>, m: Tag)
    requires NoAdjacentFree(bs)
    ensures NoAdjacentFreeBut(bs + [m], |bs|)
  {
    var bs2 := bs + [m];
    forall k | 0 <= k < |bs2| - 1 && k != |bs| && k + 1 != |bs| ensures bs2[k].alloc || bs2[k + 1].alloc {
      assert bs2[k] == bs[k] && bs2[k + 1] == bs[k + 1];
    }
  }

  lemma OffNext(bs: seq<Tag>, k: int)
    requires 0 <= k < |bs|
    ensures Off(bs, k + 1) == Off(bs, k) + bs[k].size
  {
  }

  /** Blocks are laid end to end: each one starts at least 32 bytes after the previous. */
  lemma {:induction false} OffMono(bs: seq<Tag>, p: int, q: int)
    requires WellSized(bs) && 0 <= p <= q <= |bs|
    ensures Off(bs, p) + 32 * (q - p) <= Off(bs, q)
    decreases q - p
  {
    if p < q {
      OffMono(bs, p, q - 1);
    }
  }

  /** Blocks of positive size lie in increasing order, whatever their sizes. */
  lemma {:induction false} OffGrows(bs: seq<Tag>, p: int, q: int)
    requires 0 <= p <= q <= |bs| && forall k :: 0 <= k < |bs| ==> 0 < bs[k].size
    ensures Off(bs, p) <= Off(bs, q)
    decreases q - p
  {
    if p < q {
      OffGrows(bs, p, q - 1);
    }
  }

  /** A prefix of the blocks places its blocks where the whole sequence does. */
  lemma {:induction false} OffPrefix(bs: seq<Tag>, n: int, p: int)
    requires 0 <= p <= n <= |bs|
    ensures Off(bs[..n], p) == Off(bs, p)
  {
    if p > 0 {
      OffPrefix(bs, n, p - 1);
      assert bs[..n][p - 1] == bs[p - 1];
    }
  }

  /** Every block starts at a multiple of 8, so every payload is 8-aligned. */
  lemma {:induction false} OffAligned(bs: seq<Tag>, k: int)
    requires WellSized(bs) && 0 <= k <= |bs|
    ensures Off(bs, k) % 8 == 0 && (Off(bs, k) + WSIZE) % 8 == 0
  {
    if k > 0 {
      OffAligned(bs, k - 1);
    }
  }

  /**
   * Replacing blocks i..j-1 by `mid` of the same total size moves no other block:
   * blocks before i keep their offsets, the blocks of `mid` follow one another from
   * Off(bs, i), and blocks from j on shift in index but keep their offsets.
   */
  lemma OffSplice(bs: seq<Tag>, bs2: seq<Tag>, i: int, j: int, mid: seq<Tag>)
    requires 0 <= i <= j <= |bs| && bs2 == bs[..i] + mid + bs[j..]
    requires Off(bs, i) + Span(mid) == Off(bs, j)
    ensures |bs2| == |bs| + |mid| - (j - i)
    ensures forall p :: 0 <= p <= i ==> Off(bs2, p) == Off(bs, p)
    ensures forall u :: 0 <= u <= |mid| ==> Off(bs2, i + u) == Off(bs, i) + SpanTo(mid, u)
    ensures forall q :: j <= q <= |bs| ==> Off(bs2, q + |mid| - (j - i)) == Off(bs, q)
  {
    forall p | 0 <= p <= i ensures Off(bs2, p) == Off(bs, p) {
      OffSpliceHead(bs, bs2, i, j, mid, p);
    }
    forall u | 0 <= u <= |mid| ensures Off(bs2, i + u) == Off(bs, i) + SpanTo(mid, u) {
      OffSpliceMid(bs, bs2, i, j, mid, u);
    }
    forall q | j <= q <= |bs| ensures Off(bs2, q + |mid| - (j - i)) == Off(bs, q) {
      OffSpliceTail(bs, bs2, i, j, mid, q);
    }
  }

  lemma {:induction false} OffSpliceHead(bs: seq<Tag>, bs2: seq<Tag>, i: int, j: int, mid: seq<Tag>, p: int)
    requires 0 <= i <= j <= |bs| && bs2 == bs[..i] + mid + bs[j..] && 0 <= p <= i
    ensures Off(bs2, p) == Off(bs, p)
  {
    if p > 0 {
      OffSpliceHead(bs, bs2, i, j, mid, p - 1);
      assert bs2[p - 1] == bs[p - 1];
    }
  }

  lemma {:induction false} OffSpliceMid(bs: seq<Tag>, bs2: seq<Tag>, i: int, j: int, mid: seq<Tag>, u: int)
    requires 0 <= i <= j <= |bs| && bs2 == bs[..i] + mid + bs[j..] && 0 <= u <= |mid|
    ensures Off(bs2, i + u) == Off(bs, i) + SpanTo(mid, u)
  {
    if u == 0 {
      OffSpliceHead(bs, bs2, i, j, mid, i);
    } else {
      OffSpliceMid(bs, bs2, i, j, mid, u - 1);
      assert bs2[i + u - 1] == mid[u - 1];
    }
  }

  lemma {:induction false} OffSpliceTail(bs: seq<Tag>, bs2: seq<Tag>, i: int, j: int, mid: seq<Tag>, q: int)
    requires 0 <= i <= j <= q <= |bs| && bs2 == bs[..i] + mid + bs[j..]
    requires Off(bs, i) + Span(mid) == Off(bs, j)
    ensures Off(bs2, q + |mid| - (j - i)) == Off(bs, q)
  {
    if q == j {
      OffSpliceMid(bs, bs2, i, j, mid, |mid|);
    } else {
      OffSpliceTail(bs, bs2, i, j, mid, q - 1);
      assert bs2[q - 1 + |mid| - (j - i)] == bs[q - 1];
    }
  }

  /**
   * get_footer of block k, read from its header, is the word just before block k + 1
   * (or the epilogue) and holds the same tag as the header.
   */
  lemma {:induction false} FooterOf(tags: map<int, Tag>, bs: seq<Tag>, k: int)
    requires WellSized(bs) && TagsAgree(tags, bs) && 0 <= k < |bs|
    ensures var b := Off(bs, k);
            var f := GetFooter(b, tags[b].size);
            b < f && f + WSIZE == Off(bs, k + 1) && f in tags && tags[f] == tags[b]
  {
    assert HasTag(tags, Off(bs, k), bs[k]);
    OffNext(bs, k);
  }

  /**
   * Every allocated block of bs is still a block of bs2, at the same offset and with
   * the same tag: nothing a caller was handed has moved or been freed.
   */
  ghost predicate KeepsAllocated(bs: seq<Tag>, bs2: seq<Tag>)
  {
    forall q :: 0 <= q < |bs| && bs[q].alloc ==>
      exists q2 :: 0 <= q2 < |bs2| && Off(bs2, q2) == Off(bs, q) && bs2[q2] == bs[q]
  }

  /** Replacing a run of free blocks by blocks of the same total size keeps every allocated block. */
  lemma SpliceKeeps(bs: seq<Tag>, bs2: seq<Tag>, i: int, j: int, mid: seq<Tag>)
    requires 0 <= i <= j <= |bs| && bs2 == bs[..i] + mid + bs[j..]
    requires Off(bs, i) + Span(mid) == Off(bs, j)
    requires forall p :: i <= p < j ==> !bs[p].alloc
    ensures KeepsAllocated(bs, bs2)
  {
    forall q | 0 <= q < |bs| && bs[q].alloc
      ensures exists q2 :: 0 <= q2 < |bs2| && Off(bs2, q2) == Off(bs, q) && bs2[q2] == bs[q]
    {
      if q < i {
        OffSpliceHead(bs, bs2, i, j, mid, q);
        assert bs2[q] == bs[q];
      } else {
        var q2 := q + |mid| - (j - i);
        OffSpliceTail(bs, bs2, i, j, mid, q);
        assert bs2[q2] == bs[q];
      }
    }
  }

  /** A block appended at the end moves none of the others. */
  lemma AppendKeeps(bs: seq<Tag>, m: Tag)
    ensures KeepsAllocated(bs, bs + [m])
  {
    var bs2 := bs + [m];
    assert bs2[..|bs|] == bs;
    forall q | 0 <= q < |bs| && bs[q].alloc
      ensures exists q2 :: 0 <= q2 < |bs2| && Off(bs2, q2) == Off(bs, q) && bs2[q2] == bs[q]
    {
      OffPrefix(bs2, |bs|, q);
      assert bs2[q] == bs[q];
    }
  }

  lemma KeepsTrans(a: seq<Tag>, b: seq<Tag>, c: seq<Tag>)
    requires KeepsAllocated(a, b) && KeepsAllocated(b, c)
    ensures KeepsAllocated(a, c)
  {
    forall q | 0 <= q < |a| && a[q].alloc
      ensures exists q2 :: 0 <= q2 < |c| && Off(c, q2) == Off(a, q) && c[q2] == a[q]
    {
      var q1 :| 0 <= q1 < |b| && Off(b, q1) == Off(a, q) && b[q1] == a[q];
      var q2 :| 0 <= q2 < |c| && Off(c, q2) == Off(b, q1) && c[q2] == b[q1];
    }
  }

  /** The tags of block k are unchanged when `tags2` agrees with `tags` outside [lo, hi) and block k lies outside it. */
  ghost predicate SameOutside(tags: map<int, Tag>, tags2: map<int, Tag>, lo: int, hi: int, last: bool)
  {
    forall o :: o in tags && (o < lo || (!last && hi <= o)) ==> o in tags2 && tags2[o] == tags[o]
  }

  /**
   * Rewriting the tags of the spliced range [Off(bs, i), Off(bs, j)) so that they
   * describe `mid` keeps every other block's boundary tags intact.
   */
  lemma SpliceTags(tags: map<int, Tag>, bs: seq<Tag>, tags2: map<int, Tag>, bs2: seq<Tag>,
                   i: int, j: int, mid: seq<Tag>)
    requires 0 <= i <= j <= |bs| && bs2 == bs[..i] + mid + bs[j..]
    requires WellSized(bs) && Off(bs, i) + Span(mid) == Off(bs, j)
    requires TagsAgree(tags, bs)
    requires SameOutside(tags, tags2, Off(bs, i), Off(bs, j), j == |bs|)
    requires forall u :: 0 <= u < |mid| ==>
               HasTag(tags2, Off(bs2, i + u), mid[u]) &&
               HasTag(tags2, GetFooter(Off(bs2, i + u), mid[u].size), mid[u])
    ensures TagsAgree(tags2, bs2)
  {
    OffSplice(bs, bs2, i, j, mid);
    OffMono(bs, 0, i);
    forall k | 0 <= k < |bs2|
      ensures HasTag(tags2, Off(bs2, k), bs2[k]) &&
              HasTag(tags2, GetFooter(Off(bs2, k), bs2[k].size), bs2[k])
    {
      if k < i {
        SpliceTagBefore(tags, bs, tags2, bs2, i, j, mid, k);
      } else if k < i + |mid| {
        assert bs2[k] == mid[k - i];
        assert Off(bs2, i + (k - i)) == Off(bs2, k);
      } else {
        SpliceTagAfter(tags, bs, tags2, bs2, i, j, mid, k);
      }
    }
  }

  lemma SpliceTagBefore(tags: map<int, Tag>, bs: seq<Tag>, tags2: map<int, Tag>, bs2: seq<Tag>,
                        i: int, j: int, mid: seq<Tag>, k: int)
    requires 0 <= k < i <= j <= |bs| && bs2 == bs[..i] + mid + bs[j..]
    requires WellSized(bs) && TagsAgree(tags, bs)
    requires SameOutside(tags, tags2, Off(bs, i), Off(bs, j), j == |bs|)
    ensures HasTag(tags2, Off(bs2, k), bs2[k]) &&
            HasTag(tags2, GetFooter(Off(bs2, k), bs2[k].size), bs2[k])
  {
    assert bs2[k] == bs[k];
    OffSpliceHead(bs, bs2, i, j, mid, k);
    OffMono(bs, k + 1, i);
  }

  lemma SpliceTagAfter(tags: map<int, Tag>, bs: seq<Tag>, tags2: map<int, Tag>, bs2: seq<Tag>,
                       i: int, j: int, mid: seq<Tag>, k: int)
    requires 0 <= i <= j <= |bs| && bs2 == bs[..i] + mid + bs[j..]
    requires i + |mid| <= k < |bs2|
    requires WellSized(bs) && Off(bs, i) + Span(mid) == Off(bs, j) && TagsAgree(tags, bs)
    requires SameOutside(tags, tags2, Off(bs, i), Off(bs, j), j == |bs|)
    ensures HasTag(tags2, Off(bs2, k), bs2[k]) &&
            HasTag(tags2, GetFooter(Off(bs2, k), bs2[k].size), bs2[k])
  {
    var q := k - |mid| + (j - i);
    assert bs2[k] == bs[q];
    OffSpliceTail(bs, bs2, i, j, mid, q);
    OffMono(bs, j, q);
  }
}
