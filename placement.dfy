/**
 * The placement engine (mm.c find_fit and place) on the block view.
 *
 * find_fit scans the free lists from the request's own size class upwards,
 * each from head to tail, and takes the first free block that is large enough.
 * place allocates the front of a free block and, when the rest can hold a
 * minimum-size block, splits the rest off as a new free block.
 */
module Placement {
  import opened Wrappers
  import opened BlockLayout
  import opened SizeClass

  /** The block whose header is at x is free and can hold asize bytes. */
  ghost predicate Fits(tags: map<int, Tag>, x: int, asize: int)
  {
    x in tags && !tags[x].alloc && asize <= tags[x].size
  }

  /** The members of lists i..10 in the order find_fit visits them. */
  ghost function Candidates(lists: seq<seq<int>>, i: int): seq<int>
    requires |lists| == LISTNUM && 0 <= i <= LISTNUM
    decreases LISTNUM - i
  {
    if i == LISTNUM then [] else lists[i] + Candidates(lists, i + 1)
  }

  /** The first candidate that fits, if any. */
  ghost function FirstFit(c: seq<int>, tags: map<int, Tag>, asize: int): Option<int>
  {
    if c == [] then None
    else if Fits(tags, c[0], asize) then Some(c[0])
    else FirstFit(c[1..], tags, asize)
  }

  /**
   * FirstFit finds nothing exactly when no candidate fits; otherwise it finds the
   * candidate at position t, which fits, and no earlier candidate fits.
   */
  lemma {:induction false} FirstFitSpec(c: seq<int>, tags: map<int, Tag>, asize: int) returns (t: int)
    ensures FirstFit(c, tags, asize).None? <==> forall s :: 0 <= s < |c| ==> !Fits(tags, c[s], asize)
    ensures FirstFit(c, tags, asize).Some? ==>
              0 <= t < |c| && c[t] == FirstFit(c, tags, asize).value && Fits(tags, c[t], asize) &&
              forall s :: 0 <= s < t ==> !Fits(tags, c[s], asize)
  {
    t := 0;
    if c != [] && !Fits(tags, c[0], asize) {
      var t1 := FirstFitSpec(c[1..], tags, asize);
      t := t1 + 1;
      forall s | 1 <= s < |c| ensures c[s] == c[1..][s - 1] { }
    }
  }

  /** One step of the scan along list l, positioned at l[t], with the later lists' candidates behind. */
  lemma FirstFitStep(l: seq<int>, t: int, rest: seq<int>, tags: map<int, Tag>, asize: int)
    requires 0 <= t <= |l|
    ensures t == |l| ==> FirstFit(l[t..] + rest, tags, asize) == FirstFit(rest, tags, asize)
    ensures t < |l| ==>
              FirstFit(l[t..] + rest, tags, asize) ==
              if Fits(tags, l[t], asize) then Some(l[t]) else FirstFit(l[t + 1..] + rest, tags, asize)
  {
    var c := l[t..] + rest;
    if t == |l| {
      assert c == rest;
    } else {
      assert c[0] == l[t];
      assert c[1..] == l[t + 1..] + rest;
    }
  }

  /** A candidate of lists i..10 is a member of one of those lists, and every member is a candidate. */
  lemma {:induction false} CandidatesMembers(lists: seq<seq<int>>, i: int, x: int)
    requires |lists| == LISTNUM && 0 <= i <= LISTNUM
    ensures x in Candidates(lists, i) <==> exists l :: i <= l < LISTNUM && x in lists[l]
    decreases LISTNUM - i
  {
    if i < LISTNUM {
      CandidatesMembers(lists, i + 1, x);
      if x in lists[i] {
        assert i <= i < LISTNUM && x in lists[i];
      }
    }
  }

  /** What place leaves where the free block was: the allocated front and, if it splits, the free rest. */
  function PlaceMid(size: int, asize: int): seq<Tag>
  {
    if size - asize >= MIN_BLOCK_SIZE then [Tag(asize, true), Tag(size - asize, false)]
    else [Tag(size, true)]
  }

  lemma PlaceMidSpan(size: int, asize: int)
    ensures Span(PlaceMid(size, asize)) == size
    ensures |PlaceMid(size, asize)| == 2 ==> SpanTo(PlaceMid(size, asize), 1) == asize
  {
    var mid := PlaceMid(size, asize);
    assert SpanTo(mid, 1) == SpanTo(mid, 0) + mid[0].size;
    if |mid| == 2 {
      assert SpanTo(mid, 2) == SpanTo(mid, 1) + mid[1].size;
    }
  }

  /** The block view after place(block k, asize). */
  function PlaceBlocks(bs: seq<Tag>, k: int, asize: int): seq<Tag>
    requires 0 <= k < |bs|
  {
    bs[..k] + PlaceMid(bs[k].size, asize) + bs[k + 1..]
  }

  /** An adjusted request: a multiple of 8 of at least the minimum block size. */
  ghost predicate Request(asize: int)
  {
    MIN_BLOCK_SIZE <= asize && asize % 8 == 0
  }

  /**
   * place allocates block k with room for asize bytes; it splits off a free rest
   * of at least 32 bytes right after it, or absorbs a smaller rest as a splinter.
   * The blocks still tile the same bytes and keep their sizes well formed, and a
   * heap with no two adjacent free blocks keeps that property.
   */
  lemma PlaceSpec(bs: seq<Tag>, k: int, asize: int)
    requires WellSized(bs) && 0 <= k < |bs| && !bs[k].alloc && Request(asize) && asize <= bs[k].size
    ensures var r := PlaceBlocks(bs, k, asize);
            var split := bs[k].size - asize >= MIN_BLOCK_SIZE;
            WellSized(r) && WellSized(PlaceMid(bs[k].size, asize)) &&
            |r| == |bs| + (if split then 1 else 0) &&
            Off(bs, k) + Span(PlaceMid(bs[k].size, asize)) == Off(bs, k + 1) &&
            Off(r, k) == Off(bs, k) && Off(r, |r|) == Off(bs, |bs|) &&
            r[k].alloc && asize <= r[k].size &&
            r[k].size == (if split then asize else bs[k].size) &&
            (split ==> !r[k + 1].alloc && r[k + 1].size == bs[k].size - asize &&
                       Off(r, k + 1) == Off(bs, k) + asize) &&
            (NoAdjacentFree(bs) ==> NoAdjacentFree(r))
  {
    var mid := PlaceMid(bs[k].size, asize);
    var r := PlaceBlocks(bs, k, asize);
    PlaceMidSpan(bs[k].size, asize);
    OffSplice(bs, r, k, k + 1, mid);
    assert Off(r, k + |mid|) == Off(bs, k + 1);
    if |mid| == 2 {
      assert Off(r, k + 1) == Off(bs, k) + SpanTo(mid, 1);
    }
    forall p | 0 <= p < |r| ensures MIN_BLOCK_SIZE <= r[p].size < SIZE_LIMIT && r[p].size % 8 == 0 {
      if p >= k + |mid| {
        assert r[p] == bs[p - |mid| + 1];
      } else if p < k {
        assert r[p] == bs[p];
      }
    }
    if NoAdjacentFree(bs) {
      forall p | 0 <= p < |r| - 1 ensures r[p].alloc || r[p + 1].alloc {
        if p >= k + |mid| {
          assert r[p] == bs[p - |mid| + 1] && r[p + 1] == bs[p - |mid| + 2];
        } else if p < k - 1 {
          assert r[p] == bs[p] && r[p + 1] == bs[p + 1];
        } else if p == k + |mid| - 1 && !r[p].alloc {
          assert r[p + 1] == bs[k + 1];
        }
      }
    }
  }
  /** Placing a request that uses all of block k (no rest) clears the one exception NoAdjacentFreeBut allows. */
  lemma PlaceSplinterNoAdjacent(bs: seq<Tag>, k: int, asize: int)
    requires 0 <= k < |bs| && NoAdjacentFreeBut(bs, k) && asize == bs[k].size
    ensures NoAdjacentFree(PlaceBlocks(bs, k, asize))
  {
    var r := PlaceBlocks(bs, k, asize);
    assert r == bs[k := Tag(asize, true)];
    forall p | 0 <= p < |r| - 1 ensures r[p].alloc || r[p + 1].alloc {
      if p != k && p + 1 != k {
        assert r[p] == bs[p] && r[p + 1] == bs[p + 1];
      }
    }
  }

  /** place leaves every allocated block where it was. */
  lemma PlaceKeeps(bs: seq<Tag>, k: int, asize: int)
    requires WellSized(bs) && 0 <= k < |bs| && !bs[k].alloc && Request(asize) && asize <= bs[k].size
    ensures KeepsAllocated(bs, PlaceBlocks(bs, k, asize))
  {
    PlaceSpec(bs, k, asize);
    SpliceKeeps(bs, PlaceBlocks(bs, k, asize), k, k + 1, PlaceMid(bs[k].size, asize));
  }

  /** A request that uses up a free block exactly just marks that block allocated. */
  lemma PlaceExact(bs: seq<Tag>, k: int, asize: int)
    requires 0 <= k < |bs| && asize == bs[k].size
    ensures PlaceBlocks(bs, k, asize) == bs[k := Tag(asize, true)]
  {
  }
}
