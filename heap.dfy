/**
 * The heap invariant (what mm_checkheap and checkblock test, and what the free
 * lists promise) and the lemmas that carry it across the splices that place,
 * coalesce, mm_free and extend_heap make to the block view.
 */
module Heap {
  import opened Wrappers
  import opened BlockLayout
  import opened SizeClass
  import opened FreeLists
  import opened Membership
  import opened Placement
  import opened Coalescing

  /** The tag words describe the blocks of `bs`, closed by the epilogue at the end of the arena. */
  ghost predicate Layout(tags: map<int, Tag>, bs: seq<Tag>, brk: int)
  {
    WellSized(bs) && TagsAgree(tags, bs) && EpilogueAt(tags, bs, brk)
  }

  /** checkblock's tests on the block with header t at o: an 8-aligned payload and a footer repeating the size. */
  ghost predicate BlockChecked(tags: map<int, Tag>, o: int, t: Tag)
  {
    HasTag(tags, o, t) && 0 < t.size && (o + WSIZE) % 8 == 0 &&
    GetFooter(o, t.size) in tags && tags[GetFooter(o, t.size)].size == t.size
  }

  /** The blocks bs, laid one after the other from offset 8, each pass checkblock. */
  ghost predicate BlocksChecked(tags: map<int, Tag>, bs: seq<Tag>)
  {
    forall k {:trigger Off(bs, k)} :: 0 <= k < |bs| ==> BlockChecked(tags, Off(bs, k), bs[k])
  }

  /** What a silent mm_checkheap has seen: the prologue, the blocks bs, then the epilogue. */
  ghost predicate HeapChecked(tags: map<int, Tag>, bs: seq<Tag>)
  {
    HasTag(tags, 0, PROLOGUE) && BlocksChecked(tags, bs) && HasTag(tags, Off(bs, |bs|), EPILOGUE)
  }

  /** Every heap laid out as the invariant says passes mm_checkheap. */
  lemma LayoutChecked(tags: map<int, Tag>, bs: seq<Tag>, brk: int)
    requires Layout(tags, bs, brk)
    ensures HeapChecked(tags, bs)
  {
    forall k | 0 <= k < |bs| ensures BlockChecked(tags, Off(bs, k), bs[k]) {
      OffAligned(bs, k);
    }
  }

  /** The walk goes on exactly when the next block, where the checked ones end, passes checkblock. */
  lemma CheckedAppend(tags: map<int, Tag>, bs: seq<Tag>, t: Tag)
    ensures BlocksChecked(tags, bs + [t]) <==> BlocksChecked(tags, bs) && BlockChecked(tags, Off(bs, |bs|), t)
  {
    var bs2 := bs + [t];
    assert bs2[..|bs|] == bs;
    forall k | 0 <= k <= |bs| ensures Off(bs2, k) == Off(bs, k) {
      OffPrefix(bs2, |bs|, k);
    }
    if BlocksChecked(tags, bs2) {
      forall k | 0 <= k < |bs| ensures BlockChecked(tags, Off(bs, k), bs[k]) {
        assert bs2[k] == bs[k];
        assert BlockChecked(tags, Off(bs2, k), bs2[k]);
      }
      assert BlockChecked(tags, Off(bs2, |bs|), bs2[|bs|]);
    }
  }

  /**
   * The walk is decided by the tag words: if some walk w passes mm_checkheap inside
   * the arena and the walk so far is a prefix of w, the word where the walk now
   * stands is inside the arena and is w's next block, or the epilogue at w's end.
   */
  lemma {:induction false} WalkNext(tags: map<int, Tag>, w: seq<Tag>, walked: seq<Tag>, brk: int)
    requires HeapChecked(tags, w) && Off(w, |w|) + WSIZE <= brk
    requires |walked| <= |w| && walked == w[..|walked|]
    ensures Off(walked, |walked|) in tags && Off(walked, |walked|) + WSIZE <= brk
    ensures |walked| < |w| ==>
              tags[Off(walked, |walked|)] == w[|walked|] && BlockChecked(tags, Off(walked, |walked|), w[|walked|])
    ensures |walked| == |w| ==> tags[Off(walked, |walked|)] == EPILOGUE
  {
    OffPrefix(w, |walked|, |walked|);
    forall k | 0 <= k < |w| ensures 0 < w[k].size {
      assert BlockChecked(tags, Off(w, k), w[k]);
    }
    OffGrows(w, |walked|, |w|);
    if |walked| < |w| {
      assert BlockChecked(tags, Off(w, |walked|), w[|walked|]);
    }
  }

  /** A block of m.size bytes appended where the epilogue was keeps the sizes well formed. */
  lemma AppendSized(bs: seq<Tag>, m: Tag)
    requires WellSized(bs) && MIN_BLOCK_SIZE <= m.size && m.size % 8 == 0 && Off(bs, |bs|) + m.size < SIZE_LIMIT
    ensures WellSized(bs + [m]) && Off(bs + [m], |bs| + 1) == Off(bs, |bs|) + m.size
  {
    var bs2 := bs + [m];
    assert bs2[..|bs|] == bs;
    OffPrefix(bs2, |bs|, |bs|);
    OffNext(bs2, |bs|);
    OffMono(bs, 0, |bs|);
    SpliceWellSized(bs, bs2, |bs|, |bs|, [m]);
  }

  /**
   * A splice whose only free block is mid[u0], at x0, removing exactly the members in
   * `gone` and pushing x0 on the list of its size class keeps the lists exact.
   */
  lemma ListsAfterPush(bs: seq<Tag>, lists: seq<seq<int>>, bs2: seq<Tag>, lr: seq<seq<int>>,
                       i: int, j: int, mid: seq<Tag>, gone: set<int>, u0: int, x0: int, ci: int,
                       lists2: seq<seq<int>>)
    requires 0 <= i <= j <= |bs| && bs2 == bs[..i] + mid + bs[j..]
    requires WellSized(bs) && WellSized(mid) && Off(bs, i) + Span(mid) == Off(bs, j)
    requires ListsExact(bs, lists) && Inside(bs, gone, i, j) && Removed(lists, lr, gone)
    requires 0 <= u0 < |mid| && !mid[u0].alloc && forall u :: 0 <= u < |mid| && u != u0 ==> mid[u].alloc
    requires x0 == Off(bs, i) + SpanTo(mid, u0) && ci == ListIndex(mid[u0].size) && lists2 == Push(lr, ci, x0)
    ensures ListsExact(bs2, lists2)
  {
    forall c | 0 <= c < LISTNUM
      ensures Members(lists2[c]) == Members(lr[c]) + FreeBetween(bs2, i, i + |mid|, c)
    {
      FreeBetweenMid(bs, bs2, i, j, mid, |mid|, u0, c);
      if c == ci {
        assert Members(lists2[c]) == Members(lr[c]) + {x0} by {
          assert lists2[c] == [x0] + lr[c];
        }
      }
    }
    SpliceLists(bs, lists, bs2, lr, lists2, i, j, mid, gone);
  }

  /** A splice with no free block among `mid` that removes exactly the members in `gone` keeps the lists exact. */
  lemma ListsAfterRemove(bs: seq<Tag>, lists: seq<seq<int>>, bs2: seq<Tag>, lr: seq<seq<int>>,
                         i: int, j: int, mid: seq<Tag>, gone: set<int>)
    requires 0 <= i <= j <= |bs| && bs2 == bs[..i] + mid + bs[j..]
    requires WellSized(bs) && WellSized(mid) && Off(bs, i) + Span(mid) == Off(bs, j)
    requires ListsExact(bs, lists) && Inside(bs, gone, i, j) && Removed(lists, lr, gone)
    requires forall u :: 0 <= u < |mid| ==> mid[u].alloc
    ensures ListsExact(bs2, lr)
  {
    forall c | 0 <= c < LISTNUM
      ensures Members(lr[c]) == Members(lr[c]) + FreeBetween(bs2, i, i + |mid|, c)
    {
      FreeBetweenMid(bs, bs2, i, j, mid, |mid|, -1, c);
    }
    SpliceLists(bs, lists, bs2, lr, lr, i, j, mid, gone);
  }

  /** Rewriting the tags of blocks i..j-1 so that they describe the single block m. */
  lemma SpliceOne(tags: map<int, Tag>, bs: seq<Tag>, brk: int, tags2: map<int, Tag>, i: int, j: int, m: Tag)
    requires Layout(tags, bs, brk) && 0 <= i < j <= |bs|
    requires MIN_BLOCK_SIZE <= m.size < SIZE_LIMIT && m.size % 8 == 0 && Off(bs, i) + m.size == Off(bs, j)
    requires SameOutside(tags, tags2, Off(bs, i), Off(bs, j), j == |bs|)
    requires HasTag(tags2, Off(bs, i), m) && HasTag(tags2, Off(bs, j) - WSIZE, m)
    requires HasTag(tags2, Off(bs, |bs|), EPILOGUE)
    ensures var bs2 := bs[..i] + [m] + bs[j..];
            Layout(tags2, bs2, brk) && Off(bs2, i) == Off(bs, i) && Off(bs2, |bs2|) == Off(bs, |bs|)
  {
    var bs2 := bs[..i] + [m] + bs[j..];
    var mid := [m];
    assert SpanTo(mid, 1) == SpanTo(mid, 0) + mid[0].size;
    OffSpliceHead(bs, bs2, i, j, mid, i);
    OffSpliceTail(bs, bs2, i, j, mid, |bs|);
    assert |bs2| == |bs| + |mid| - (j - i);
    SpliceTags(tags, bs, tags2, bs2, i, j, mid);
    SpliceWellSized(bs, bs2, i, j, mid);
  }

  /** Rewriting the tags of block i so that they describe the two blocks m1 and m2. */
  lemma SpliceTwo(tags: map<int, Tag>, bs: seq<Tag>, brk: int, tags2: map<int, Tag>, i: int, m1: Tag, m2: Tag)
    requires Layout(tags, bs, brk) && 0 <= i < |bs|
    requires MIN_BLOCK_SIZE <= m1.size < SIZE_LIMIT && m1.size % 8 == 0
    requires MIN_BLOCK_SIZE <= m2.size < SIZE_LIMIT && m2.size % 8 == 0
    requires Off(bs, i) + m1.size + m2.size == Off(bs, i + 1)
    requires SameOutside(tags, tags2, Off(bs, i), Off(bs, i + 1), i + 1 == |bs|)
    requires HasTag(tags2, Off(bs, i), m1) && HasTag(tags2, Off(bs, i) + m1.size - WSIZE, m1)
    requires HasTag(tags2, Off(bs, i) + m1.size, m2) && HasTag(tags2, Off(bs, i + 1) - WSIZE, m2)
    requires HasTag(tags2, Off(bs, |bs|), EPILOGUE)
    ensures var bs2 := bs[..i] + [m1, m2] + bs[i + 1..];
            Layout(tags2, bs2, brk) && Off(bs2, |bs2|) == Off(bs, |bs|)
  {
    var bs2 := bs[..i] + [m1, m2] + bs[i + 1..];
    var mid := [m1, m2];
    assert SpanTo(mid, 1) == SpanTo(mid, 0) + mid[0].size;
    assert SpanTo(mid, 2) == SpanTo(mid, 1) + mid[1].size;
    OffSpliceHead(bs, bs2, i, i + 1, mid, i);
    OffSpliceMid(bs, bs2, i, i + 1, mid, 1);
    OffSpliceTail(bs, bs2, i, i + 1, mid, |bs|);
    assert |bs2| == |bs| + |mid| - 1;
    SpliceTags(tags, bs, tags2, bs2, i, i + 1, mid);
    SpliceWellSized(bs, bs2, i, i + 1, mid);
  }

  /**
   * extend_heap: the old epilogue becomes the header of a new free block m at the
   * end, and a new epilogue follows it at the new end of the arena.
   */
  lemma ExtendLayout(tags: map<int, Tag>, bs: seq<Tag>, brk: int, tags2: map<int, Tag>, m: Tag)
    requires Layout(tags, bs, brk) && MIN_BLOCK_SIZE <= m.size < SIZE_LIMIT && m.size % 8 == 0
    requires SameOutside(tags, tags2, Off(bs, |bs|), Off(bs, |bs|), true)
    requires HasTag(tags2, brk - WSIZE, m) && HasTag(tags2, brk - 2 * WSIZE + m.size, m)
    requires HasTag(tags2, brk - WSIZE + m.size, EPILOGUE)
    ensures var bs2 := bs + [m];
            Layout(tags2, bs2, brk + m.size) && Off(bs2, |bs|) == brk - WSIZE
  {
    var bs2 := bs + [m];
    var mid := [m];
    var n := |bs|;
    assert bs2 == bs[..n] + mid + bs[n..];
    OffSpliceHead(bs, bs2, n, n, mid, n);
    assert Off(bs2, n + 1) == Off(bs2, n) + m.size;
    forall k | 0 <= k < |bs2|
      ensures HasTag(tags2, Off(bs2, k), bs2[k]) &&
              HasTag(tags2, GetFooter(Off(bs2, k), bs2[k].size), bs2[k])
    {
      if k < n {
        SpliceTagBefore(tags, bs, tags2, bs2, n, n, mid, k);
      }
    }
    OffMono(bs, 0, n);
    SpliceWellSized(bs, bs2, n, n, mid);
  }

  /** The free lists right after mm_init: list 10 holds the one block at b, the others are empty. */
  function InitLists(b: int): (lists: seq<seq<int>>)
    ensures |lists| == LISTNUM && lists[LISTNUM - 1] == [b]
    ensures forall i :: 0 <= i < LISTNUM - 1 ==> lists[i] == []
  {
    seq(LISTNUM, i => if i == LISTNUM - 1 then [b] else [])
  }

  /** mm_init's one free block of CHUNKSIZE - 16 bytes belongs in list 10, as InitLists has it. */
  lemma InitExact(m: Tag, b: int)
    requires m == Tag(CHUNKSIZE - OVERHEAD, false) && b == Off([m], 0)
    ensures ListsExact([m], InitLists(b))
  {
    Pow2Add5(0);
    Pow2Add5(5);
    assert InClass(m.size, LISTNUM - 1);
    ListIndexClass(m.size, LISTNUM - 1);
    var lists := InitLists(b);
    forall c | 0 <= c < LISTNUM ensures Members(lists[c]) == FreeSet([m], c) {
      assert FreeSet([m], c) == FreeBetween([m], 0, 0, c) + (if FreeIn([m], 0, c) then {b} else {});
      if c == LISTNUM - 1 {
        assert FreeIn([m], 0, c);
        assert Members([b]) == {b};
      } else {
        assert !FreeIn([m], 0, c);
        assert lists[c] == [];
      }
    }
  }

  /** The tag words mm_init writes describe its one free block of CHUNKSIZE - 16 bytes. */
  lemma InitLayout(tags: map<int, Tag>, m: Tag, brk: int)
    requires m == Tag(CHUNKSIZE - OVERHEAD, false) && brk == CHUNKSIZE
    requires HasTag(tags, 0, PROLOGUE) && HasTag(tags, WSIZE, m)
    requires HasTag(tags, CHUNKSIZE - OVERHEAD, m) && HasTag(tags, CHUNKSIZE - WSIZE, EPILOGUE)
    ensures Layout(tags, [m], brk)
  {
    assert Off([m], 0) == WSIZE && Off([m], 1) == CHUNKSIZE - WSIZE;
  }

  /** mm_init's links: list 10 is the one block b, NULL-linked both ways; the other heads are NULL. */
  lemma InitLinks(heads: seq<Option<int>>, next: Links, prev: Links, b: int)
    requires |heads| == LISTNUM && forall i :: 0 <= i < LISTNUM ==> heads[i] == if i == LISTNUM - 1 then Some(b) else None
    requires b in next && next[b] == None && b in prev && prev[b] == None
    ensures LinksOk(heads, next, prev, InitLists(b))
  {
  }

  /** The offset just past the last block, where the epilogue sits, is in no free list. */
  lemma EndAbsent(bs: seq<Tag>, lists: seq<seq<int>>)
    requires WellSized(bs) && ListsExact(bs, lists)
    ensures Absent(lists, Off(bs, |bs|))
  {
    forall c | 0 <= c < |lists| ensures Off(bs, |bs|) !in lists[c] {
      forall x | x in lists[c] ensures x != Off(bs, |bs|) {
        var q := MemberBlock(bs, lists, c, x);
        OffNext(bs, q);
        OffMono(bs, q + 1, |bs|);
      }
    }
  }

  /**
   * extend_heap's lists: the new free block m starts where the old epilogue was, is in
   * no list yet, and pushing it on the list of its size class keeps the lists exact.
   */
  lemma ExtendLists(bs: seq<Tag>, lists: seq<seq<int>>, m: Tag, ci: int, lists2: seq<seq<int>>)
    requires WellSized(bs) && ListsExact(bs, lists)
    requires MIN_BLOCK_SIZE <= m.size < SIZE_LIMIT && !m.alloc
    requires ci == ListIndex(m.size) && lists2 == Push(lists, ci, Off(bs, |bs|))
    ensures Absent(lists, Off(bs, |bs|)) && ListsExact(bs + [m], lists2)
  {
    var n, bs2, mid := |bs|, bs + [m], [m];
    assert bs2 == bs[..n] + mid + bs[n..];
    OffSpliceHead(bs, bs2, n, n, mid, n);
    EndAbsent(bs, lists);
    forall c | 0 <= c < LISTNUM ensures Members(lists2[c]) == FreeSet(bs2, c) {
      FreeBetweenHead(bs, bs2, n, n, mid, n, c);
      assert FreeSet(bs2, c) == FreeSet(bs, c) + (if c == ci then {Off(bs, n)} else {});
      if c == ci {
        assert lists2[c] == [Off(bs, n)] + lists[c];
      }
    }
  }

  /** An allocated block is in no free list. */
  lemma AllocAbsent(bs: seq<Tag>, lists: seq<seq<int>>, k: int)
    requires WellSized(bs) && ListsExact(bs, lists) && 0 <= k < |bs| && bs[k].alloc
    ensures Absent(lists, Off(bs, k))
  {
    forall c | 0 <= c < |lists| ensures Off(bs, k) !in lists[c] {
      forall x | x in lists[c] ensures x != Off(bs, k) {
        var q := MemberBlock(bs, lists, c, x);
        assert bs[q].alloc != bs[k].alloc;
        OffDistinct(bs, q, k);
      }
    }
  }

  /**
   * mm_free's first step: the allocated block k is marked free in its header and
   * footer and pushed on the list of its size class.  It was in no list, the lists
   * stay exact, and only block k can now have a free neighbour.
   */
  lemma FreeStep(tags: map<int, Tag>, bs: seq<Tag>, brk: int, lists: seq<seq<int>>, k: int, tags2: map<int, Tag>)
    requires Layout(tags, bs, brk) && ListsExact(bs, lists) && NoAdjacentFree(bs) && 0 <= k < |bs| && bs[k].alloc
    requires var b, m := Off(bs, k), Tag(bs[k].size, false);
             tags2 == tags[b := m][GetFooter(b, m.size) := m]
    ensures var b, m := Off(bs, k), Tag(bs[k].size, false);
            var bs2 := bs[k := m];
            Layout(tags2, bs2, brk) && Off(bs2, k) == b && Absent(lists, b) &&
            ListsExact(bs2, Push(lists, ListIndex(m.size), b)) && NoAdjacentFreeBut(bs2, k)
  {
    var b, m := Off(bs, k), Tag(bs[k].size, false);
    var bs2, mid := bs[k := m], [m];
    assert bs2 == bs[..k] + mid + bs[k + 1..];
    assert Span(mid) == SpanTo(mid, 0) + m.size;
    OffNext(bs, k);
    OffMono(bs, k + 1, |bs|);
    SpliceOne(tags, bs, brk, tags2, k, k + 1, m);
    AllocAbsent(bs, lists, k);
    forall c | 0 <= c < LISTNUM ensures Members(lists[c]) == Members(lists[c]) - {b} {
      assert b !in lists[c];
    }
    ListsAfterPush(bs, lists, bs2, lists, k, k + 1, mid, {b}, 0, b, ListIndex(m.size),
                   Push(lists, ListIndex(m.size), b));
  }

  /** No block starts strictly inside block k. */
  lemma NotAStart(bs: seq<Tag>, k: int, x: int, q: int)
    requires WellSized(bs) && 0 <= k < |bs| && Off(bs, k) < x < Off(bs, k + 1) && 0 <= q <= |bs|
    ensures Off(bs, q) != x
  {
    if q <= k {
      OffMono(bs, q, k);
    } else {
      OffMono(bs, k + 1, q);
    }
  }

  /** An offset strictly inside block k is in no free list. */
  lemma InsideAbsent(bs: seq<Tag>, lists: seq<seq<int>>, k: int, x: int)
    requires WellSized(bs) && ListsExact(bs, lists) && 0 <= k < |bs| && Off(bs, k) < x < Off(bs, k + 1)
    ensures Absent(lists, x)
  {
    forall c | 0 <= c < |lists| ensures x !in lists[c] {
      if x in lists[c] {
        var q := MemberBlock(bs, lists, c, x);
        NotAStart(bs, k, x, q);
      }
    }
  }

  /** Every free-list member is the header of a free block: its tag word is there and says free. */
  lemma MembersTagged(tags: map<int, Tag>, bs: seq<Tag>, brk: int, lists: seq<seq<int>>)
    requires Layout(tags, bs, brk) && ListsExact(bs, lists)
    ensures forall c, x :: 0 <= c < LISTNUM && x in lists[c] ==> x in tags && !tags[x].alloc
  {
    forall c, x | 0 <= c < LISTNUM && x in lists[c] ensures x in tags && !tags[x].alloc {
      var q := MemberBlock(bs, lists, c, x);
    }
  }

  /**
   * What find_fit answers is a real block: the header of a free block k of the view
   * that holds at least asize bytes.
   */
  lemma FitBlock(tags: map<int, Tag>, bs: seq<Tag>, brk: int, lists: seq<seq<int>>, asize: int, b: int)
    returns (k: int)
    requires Layout(tags, bs, brk) && ListsExact(bs, lists) && MIN_BLOCK_SIZE <= asize < WORD_LIMIT
    requires FirstFit(Candidates(lists, ListIndex(asize)), tags, asize) == Some(b)
    ensures 0 <= k < |bs| && Off(bs, k) == b && !bs[k].alloc && asize <= bs[k].size
  {
    var c := Candidates(lists, ListIndex(asize));
    var t := FirstFitSpec(c, tags, asize);
    CandidatesMembers(lists, ListIndex(asize), b);
    var l :| ListIndex(asize) <= l < LISTNUM && b in lists[l];
    k := MemberBlock(bs, lists, l, b);
    assert HasTag(tags, Off(bs, k), bs[k]);
  }

  /** find_fit answers NULL only when no free block of the heap can hold asize bytes. */
  lemma FitComplete(tags: map<int, Tag>, bs: seq<Tag>, brk: int, lists: seq<seq<int>>, asize: int)
    requires Layout(tags, bs, brk) && ListsExact(bs, lists) && MIN_BLOCK_SIZE <= asize < WORD_LIMIT
    ensures FirstFit(Candidates(lists, ListIndex(asize)), tags, asize).None? ==>
              forall j :: 0 <= j < |bs| && !bs[j].alloc ==> bs[j].size < asize
  {
    var c := Candidates(lists, ListIndex(asize));
    forall j | 0 <= j < |bs| && !bs[j].alloc && asize <= bs[j].size
      ensures FirstFit(c, tags, asize).Some?
    {
      var x, l := Off(bs, j), ListIndex(bs[j].size);
      ListIndexMono(asize, bs[j].size);
      FreeInOneList(bs, lists, j, l);
      CandidatesMembers(lists, ListIndex(asize), x);
      assert ListIndex(asize) <= l < LISTNUM && x in lists[l];
      var s :| 0 <= s < |c| && c[s] == x;
      assert HasTag(tags, x, bs[j]);
      assert Fits(tags, c[s], asize);
      var t := FirstFitSpec(c, tags, asize);
    }
  }

  /**
   * place, splitting: once b = block k has left its list, writing the allocated
   * front and the free rest at x = b + asize lays out PlaceBlocks, and x is in no list.
   */
  lemma PlaceSplitStep(tags: map<int, Tag>, bs: seq<Tag>, brk: int, lists0: seq<seq<int>>, lists1: seq<seq<int>>,
                       k: int, asize: int, tags2: map<int, Tag>, x: int)
    requires Layout(tags, bs, brk) && ListsExact(bs, lists0) && 0 <= k < |bs| && !bs[k].alloc
    requires Request(asize) && bs[k].size - asize >= MIN_BLOCK_SIZE
    requires Removed(lists0, lists1, {Off(bs, k)}) && x == Off(bs, k) + asize
    requires var b, rest := Off(bs, k), bs[k].size - asize;
             tags2 == tags[b := Tag(asize, true)][GetFooter(b, asize) := Tag(asize, true)]
                          [x := Tag(rest, false)][GetFooter(x, rest) := Tag(rest, false)]
    ensures Layout(tags2, PlaceBlocks(bs, k, asize), brk) && Absent(lists1, x)
  {
    PlaceSplitLayout(tags, bs, brk, k, asize, tags2);
    OffNext(bs, k);
    InsideAbsent(bs, lists0, k, x);
    RemovedAbsent(lists0, lists1, {Off(bs, k)}, x);
  }

  /** place, splitting: pushing the free rest x on list ci, its size class, makes the lists exact again. */
  lemma PlaceSplitLists(bs: seq<Tag>, lists0: seq<seq<int>>, lists1: seq<seq<int>>, k: int, asize: int,
                        x: int, ci: int, lists2: seq<seq<int>>)
    requires WellSized(bs) && ListsExact(bs, lists0) && 0 <= k < |bs| && !bs[k].alloc
    requires Request(asize) && bs[k].size - asize >= MIN_BLOCK_SIZE
    requires Removed(lists0, lists1, {Off(bs, k)})
    requires x == Off(bs, k) + asize && ci == ListIndex(bs[k].size - asize) && lists2 == Push(lists1, ci, x)
    ensures ListsExact(PlaceBlocks(bs, k, asize), lists2)
  {
    var b, size := Off(bs, k), bs[k].size;
    var mid := [Tag(asize, true), Tag(size - asize, false)];
    PlaceSplitShape(bs, k, asize);
    ListsAfterPush(bs, lists0, PlaceBlocks(bs, k, asize), lists1, k, k + 1, mid, {b}, 1, x, ci, lists2);
  }

  /** place, splitting: block k becomes the allocated front and the free rest, which cover the same bytes. */
  lemma PlaceSplitShape(bs: seq<Tag>, k: int, asize: int)
    requires WellSized(bs) && 0 <= k < |bs| && Request(asize) && bs[k].size - asize >= MIN_BLOCK_SIZE
    ensures var mid := [Tag(asize, true), Tag(bs[k].size - asize, false)];
            PlaceBlocks(bs, k, asize) == bs[..k] + mid + bs[k + 1..] && WellSized(mid) &&
            SpanTo(mid, 1) == asize && Off(bs, k) + Span(mid) == Off(bs, k + 1) &&
            Inside(bs, {Off(bs, k)}, k, k + 1)
  {
    var size := bs[k].size;
    var mid := [Tag(asize, true), Tag(size - asize, false)];
    assert PlaceMid(size, asize) == mid;
    assert SpanTo(mid, 1) == asize;
    assert Span(mid) == size by {
      assert SpanTo(mid, 2) == SpanTo(mid, 1) + mid[1].size;
    }
    OffNext(bs, k);
  }

  lemma PlaceSplitLayout(tags: map<int, Tag>, bs: seq<Tag>, brk: int, k: int, asize: int, tags2: map<int, Tag>)
    requires Layout(tags, bs, brk) && 0 <= k < |bs|
    requires Request(asize) && bs[k].size - asize >= MIN_BLOCK_SIZE
    requires var b, rest := Off(bs, k), bs[k].size - asize;
             tags2 == tags[b := Tag(asize, true)][GetFooter(b, asize) := Tag(asize, true)]
                          [b + asize := Tag(rest, false)][GetFooter(b + asize, rest) := Tag(rest, false)]
    ensures Layout(tags2, PlaceBlocks(bs, k, asize), brk)
  {
    var b, size := Off(bs, k), bs[k].size;
    OffNext(bs, k);
    OffMono(bs, k + 1, |bs|);
    assert PlaceBlocks(bs, k, asize) == bs[..k] + [Tag(asize, true), Tag(size - asize, false)] + bs[k + 1..];
    SpliceTwo(tags, bs, brk, tags2, k, Tag(asize, true), Tag(size - asize, false));
  }

  /** place, absorbing the splinter: block k is marked allocated in both tags and is in no list. */
  lemma PlaceWholeStep(tags: map<int, Tag>, bs: seq<Tag>, brk: int, lists0: seq<seq<int>>, lists1: seq<seq<int>>,
                       k: int, asize: int, tags2: map<int, Tag>)
    requires Layout(tags, bs, brk) && ListsExact(bs, lists0) && 0 <= k < |bs| && !bs[k].alloc
    requires Request(asize) && asize <= bs[k].size && bs[k].size - asize < MIN_BLOCK_SIZE
    requires Removed(lists0, lists1, {Off(bs, k)})
    requires var b, size := Off(bs, k), bs[k].size;
             tags2 == tags[b := Tag(size, true)][GetFooter(b, size) := Tag(size, true)]
    ensures Layout(tags2, PlaceBlocks(bs, k, asize), brk) && ListsExact(PlaceBlocks(bs, k, asize), lists1)
  {
    var b, size := Off(bs, k), bs[k].size;
    PlaceSpec(bs, k, asize);
    OffNext(bs, k);
    OffMono(bs, k + 1, |bs|);
    SpliceOne(tags, bs, brk, tags2, k, k + 1, Tag(size, true));
    ListsAfterRemove(bs, lists0, PlaceBlocks(bs, k, asize), lists1, k, k + 1, PlaceMid(size, asize), {b});
  }

  /**
   * The words around block k: the one before its header is the left neighbour's
   * footer (the prologue for the first block), the one after its footer is the right
   * neighbour's header (the epilogue for the last block).
   */
  lemma Neighbours(tags: map<int, Tag>, bs: seq<Tag>, brk: int, k: int)
    requires Layout(tags, bs, brk) && 0 <= k < |bs|
    ensures var b := Off(bs, k);
            HasTag(tags, b, bs[k]) && b + bs[k].size == Off(bs, k + 1) &&
            b - WSIZE in tags && tags[b - WSIZE] == (if k == 0 then PROLOGUE else bs[k - 1]) &&
            Off(bs, k + 1) in tags && tags[Off(bs, k + 1)] == (if k == |bs| - 1 then EPILOGUE else bs[k + 1]) &&
            (k > 0 ==> b - bs[k - 1].size == Off(bs, k - 1) && HasTag(tags, Off(bs, k - 1), bs[k - 1]))
  {
    OffNext(bs, k);
    assert HasTag(tags, Off(bs, k), bs[k]);
    if k > 0 {
      OffNext(bs, k - 1);
      assert HasTag(tags, Off(bs, k - 1), bs[k - 1]);
    }
    if k < |bs| - 1 {
      assert HasTag(tags, Off(bs, k + 1), bs[k + 1]);
    }
  }

  /**
   * coalesce rewrites two words: the header of the first block of the run and the
   * footer of its last block now hold the size of the whole run.  That lays out
   * CoalesceBlocks.
   */
  lemma MergeLayout(tags: map<int, Tag>, bs: seq<Tag>, brk: int, k: int, x: int, sz: int)
    requires Layout(tags, bs, brk) && brk < SIZE_LIMIT && 0 <= k < |bs| && !bs[k].alloc
    requires x == Off(bs, MergeLo(bs, k)) && sz == Off(bs, MergeHi(bs, k)) - x
    ensures x in tags && GetFooter(x, sz) in tags &&
            var t1 := tags[x := Tag(sz, tags[x].alloc)];
            var f := GetFooter(x, sz);
            Layout(t1[f := Tag(sz, t1[f].alloc)], CoalesceBlocks(bs, k), brk)
  {
    var lo, hi := MergeLo(bs, k), MergeHi(bs, k);
    CoalesceSplice(bs, k);
    OffNext(bs, hi - 1);
    OffMono(bs, hi, |bs|);
    assert HasTag(tags, Off(bs, lo), bs[lo]);
    assert HasTag(tags, GetFooter(Off(bs, hi - 1), bs[hi - 1].size), bs[hi - 1]);
    var t1 := tags[x := Tag(sz, tags[x].alloc)];
    var f := GetFooter(x, sz);
    SpliceOne(tags, bs, brk, t1[f := Tag(sz, t1[f].alloc)], lo, hi, Tag(sz, false));
  }

  /**
   * coalesce's lists: once every block of the run has left its list (`gone`), pushing
   * the merged block x on the list of its size class makes the lists exact again.
   */
  lemma MergeLists(bs: seq<Tag>, lists0: seq<seq<int>>, lr: seq<seq<int>>, k: int, lo: int, hi: int, gone: set<int>,
                   x: int, sz: int, ci: int, lists2: seq<seq<int>>)
    requires WellSized(bs) && ListsExact(bs, lists0) && Off(bs, |bs|) < SIZE_LIMIT && 0 <= k < |bs| && !bs[k].alloc
    requires lo == MergeLo(bs, k) && hi == MergeHi(bs, k)
    requires Inside(bs, gone, lo, hi) && Removed(lists0, lr, gone)
    requires x == Off(bs, lo) && sz == Off(bs, hi) - x && MIN_BLOCK_SIZE <= sz < WORD_LIMIT
    requires ci == ListIndex(sz) && lists2 == Push(lr, ci, x)
    ensures ListsExact(CoalesceBlocks(bs, k), lists2) && Absent(lr, x)
  {
    var mid := [Tag(sz, false)];
    CoalesceSplice(bs, k);
    ListsAfterPush(bs, lists0, CoalesceBlocks(bs, k), lr, lo, hi, mid, gone, 0, x, ci, lists2);
    RemovedAbsent(lists0, lr, gone, x);
  }

  /**
   * coalesce, case 2: once block k (at b) and its free right neighbour have left their
   * lists (lr), pushing b, grown by the neighbour's size, makes the lists exact again.
   */
  lemma MergeNextLists(bs: seq<Tag>, lists0: seq<seq<int>>, lr: seq<seq<int>>, k: int, sz: int)
    requires WellSized(bs) && ListsExact(bs, lists0) && Off(bs, |bs|) < SIZE_LIMIT
    requires 0 <= k < |bs| - 1 && !bs[k].alloc && !bs[k + 1].alloc && (k == 0 || bs[k - 1].alloc)
    requires Removed(lists0, lr, {} + {Off(bs, k)} + {Off(bs, k + 1)}) && sz == bs[k].size + bs[k + 1].size
    ensures MergeLo(bs, k) == k && MergeHi(bs, k) == k + 2
    ensures var b := Off(bs, k);
            Off(bs, k + 2) - b == sz && sz < SIZE_LIMIT && Absent(lr, b) &&
            ListsExact(CoalesceBlocks(bs, k), Push(lr, ListIndex(sz), b))
  {
    var b, n := Off(bs, k), Off(bs, k + 1);
    OffNext(bs, k);
    OffNext(bs, k + 1);
    assert Off(bs, MergeHi(bs, k)) - b == sz && sz < SIZE_LIMIT by {
      SpanBetween(bs, k, k + 2);
    }
    InsideTwo(bs, k, k + 1, k + 2);
    MergeLists(bs, lists0, lr, k, k, k + 2, {} + {b} + {n}, b, sz, ListIndex(sz), Push(lr, ListIndex(sz), b));
  }

  /**
   * coalesce, case 3: once block k and its free left neighbour (at p) have left their
   * lists (lr), pushing p, grown by block k's size, makes the lists exact again.
   */
  lemma MergePrevLists(bs: seq<Tag>, lists0: seq<seq<int>>, lr: seq<seq<int>>, k: int, sz: int)
    requires WellSized(bs) && ListsExact(bs, lists0) && Off(bs, |bs|) < SIZE_LIMIT
    requires 0 < k < |bs| && !bs[k].alloc && !bs[k - 1].alloc && (k == |bs| - 1 || bs[k + 1].alloc)
    requires Removed(lists0, lr, {} + {Off(bs, k)} + {Off(bs, k - 1)}) && sz == bs[k - 1].size + bs[k].size
    ensures MergeLo(bs, k) == k - 1 && MergeHi(bs, k) == k + 1
    ensures var p := Off(bs, k - 1);
            Off(bs, k + 1) - p == sz && sz < SIZE_LIMIT && Absent(lr, p) &&
            ListsExact(CoalesceBlocks(bs, k), Push(lr, ListIndex(sz), p))
  {
    var b, p := Off(bs, k), Off(bs, k - 1);
    OffNext(bs, k - 1);
    OffNext(bs, k);
    assert Off(bs, MergeHi(bs, k)) - p == sz && sz < SIZE_LIMIT by {
      SpanBetween(bs, k - 1, k + 1);
    }
    InsideTwo(bs, k - 1, k, k + 1);
    MergeLists(bs, lists0, lr, k, k - 1, k + 1, {} + {b} + {p}, p, sz, ListIndex(sz), Push(lr, ListIndex(sz), p));
  }

  /**
   * coalesce, case 4: once block k and both its free neighbours have left their lists
   * (lr), pushing the left one (at p), grown by the other two, makes the lists exact again.
   */
  lemma MergeBothLists(bs: seq<Tag>, lists0: seq<seq<int>>, lr: seq<seq<int>>, k: int, sz: int)
    requires WellSized(bs) && ListsExact(bs, lists0) && Off(bs, |bs|) < SIZE_LIMIT
    requires 0 < k < |bs| - 1 && !bs[k].alloc && !bs[k - 1].alloc && !bs[k + 1].alloc
    requires Removed(lists0, lr, {} + {Off(bs, k)} + {Off(bs, k + 1)} + {Off(bs, k - 1)})
    requires sz == bs[k - 1].size + (bs[k].size + bs[k + 1].size)
    ensures MergeLo(bs, k) == k - 1 && MergeHi(bs, k) == k + 2
    ensures var p := Off(bs, k - 1);
            Off(bs, k + 2) - p == sz && sz < SIZE_LIMIT && Absent(lr, p) &&
            ListsExact(CoalesceBlocks(bs, k), Push(lr, ListIndex(sz), p))
  {
    var b, n, p := Off(bs, k), Off(bs, k + 1), Off(bs, k - 1);
    RunThree(bs, k - 1, k, k + 1, k + 2);
    InsideThree(bs, k - 1, k, k + 1, k + 2);
    MergeLists(bs, lists0, lr, k, k - 1, k + 2, {} + {b} + {n} + {p}, p, sz, ListIndex(sz), Push(lr, ListIndex(sz), p));
  }

  /** Two distinct free blocks p and q, taken out of their lists one after the other. */
  lemma DropTwo(bs: seq<Tag>, lists0: seq<seq<int>>, p: int, q: int)
    requires WellSized(bs) && ListsExact(bs, lists0) && Distinct(lists0)
    requires 0 <= p < |bs| && 0 <= q < |bs| && p != q && !bs[p].alloc && !bs[q].alloc
    ensures var x, y := Off(bs, p), Off(bs, q);
            var l1 := Drop(lists0, ListIndex(bs[p].size), x);
            x in lists0[ListIndex(bs[p].size)] && y in l1[ListIndex(bs[q].size)] &&
            Removed(lists0, Drop(l1, ListIndex(bs[q].size), y), {} + {x} + {y})
  {
    var x, y := Off(bs, p), Off(bs, q);
    var l1 := Drop(lists0, ListIndex(bs[p].size), x);
    OffDistinct(bs, p, q);
    RemovedNone(lists0);
    DropStep(bs, lists0, lists0, {}, p);
    DropStep(bs, lists0, l1, {} + {x}, q);
  }

  /** The header offsets of two consecutive blocks p and q, in either order, cover their run. */
  lemma InsideTwo(bs: seq<Tag>, p: int, q: int, r: int)
    requires WellSized(bs) && 0 <= p && q == p + 1 && r == p + 2 && r <= |bs|
    ensures Inside(bs, {} + {Off(bs, p)} + {Off(bs, q)}, p, r)
    ensures Inside(bs, {} + {Off(bs, q)} + {Off(bs, p)}, p, r)
  {
    OffNext(bs, p);
    OffNext(bs, q);
  }

  /** The header offsets of three consecutive blocks p, q, r, middle one first, cover their run. */
  lemma InsideThree(bs: seq<Tag>, p: int, q: int, r: int, t: int)
    requires WellSized(bs) && 0 <= p && q == p + 1 && r == p + 2 && t == p + 3 && t <= |bs|
    ensures Inside(bs, {} + {Off(bs, q)} + {Off(bs, r)} + {Off(bs, p)}, p, t)
  {
    OffNext(bs, p);
    OffNext(bs, q);
    OffNext(bs, r);
  }

  /** Three consecutive blocks p, q, r span their sizes' sum, which fits the 31-bit size field. */
  lemma RunThree(bs: seq<Tag>, p: int, q: int, r: int, t: int)
    requires WellSized(bs) && Off(bs, |bs|) < SIZE_LIMIT
    requires 0 <= p && q == p + 1 && r == p + 2 && t == p + 3 && t <= |bs|
    ensures Off(bs, p) < Off(bs, q) < Off(bs, r) < Off(bs, t)
    ensures Off(bs, t) - Off(bs, p) == bs[p].size + (bs[q].size + bs[r].size) < SIZE_LIMIT
  {
    OffNext(bs, p);
    OffNext(bs, q);
    OffNext(bs, r);
    SpanBetween(bs, p, t);
  }

  /** Three distinct free blocks p, q and r, taken out of their lists one after the other. */
  lemma DropThree(bs: seq<Tag>, lists0: seq<seq<int>>, p: int, q: int, r: int)
    requires WellSized(bs) && ListsExact(bs, lists0) && Distinct(lists0)
    requires 0 <= p < |bs| && 0 <= q < |bs| && 0 <= r < |bs| && p != q && q != r && p != r
    requires !bs[p].alloc && !bs[q].alloc && !bs[r].alloc
    ensures var x, y, z := Off(bs, p), Off(bs, q), Off(bs, r);
            var l1 := Drop(lists0, ListIndex(bs[p].size), x);
            var l2 := Drop(l1, ListIndex(bs[q].size), y);
            x in lists0[ListIndex(bs[p].size)] && y in l1[ListIndex(bs[q].size)] && z in l2[ListIndex(bs[r].size)] &&
            Removed(lists0, Drop(l2, ListIndex(bs[r].size), z), {} + {x} + {y} + {z})
  {
    var x, y, z := Off(bs, p), Off(bs, q), Off(bs, r);
    var l1 := Drop(lists0, ListIndex(bs[p].size), x);
    var l2 := Drop(l1, ListIndex(bs[q].size), y);
    OffDistinct(bs, p, q);
    OffDistinct(bs, q, r);
    OffDistinct(bs, p, r);
    RemovedNone(lists0);
    DropStep(bs, lists0, lists0, {}, p);
    DropStep(bs, lists0, l1, {} + {x}, q);
    DropStep(bs, lists0, l2, {} + {x} + {y}, r);
  }

  /** Different blocks start at different offsets. */
  lemma OffDistinct(bs: seq<Tag>, p: int, q: int)
    requires WellSized(bs) && 0 <= p < |bs| && 0 <= q < |bs| && p != q
    ensures Off(bs, p) != Off(bs, q)
  {
    if p < q {
      OffMono(bs, p, q);
    } else {
      OffMono(bs, q, p);
    }
  }
}
