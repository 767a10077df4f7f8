/**
 * The allocator of mm.c: a boundary-tag heap with eleven segregated free lists,
 * first-fit placement with splitting, and immediate coalescing on free.
 *
 * The arena is modelled by the tag words written into it (`tags`, by byte offset
 * from the prologue), the link words of the free blocks (`next`, `prev`) and the
 * list heads (`segList`).  The memory provider `mem_sbrk` hands out bytes until
 * `capacity` is reached.  The ghost fields `blocks` and `lists` are the views the
 * invariant ties the concrete words to.
 */
module MM {
  import opened Wrappers
  import opened BlockLayout
  import opened SizeClass
  import opened FreeLists
  import opened Membership
  import opened Heap
  import opened Placement
  import opened Coalescing
  import opened Adjusting

  class Allocator {
    /** The most bytes mem_sbrk will ever hand out. */
    const capacity: int
    /** Bytes handed out so far: the arena is [0, brk). */
    var brk: int
    /** Tag words written into the arena, by offset. */
    var tags: map<int, Tag>
    /** The body.next and body.prev words of free blocks, by header offset. */
    var next: Links
    var prev: Links
    /** segList: the head of each free list. */
    const segList: array<Option<int>>
    /** The blocks between prologue and epilogue, in address order. */
    ghost var blocks: seq<Tag>
    /** The members of each free list, from head to tail. */
    ghost var lists: seq<seq<int>>

    /** The heap is laid out as `blocks` says and the free lists hold exactly its free blocks. */
    ghost predicate Core()
      reads this, segList
    {
      segList.Length == LISTNUM && capacity < SIZE_LIMIT && brk <= capacity &&
      Layout(tags, blocks, brk) && LinksOk(segList[..], next, prev, lists) && ListsExact(blocks, lists)
    }

    /** Core, and coalescing has left no two free blocks next to each other. */
    ghost predicate Valid()
      reads this, segList
    {
      Core() && NoAdjacentFree(blocks)
    }

    /** A memory provider that can hand out `capacity` bytes, before mm_init. */
    constructor(capacity: int)
      requires 0 <= capacity < SIZE_LIMIT
      ensures this.capacity == capacity && brk == 0 && fresh(segList) && segList.Length == LISTNUM
    {
      this.capacity := capacity;
      brk := 0;
      tags := map[];
      next := map[];
      prev := map[];
      segList := new Option<int>[LISTNUM](_ => None);
      blocks := [];
      lists := [];
    }

    /**
     * mem_sbrk: grow the arena by incr bytes and return the old end, or fail, changing
     * nothing, when that would take it past the provider's capacity.
     */
    method MemSbrk(incr: int) returns (r: Option<int>)
      modifies this`brk
      ensures incr < 0 || old(brk) + incr > capacity ==> r == None && brk == old(brk)
      ensures 0 <= incr && old(brk) + incr <= capacity ==> r == Some(old(brk)) && brk == old(brk) + incr
    {
      if incr < 0 || brk + incr > capacity {
        return None;
      }
      r := Some(brk);
      brk := brk + incr;
    }

    /** insertblock: push block b on the front of list `index`. */
    method InsertBlock(b: int, index: int)
      requires segList.Length == LISTNUM && 0 <= index < LISTNUM
      requires LinksOk(segList[..], next, prev, lists) && Absent(lists, b)
      modifies this`next, this`prev, this`lists, segList
      ensures segList[..] == old(segList[..])[index := Some(b)] && segList[index] == Some(b)
      ensures next == old(next)[b := old(segList[index])]
      ensures prev == PushPrev(old(prev), old(segList[index]), b)
      ensures lists == Push(old(lists), index, b) && LinksOk(segList[..], next, prev, lists)
    {
      PushLinks(segList[..], next, prev, lists, index, b);
      var head := segList[index];
      if head == None {
        next := next[b := None];
        prev := prev[b := None];
        segList[index] := Some(b);
      } else {
        next := next[b := head];
        prev := prev[b := None];
        prev := prev[head.value := Some(b)];
        segList[index] := Some(b);
      }
      lists := Push(lists, index, b);
    }

    /** deleteblock: unlink block b from list `index`, which holds it. */
    method DeleteBlock(b: int, index: int)
      requires segList.Length == LISTNUM && 0 <= index < LISTNUM
      requires LinksOk(segList[..], next, prev, lists) && b in lists[index]
      modifies this`next, this`prev, this`lists, segList
      ensures lists == Drop(old(lists), index, b) && LinksOk(segList[..], next, prev, lists)
    {
      ghost var heads, lists0 := segList[..], lists;
      ghost var t := DeletePosition(heads, next, prev, lists, index, b);
      ghost var L := lists[index];
      lists := lists[index := L[..t] + L[t + 1..]];
      var head := segList[index].value;
      if prev[head] == None && next[head] == None {
        DropOnly(heads, next, prev, lists0, index);
        segList[index] := None;
        assert segList[..] == heads[index := None];
      } else if b == head {
        DropHead(heads, next, prev, lists0, index);
        var n := next[b].value;
        prev := prev[n := None];
        segList[index] := Some(n);
        assert segList[..] == heads[index := Some(L[1])];
      } else if next[b] == None {
        DropTail(heads, next, prev, lists0, index);
        var p := prev[b].value;
        next := next[p := None];
        assert segList[..] == heads;
      } else {
        DropMiddle(heads, next, prev, lists0, index, t);
        var p := prev[b].value;
        var n := next[b].value;
        next := next[p := Some(n)];
        prev := prev[n := Some(p)];
        assert segList[..] == heads;
      }
    }

    /**
     * find_fit: the first block, scanning lists listIndex(asize)..10 each from head
     * to tail, that is free and holds at least asize bytes; None when there is none.
     */
    method FindFit(asize: int) returns (r: Option<int>)
      requires segList.Length == LISTNUM && MIN_BLOCK_SIZE <= asize < WORD_LIMIT
      requires LinksOk(segList[..], next, prev, lists)
      requires forall i, x :: 0 <= i < LISTNUM && x in lists[i] ==> x in tags
      ensures r == FirstFit(Candidates(lists, ListIndex(asize)), tags, asize)
    {
      var index := ListIndex(asize);
      while index <= 10
        invariant ListIndex(asize) <= index <= LISTNUM
        invariant FirstFit(Candidates(lists, ListIndex(asize)), tags, asize) ==
                  FirstFit(Candidates(lists, index), tags, asize)
        decreases LISTNUM - index
      {
        var b := segList[index];
        ghost var L := lists[index];
        ghost var t := 0;
        assert Linked(L, next, prev);
        assert L[t..] + Candidates(lists, index + 1) == Candidates(lists, index);
        while b != None
          invariant 0 <= t <= |L| && b == (if t < |L| then Some(L[t]) else None)
          invariant FirstFit(Candidates(lists, ListIndex(asize)), tags, asize) ==
                    FirstFit(L[t..] + Candidates(lists, index + 1), tags, asize)
          decreases |L| - t
        {
          var x := b.value;
          assert x in lists[index];
          FirstFitStep(L, t, Candidates(lists, index + 1), tags, asize);
          if !tags[x].alloc && asize <= tags[x].size {
            return b;
          }
          b := next[x];
          t := t + 1;
        }
        FirstFitStep(L, t, Candidates(lists, index + 1), tags, asize);
        index := index + 1;
      }
      return None;
    }

    /**
     * place: allocate the free block b (block k of the view) for a request of asize
     * bytes.  b leaves list listIndex(its old size) first; a rest of at least 32 bytes
     * is split off as a new free block at b + asize and pushed on the list of its
     * own size class, a smaller rest stays inside b as a splinter.
     */
    method Place(b: int, asize: int, ghost k: int)
      requires Core() && 0 <= k < |blocks| && b == Off(blocks, k) && !blocks[k].alloc
      requires Request(asize) && asize <= blocks[k].size
      modifies this, segList
      ensures Core() && brk == old(brk)
      ensures blocks == PlaceBlocks(old(blocks), k, asize)
      ensures NoAdjacentFree(old(blocks)) ==> NoAdjacentFree(blocks)
      ensures NoAdjacentFreeBut(old(blocks), k) && old(blocks)[k].size == asize ==> NoAdjacentFree(blocks)
    {
      ghost var bs, lists0 := blocks, lists;
      assert HasTag(tags, Off(bs, k), bs[k]);
      PlaceSpec(bs, k, asize);
      if NoAdjacentFreeBut(bs, k) && bs[k].size == asize {
        PlaceSplinterNoAdjacent(bs, k, asize);
      }
      blocks := PlaceBlocks(bs, k, asize);
      var size := tags[b].size;
      var splitSize := size - asize;
      assert splitSize == bs[k].size - asize;
      var index := ListIndex(size);
      FreeInOneList(bs, lists, k, index);
      RemovedFirst(lists, index, b);
      DeleteBlock(b, index);
      ghost var tags0, lists1 := tags, lists;
      if splitSize >= MIN_BLOCK_SIZE {
        tags := tags[b := Tag(asize, true)];
        tags := tags[GetFooter(b, asize) := Tag(asize, true)];
        var newBlock := b + asize;
        tags := tags[newBlock := Tag(splitSize, false)];
        tags := tags[GetFooter(newBlock, splitSize) := Tag(splitSize, false)];
        PlaceSplitStep(tags0, bs, brk, lists0, lists1, k, asize, tags, newBlock);
        PlaceSplitLists(bs, lists0, lists1, k, asize, newBlock, ListIndex(splitSize),
                        Push(lists1, ListIndex(splitSize), newBlock));
        InsertBlock(newBlock, ListIndex(splitSize));
      } else {
        tags := tags[b := Tag(tags[b].size, true)];
        var footer := GetFooter(b, tags[b].size);
        assert tags[footer] == bs[k];
        tags := tags[footer := Tag(tags[footer].size, true)];
        PlaceWholeStep(tags0, bs, brk, lists0, lists1, k, asize, tags);
      }
    }

    /**
     * coalesce: merge the free block b (block k of the view), which is in the list of
     * its size class, with whichever of its neighbours are free.  Every block of the
     * run leaves its list, the run becomes one free block, which joins the list of its
     * own size class, and the result is that block.
     */
    method Coalesce(b: int, ghost k: int) returns (r: int)
      requires Core() && 0 <= k < |blocks| && b == Off(blocks, k) && !blocks[k].alloc
      requires NoAdjacentFreeBut(blocks, k)
      modifies this, segList
      ensures Valid() && brk == old(brk)
      ensures blocks == CoalesceBlocks(old(blocks), k)
      ensures var lo := MergeLo(old(blocks), k);
              0 <= lo < |blocks| && r == Off(blocks, lo) && !blocks[lo].alloc &&
              old(blocks)[k].size <= blocks[lo].size
    {
      ghost var bs := blocks;
      Neighbours(tags, bs, brk, k);
      CoalesceSpec(bs, k);
      CoalesceNoAdjacent(bs, k);
      OffMono(bs, k, |bs|);
      var prevFooter := b - WSIZE;
      var nextBlock := b + tags[b].size;
      var prevBlock := prevFooter - tags[prevFooter].size + WSIZE;
      var prevAlloc := tags[prevFooter].alloc;
      var nextAlloc := tags[nextBlock].alloc;
      if prevAlloc && nextAlloc {
        CoalesceCases(bs, k);
        r := b;
      } else if prevAlloc && !nextAlloc {
        r := MergeNext(b, nextBlock, k);
      } else if !prevAlloc && nextAlloc {
        r := MergePrev(b, prevBlock, k);
      } else {
        r := MergeBoth(b, prevBlock, nextBlock, k);
      }
    }

    /**
     * The end of each merging case of coalesce: the header of the first block of the
     * run and the footer of its last block get the merged size, and the merged block
     * is pushed on the list of its size class.
     */
    method WriteMerged(x: int, size: int, ghost k: int)
      requires segList.Length == LISTNUM && capacity < SIZE_LIMIT && brk <= capacity
      requires Layout(tags, blocks, brk) && 0 <= k < |blocks| && !blocks[k].alloc
      requires x == Off(blocks, MergeLo(blocks, k)) && size == Off(blocks, MergeHi(blocks, k)) - x
      requires MIN_BLOCK_SIZE <= size < WORD_LIMIT
      requires LinksOk(segList[..], next, prev, lists) && Absent(lists, x)
      requires ListsExact(CoalesceBlocks(blocks, k), Push(lists, ListIndex(size), x))
      modifies this`tags, this`blocks, this`next, this`prev, this`lists, segList
      ensures Core() && blocks == CoalesceBlocks(old(blocks), k)
    {
      MergeLayout(tags, blocks, brk, k, x, size);
      blocks := CoalesceBlocks(blocks, k);
      tags := tags[x := Tag(size, tags[x].alloc)];
      var footer := GetFooter(x, size);
      tags := tags[footer := Tag(size, tags[footer].alloc)];
      InsertBlock(x, ListIndex(size));
    }

    /** coalesce, case 2: only the right neighbour n of b = block k is free; b absorbs it. */
    method MergeNext(b: int, n: int, ghost k: int) returns (r: int)
      requires Core() && 0 <= k < |blocks| - 1 && b == Off(blocks, k) && n == Off(blocks, k + 1)
      requires !blocks[k].alloc && !blocks[k + 1].alloc && (k == 0 || blocks[k - 1].alloc)
      modifies this, segList
      ensures Core() && brk == old(brk) && blocks == CoalesceBlocks(old(blocks), k) && r == b
    {
      ghost var bs, lists0 := blocks, lists;
      Neighbours(tags, bs, brk, k);
      ghost var l1 := Drop(lists0, ListIndex(bs[k].size), b);
      ghost var l2 := Drop(l1, ListIndex(bs[k + 1].size), n);
      DropTwo(bs, lists0, k, k + 1);
      var index := ListIndex(tags[b].size);
      DeleteBlock(b, index);
      index := ListIndex(tags[n].size);
      DeleteBlock(n, index);
      var size := tags[b].size + tags[n].size;
      assert size == bs[k].size + bs[k + 1].size;
      assert lists == l2;
      MergeNextLists(bs, lists0, l2, k, size);
      WriteMerged(b, size, k);
      r := b;
    }

    /** coalesce, case 3: only the left neighbour p of b = block k is free; p absorbs b. */
    method MergePrev(b: int, p: int, ghost k: int) returns (r: int)
      requires Core() && 0 < k < |blocks| && b == Off(blocks, k) && p == Off(blocks, k - 1)
      requires !blocks[k].alloc && !blocks[k - 1].alloc && (k == |blocks| - 1 || blocks[k + 1].alloc)
      modifies this, segList
      ensures Core() && brk == old(brk) && blocks == CoalesceBlocks(old(blocks), k) && r == p
    {
      ghost var bs, lists0 := blocks, lists;
      Neighbours(tags, bs, brk, k);
      ghost var l1 := Drop(lists0, ListIndex(bs[k].size), b);
      ghost var l2 := Drop(l1, ListIndex(bs[k - 1].size), p);
      DropTwo(bs, lists0, k, k - 1);
      var index := ListIndex(tags[b].size);
      DeleteBlock(b, index);
      index := ListIndex(tags[p].size);
      DeleteBlock(p, index);
      var size := tags[p].size + tags[b].size;
      assert size == bs[k - 1].size + bs[k].size;
      assert lists == l2;
      MergePrevLists(bs, lists0, l2, k, size);
      WriteMerged(p, size, k);
      r := p;
    }

    /** coalesce, case 4: both neighbours p and n of b = block k are free; p absorbs b and n. */
    method MergeBoth(b: int, p: int, n: int, ghost k: int) returns (r: int)
      requires Core() && 0 < k < |blocks| - 1 && b == Off(blocks, k)
      requires p == Off(blocks, k - 1) && n == Off(blocks, k + 1)
      requires !blocks[k - 1].alloc && !blocks[k].alloc && !blocks[k + 1].alloc
      modifies this, segList
      ensures Core() && brk == old(brk) && blocks == CoalesceBlocks(old(blocks), k) && r == p
    {
      ghost var bs, lists0 := blocks, lists;
      Neighbours(tags, bs, brk, k);
      ghost var l1 := Drop(lists0, ListIndex(bs[k].size), b);
      ghost var l2 := Drop(l1, ListIndex(bs[k + 1].size), n);
      ghost var l3 := Drop(l2, ListIndex(bs[k - 1].size), p);
      DropThree(bs, lists0, k, k + 1, k - 1);
      var index := ListIndex(tags[b].size);
      DeleteBlock(b, index);
      index := ListIndex(tags[n].size);
      DeleteBlock(n, index);
      index := ListIndex(tags[p].size);
      DeleteBlock(p, index);
      var size := tags[p].size + (tags[b].size + tags[n].size);
      assert size == bs[k - 1].size + (bs[k].size + bs[k + 1].size);
      assert lists == l3 && blocks == bs && brk == old(brk);
      MergeBothLists(bs, lists0, l3, k, size);
      WriteMerged(p, size, k);
      r := p;
    }

    /**
     * extend_heap: grow the arena by words * 8 bytes (a uint32_t, so taken modulo 2^32).
     * The old epilogue becomes the header of a new free block filling the new space,
     * which joins the list of its size class, and a new epilogue closes the arena.  With
     * `coal` the new block is coalesced with a free last block; without it the two may
     * stay side by side.  The result is the new (or merged) free block, block k of the
     * view, or None when the size is 0 or mem_sbrk fails.
     */
    method ExtendHeap(words: int, coal: bool) returns (r: Option<int>, ghost k: int)
      requires Valid() && 0 <= words
      requires var size := words * 8 % WORD_LIMIT; size == 0 || MIN_BLOCK_SIZE <= size
      modifies this, segList
      ensures var size := words * 8 % WORD_LIMIT;
              (r == None <==> size == 0 || old(brk) + size > capacity) &&
              (r == None ==> unchanged(this) && unchanged(segList) && Valid()) &&
              (r.Some? ==> brk == old(brk) + size && 0 <= k < |blocks| && r.value == Off(blocks, k) &&
                           !blocks[k].alloc && size <= blocks[k].size) &&
              (r.Some? && !coal ==> Core() && blocks == old(blocks) + [Tag(size, false)] && k == |old(blocks)| &&
                                    NoAdjacentFreeBut(blocks, k)) &&
              (r.Some? && coal ==> Valid() && blocks == CoalesceBlocks(old(blocks) + [Tag(size, false)], |old(blocks)|) &&
                                   k == MergeLo(old(blocks) + [Tag(size, false)], |old(blocks)|))
    {
      var size := words * 8 % WORD_LIMIT;
      if size == 0 {
        return None, 0;
      }
      WordsAligned(words);
      ghost var bs := blocks;
      var block := GrowArena(size);
      if block == None {
        return None, 0;
      }
      k := |bs|;
      if coal {
        var merged := Coalesce(block.value, k);
        k := MergeLo(bs + [Tag(size, false)], k);
        assert merged == Off(blocks, k) && !blocks[k].alloc && size <= blocks[k].size;
        r := Some(merged);
      } else {
        r := block;
      }
    }

    /**
     * The part of extend_heap before its final coalesce: take `size` bytes from
     * mem_sbrk, turn the old epilogue into the header of a free block filling them,
     * insert that block into its list and write a new epilogue after it.
     */
    method GrowArena(size: int) returns (r: Option<int>)
      requires Valid() && MIN_BLOCK_SIZE <= size < WORD_LIMIT && size % 8 == 0
      modifies this, segList
      ensures r == None <==> old(brk) + size > capacity
      ensures r == None ==> unchanged(this) && unchanged(segList)
      ensures r.Some? ==> Core() && brk == old(brk) + size && blocks == old(blocks) + [Tag(size, false)] &&
                          r.value == Off(blocks, |old(blocks)|) && NoAdjacentFreeBut(blocks, |old(blocks)|)
    {
      ghost var bs, lists0, brk0 := blocks, lists, brk;
      OffMono(bs, 0, |bs|);
      var p := MemSbrk(size);
      if p == None {
        return None;
      }
      var block := p.value - WSIZE;
      var m := Tag(size, false);
      var footer := GetFooter(block, size);
      ghost var t2 := tags[block := m][footer := m][footer + WSIZE := EPILOGUE];
      ExtendLayout(tags, bs, brk0, t2, m);
      ExtendLists(bs, lists0, m, ListIndex(size), Push(lists0, ListIndex(size), block));
      AppendNoAdjacentBut(bs, m);
      tags := tags[block := m];
      tags := tags[footer := m];
      blocks := bs + [m];
      InsertBlock(block, ListIndex(size));
      tags := tags[footer + WSIZE := EPILOGUE];
      assert block == Off(blocks, |bs|);
      r := Some(block);
    }

    /**
     * mm_init: clear the eleven list heads, take CHUNKSIZE bytes from mem_sbrk and lay
     * them out as the prologue, one free block of CHUNKSIZE - 16 bytes, the only member
     * of list 10, and the epilogue.  Returns -1 when mem_sbrk fails.
     */
    method MmInit() returns (r: int)
      requires segList.Length == LISTNUM && 0 <= capacity < SIZE_LIMIT && brk == 0
      modifies this, segList
      ensures r == 0 || r == -1
      ensures r == -1 <==> capacity < CHUNKSIZE
      ensures r == -1 ==> forall i :: 0 <= i < LISTNUM ==> segList[i] == None
      ensures r == 0 ==> Valid() && brk == CHUNKSIZE && blocks == [Tag(CHUNKSIZE - OVERHEAD, false)]
      ensures r == 0 ==> forall i :: 0 <= i < LISTNUM ==> segList[i] == if i == 10 then Some(WSIZE) else None
    {
      forall i | 0 <= i < LISTNUM {
        segList[i] := None;
      }
      var p := MemSbrk(CHUNKSIZE);
      if p == None {
        return -1;
      }
      var prologue := p.value;
      var initBlock := prologue + WSIZE;
      var m := Tag(CHUNKSIZE - OVERHEAD, false);
      var initFooter := GetFooter(initBlock, m.size);
      var epilogue := initBlock + m.size;
      tags := tags[prologue := PROLOGUE][initBlock := m][initFooter := m][epilogue := EPILOGUE];
      prev := prev[initBlock := None];
      next := next[initBlock := None];
      segList[10] := Some(initBlock);
      blocks := [m];
      InitLayout(tags, m, brk);
      lists := InitLists(initBlock);
      InitExact(m, initBlock);
      InitLinks(segList[..], next, prev, initBlock);
      r := 0;
    }

    /**
     * mm_free: mark the block of `payload` free in its header and footer, push it on
     * the list of its size class, and coalesce it with its free neighbours.  The freed
     * block ends up inside a free block of the view at least as large.
     */
    method MmFree(payload: int, ghost k: int)
      requires Valid() && 0 <= k < |blocks| && payload == Off(blocks, k) + WSIZE && blocks[k].alloc
      modifies this, segList
      ensures Valid() && brk == old(brk)
      ensures var freed := old(blocks)[k := Tag(old(blocks)[k].size, false)];
              var lo := MergeLo(freed, k);
              blocks == CoalesceBlocks(freed, k) && KeepsAllocated(freed, blocks) &&
              0 <= lo < |blocks| && !blocks[lo].alloc && old(blocks)[k].size <= blocks[lo].size
    {
      var block := payload - WSIZE;
      ghost var bs, tags0, lists0 := blocks, tags, lists;
      Neighbours(tags, bs, brk, k);
      tags := tags[block := tags[block].(alloc := false)];
      var footer := GetFooter(block, tags[block].size);
      tags := tags[footer := tags[footer].(alloc := false)];
      FreeStep(tags0, bs, brk, lists0, k, tags);
      blocks := bs[k := Tag(bs[k].size, false)];
      InsertBlock(block, ListIndex(tags[block].size));
      CoalesceKeeps(blocks, k);
      var merged := Coalesce(block, k);
    }

    /**
     * The tail shared by mm_malloc's three paths: place the request in the free block
     * b (block k) and answer its payload address.  The heap has no two adjacent free
     * blocks, or only block k has a free neighbour and is used up whole.
     */
    method PlacePayload(b: int, asize: int, ghost k: int) returns (payload: int)
      requires Core() && 0 <= k < |blocks| && b == Off(blocks, k) && !blocks[k].alloc
      requires Request(asize) && asize <= blocks[k].size
      requires NoAdjacentFree(blocks) || (NoAdjacentFreeBut(blocks, k) && blocks[k].size == asize)
      modifies this, segList
      ensures Valid() && brk == old(brk) && blocks == PlaceBlocks(old(blocks), k, asize)
      ensures k < |blocks| && payload == Off(blocks, k) + WSIZE && payload % 8 == 0 && blocks[k].alloc && asize <= blocks[k].size
    {
      PlaceSpec(blocks, k, asize);
      Place(b, asize, k);
      OffAligned(blocks, k);
      payload := b + WSIZE;
    }

    /**
     * The two places where mm_malloc extends the heap and places the request in the
     * new block: extend_heap(extendSize >> 3, coal), then place.  Without coalescing
     * the new block is exactly the request and becomes the allocated last block; with
     * it, the new block is merged with a free last block and the request is placed
     * at the start of the merged block.
     */
    method ExtendPlace(asize: int, extendSize: int, coal: bool) returns (r: Option<int>, ghost k: int)
      requires Valid() && Request(asize) && asize <= extendSize < WORD_LIMIT && extendSize % 8 == 0
      requires !coal ==> extendSize == asize
      modifies this, segList
      ensures Valid() && brk >= old(brk) && KeepsAllocated(old(blocks), blocks)
      ensures r == None <==> old(brk) + extendSize > capacity
      ensures r == None ==> unchanged(this) && unchanged(segList)
      ensures r.Some? ==> brk == old(brk) + extendSize &&
                          0 <= k < |blocks| && r.value == Off(blocks, k) + WSIZE && r.value % 8 == 0 &&
                          blocks[k].alloc && asize <= blocks[k].size
      ensures r.Some? && !coal ==> k == |old(blocks)| && blocks == old(blocks) + [Tag(asize, true)]
      ensures r.Some? && coal ==>
                var grown := old(blocks) + [Tag(extendSize, false)];
                k == MergeLo(grown, |old(blocks)|) && k < |CoalesceBlocks(grown, |old(blocks)|)| &&
                blocks == PlaceBlocks(CoalesceBlocks(grown, |old(blocks)|), k, asize)
    {
      assert extendSize / 8 * 8 % WORD_LIMIT == extendSize;
      ghost var bs, brk0 := blocks, brk;
      assert WellSized(bs) && brk0 == Off(bs, |bs|) + WSIZE;
      var block;
      block, k := ExtendHeap(extendSize / 8, coal);
      if block == None {
        return None, k;
      }
      ghost var m := Tag(extendSize, false);
      AppendKeeps(bs, m);
      if coal {
        AppendSized(bs, m);
        CoalesceKeeps(bs + [m], |bs|);
        KeepsTrans(bs, bs + [m], blocks);
      } else {
        PlaceExact(blocks, k, asize);
        assert blocks[k := Tag(asize, true)] == bs + [Tag(asize, true)];
      }
      ghost var extended := blocks;
      PlaceKeeps(extended, k, asize);
      var payload := PlacePayload(block.value, asize, k);
      KeepsTrans(bs, extended, blocks);
      r := Some(payload);
    }

    /**
     * The rest of mm_malloc after the small-request fast path: place the request in
     * the first fit of the free lists, or else extend the heap by max(asize,
     * CHUNKSIZE) bytes, coalescing with a free last block, and place it there.
     * None exactly when there is no fit and the heap cannot grow by that much.
     */
    method FitOrExtend(asize: int) returns (r: Option<int>, ghost k: int)
      requires Valid() && Request(asize) && asize < WORD_LIMIT
      modifies this, segList
      ensures Valid() && brk >= old(brk) && KeepsAllocated(old(blocks), blocks)
      ensures r.Some? ==> 0 <= k < |blocks| && r.value == Off(blocks, k) + WSIZE && r.value % 8 == 0 &&
                          blocks[k].alloc && asize <= blocks[k].size
      ensures r == None ==> unchanged(this) && unchanged(segList)
      // the first fit in the free lists
      ensures var fit := FirstFit(Candidates(old(lists), ListIndex(asize)), old(tags), asize);
              fit.Some? ==>
                r.Some? && brk == old(brk) && 0 <= k < |old(blocks)| && Off(old(blocks), k) == fit.value &&
                blocks == PlaceBlocks(old(blocks), k, asize)
      // no fit: extend by max(asize, CHUNKSIZE), coalescing with a free last block
      ensures var fit := FirstFit(Candidates(old(lists), ListIndex(asize)), old(tags), asize);
              var ext := if asize > CHUNKSIZE then asize else CHUNKSIZE;
              var grown := old(blocks) + [Tag(ext, false)];
              fit.None? && old(brk) + ext <= capacity ==>
                r.Some? && brk == old(brk) + ext && k == MergeLo(grown, |old(blocks)|) &&
                k < |CoalesceBlocks(grown, |old(blocks)|)| &&
                blocks == PlaceBlocks(CoalesceBlocks(grown, |old(blocks)|), k, asize)
      // NULL exactly when no free block can hold the request and the heap cannot grow enough
      ensures var fit := FirstFit(Candidates(old(lists), ListIndex(asize)), old(tags), asize);
              fit.None? && old(brk) + (if asize > CHUNKSIZE then asize else CHUNKSIZE) > capacity ==> r == None
      ensures r == None ==>
                (forall j :: 0 <= j < |old(blocks)| && !old(blocks)[j].alloc ==> old(blocks)[j].size < asize) &&
                old(brk) + (if asize > CHUNKSIZE then asize else CHUNKSIZE) > capacity
    {
      MembersTagged(tags, blocks, brk, lists);
      var block := FindFit(asize);
      if block != None {
        k := FitBlock(tags, blocks, brk, lists, asize, block.value);
        PlaceKeeps(blocks, k, asize);
        var payload := PlacePayload(block.value, asize, k);
        return Some(payload), k;
      }
      FitComplete(tags, blocks, brk, lists, asize);
      var extendSize := if asize > CHUNKSIZE then asize else CHUNKSIZE;
      r, k := ExtendPlace(asize, extendSize, true);
    }

    /**
     * mm_malloc: a block with room for `size` payload bytes, as its payload address
     * (header + 8), or None.  Small requests (a block of at most 64 bytes) are first
     * served by extending the heap by exactly one block, without coalescing; then
     * the free lists are searched first-fit; then the heap is extended by at least
     * CHUNKSIZE bytes, coalescing with a free last block.  Every failure leaves the
     * heap as it was.
     */
    method MmMalloc(size: int) returns (r: Option<int>, ghost k: int)
      requires Valid() && 0 <= size < SIZE_T_LIMIT
      modifies this, segList
      ensures Valid() && brk >= old(brk) && KeepsAllocated(old(blocks), blocks)
      ensures size == 0 || Adjust(size).None? ==> r == None
      ensures r.Some? ==> 0 <= k < |blocks| && r.value == Off(blocks, k) + WSIZE && r.value % 8 == 0 && blocks[k].alloc &&
                          Adjust(size).Some? && Adjust(size).value <= blocks[k].size && size + OVERHEAD <= blocks[k].size
      ensures r == None ==> unchanged(this) && unchanged(segList)
      // the fast path: one block of exactly asize bytes at the end of the heap
      ensures size != 0 && Adjust(size).Some? ==>
                var asize := Adjust(size).value;
                asize <= 64 && old(brk) + asize <= capacity ==>
                  r.Some? && k == |old(blocks)| && brk == old(brk) + asize && blocks == old(blocks) + [Tag(asize, true)]
      // the first fit in the free lists
      ensures size != 0 && Adjust(size).Some? ==>
                var asize := Adjust(size).value;
                var fit := FirstFit(Candidates(old(lists), ListIndex(asize)), old(tags), asize);
                !(asize <= 64 && old(brk) + asize <= capacity) && fit.Some? ==>
                  r.Some? && brk == old(brk) && 0 <= k < |old(blocks)| && Off(old(blocks), k) == fit.value &&
                  blocks == PlaceBlocks(old(blocks), k, asize)
      // no fit: extend by max(asize, CHUNKSIZE), coalescing with a free last block
      ensures size != 0 && Adjust(size).Some? ==>
                var asize := Adjust(size).value;
                var fit := FirstFit(Candidates(old(lists), ListIndex(asize)), old(tags), asize);
                var ext := if asize > CHUNKSIZE then asize else CHUNKSIZE;
                var grown := old(blocks) + [Tag(ext, false)];
                !(asize <= 64 && old(brk) + asize <= capacity) && fit.None? && old(brk) + ext <= capacity ==>
                  r.Some? && brk == old(brk) + ext && k == MergeLo(grown, |old(blocks)|) &&
                  k < |CoalesceBlocks(grown, |old(blocks)|)| &&
                  blocks == PlaceBlocks(CoalesceBlocks(grown, |old(blocks)|), k, asize)
      // NULL for a real request: no free block can hold it and the heap cannot grow enough
      ensures r == None && size != 0 && Adjust(size).Some? ==>
                var asize := Adjust(size).value;
                (forall j :: 0 <= j < |old(blocks)| && !old(blocks)[j].alloc ==> old(blocks)[j].size < asize) &&
                old(brk) + (if asize > CHUNKSIZE then asize else CHUNKSIZE) > capacity
      // ... and conversely: no fast path, no fit and no room to grow give NULL
      ensures size != 0 && Adjust(size).Some? ==>
                var asize := Adjust(size).value;
                var fit := FirstFit(Candidates(old(lists), ListIndex(asize)), old(tags), asize);
                var ext := if asize > CHUNKSIZE then asize else CHUNKSIZE;
                !(asize <= 64 && old(brk) + asize <= capacity) && fit.None? && old(brk) + ext > capacity ==>
                  r == None
    {
      k := 0;
      if size == 0 {
        return None, k;
      }
      var adjusted := Adjust(size);
      if adjusted == None {
        return None, k;
      }
      var asize := adjusted.value;
      if asize <= 64 {
        r, k := ExtendPlace(asize, asize, false);
        if r != None {
          return;
        }
      }
      r, k := FitOrExtend(asize);
    }

    /**
     * mm_checkheap: walk from the prologue through every block to the epilogue,
     * testing the prologue, each block with checkblock, and the epilogue.  The result
     * is true when nothing would be reported; `walked` is the blocks the walk saw.
     * A walk that would leave the arena stops with false.
     */
    method CheckHeap() returns (ok: bool, ghost walked: seq<Tag>)
      ensures ok <==> HeapChecked(tags, walked) && Off(walked, |walked|) + WSIZE <= brk
      ensures Valid() ==> ok && walked == blocks
      ensures forall w :: HeapChecked(tags, w) && Off(w, |w|) + WSIZE <= brk ==> ok && walked == w
    {
      ghost var valid := Valid();
      if valid {
        LayoutChecked(tags, blocks, brk);
      }
      walked := [];
      if 0 !in tags {
        return false, walked;
      }
      var prologue := tags[0];
      ok := prologue.size == WSIZE && prologue.alloc;
      // checkblock(prologue) cannot fail: its payload is at 8 and its footer is its own header
      var o := prologue.size;
      while true
        invariant o == Off(walked, |walked|) + prologue.size - WSIZE
        invariant ok <==> HasTag(tags, 0, PROLOGUE) && BlocksChecked(tags, walked)
        invariant valid ==> ok && |walked| <= |blocks| && walked == blocks[..|walked|]
        invariant forall w :: HeapChecked(tags, w) && Off(w, |w|) + WSIZE <= brk ==>
                    ok && |walked| <= |w| && walked == w[..|walked|]
        decreases brk - o
      {
        // every walk that passes goes through the word at o next
        forall w | HeapChecked(tags, w) && Off(w, |w|) + WSIZE <= brk
          ensures o in tags && o + WSIZE <= brk
          ensures |walked| < |w| ==> tags[o] == w[|walked|] && BlockChecked(tags, o, tags[o])
          ensures |walked| == |w| ==> tags[o] == EPILOGUE
        {
          WalkNext(tags, w, walked, brk);
        }
        if valid {
          OffPrefix(blocks, |walked|, |walked|);
          OffMono(blocks, |walked|, |blocks|);
        }
        if o !in tags || brk < o + WSIZE {
          return false, walked;
        }
        var t := tags[o];
        if t.size <= 0 {
          break;
        }
        if (o + WSIZE) % 8 != 0 {
          ok := false;
        }
        var footer := GetFooter(o, t.size);
        if footer !in tags || tags[footer].size != t.size {
          ok := false;
        }
        CheckedAppend(tags, walked, t);
        OffNext(walked + [t], |walked|);
        OffPrefix(walked + [t], |walked|, |walked|);
        assert (walked + [t])[..|walked|] == walked;
        walked := walked + [t];
        o := o + t.size;
      }
      if tags[o].size != 0 || !tags[o].alloc {
        ok := false;
      }
    }
  }
}
