/**
 * Which blocks the free lists hold: every free block is in exactly the list
 * listIndex(its size), and the lists hold nothing else.  Blocks are identified by
 * the offset of their header, which stays fixed while other blocks are split or
 * merged around them.  The free blocks of one size class form a set, built up
 * block by block in address order, and each list's members must be that set.
 */
module Membership {
  import opened BlockLayout
  import opened SizeClass
  import opened FreeLists

  /** Block k is free and its size puts it in list c. */
  ghost predicate FreeIn(bs: seq<Tag>, k: int, c: int)
  {
    0 <= k < |bs| && !bs[k].alloc && 1 <= bs[k].size < WORD_LIMIT && ListIndex(bs[k].size) == c
  }

  /** The header offsets of the blocks among p..q-1 that are free and belong in list c. */
  ghost function FreeBetween(bs: seq<Tag>, p: int, q: int, c: int): set<int>
    requires 0 <= p <= q <= |bs|
    decreases q - p
  {
    if p == q then {}
    else FreeBetween(bs, p, q - 1, c) + (if FreeIn(bs, q - 1, c) then {Off(bs, q - 1)} else {})
  }

  /** The header offsets of all free blocks that belong in list c. */
  ghost function FreeSet(bs: seq<Tag>, c: int): set<int>
  {
    FreeBetween(bs, 0, |bs|, c)
  }

  ghost function Members(l: seq<int>): set<int>
  {
    set x | x in l
  }

  /** The free lists hold exactly the free blocks, each in the list of its size class. */
  ghost predicate ListsExact(bs: seq<Tag>, lists: seq<seq<int>>)
  {
    |lists| == LISTNUM && forall c {:trigger FreeSet(bs, c)} :: 0 <= c < LISTNUM ==> Members(lists[c]) == FreeSet(bs, c)
  }

  /** lists1 is lists with the members in `gone` taken out and nothing else changed in membership. */
  ghost predicate Removed(lists: seq<seq<int>>, lists1: seq<seq<int>>, gone: set<int>)
  {
    |lists| == LISTNUM && |lists1| == LISTNUM &&
    forall c {:trigger Members(lists1[c])} :: 0 <= c < LISTNUM ==> Members(lists1[c]) == Members(lists[c]) - gone
  }

  /** Offsets that lie inside a run of blocks and cover every block of it. */
  ghost predicate Inside(bs: seq<Tag>, gone: set<int>, i: int, j: int)
    requires 0 <= i <= j <= |bs|
  {
    (forall p :: i <= p < j ==> Off(bs, p) in gone) &&
    (forall x :: x in gone ==> Off(bs, i) <= x < Off(bs, j))
  }

  lemma {:induction false} FreeBetweenJoin(bs: seq<Tag>, p: int, q: int, r: int, c: int)
    requires 0 <= p <= q <= r <= |bs|
    ensures FreeBetween(bs, p, r, c) == FreeBetween(bs, p, q, c) + FreeBetween(bs, q, r, c)
    decreases r - q
  {
    if q < r {
      FreeBetweenJoin(bs, p, q, r - 1, c);
    }
  }

  /** The free blocks among p..q-1 start between Off(p) and Off(q). */
  lemma {:induction false} FreeBetweenRange(bs: seq<Tag>, p: int, q: int, c: int, x: int)
    requires WellSized(bs) && 0 <= p <= q <= |bs| && x in FreeBetween(bs, p, q, c)
    ensures Off(bs, p) <= x < Off(bs, q)
    decreases q - p
  {
    OffNext(bs, q - 1);
    if x in FreeBetween(bs, p, q - 1, c) {
      FreeBetweenRange(bs, p, q - 1, c, x);
    } else {
      OffMono(bs, p, q - 1);
    }
  }

  /** Every member of FreeBetween is the offset of a free block of class c. */
  lemma {:induction false} FreeBetweenWitness(bs: seq<Tag>, p: int, q: int, c: int, x: int) returns (k: int)
    requires 0 <= p <= q <= |bs| && x in FreeBetween(bs, p, q, c)
    ensures p <= k < q && FreeIn(bs, k, c) && Off(bs, k) == x
    decreases q - p
  {
    if x in FreeBetween(bs, p, q - 1, c) {
      k := FreeBetweenWitness(bs, p, q - 1, c, x);
    } else {
      k := q - 1;
    }
  }

  /** The blocks in front of a splice keep their free sets. */
  lemma {:induction false} FreeBetweenHead(bs: seq<Tag>, bs2: seq<Tag>, i: int, j: int, mid: seq<Tag>, p: int, c: int)
    requires 0 <= i <= j <= |bs| && bs2 == bs[..i] + mid + bs[j..] && 0 <= p <= i
    ensures FreeBetween(bs2, 0, p, c) == FreeBetween(bs, 0, p, c)
  {
    if p > 0 {
      FreeBetweenHead(bs, bs2, i, j, mid, p - 1, c);
      OffSpliceHead(bs, bs2, i, j, mid, p - 1);
      assert bs2[p - 1] == bs[p - 1];
    }
  }

  /** The blocks behind a splice keep their free sets, at their new positions. */
  lemma {:induction false} FreeBetweenTail(bs: seq<Tag>, bs2: seq<Tag>, i: int, j: int, mid: seq<Tag>, q: int, c: int)
    requires 0 <= i <= j <= q <= |bs| && bs2 == bs[..i] + mid + bs[j..]
    requires Off(bs, i) + Span(mid) == Off(bs, j)
    ensures FreeBetween(bs2, i + |mid|, q + |mid| - (j - i), c) == FreeBetween(bs, j, q, c)
    decreases q - j
  {
    if q > j {
      FreeBetweenTail(bs, bs2, i, j, mid, q - 1, c);
      OffSpliceTail(bs, bs2, i, j, mid, q - 1);
      assert bs2[q - 1 + |mid| - (j - i)] == bs[q - 1];
    }
  }

  /** The spliced-in blocks `mid`, of which only mid[u0] may be free, contribute at most mid[u0]. */
  lemma {:induction false} FreeBetweenMid(bs: seq<Tag>, bs2: seq<Tag>, i: int, j: int, mid: seq<Tag>,
                                          m: int, u0: int, c: int)
    requires 0 <= i <= j <= |bs| && bs2 == bs[..i] + mid + bs[j..] && 0 <= m <= |mid|
    requires forall u :: 0 <= u < |mid| && u != u0 ==> mid[u].alloc
    ensures FreeBetween(bs2, i, i + m, c) ==
            if 0 <= u0 < m && FreeIn(mid, u0, c) then {Off(bs, i) + SpanTo(mid, u0)} else {}
  {
    if m > 0 {
      FreeBetweenMid(bs, bs2, i, j, mid, m - 1, u0, c);
      assert bs2[i + (m - 1)] == mid[m - 1];
      if m - 1 == u0 {
        OffSpliceMid(bs, bs2, i, j, mid, u0);
      }
    }
  }

  /** Splicing blocks i..j-1 into `mid` trades their free blocks for those of `mid`. */
  lemma SpliceFreeSet(bs: seq<Tag>, bs2: seq<Tag>, i: int, j: int, mid: seq<Tag>, c: int)
    requires 0 <= i <= j <= |bs| && bs2 == bs[..i] + mid + bs[j..]
    requires WellSized(bs) && Off(bs, i) + Span(mid) == Off(bs, j)
    ensures FreeSet(bs2, c) == (FreeSet(bs, c) - FreeBetween(bs, i, j, c)) + FreeBetween(bs2, i, i + |mid|, c)
  {
    var n, n2 := |bs|, |bs2|;
    FreeBetweenJoin(bs, 0, i, n, c);
    FreeBetweenJoin(bs, i, j, n, c);
    FreeBetweenJoin(bs2, 0, i, n2, c);
    FreeBetweenJoin(bs2, i, i + |mid|, n2, c);
    FreeBetweenHead(bs, bs2, i, j, mid, i, c);
    FreeBetweenTail(bs, bs2, i, j, mid, n, c);
    var a, b, d := FreeBetween(bs, 0, i, c), FreeBetween(bs, i, j, c), FreeBetween(bs, j, n, c);
    forall x | x in b ensures x !in a && x !in d {
      FreeBetweenRange(bs, i, j, c, x);
      if x in a {
        FreeBetweenRange(bs, 0, i, c, x);
      }
      if x in d {
        FreeBetweenRange(bs, j, n, c, x);
      }
    }
    assert (a + b + d) - b == a + d;
  }

  /** A free block of class c in the address range of blocks i..j-1 is one of those blocks. */
  lemma FreeSetInRange(bs: seq<Tag>, i: int, j: int, c: int, x: int)
    requires WellSized(bs) && 0 <= i <= j <= |bs| && x in FreeSet(bs, c) && Off(bs, i) <= x < Off(bs, j)
    ensures x in FreeBetween(bs, i, j, c)
  {
    FreeBetweenJoin(bs, 0, i, |bs|, c);
    FreeBetweenJoin(bs, i, j, |bs|, c);
    if x in FreeBetween(bs, 0, i, c) {
      FreeBetweenRange(bs, 0, i, c, x);
    } else if x in FreeBetween(bs, j, |bs|, c) {
      FreeBetweenRange(bs, j, |bs|, c, x);
    }
  }

  /** Block k's offset is in the free set of class c exactly when block k is free and of class c. */
  lemma FreeSetHas(bs: seq<Tag>, k: int, c: int)
    requires WellSized(bs) && 0 <= k < |bs|
    ensures Off(bs, k) in FreeSet(bs, c) <==> FreeIn(bs, k, c)
  {
    OffNext(bs, k);
    FreeBetweenJoin(bs, 0, k + 1, |bs|, c);
    if Off(bs, k) in FreeSet(bs, c) && !FreeIn(bs, k, c) {
      if Off(bs, k) in FreeBetween(bs, 0, k, c) {
        FreeBetweenRange(bs, 0, k, c, Off(bs, k));
      } else {
        FreeBetweenRange(bs, k + 1, |bs|, c, Off(bs, k));
      }
    }
  }

  /** A free block is exactly one list's member: the list of its size class. */
  lemma FreeInOneList(bs: seq<Tag>, lists: seq<seq<int>>, k: int, c: int)
    requires WellSized(bs) && ListsExact(bs, lists) && 0 <= k < |bs| && 0 <= c < LISTNUM
    requires !bs[k].alloc
    ensures Off(bs, k) in lists[c] <==> c == ListIndex(bs[k].size)
  {
    FreeSetHas(bs, k, c);
    assert Off(bs, k) in lists[c] <==> Off(bs, k) in Members(lists[c]);
  }

  /** An allocated block is in no list. */
  lemma AllocatedInNoList(bs: seq<Tag>, lists: seq<seq<int>>, k: int, c: int)
    requires WellSized(bs) && ListsExact(bs, lists) && 0 <= k < |bs| && 0 <= c < LISTNUM
    requires bs[k].alloc
    ensures Off(bs, k) !in lists[c]
  {
    FreeSetHas(bs, k, c);
    assert Off(bs, k) !in Members(lists[c]);
  }

  /** Every list member is the header offset of a free block of that list's class. */
  lemma MemberBlock(bs: seq<Tag>, lists: seq<seq<int>>, c: int, x: int) returns (k: int)
    requires ListsExact(bs, lists) && 0 <= c < LISTNUM && x in lists[c]
    ensures FreeIn(bs, k, c) && Off(bs, k) == x
  {
    assert x in Members(lists[c]) && Members(lists[c]) == FreeSet(bs, c);
    k := FreeBetweenWitness(bs, 0, |bs|, c, x);
  }

  lemma MembersWithout(l: seq<int>, x: int)
    ensures Members(Without(l, x)) == Members(l) - {x}
  {
    forall y ensures y in Members(Without(l, x)) <==> y in Members(l) - {x} {
      WithoutMember(l, x, y);
    }
  }

  lemma RemovedNone(lists: seq<seq<int>>)
    requires |lists| == LISTNUM
    ensures Removed(lists, lists, {})
  {
  }

  /** Dropping a member b from its list takes out b and nothing else. */
  lemma RemovedFirst(lists: seq<seq<int>>, i: int, b: int)
    requires |lists| == LISTNUM && Distinct(lists) && 0 <= i < LISTNUM && b in lists[i]
    ensures Removed(lists, Drop(lists, i, b), {b})
  {
    RemovedDrop(lists, lists, {}, i, b);
    assert {} + {b} == {b};
  }

  /** Dropping a member b from its list adds b to what has been taken out. */
  lemma RemovedDrop(lists: seq<seq<int>>, lists1: seq<seq<int>>, gone: set<int>, i: int, b: int)
    requires Removed(lists, lists1, gone) && Distinct(lists1) && 0 <= i < LISTNUM && b in lists1[i]
    ensures Removed(lists, Drop(lists1, i, b), gone + {b})
  {
    var s := IndexOf(lists1[i], b);
    forall c | 0 <= c < LISTNUM
      ensures Members(Drop(lists1, i, b)[c]) == Members(lists[c]) - (gone + {b})
    {
      if c == i {
        MembersWithout(lists1[i], b);
      } else {
        OnlyIn(lists1, i, b, c);
        assert b !in Members(lists1[c]);
      }
    }
  }

  /** Taking members out never adds one: what was in no list, or was taken out, is in no list. */
  lemma RemovedAbsent(lists: seq<seq<int>>, lists1: seq<seq<int>>, gone: set<int>, x: int)
    requires Removed(lists, lists1, gone) && (Absent(lists, x) || x in gone)
    ensures Absent(lists1, x)
  {
    forall c | 0 <= c < |lists1| ensures x !in lists1[c] {
      assert x !in Members(lists1[c]);
    }
  }

  /**
   * Splicing blocks i..j-1 into `mid` keeps the lists exact when the lists lose
   * the spliced blocks (`gone`), keep every other member, and gain exactly the
   * free blocks of `mid`.
   */
  lemma SpliceLists(bs: seq<Tag>, lists: seq<seq<int>>, bs2: seq<Tag>, lr: seq<seq<int>>, lists2: seq<seq<int>>,
                    i: int, j: int, mid: seq<Tag>, gone: set<int>)
    requires 0 <= i <= j <= |bs| && bs2 == bs[..i] + mid + bs[j..]
    requires WellSized(bs) && Off(bs, i) + Span(mid) == Off(bs, j)
    requires ListsExact(bs, lists) && Inside(bs, gone, i, j) && Removed(lists, lr, gone)
    requires |lists2| == LISTNUM
    requires forall c :: 0 <= c < LISTNUM ==>
               Members(lists2[c]) == Members(lr[c]) + FreeBetween(bs2, i, i + |mid|, c)
    ensures ListsExact(bs2, lists2)
  {
    forall c | 0 <= c < LISTNUM ensures Members(lists2[c]) == FreeSet(bs2, c) {
      SpliceFreeSet(bs, bs2, i, j, mid, c);
      var f, g := FreeSet(bs, c), FreeBetween(bs, i, j, c);
      forall x | x in f ensures x in gone <==> x in g {
        if x in gone {
          FreeSetInRange(bs, i, j, c, x);
        }
        if x in g {
          var p := FreeBetweenWitness(bs, i, j, c, x);
        }
      }
      assert f - gone == f - g;
    }
  }

  /**
   * A free block p that has not been taken out yet is still in the list of its size
   * class; deleting it from there adds it to what has been taken out.
   */
  lemma DropStep(bs: seq<Tag>, lists0: seq<seq<int>>, l: seq<seq<int>>, gone: set<int>, p: int)
    requires WellSized(bs) && ListsExact(bs, lists0) && Removed(lists0, l, gone) && Distinct(l)
    requires 0 <= p < |bs| && !bs[p].alloc && Off(bs, p) !in gone
    ensures var c, x := ListIndex(bs[p].size), Off(bs, p);
            0 <= c < LISTNUM && x in l[c] &&
            Removed(lists0, Drop(l, c, x), gone + {x}) && Distinct(Drop(l, c, x))
  {
    var c, x := ListIndex(bs[p].size), Off(bs, p);
    FreeInOneList(bs, lists0, p, c);
    assert x in Members(l[c]);
    RemovedDrop(lists0, l, gone, c, x);
    DropDistinct(l, c, x);
  }
}
