/**
 * The segregated free-list table (mm.c segList, insertblock, deleteblock).
 *
 * Eleven doubly-linked lists of free blocks.  The concrete state is the array
 * of list heads and the `next` / `prev` link words stored in each free block;
 * the abstract state is, for each list, the sequence of its members' offsets
 * from head to tail.  LinksOk says the concrete links spell out those sequences.
 */
module FreeLists {
  import opened Wrappers
  import opened SizeClass

  type Links = map<int, Option<int>>

  function HeadOf(l: seq<int>): Option<int>
  {
    if l == [] then None else Some(l[0])
  }

  function NextOf(l: seq<int>, t: int): Option<int>
    requires 0 <= t < |l|
  {
    if t + 1 < |l| then Some(l[t + 1]) else None
  }

  function PrevOf(l: seq<int>, t: int): Option<int>
    requires 0 <= t < |l|
  {
    if t == 0 then None else Some(l[t - 1])
  }

  /** The link words of l's members chain them together in order, NULL-terminated at both ends. */
  ghost predicate Linked(l: seq<int>, next: Links, prev: Links)
  {
    forall t :: 0 <= t < |l| ==>
      l[t] in next && next[l[t]] == NextOf(l, t) &&
      l[t] in prev && prev[l[t]] == PrevOf(l, t)
  }

  /** No block occurs twice, within one list or across two. */
  ghost predicate Distinct(lists: seq<seq<int>>)
  {
    forall i, s, j, t {:trigger Cell(lists, i, s), Cell(lists, j, t)} ::
      (0 <= i < |lists| && 0 <= j < |lists| && 0 <= s < |lists[i]| && 0 <= t < |lists[j]| &&
       (i != j || s != t)) ==> Cell(lists, i, s) != Cell(lists, j, t)
  }

  /** Position s of list i; Distinct is stated on it so that it is used only where a proof names a cell. */
  ghost function Cell(lists: seq<seq<int>>, i: int, s: int): int
    requires 0 <= i < |lists| && 0 <= s < |lists[i]|
  {
    lists[i][s]
  }

  ghost predicate LinksOk(heads: seq<Option<int>>, next: Links, prev: Links, lists: seq<seq<int>>)
  {
    |heads| == LISTNUM && |lists| == LISTNUM &&
    (forall i {:trigger heads[i]} :: 0 <= i < LISTNUM ==> heads[i] == HeadOf(lists[i])) &&
    (forall i {:trigger Linked(lists[i], next, prev)} :: 0 <= i < LISTNUM ==> Linked(lists[i], next, prev)) &&
    Distinct(lists)
  }

  ghost predicate Absent(lists: seq<seq<int>>, b: int)
  {
    forall i :: 0 <= i < |lists| ==> b !in lists[i]
  }

  /** The position of the first occurrence of x in l. */
  function IndexOf(l: seq<int>, x: int): (r: int)
    requires x in l
    ensures 0 <= r < |l| && l[r] == x
  {
    if l[0] == x then 0 else 1 + IndexOf(l[1..], x)
  }

  /** l with every occurrence of x taken out. */
  function Without(l: seq<int>, x: int): (r: seq<int>)
    ensures |r| <= |l|
  {
    if l == [] then [] else if l[0] == x then Without(l[1..], x) else [l[0]] + Without(l[1..], x)
  }

  /** The list table after insertblock(b, i): b is the new head of list i. */
  function Push(lists: seq<seq<int>>, i: int, b: int): seq<seq<int>>
    requires 0 <= i < |lists|
  {
    lists[i := [b] + lists[i]]
  }

  /** The list table after deleteblock(b, i): b is gone from list i. */
  function Drop(lists: seq<seq<int>>, i: int, b: int): seq<seq<int>>
    requires 0 <= i < |lists|
  {
    lists[i := Without(lists[i], b)]
  }

  /** Without removes x and nothing else. */
  lemma {:induction false} WithoutMember(l: seq<int>, x: int, y: int)
    ensures y in Without(l, x) <==> y in l && y != x
  {
    if l != [] {
      WithoutMember(l[1..], x, y);
      assert l == [l[0]] + l[1..];
    }
  }

  /** In a list without repetitions, removing x removes exactly the one position holding it. */
  lemma {:induction false} WithoutAt(l: seq<int>, t: int)
    requires 0 <= t < |l| && forall s :: 0 <= s < |l| && s != t ==> l[s] != l[t]
    ensures Without(l, l[t]) == l[..t] + l[t + 1..]
  {
    var x := l[t];
    if t == 0 {
      WithoutNone(l[1..], x);
    } else {
      assert l[0] != x;
      WithoutAt(l[1..], t - 1);
      assert l[1..][t - 1] == x;
      assert l[1..][..t - 1] == l[1..t];
      assert l[1..][t..] == l[t + 1..];
      assert l[..t] == [l[0]] + l[1..t];
    }
  }

  lemma {:induction false} WithoutNone(l: seq<int>, x: int)
    requires x !in l
    ensures Without(l, x) == l
  {
    if l != [] {
      assert l[1..] == l[1..];
      WithoutNone(l[1..], x);
      assert l == [l[0]] + l[1..];
    }
  }

  /** A list stays linked when the link words of its members are not touched. */
  lemma LinkedFrame(l: seq<int>, next: Links, prev: Links, next2: Links, prev2: Links)
    requires Linked(l, next, prev)
    requires forall t :: 0 <= t < |l| ==>
               l[t] in next2 && next2[l[t]] == next[l[t]] && l[t] in prev2 && prev2[l[t]] == prev[l[t]]
    ensures Linked(l, next2, prev2)
  {
  }

  /** prev after insertblock: b has no predecessor and the old head, if any, points back at b. */
  function PushPrev(prev: Links, head: Option<int>, b: int): Links
  {
    match head
    case None => prev[b := None]
    case Some(h) => prev[b := None][h := Some(b)]
  }

  /** insertblock keeps every list linked and makes b the head of list i. */
  lemma PushLinks(heads: seq<Option<int>>, next: Links, prev: Links, lists: seq<seq<int>>, i: int, b: int)
    requires LinksOk(heads, next, prev, lists) && 0 <= i < LISTNUM && Absent(lists, b)
    ensures LinksOk(heads[i := Some(b)], next[b := heads[i]], PushPrev(prev, heads[i], b), Push(lists, i, b))
  {
    var L := lists[i];
    var heads2, next2, prev2, lists2 := heads[i := Some(b)], next[b := heads[i]], PushPrev(prev, heads[i], b), Push(lists, i, b);
    forall j | 0 <= j < LISTNUM
      ensures heads2[j] == HeadOf(lists2[j]) && Linked(lists2[j], next2, prev2)
    {
      if j != i {
        assert Linked(lists[j], next, prev);
        forall t | 0 <= t < |lists[j]|
          ensures lists[j][t] in next2 && next2[lists[j][t]] == next[lists[j][t]] &&
                  lists[j][t] in prev2 && prev2[lists[j][t]] == prev[lists[j][t]]
        {
          assert lists[j][t] != b;
          if L != [] {
            assert Cell(lists, i, 0) != Cell(lists, j, t);
          }
        }
        LinkedFrame(lists[j], next, prev, next2, prev2);
      } else {
        PushLinkedSelf(heads, next, prev, lists, i, b);
      }
    }
    PushDistinct(lists, i, b);
  }

  lemma PushLinkedSelf(heads: seq<Option<int>>, next: Links, prev: Links, lists: seq<seq<int>>, i: int, b: int)
    requires LinksOk(heads, next, prev, lists) && 0 <= i < LISTNUM && Absent(lists, b)
    ensures Linked([b] + lists[i], next[b := heads[i]], PushPrev(prev, heads[i], b))
  {
    var L := lists[i];
    var L2 := [b] + L;
    var next2, prev2 := next[b := heads[i]], PushPrev(prev, heads[i], b);
    assert Linked(L, next, prev);
    forall t | 0 <= t < |L2|
      ensures L2[t] in next2 && next2[L2[t]] == NextOf(L2, t) && L2[t] in prev2 && prev2[L2[t]] == PrevOf(L2, t)
    {
      if t == 0 {
        if L != [] {
          assert L[0] != b;
        }
      } else {
        assert L2[t] == L[t - 1];
        assert L[t - 1] != b;
        if t >= 2 {
          assert Cell(lists, i, t - 1) != Cell(lists, i, 0);
        }
      }
    }
  }

  lemma PushDistinct(lists: seq<seq<int>>, i: int, b: int)
    requires 0 <= i < |lists| && Distinct(lists) && Absent(lists, b)
    ensures Distinct(Push(lists, i, b))
  {
    var lists2 := Push(lists, i, b);
    forall i1, s, j1, t |
      0 <= i1 < |lists2| && 0 <= j1 < |lists2| && 0 <= s < |lists2[i1]| && 0 <= t < |lists2[j1]| &&
      (i1 != j1 || s != t)
      ensures Cell(lists2, i1, s) != Cell(lists2, j1, t)
    {
      var s0 := if i1 == i then s - 1 else s;
      var t0 := if j1 == i then t - 1 else t;
      if s0 >= 0 && t0 >= 0 {
        assert Cell(lists2, i1, s) == Cell(lists, i1, s0) && Cell(lists2, j1, t) == Cell(lists, j1, t0);
      } else if s0 >= 0 {
        assert Cell(lists2, i1, s) == lists[i1][s0];
      } else if t0 >= 0 {
        assert Cell(lists2, j1, t) == lists[j1][t0];
      }
    }
  }

  /** Taking position t out of list i keeps the table free of repetitions. */
  lemma RemoveDistinct(lists: seq<seq<int>>, i: int, t: int)
    requires 0 <= i < |lists| && 0 <= t < |lists[i]| && Distinct(lists)
    ensures Distinct(lists[i := lists[i][..t] + lists[i][t + 1..]])
  {
    var L := lists[i];
    var lists2 := lists[i := L[..t] + L[t + 1..]];
    forall i1, s, j1, u |
      0 <= i1 < |lists2| && 0 <= j1 < |lists2| && 0 <= s < |lists2[i1]| && 0 <= u < |lists2[j1]| &&
      (i1 != j1 || s != u)
      ensures Cell(lists2, i1, s) != Cell(lists2, j1, u)
    {
      var s0 := if i1 == i && s >= t then s + 1 else s;
      var u0 := if j1 == i && u >= t then u + 1 else u;
      assert Cell(lists2, i1, s) == Cell(lists, i1, s0);
      assert Cell(lists2, j1, u) == Cell(lists, j1, u0);
    }
  }

  /** Every list other than i is untouched when only the link words of list i's members change. */
  lemma OthersLinked(next: Links, prev: Links, lists: seq<seq<int>>, i: int, next2: Links, prev2: Links, j: int,
                     changed: set<int>)
    requires |lists| == LISTNUM && 0 <= i < LISTNUM && 0 <= j < LISTNUM && i != j
    requires Distinct(lists) && Linked(lists[j], next, prev)
    requires forall x :: x in changed ==> x in lists[i]
    requires forall o :: o in next && o !in changed ==> o in next2 && next2[o] == next[o]
    requires forall o :: o in prev && o !in changed ==> o in prev2 && prev2[o] == prev[o]
    ensures Linked(lists[j], next2, prev2)
  {
    var l, mine := lists[j], lists[i];
    forall t | 0 <= t < |l|
      ensures l[t] in next2 && next2[l[t]] == NextOf(l, t) && l[t] in prev2 && prev2[l[t]] == PrevOf(l, t)
    {
      var x := l[t];
      forall s | 0 <= s < |mine| ensures mine[s] != x {
        assert Cell(lists, i, s) != Cell(lists, j, t);
      }
      assert x in changed ==> x in mine;
      assert x in next && x in prev;
    }
  }

  /** Rebuilding list i with new links for its own members only keeps the whole table consistent. */
  lemma RelinkList(heads: seq<Option<int>>, next: Links, prev: Links, lists: seq<seq<int>>, i: int, t: int,
                   heads2: seq<Option<int>>, next2: Links, prev2: Links, changed: set<int>, L2: seq<int>)
    requires LinksOk(heads, next, prev, lists) && 0 <= i < LISTNUM && 0 <= t < |lists[i]|
    requires L2 == lists[i][..t] + lists[i][t + 1..] && heads2 == heads[i := HeadOf(L2)]
    requires forall x :: x in changed ==> x in lists[i]
    requires forall o :: o in next && o !in changed ==> o in next2 && next2[o] == next[o]
    requires forall o :: o in prev && o !in changed ==> o in prev2 && prev2[o] == prev[o]
    requires Linked(L2, next2, prev2)
    ensures LinksOk(heads2, next2, prev2, lists[i := L2])
  {
    forall j | 0 <= j < LISTNUM && j != i
      ensures Linked(lists[j], next2, prev2)
    {
      OthersLinked(next, prev, lists, i, next2, prev2, j, changed);
    }
    RemoveDistinct(lists, i, t);
  }

  /** deleteblock on a one-element list: the head becomes NULL. */
  lemma DropOnly(heads: seq<Option<int>>, next: Links, prev: Links, lists: seq<seq<int>>, i: int)
    requires LinksOk(heads, next, prev, lists) && 0 <= i < LISTNUM && |lists[i]| == 1
    ensures LinksOk(heads[i := None], next, prev, lists[i := lists[i][..0] + lists[i][1..]])
  {
    RelinkList(heads, next, prev, lists, i, 0, heads[i := None], next, prev, {}, lists[i][..0] + lists[i][1..]);
  }

  /** deleteblock of the head: its successor becomes the head and loses its prev link. */
  lemma DropHead(heads: seq<Option<int>>, next: Links, prev: Links, lists: seq<seq<int>>, i: int)
    requires LinksOk(heads, next, prev, lists) && 0 <= i < LISTNUM && |lists[i]| >= 2
    ensures LinksOk(heads[i := Some(lists[i][1])], next, prev[lists[i][1] := None],
                    lists[i := lists[i][..0] + lists[i][1..]])
  {
    var L := lists[i];
    DistinctUnique(lists, i);
    LinkedCutHead(L, next, prev);
    assert HeadOf(L[..0] + L[1..]) == Some(L[1]);
    assert L[1] in lists[i];
    RelinkList(heads, next, prev, lists, i, 0, heads[i := Some(L[1])], next, prev[L[1] := None], {L[1]}, L[..0] + L[1..]);
  }

  lemma LinkedCutHead(L: seq<int>, next: Links, prev: Links)
    requires Linked(L, next, prev) && Unique(L) && |L| >= 2
    ensures Linked(L[..0] + L[1..], next, prev[L[1] := None])
  {
    var L2 := L[..0] + L[1..];
    var prev2 := prev[L[1] := None];
    forall s | 0 <= s < |L2|
      ensures L2[s] in next && next[L2[s]] == NextOf(L2, s) && L2[s] in prev2 && prev2[L2[s]] == PrevOf(L2, s)
    {
      assert L2[s] == L[s + 1];
      if s > 0 {
        assert L[s + 1] != L[1];
      }
    }
  }

  /** No repetition within one list. */
  ghost predicate Unique(l: seq<int>)
  {
    forall s, t :: 0 <= s < |l| && 0 <= t < |l| && s != t ==> l[s] != l[t]
  }

  lemma DistinctUnique(lists: seq<seq<int>>, i: int)
    requires Distinct(lists) && 0 <= i < |lists|
    ensures Unique(lists[i])
  {
    forall s, t | 0 <= s < |lists[i]| && 0 <= t < |lists[i]| && s != t ensures lists[i][s] != lists[i][t] {
      assert Cell(lists, i, s) != Cell(lists, i, t);
    }
  }

  /** deleteblock of the tail: its predecessor becomes the tail. */
  lemma DropTail(heads: seq<Option<int>>, next: Links, prev: Links, lists: seq<seq<int>>, i: int)
    requires LinksOk(heads, next, prev, lists) && 0 <= i < LISTNUM && |lists[i]| >= 2
    ensures var t := |lists[i]| - 1;
            LinksOk(heads, next[lists[i][t - 1] := None], prev, lists[i := lists[i][..t] + lists[i][t + 1..]])
  {
    var L := lists[i];
    var t := |L| - 1;
    DistinctUnique(lists, i);
    LinkedCutTail(L, next, prev);
    assert L[t - 1] in lists[i];
    RelinkList(heads, next, prev, lists, i, t, heads, next[L[t - 1] := None], prev, {L[t - 1]}, L[..t] + L[t + 1..]);
  }

  lemma LinkedCutTail(L: seq<int>, next: Links, prev: Links)
    requires Linked(L, next, prev) && Unique(L) && |L| >= 2
    ensures var t := |L| - 1; Linked(L[..t] + L[t + 1..], next[L[t - 1] := None], prev)
  {
    var t := |L| - 1;
    var L2 := L[..t] + L[t + 1..];
    var next2 := next[L[t - 1] := None];
    forall s | 0 <= s < |L2|
      ensures L2[s] in next2 && next2[L2[s]] == NextOf(L2, s) && L2[s] in prev && prev[L2[s]] == PrevOf(L2, s)
    {
      assert L2[s] == L[s];
      if s < t - 1 {
        assert L[s] != L[t - 1];
      }
    }
  }

  /** deleteblock of an interior member: its neighbours are linked to each other. */
  lemma DropMiddle(heads: seq<Option<int>>, next: Links, prev: Links, lists: seq<seq<int>>, i: int, t: int)
    requires LinksOk(heads, next, prev, lists) && 0 <= i < LISTNUM && 0 < t < |lists[i]| - 1
    ensures var L := lists[i];
            LinksOk(heads, next[L[t - 1] := Some(L[t + 1])], prev[L[t + 1] := Some(L[t - 1])],
                    lists[i := L[..t] + L[t + 1..]])
  {
    var L := lists[i];
    DistinctUnique(lists, i);
    LinkedCutMiddle(L, next, prev, t);
    assert HeadOf(L[..t] + L[t + 1..]) == HeadOf(L);
    assert L[t - 1] in lists[i] && L[t + 1] in lists[i];
    RelinkList(heads, next, prev, lists, i, t, heads, next[L[t - 1] := Some(L[t + 1])], prev[L[t + 1] := Some(L[t - 1])],
               {L[t - 1], L[t + 1]}, L[..t] + L[t + 1..]);
  }

  lemma LinkedCutMiddle(L: seq<int>, next: Links, prev: Links, t: int)
    requires Linked(L, next, prev) && Unique(L) && 0 < t < |L| - 1
    ensures Linked(L[..t] + L[t + 1..], next[L[t - 1] := Some(L[t + 1])], prev[L[t + 1] := Some(L[t - 1])])
  {
    var L2 := L[..t] + L[t + 1..];
    var next2, prev2 := next[L[t - 1] := Some(L[t + 1])], prev[L[t + 1] := Some(L[t - 1])];
    forall s | 0 <= s < |L2|
      ensures L2[s] in next2 && next2[L2[s]] == NextOf(L2, s) && L2[s] in prev2 && prev2[L2[s]] == PrevOf(L2, s)
    {
      if s < t {
        assert L2[s] == L[s];
        assert L[s] != L[t + 1];
        if s < t - 1 {
          assert L[s] != L[t - 1];
        }
      } else {
        assert L2[s] == L[s + 1];
        assert L[s + 1] != L[t - 1];
        if s > t {
          assert L[s + 1] != L[t + 1];
        }
      }
    }
  }

  /** Where b sits in list i, and what the link words around it say about that position. */
  lemma DeletePosition(heads: seq<Option<int>>, next: Links, prev: Links, lists: seq<seq<int>>, i: int, b: int)
    returns (t: int)
    requires LinksOk(heads, next, prev, lists) && 0 <= i < LISTNUM && b in lists[i]
    ensures var L := lists[i];
            0 <= t < |L| && L[t] == b && heads[i] == Some(L[0]) &&
            Drop(lists, i, b) == lists[i := L[..t] + L[t + 1..]] &&
            L[0] in next && L[0] in prev &&
            (prev[L[0]] == None && next[L[0]] == None <==> |L| == 1) &&
            b in next && next[b] == NextOf(L, t) && b in prev && prev[b] == PrevOf(L, t) &&
            (b == L[0] <==> t == 0)
  {
    var L := lists[i];
    t := IndexOf(L, b);
    DistinctUnique(lists, i);
    WithoutAt(L, t);
    assert Linked(L, next, prev);
  }

  /** Dropping a member keeps the table free of repetitions. */
  lemma DropDistinct(lists: seq<seq<int>>, i: int, b: int)
    requires Distinct(lists) && 0 <= i < |lists| && b in lists[i]
    ensures Distinct(Drop(lists, i, b))
  {
    var t := IndexOf(lists[i], b);
    DistinctUnique(lists, i);
    WithoutAt(lists[i], t);
    RemoveDistinct(lists, i, t);
  }

  /** A member of list i is in no other list. */
  lemma OnlyIn(lists: seq<seq<int>>, i: int, b: int, c: int)
    requires Distinct(lists) && 0 <= i < |lists| && 0 <= c < |lists| && c != i && b in lists[i]
    ensures b !in lists[c]
  {
    var s := IndexOf(lists[i], b);
    forall t | 0 <= t < |lists[c]| ensures lists[c][t] != b {
      assert Cell(lists, c, t) != Cell(lists, i, s);
    }
  }
}
