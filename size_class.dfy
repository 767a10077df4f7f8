/**
 * The size-class index (mm.c listIndex and its LOG2 macro): a block size is
 * mapped to one of the eleven segregated free lists.  List i < 10 holds the
 * sizes in [32 * 2^i, 32 * 2^(i+1)); list 10 holds every size from 32 * 2^10 on.
 */
module SizeClass {
  import opened BlockLayout

  const LISTNUM: int := 11
  const WORD_LIMIT: int := 0x1_0000_0000  // listIndex takes a 32-bit value

  function Pow2(n: nat): (r: nat)
    ensures r >= 1
  {
    if n == 0 then 1 else 2 * Pow2(n - 1)
  }

  /** LOG2(x) = 31 - __builtin_clz(x): the position of the highest set bit. */
  function Log2(x: int): (r: nat)
    requires x >= 1
    ensures Pow2(r) <= x < Pow2(r + 1)
    decreases x
  {
    if x < 2 then 0 else 1 + Log2(x / 2)
  }

  /** listIndex: LOG2(x) - 5, capped at 10. */
  function ListIndex(x: int): (r: int)
    requires 1 <= x < WORD_LIMIT
    ensures MIN_BLOCK_SIZE <= x ==> 0 <= r < LISTNUM
  {
    var num := Log2(x) - 5;
    assert MIN_BLOCK_SIZE <= x ==> num >= 0 by {
      if MIN_BLOCK_SIZE <= x {
        Pow2Add5(0);
        Log2AtLeast(x, 5);
      }
    }
    if num < 10 then num else 10
  }

  lemma Log2AtLeast(x: int, n: nat)
    requires x >= Pow2(n)
    ensures Log2(x) >= n
  {
    if Log2(x) < n {
      Pow2Mono(Log2(x) + 1, n);
    }
  }

  /** Smallest size held by list i. */
  function ClassLow(i: nat): int
  {
    32 * Pow2(i)
  }

  /** The sizes that list i holds: a half-open power-of-two range, unbounded for the last list. */
  ghost predicate InClass(x: int, i: int)
  {
    0 <= i < LISTNUM && ClassLow(i) <= x && (i == LISTNUM - 1 || x < ClassLow(i + 1))
  }

  lemma {:induction false} Pow2Mono(a: nat, b: nat)
    requires a <= b
    ensures Pow2(a) <= Pow2(b)
    decreases b
  {
    if a < b {
      Pow2Mono(a, b - 1);
    }
  }

  lemma {:induction false} Pow2Add5(i: nat)
    ensures Pow2(i + 5) == 32 * Pow2(i)
  {
    if i == 0 {
      assert Pow2(1) == 2 && Pow2(2) == 4 && Pow2(3) == 8 && Pow2(4) == 16;
    } else {
      Pow2Add5(i - 1);
      assert Pow2(i + 5) == 2 * Pow2(i + 4);
      assert Pow2(i) == 2 * Pow2(i - 1);
    }
  }

  /** listIndex(x) is the list whose size range holds x. */
  lemma ListIndexClass(x: int, i: int)
    requires MIN_BLOCK_SIZE <= x < WORD_LIMIT
    ensures ListIndex(x) == i <==> InClass(x, i)
  {
    ListIndexInClass(x);
    if InClass(x, i) {
      InClassUnique(x, i, ListIndex(x));
    }
  }

  lemma ListIndexInClass(x: int)
    requires MIN_BLOCK_SIZE <= x < WORD_LIMIT
    ensures InClass(x, ListIndex(x))
  {
    var l := Log2(x);
    Pow2Add5(0);
    Log2AtLeast(x, 5);
    var r := ListIndex(x);
    if l - 5 < 10 {
      assert r == l - 5;
      Pow2Add5(r);
      Pow2Add5(r + 1);
    } else {
      assert r == 10;
      Pow2Add5(10);
      Pow2Mono(15, l);
    }
  }

  /** The size ranges of the lists do not overlap. */
  lemma InClassUnique(x: int, i: int, j: int)
    requires InClass(x, i) && InClass(x, j)
    ensures i == j
  {
    if i < j {
      Pow2Mono(i + 1, j);
    } else if j < i {
      Pow2Mono(j + 1, i);
    }
  }

  /** Larger blocks never belong to a lower list. */
  lemma ListIndexMono(x: int, y: int)
    requires 1 <= x <= y < WORD_LIMIT
    ensures ListIndex(x) <= ListIndex(y)
  {
    var a, b := Log2(x), Log2(y);
    if a > b {
      Pow2Mono(b + 1, a);
    }
  }

  /** A count of 8-byte words turned into bytes and cut to 32 bits is still a multiple of 8. */
  lemma WordsAligned(words: int)
    requires 0 <= words
    ensures words * 8 % WORD_LIMIT % 8 == 0
  {
    var q := words * 8 / WORD_LIMIT;
    assert words * 8 % WORD_LIMIT == 8 * (words - q * (WORD_LIMIT / 8));
  }
}
