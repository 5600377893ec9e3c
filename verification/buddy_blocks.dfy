// The mathematical side of kern/mm/buddy_pmm.c: which pages the blocks on the free
// lists cover, and how often.  Counting makes splitting and merging plain equations.

module BuddyBlocks {
  import opened Arith
  import opened Lists

  const MAX_ORDER := 10

  /** 1 if page x is one of the n pages from p on. */
  function In(p: int, n: int, x: int): nat {
    if p <= x < p + n then 1 else 0
  }

  /** The pages p .. p + n - 1. */
  ghost function Pages(p: int, n: int): set<int> {
    set x | p <= x < p + n && In(p, n, x) == 1
  }

  lemma {:induction false} PagesCount(p: int, n: nat)
    ensures |Pages(p, n)| == n
  {
    if n == 0 {
      assert Pages(p, n) == {};
    } else {
      PagesCount(p, n - 1);
      assert Pages(p, n) == Pages(p, n - 1) + {p + n - 1};
    }
  }

  /** How many of the blocks of n pages that start at the entries of s cover page x. */
  ghost function ListCover(s: seq<Entry<int>>, n: nat, x: int): nat {
    if s == [] then 0 else In(s[0].owner, n, x) + ListCover(s[1..], n, x)
  }

  /** The same for the first k lists, list i holding blocks of 2^i pages. */
  ghost function Cover(free: seq<seq<Entry<int>>>, k: nat, x: int): nat
    requires k <= |free|
  {
    if k == 0 then 0 else Cover(free, k - 1, x) + ListCover(free[k - 1], Pow2(k - 1), x)
  }

  lemma {:induction false} CoverSame(f: seq<seq<Entry<int>>>, g: seq<seq<Entry<int>>>, k: nat, x: int)
    requires k <= |f| && k <= |g| && forall i :: 0 <= i < k ==> f[i] == g[i]
    ensures Cover(f, k, x) == Cover(g, k, x)
  {
    if k > 0 {
      CoverSame(f, g, k - 1, x);
    }
  }

  lemma {:induction false} CoverEmpty(f: seq<seq<Entry<int>>>, k: nat, x: int)
    requires k <= |f| && forall i :: 0 <= i < k ==> f[i] == []
    ensures Cover(f, k, x) == 0
  {
    if k > 0 {
      CoverEmpty(f, k - 1, x);
    }
  }

  /** Changing list i changes the cover by what it changes in that list. */
  lemma {:induction false} CoverUpdate(f: seq<seq<Entry<int>>>, i: nat, s: seq<Entry<int>>, k: nat, x: int)
    requires i < k <= |f|
    ensures Cover(f[i := s], k, x) + ListCover(f[i], Pow2(i), x) == Cover(f, k, x) + ListCover(s, Pow2(i), x)
  {
    if i == k - 1 {
      CoverSame(f, f[i := s], k - 1, x);
    } else {
      CoverUpdate(f, i, s, k - 1, x);
    }
  }

  /** list_add of block e to list i. */
  lemma CoverPush(f: seq<seq<Entry<int>>>, i: nat, e: Entry<int>, x: int)
    requires i < |f|
    ensures Cover(f[i := [e] + f[i]], |f|, x) == Cover(f, |f|, x) + In(e.owner, Pow2(i), x)
  {
    CoverUpdate(f, i, [e] + f[i], |f|, x);
    assert ([e] + f[i])[1..] == f[i];
  }

  /** list_del of the first block of list i. */
  lemma CoverPop(f: seq<seq<Entry<int>>>, i: nat, x: int)
    requires i < |f| && f[i] != []
    ensures Cover(f[i := f[i][1..]], |f|, x) + In(f[i][0].owner, Pow2(i), x) == Cover(f, |f|, x)
  {
    CoverUpdate(f, i, f[i][1..], |f|, x);
  }

  lemma {:induction false} ListCoverAt(s: seq<Entry<int>>, n: nat, j: nat, x: int)
    requires j < |s|
    ensures ListCover(s, n, x) >= In(s[j].owner, n, x)
  {
    if j > 0 {
      ListCoverAt(s[1..], n, j - 1, x);
    }
  }

  /** A page of a block on a list is covered. */
  lemma {:induction false} CoverAt(free: seq<seq<Entry<int>>>, k: nat, i: nat, j: nat, x: int)
    requires i < k <= |free| && j < |free[i]|
    ensures Cover(free, k, x) >= In(free[i][j].owner, Pow2(i), x)
  {
    if i == k - 1 {
      ListCoverAt(free[i], Pow2(i), j, x);
    } else {
      CoverAt(free, k - 1, i, j, x);
    }
  }

  lemma {:induction false} ListCoverTwo(s: seq<Entry<int>>, n: nat, j: nat, l: nat, x: int)
    requires j < l < |s|
    ensures ListCover(s, n, x) >= In(s[j].owner, n, x) + In(s[l].owner, n, x)
  {
    if j > 0 {
      ListCoverTwo(s[1..], n, j - 1, l - 1, x);
    } else {
      ListCoverAt(s[1..], n, l - 1, x);
    }
  }

  /** Two blocks that share page x count twice there. */
  lemma {:induction false} CoverTwo(free: seq<seq<Entry<int>>>, k: nat, i: nat, j: nat, i': nat, j': nat, x: int)
    requires i <= i' < k <= |free| && j < |free[i]| && j' < |free[i']| && (i == i' ==> j < j')
    ensures Cover(free, k, x) >= In(free[i][j].owner, Pow2(i), x) + In(free[i'][j'].owner, Pow2(i'), x)
  {
    if i' < k - 1 {
      CoverTwo(free, k - 1, i, j, i', j', x);
    } else if i == i' {
      ListCoverTwo(free[i], Pow2(i), j, j', x);
    } else {
      CoverAt(free, k - 1, i, j, x);
      ListCoverAt(free[i'], Pow2(i'), j', x);
    }
  }

  ghost predicate Uncovered(free: seq<seq<Entry<int>>>, p: int, m: int) {
    forall x :: p <= x < p + m ==> Cover(free, |free|, x) == 0
  }

  /** No page is in two blocks. */
  ghost predicate Once(free: seq<seq<Entry<int>>>) {
    forall x :: Cover(free, |free|, x) <= 1
  }

  ghost predicate InRange(free: seq<seq<Entry<int>>>, m: nat) {
    forall x :: Cover(free, |free|, x) > 0 ==> 0 <= x < m
  }

  // ---------- counting pages ----------

  /** The sum of nr_free(i) * 2^i over the first k lists. */
  function Weight(nrFree: seq<nat>, k: nat): nat
    requires k <= |nrFree|
  {
    if k == 0 then 0 else Weight(nrFree, k - 1) + nrFree[k - 1] * Pow2(k - 1)
  }

  ghost function SumIn(p: int, n: int, m: nat): nat {
    if m == 0 then 0 else SumIn(p, n, m - 1) + In(p, n, m - 1)
  }

  ghost function SumList(s: seq<Entry<int>>, n: nat, m: nat): nat {
    if m == 0 then 0 else SumList(s, n, m - 1) + ListCover(s, n, m - 1)
  }

  ghost function SumCover(free: seq<seq<Entry<int>>>, k: nat, m: nat): nat
    requires k <= |free|
  {
    if m == 0 then 0 else SumCover(free, k, m - 1) + Cover(free, k, m - 1)
  }

  lemma {:induction false} SumInIs(p: int, n: nat, m: nat)
    requires 0 <= p
    ensures SumIn(p, n, m) == if m <= p then 0 else if m <= p + n then m - p else n
  {
    if m > 0 {
      SumInIs(p, n, m - 1);
    }
  }

  lemma {:induction false} SumListStep(s: seq<Entry<int>>, n: nat, m: nat)
    requires s != []
    ensures SumList(s, n, m) == SumIn(s[0].owner, n, m) + SumList(s[1..], n, m)
  {
    if m > 0 {
      SumListStep(s, n, m - 1);
    }
  }

  lemma {:induction false} SumListNone(n: nat, m: nat)
    ensures SumList([], n, m) == 0
  {
    if m > 0 {
      SumListNone(n, m - 1);
    }
  }

  lemma {:induction false} SumListIs(s: seq<Entry<int>>, n: nat, m: nat)
    requires forall j :: 0 <= j < |s| ==> 0 <= s[j].owner && s[j].owner + n <= m
    ensures SumList(s, n, m) == |s| * n
  {
    if s == [] {
      SumListNone(n, m);
    } else {
      SumListStep(s, n, m);
      SumInIs(s[0].owner, n, m);
      SumListIs(s[1..], n, m);
    }
  }

  lemma {:induction false} SumCoverStep(free: seq<seq<Entry<int>>>, k: nat, m: nat)
    requires 0 < k <= |free|
    ensures SumCover(free, k, m) == SumCover(free, k - 1, m) + SumList(free[k - 1], Pow2(k - 1), m)
  {
    if m > 0 {
      SumCoverStep(free, k, m - 1);
    }
  }

  lemma {:induction false} SumCoverNone(free: seq<seq<Entry<int>>>, m: nat)
    ensures SumCover(free, 0, m) == 0
  {
    if m > 0 {
      SumCoverNone(free, m - 1);
    }
  }

  /** All blocks lie among the first m pages. */
  ghost predicate Inside(free: seq<seq<Entry<int>>>, k: nat, m: nat)
    requires k <= |free|
  {
    forall i, j :: 0 <= i < k && 0 <= j < |free[i]| ==> 0 <= free[i][j].owner && free[i][j].owner + Pow2(i) <= m
  }

  /** Summing the cover page by page or list by list gives the same. */
  lemma {:induction false} SumCoverIs(free: seq<seq<Entry<int>>>, nrFree: seq<nat>, k: nat, m: nat)
    requires k <= |free| && k <= |nrFree| && Inside(free, k, m)
    requires forall i :: 0 <= i < k ==> nrFree[i] == |free[i]|
    ensures SumCover(free, k, m) == Weight(nrFree, k)
  {
    if k == 0 {
      SumCoverNone(free, m);
    } else {
      SumCoverStep(free, k, m);
      SumCoverIs(free, nrFree, k - 1, m);
      SumListIs(free[k - 1], Pow2(k - 1), m);
    }
  }

  ghost function Covered(free: seq<seq<Entry<int>>>, k: nat, m: nat): set<int>
    requires k <= |free|
  {
    set x | 0 <= x < m && Cover(free, k, x) > 0
  }

  /** Where no page is covered twice the sum counts the covered pages. */
  lemma {:induction false} SumCoverCounts(free: seq<seq<Entry<int>>>, k: nat, m: nat)
    requires k <= |free| && forall x :: 0 <= x < m ==> Cover(free, k, x) <= 1
    ensures SumCover(free, k, m) == |Covered(free, k, m)|
  {
    if m > 0 {
      SumCoverCounts(free, k, m - 1);
      var a, b := Covered(free, k, m - 1), Covered(free, k, m);
      if Cover(free, k, m - 1) > 0 {
        assert b == a + {m - 1};
      } else {
        assert b == a;
      }
    }
  }
}
