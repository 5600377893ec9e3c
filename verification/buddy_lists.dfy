// What kern/mm/buddy_pmm.c does to its free lists, as relations between the lists before and
// after.  A block is the number of its first page, so list i is a sequence of such numbers.

module BuddyLists {
  import opened Arith
  import opened Lists
  import opened BuddyBlocks

  type Blocks = seq<seq<int>>

  ghost function Owners(s: seq<Entry<int>>): (r: seq<int>)
    ensures |r| == |s| && forall k :: 0 <= k < |s| ==> r[k] == s[k].owner
  {
    seq(|s|, k requires 0 <= k < |s| => s[k].owner)
  }

  /** The blocks that the entries on the lists stand for */
  ghost function StartsOf(free: seq<seq<Entry<int>>>): (f: Blocks)
    ensures |f| == |free| && forall i :: 0 <= i < |f| ==> f[i] == Owners(free[i])
  {
    seq(|free|, i requires 0 <= i < |free| => Owners(free[i]))
  }

  lemma StartsPush(free: seq<seq<Entry<int>>>, i: nat, e: Entry<int>)
    requires i < |free|
    ensures StartsOf(free[i := [e] + free[i]]) == Push(StartsOf(free), i, e.owner)
  {
    assert Owners([e] + free[i]) == [e.owner] + Owners(free[i]);
  }

  lemma StartsPop(free: seq<seq<Entry<int>>>, i: nat)
    requires i < |free| && free[i] != []
    ensures StartsOf(free[i := free[i][1..]]) == StartsOf(free)[i := StartsOf(free)[i][1..]]
  {
    assert Owners(free[i][1..]) == Owners(free[i])[1..];
  }

  function Push(f: Blocks, i: nat, p: int): Blocks
    requires i < |f|
  {
    f[i := [p] + f[i]]
  }

  // ---------- freeing ----------

  /** The first block of list i touches the block of 2^i pages that starts with page p. */
  predicate Adjoins(f: Blocks, i: nat, p: int) {
    i < |f| && f[i] != [] && (f[i][0] + Pow2(i) == p || p + Pow2(i) == f[i][0])
  }

  function Lower(a: int, b: int): int {
    if a < b then a else b
  }

  /** The block of 2^ord pages from base on grows to 2^j pages from p on: one half of these is
      the first block of list j - 1, and to the other it has grown before. */
  ghost predicate Grown(f: Blocks, base: int, ord: nat, j: nat, p: int)
    decreases j
  {
    if j <= ord then j == ord && p == base
    else
      j - 1 < |f| && f[j - 1] != [] && var half, first := Pow2(j - 1), f[j - 1][0];
      || (first == p + half && Grown(f, base, ord, j - 1, p))
      || (first == p && Grown(f, base, ord, j - 1, p + half))
  }

  /** The start of that other half */
  lemma GrownHalf(f: Blocks, base: int, ord: nat, j: nat, p: int) returns (q: int)
    requires Grown(f, base, ord, j, p) && j > ord
    ensures Grown(f, base, ord, j - 1, q) && Adjoins(f, j - 1, q) && p == Lower(q, f[j - 1][0])
  {
    q := if f[j - 1][0] == p then p + Pow2(j - 1) else p;
  }

  /** A block that the first block of list i touches grows. */
  lemma Grows(f: Blocks, base: int, ord: nat, i: nat, q: int)
    requires Grown(f, base, ord, i, q) && Adjoins(f, i, q)
    ensures Grown(f, base, ord, i + 1, Lower(q, f[i][0]))
  {
  }

  /** The pages of the first blocks of the lists ord to j - 1 */
  ghost function FirstPages(f: Blocks, ord: nat, j: nat): set<int>
    decreases j
  {
    if j <= ord || j > |f| || f[j - 1] == [] then {} else FirstPages(f, ord, j - 1) + Pages(f[j - 1][0], Pow2(j - 1))
  }

  /** The grown block consists of the block at base and the blocks it has taken in. */
  lemma {:induction false} GrownPages(f: Blocks, base: int, ord: nat, j: nat, p: int)
    requires Grown(f, base, ord, j, p)
    ensures Pages(p, Pow2(j)) == Pages(base, Pow2(ord)) + FirstPages(f, ord, j)
    decreases j
  {
    if j > ord {
      var q := GrownHalf(f, base, ord, j, p);
      hide Grown;
      GrownPages(f, base, ord, j - 1, q);
      TwoHalves(q, f[j - 1][0], Pow2(j - 1));
      assert Pow2(j) == 2 * Pow2(j - 1);
    }
  }

  lemma TwoHalves(a: int, b: int, n: nat)
    requires a + n == b || b + n == a
    ensures Pages(Lower(a, b), 2 * n) == Pages(a, n) + Pages(b, n)
  {
  }

  lemma {:induction false} GrownOnce(f: Blocks, base: int, ord: nat, j: nat, p: int, q: int)
    requires Grown(f, base, ord, j, p) && Grown(f, base, ord, j, q)
    ensures p == q
    decreases j
  {
    if j > ord {
      var p' := GrownHalf(f, base, ord, j, p);
      var q' := GrownHalf(f, base, ord, j, q);
      hide Grown;
      GrownOnce(f, base, ord, j - 1, p', q');
    }
  }

  lemma GrownFrom(f: Blocks, base: int, ord: nat, j: nat, p: int)
    requires Grown(f, base, ord, j, p)
    ensures ord <= j
  {
  }

  /** A block that grows past order i touches the first block of list i. */
  lemma {:induction false} GrowsPast(f: Blocks, base: int, ord: nat, i: nat, p: int, j: nat, q: int)
    requires Grown(f, base, ord, i, p) && Grown(f, base, ord, j, q) && i < j
    ensures Adjoins(f, i, p)
    decreases j
  {
    GrownFrom(f, base, ord, i, p);
    var q' := GrownHalf(f, base, ord, j, q);
    hide Grown;
    if i == j - 1 {
      GrownOnce(f, base, ord, i, p, q');
    } else {
      GrowsPast(f, base, ord, i, p, j - 1, q');
    }
  }

  function Rest(s: seq<int>): seq<int> {
    if s == [] then [] else s[1..]
  }

  /** The lists after freeing the block at base: it has grown to order j, and no further
      because j is the greatest order or the first block of list j does not touch it. */
  ghost predicate FreedTo(f: Blocks, g: Blocks, base: int, ord: nat, j: nat, p: int) {
    && |f| == |g| == MAX_ORDER + 1 && j <= MAX_ORDER && Grown(f, base, ord, j, p)
    && (j == MAX_ORDER || !Adjoins(f, j, p))
    && forall i :: 0 <= i <= MAX_ORDER ==>
         g[i] == if ord <= i < j then Rest(f[i]) else if i == j then [p] + f[i] else f[i]
  }

  ghost predicate Freed(f: Blocks, g: Blocks, base: int, ord: nat) {
    exists j: nat, p :: FreedTo(f, g, base, ord, j, p)
  }

  lemma FreedOnce(f: Blocks, g: Blocks, h: Blocks, base: int, ord: nat)
    requires Freed(f, g, base, ord) && Freed(f, h, base, ord)
    ensures g == h
  {
    var i: nat, p :| FreedTo(f, g, base, ord, i, p);
    var j: nat, q :| FreedTo(f, h, base, ord, j, q);
    if i < j {
      GrowsPast(f, base, ord, i, p, j, q);
    } else if j < i {
      GrowsPast(f, base, ord, j, q, i, p);
    }
    GrownOnce(f, base, ord, i, p, q);
  }

  /** 2^ord is the greatest power of two that is at most m. */
  predicate Greatest(ord: nat, m: nat) {
    Pow2(ord) <= m < 2 * Pow2(ord)
  }

  /** The lists after freeing m pages from base on: the greatest power of two first. */
  ghost predicate FreedAll(f: Blocks, g: Blocks, base: int, m: nat)
    decreases m
  {
    if m == 0 then g == f
    else exists ord: nat, h :: Greatest(ord, m) && Freed(f, h, base, ord) &&
                               FreedAll(h, g, base + Pow2(ord), m - Pow2(ord))
  }

  lemma GreatestOnce(i: nat, j: nat, m: nat)
    requires Greatest(i, m) && Greatest(j, m)
    ensures i == j
  {
    if i < j {
      Pow2Mono(i + 1, j);
    } else if j < i {
      Pow2Mono(j + 1, i);
    }
  }

  /** The first block that is freed of m pages, and the lists then */
  lemma FreedFirst(f: Blocks, g: Blocks, base: int, m: nat) returns (ord: nat, h: Blocks)
    requires m > 0 && FreedAll(f, g, base, m)
    ensures Greatest(ord, m) && Freed(f, h, base, ord) && FreedAll(h, g, base + Pow2(ord), m - Pow2(ord))
  {
    hide Freed, Pow2;
    ord, h :| Greatest(ord, m) && Freed(f, h, base, ord) && FreedAll(h, g, base + Pow2(ord), m - Pow2(ord));
  }

  lemma FreedAllStep(f: Blocks, h: Blocks, g: Blocks, base: int, m: nat, ord: nat)
    requires Greatest(ord, m) && Freed(f, h, base, ord) && FreedAll(h, g, base + Pow2(ord), m - Pow2(ord))
    ensures FreedAll(f, g, base, m)
  {
    hide Freed;
  }

  lemma {:induction false} FreedAllOnce(f: Blocks, g: Blocks, h: Blocks, base: int, m: nat)
    requires FreedAll(f, g, base, m) && FreedAll(f, h, base, m)
    ensures g == h
    decreases m
  {
    hide Freed, FreedAll, Pow2;
    if m == 0 {
      NothingFreed(f, g, base);
      NothingFreed(f, h, base);
    } else {
      var i, a := FreedFirst(f, g, base, m);
      var j, b := FreedFirst(f, h, base, m);
      GreatestOnce(i, j, m);
      FreedOnce(f, a, b, base, i);
      FreedAllOnce(a, g, h, base + Pow2(i), m - Pow2(i));
    }
  }

  lemma NothingFreed(f: Blocks, g: Blocks, base: int)
    ensures FreedAll(f, g, base, 0) <==> g == f
  {
  }

  /** Freeing a power of two is freeing one block. */
  lemma FreedAllPow2(f: Blocks, g: Blocks, base: int, ord: nat)
    ensures FreedAll(f, g, base, Pow2(ord)) <==> Freed(f, g, base, ord)
  {
    hide Freed, FreedAll, Pow2;
    if FreedAll(f, g, base, Pow2(ord)) {
      var i, h := FreedFirst(f, g, base, Pow2(ord));
      GreatestOnce(i, ord, Pow2(ord));
      NothingFreed(h, g, base + Pow2(i));
    }
    if Freed(f, g, base, ord) {
      NothingFreed(g, g, base + Pow2(ord));
      FreedAllStep(f, g, g, base, Pow2(ord), ord);
    }
  }

  /** The lists while a block grows: those it has taken a block from, and the others. */
  predicate Climbed(f: Blocks, g: Blocks, ord: nat, i: nat) {
    && |f| == |g| == MAX_ORDER + 1
    && forall k :: 0 <= k <= MAX_ORDER ==> g[k] == if ord <= k < i then Rest(f[k]) else f[k]
  }

  lemma ClimbedNext(f: Blocks, g: Blocks, ord: nat, i: nat)
    requires Climbed(f, g, ord, i) && ord <= i <= MAX_ORDER && f[i] != []
    ensures Climbed(f, g[i := g[i][1..]], ord, i + 1)
  {
  }

  lemma ClimbedEnds(f: Blocks, g: Blocks, base: int, ord: nat, i: nat, p: int)
    requires Climbed(f, g, ord, i) && i <= MAX_ORDER && Grown(f, base, ord, i, p)
    requires i == MAX_ORDER || !Adjoins(f, i, p)
    ensures Freed(f, Push(g, i, p), base, ord)
  {
    hide Grown;
    assert FreedTo(f, Push(g, i, p), base, ord, i, p);
  }

  /** Once the m pages from base on are freed too, the n pages from base0 on are. */
  ghost predicate FreedUpTo(f: Blocks, h: Blocks, base0: int, n: nat, base: int, m: nat) {
    forall g :: FreedAll(h, g, base, m) ==> FreedAll(f, g, base0, n)
  }

  lemma FreedNone(f: Blocks, base: int, n: nat)
    ensures FreedUpTo(f, f, base, n, base, n)
  {
    hide FreedAll;
  }

  lemma FreedNext(f: Blocks, h: Blocks, h': Blocks, base0: int, n: nat, base: int, m: nat, ord: nat)
    requires FreedUpTo(f, h, base0, n, base, m) && Greatest(ord, m) && Freed(h, h', base, ord)
    ensures Pow2(ord) <= m && FreedUpTo(f, h', base0, n, base + Pow2(ord), m - Pow2(ord))
  {
    hide FreedAll, Freed, Pow2;
    forall g | FreedAll(h', g, base + Pow2(ord), m - Pow2(ord)) ensures FreedAll(f, g, base0, n) {
      FreedAllStep(h, h', g, base, m, ord);
    }
  }

  lemma FreedIn(f: Blocks, h: Blocks, base0: int, n: nat, base: int)
    requires FreedUpTo(f, h, base0, n, base, 0)
    ensures FreedAll(f, h, base0, n)
  {
    NothingFreed(h, h, base);
  }

  // ---------- giving ----------

  /** The greatest order whose blocks fit into m pages */
  predicate GreatestOrder(ord: nat, m: nat) {
    ord <= MAX_ORDER && Pow2(ord) <= m && (ord == MAX_ORDER || m < 2 * Pow2(ord))
  }

  /** The lists after init_memmap: blocks as great as possible, not merged. */
  ghost predicate Given(f: Blocks, g: Blocks, base: int, m: nat)
    requires |f| == MAX_ORDER + 1
    decreases m
  {
    if m == 0 then g == f
    else exists ord: nat :: GreatestOrder(ord, m) && Given(Push(f, ord, base), g, base + Pow2(ord), m - Pow2(ord))
  }

  lemma GivenFirst(f: Blocks, g: Blocks, base: int, m: nat) returns (ord: nat)
    requires |f| == MAX_ORDER + 1 && m > 0 && Given(f, g, base, m)
    ensures GreatestOrder(ord, m) && Pow2(ord) <= m && ord <= MAX_ORDER
    ensures Given(Push(f, ord, base), g, base + Pow2(ord), m - Pow2(ord))
  {
    hide Pow2;
    ord :| GreatestOrder(ord, m) && Given(Push(f, ord, base), g, base + Pow2(ord), m - Pow2(ord));
  }

  lemma GivenStep(f: Blocks, g: Blocks, base: int, m: nat, ord: nat)
    requires |f| == MAX_ORDER + 1 && GreatestOrder(ord, m)
    requires Given(Push(f, ord, base), g, base + Pow2(ord), m - Pow2(ord))
    ensures Given(f, g, base, m)
  {
  }

  lemma NothingGiven(f: Blocks, g: Blocks, base: int)
    requires |f| == MAX_ORDER + 1
    ensures Given(f, g, base, 0) <==> g == f
  {
  }

  ghost predicate GivenUpTo(f: Blocks, h: Blocks, base0: int, n: nat, base: int, m: nat) {
    |f| == |h| == MAX_ORDER + 1 && forall g :: Given(h, g, base, m) ==> Given(f, g, base0, n)
  }

  lemma GivenNone(f: Blocks, base: int, n: nat)
    requires |f| == MAX_ORDER + 1
    ensures GivenUpTo(f, f, base, n, base, n)
  {
    hide Given;
  }

  lemma GivenNext(f: Blocks, h: Blocks, base0: int, n: nat, base: int, m: nat, ord: nat)
    requires GivenUpTo(f, h, base0, n, base, m) && GreatestOrder(ord, m)
    ensures Pow2(ord) <= m && GivenUpTo(f, Push(h, ord, base), base0, n, base + Pow2(ord), m - Pow2(ord))
  {
    hide Given, Pow2;
    forall g | Given(Push(h, ord, base), g, base + Pow2(ord), m - Pow2(ord)) ensures Given(f, g, base0, n) {
      GivenStep(h, g, base, m, ord);
    }
  }

  lemma GivenIn(f: Blocks, h: Blocks, base0: int, n: nat, base: int)
    requires GivenUpTo(f, h, base0, n, base, 0)
    ensures Given(f, h, base0, n)
  {
    NothingGiven(h, h, base);
  }

  lemma GreatestOrderOnce(i: nat, j: nat, m: nat)
    requires GreatestOrder(i, m) && GreatestOrder(j, m)
    ensures i == j
  {
    if i < j {
      Pow2Mono(i + 1, j);
    } else if j < i {
      Pow2Mono(j + 1, i);
    }
  }

  lemma {:induction false} GivenOnce(f: Blocks, g: Blocks, h: Blocks, base: int, m: nat)
    requires |f| == MAX_ORDER + 1 && Given(f, g, base, m) && Given(f, h, base, m)
    ensures g == h
    decreases m
  {
    hide Given, Pow2, GreatestOrder;
    if m == 0 {
      NothingGiven(f, g, base);
      NothingGiven(f, h, base);
    } else {
      var i := GivenFirst(f, g, base, m);
      var j := GivenFirst(f, h, base, m);
      GreatestOrderOnce(i, j, m);
      GivenOnce(Push(f, i, base), g, h, base + Pow2(i), m - Pow2(i));
    }
  }

  // ---------- taking ----------

  /** The lists after taking 2^ord pages: the first block of the first list from ord on that
      is not empty, whose upper halves come back. */
  ghost predicate TakenFrom(f: Blocks, g: Blocks, page: int, ord: nat, i: nat) {
    && ord <= i < |f| == |g| && f[i] != [] && page == f[i][0] && (forall k :: ord <= k < i ==> f[k] == [])
    && forall k :: 0 <= k < |f| ==>
         g[k] == if k == i then f[k][1..] else if ord <= k < i then [page + Pow2(k)] else f[k]
  }

  ghost predicate Taken(f: Blocks, g: Blocks, page: int, ord: nat) {
    exists i: nat :: TakenFrom(f, g, page, ord, i)
  }

  predicate LeastOrder(ord: nat, m: nat) {
    m <= Pow2(ord) && (ord > 0 ==> Pow2(ord - 1) < m)
  }

  /** The lists after taking n pages: the least power of two that is enough, without its tail. */
  ghost predicate Allocated(f: Blocks, g: Blocks, page: int, n: nat) {
    exists ord: nat, h :: LeastOrder(ord, n) && Taken(f, h, page, ord) && FreedAll(h, g, page + n, Pow2(ord) - n)
  }

  /** The lists while a block is split: the upper halves from list i on have come back. */
  predicate Splitting(f: Blocks, g: Blocks, page: int, i: nat, i0: nat) {
    && i <= i0 < |f| == |g| && f[i0] != [] && page == f[i0][0]
    && forall k :: 0 <= k < |f| ==>
         g[k] == if k == i0 then f[k][1..] else if i <= k < i0 then [page + Pow2(k)] + f[k] else f[k]
  }

  lemma SplittingStarts(f: Blocks, i0: nat)
    requires i0 < |f| && f[i0] != []
    ensures Splitting(f, f[i0 := f[i0][1..]], f[i0][0], i0, i0)
  {
  }

  lemma SplittingNext(f: Blocks, g: Blocks, page: int, i: nat, i0: nat)
    requires Splitting(f, g, page, i, i0) && i > 0
    ensures Splitting(f, Push(g, i - 1, page + Pow2(i - 1)), page, i - 1, i0)
  {
  }

  lemma SplitTaken(f: Blocks, g: Blocks, page: int, ord: nat, i0: nat)
    requires Splitting(f, g, page, ord, i0) && forall k :: ord <= k < i0 ==> f[k] == []
    ensures Taken(f, g, page, ord)
  {
    assert TakenFrom(f, g, page, ord, i0);
  }

  lemma TakenOnce(f: Blocks, g: Blocks, h: Blocks, p: int, q: int, ord: nat)
    requires Taken(f, g, p, ord) && Taken(f, h, q, ord)
    ensures g == h && p == q
  {
    var i: nat :| TakenFrom(f, g, p, ord, i);
    var j: nat :| TakenFrom(f, h, q, ord, j);
    assert i == j;
  }

  lemma AllocatedIs(f: Blocks, h: Blocks, g: Blocks, page: int, n: nat, ord: nat)
    requires LeastOrder(ord, n) && Taken(f, h, page, ord) && FreedAll(h, g, page + n, Pow2(ord) - n)
    ensures Allocated(f, g, page, n)
  {
    hide Taken, FreedAll;
  }

  lemma LeastOrderOnce(i: nat, j: nat, m: nat)
    requires LeastOrder(i, m) && LeastOrder(j, m)
    ensures i == j
  {
    if i < j {
      Pow2Mono(i, j - 1);
    } else if j < i {
      Pow2Mono(j, i - 1);
    }
  }

  /** The page returned and the lists afterwards are determined. */
  lemma AllocatedOnce(f: Blocks, g: Blocks, h: Blocks, p: int, q: int, n: nat)
    requires Allocated(f, g, p, n) && Allocated(f, h, q, n)
    ensures g == h && p == q
  {
    hide FreedAll, Taken, Pow2;
    var i: nat, a :| LeastOrder(i, n) && Taken(f, a, p, i) && FreedAll(a, g, p + n, Pow2(i) - n);
    var j: nat, b :| LeastOrder(j, n) && Taken(f, b, q, j) && FreedAll(b, h, q + n, Pow2(j) - n);
    LeastOrderOnce(i, j, n);
    TakenOnce(f, a, b, p, q, i);
    FreedAllOnce(a, g, h, p + n, Pow2(i) - n);
  }

  // ---------- buddy_check ----------

  const NoBlocks: Blocks := [[], [], [], [], [], [], [], [], [], [], []]

  /** Allocating three pages of a single block of four, and freeing them, gives the block back,
      as buddy_check does. */
  lemma AllocFreeExample(a: Blocks, g: Blocks, p: int)
    requires Allocated(NoBlocks[2 := [0]], a, p, 3) && FreedAll(a, g, p, 3)
    ensures p == 0 && a == NoBlocks[0 := [3]] && g == NoBlocks[2 := [0]]
  {
    hide FreedAll, Freed, Allocated;
    AllocExample(a, p);
    var f1, f2 := NoBlocks[0 := [3]], NoBlocks[0 := [3]][1 := [0]];
    var i, h := FreedFirst(a, g, p, 3);
    GreatestOnce(i, 1, 3);
    FreedLone(f1, 0, 1);
    FreedOnce(f1, h, f2, 0, 1);
    FreedAllPow2(f2, g, 2, 0);
    MergeTwice(f2, NoBlocks[2 := [0]]);
    FreedOnce(f2, g, NoBlocks[2 := [0]], 2, 0);
  }

  lemma AllocExample(a: Blocks, p: int)
    requires Allocated(NoBlocks[2 := [0]], a, p, 3)
    ensures p == 0 && a == NoBlocks[0 := [3]]
  {
    hide FreedAll, Freed, Taken;
    var f := NoBlocks[2 := [0]];
    var i: nat, h :| LeastOrder(i, 3) && Taken(f, h, p, i) && FreedAll(h, a, p + 3, Pow2(i) - 3);
    LeastOrderOnce(i, 2, 3);
    TakeExample(h, p);
    FreedAllPow2(h, a, 3, 0);
    FreedLone(NoBlocks, 3, 0);
    FreedOnce(h, a, NoBlocks[0 := [3]], 3, 0);
  }

  lemma TakeExample(h: Blocks, p: int)
    requires Taken(NoBlocks[2 := [0]], h, p, 2)
    ensures p == 0 && h == NoBlocks
  {
    var k: nat :| TakenFrom(NoBlocks[2 := [0]], h, p, 2, k);
    assert k == 2;
  }

  /** A block whose list is empty stays as it is. */
  lemma FreedLone(f: Blocks, base: int, ord: nat)
    requires |f| == MAX_ORDER + 1 && ord <= MAX_ORDER && f[ord] == []
    ensures Freed(f, f[ord := [base]], base, ord)
  {
    assert FreedTo(f, f[ord := [base]], base, ord, ord, base);
  }

  lemma MergeTwice(f: Blocks, g: Blocks)
    requires f == NoBlocks[0 := [3]][1 := [0]] && g == NoBlocks[2 := [0]]
    ensures Freed(f, g, 2, 0)
  {
    assert Grown(f, 2, 0, 1, 2);
    assert Grown(f, 2, 0, 2, 0);
    assert FreedTo(f, g, 2, 0, 2, 0);
  }
}
