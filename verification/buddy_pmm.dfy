// kern/mm/buddy_pmm.c: the page allocator.  A struct Page is its number; page p has its
// order in order[p] and its page_link in links[p].

module BuddyPmm {
  import opened Arith
  import opened Lists
  import opened BuddyBlocks
  import opened BuddyLists
  import opened Options

  const LISTS := MAX_ORDER + 1

  class Buddy {
    /** The number of struct Pages. */
    const n: nat
    const heads: seq<Entry<int>>
    const nrFree: array<nat>
    const links: seq<Entry<int>>
    const order: array<int>
    /** The arrays and entries the allocator works on. */
    ghost const parts: set<object>
    /** The entries on each free list. */
    ghost var free: seq<seq<Entry<int>>>
    /** The pages ever given to init_memmap, and those of them that are handed out. */
    ghost var given: set<int>
    ghost var out: set<int>

    /** Every entry belongs to one head or one page. */
    ghost predicate Shape() {
      && |heads| == LISTS && nrFree.Length == LISTS && |links| == n && order.Length == n
      && (forall i :: 0 <= i < LISTS ==> heads[i].owner == -1 - i)
      && (forall p :: 0 <= p < n ==> links[p].owner == p)
      && this !in parts && nrFree in parts && order in parts && (forall e :: e in heads ==> e in parts) &&
        (forall e :: e in links ==> e in parts)
    }

    /** Entry e stands on list i for the block of 2^i pages that starts with page e.owner. */
    ghost predicate Block(i: nat, e: Entry<int>)
      requires Shape()
      reads order
    {
      0 <= e.owner < n && links[e.owner] == e && order[e.owner] == i && e.owner + Pow2(i) <= n
    }

    ghost predicate Listed(i: nat)
      requires Shape() && i < LISTS
      reads this`free, parts
    {
      && |free| == LISTS
      && nrFree[i] == |free[i]|
      && (forall e :: e in free[i] ==> e in links && Block(i, e))
      && Ring(heads[i], free[i])
    }

    /** The blocks on the lists. */
    ghost function Starts(): (f: Blocks)
      reads this`free
      ensures |f| == |free|
    {
      StartsOf(free)
    }

    /** The number of blocks that cover page x. */
    ghost function Count(x: int): nat
      reads this`free
    {
      Cover(free, |free|, x)
    }

    ghost predicate Valid()
      reads this`free, parts
    {
      && Shape() && |free| == LISTS
      && (forall i :: 0 <= i < LISTS ==> Listed(i))
      && Once(free) && InRange(free, n)
    }

    /** Nothing that list i is made of occurs in another list. */
    lemma Separate(i: nat, j: nat)
      requires Valid() && i < LISTS && j < LISTS && i != j
      ensures heads[j] != heads[i] && heads[j] !in free[i] && heads[i] !in free[j]
      ensures forall e :: e in free[j] ==> e !in free[i]
    {
      assert Listed(i) && Listed(j);
      assert heads[i].owner < 0 && heads[j].owner < 0;
    }

    lemma NotListed(p: int)
      requires Valid() && 0 <= p < n && Count(p) == 0
      ensures forall i :: 0 <= i < LISTS ==> links[p] !in free[i]
    {
      forall i | 0 <= i < LISTS ensures links[p] !in free[i] {
        assert Listed(i);
        if links[p] in free[i] {
          var j :| 0 <= j < |free[i]| && free[i][j] == links[p];
          CoverAt(free, |free|, i, j, p);
        }
      }
    }

    ghost function FreeSet(): set<int>
      reads this`free
    {
      Covered(free, |free|, n)
    }

    /** The invariant the callers see: every page given is free or handed out, never both. */
    ghost predicate Sound()
      reads this, parts
    {
      && Valid()
      && given == FreeSet() + out && FreeSet() !! out
      && forall x :: x in given ==> 0 <= x < n
    }

    /** An allocator of n pages with its 11 lists empty. */
    constructor (n: nat)
      ensures this.n == n && Sound() && FreeSet() == {} && given == {} && fresh(parts)
    {
      hide Pow2, Cover;
      this.n := n;
      var hs := NewHeads();
      var ls := NewLinks(n);
      heads, links := hs, ls;
      var counts := new nat[LISTS](_ => 0);
      var orders := new int[n](_ => 0);
      nrFree, order := counts, orders;
      parts := Objects(counts, orders, hs, ls);
      free := seq(LISTS, _ => []);
      given, out := {}, {};
      new;
      forall x ensures Cover(free, |free|, x) == 0 {
        CoverEmpty(free, |free|, x);
      }
    }

    /** list_add(&free_list(i), &page->page_link) */
    method LinkFirst(i: nat, p: int)
      requires Valid() && i < LISTS && 0 <= p < n && Count(p) == 0
      modifies set e | e in heads, set e | e in links
      ensures Ring(heads[i], [links[p]] + free[i])
      ensures forall j :: 0 <= j < LISTS && j != i ==> Ring(heads[j], free[j])
      ensures nrFree[..] == old(nrFree[..]) && order[..] == old(order[..])
    {
      NotListed(p);
      assert Listed(i) && Linked(heads[i], free[i], 0);
      assert links[p].owner >= 0 > heads[i].owner;
      forall j | 0 <= j < LISTS && j != i
        ensures Ring(heads[j], free[j]) && allocated(free[j])
        ensures heads[i] !in free[j] && links[p] !in free[j] && heads[i].next !in free[j]
        ensures heads[j] != heads[i] && heads[j] != heads[i].next && heads[j] != links[p]
      {
        Separate(i, j);
        assert Listed(j) && heads[j].owner < 0;
      }
      ListAdd(heads[i], links[p], heads[i], free[i], 0);
      assert Insert(free[i], 0, links[p]) == [links[p]] + free[i];
    }

    /** No block covers any of the m pages from p on. */
    ghost predicate Clear(p: int, m: int)
      reads this`free
    {
      forall x :: p <= x < p + m ==> Count(x) == 0
    }

    /** The blocks cover what those on the lists f cover, but for the m pages from p on. */
    ghost predicate Lacks(f: seq<seq<Entry<int>>>, p: int, m: int)
      reads this`free
    {
      forall x :: Count(x) + In(p, m, x) == Cover(f, |f|, x)
    }

    /** The blocks cover what those on the lists f cover, and the m pages from p on. */
    ghost predicate Gains(f: seq<seq<Entry<int>>>, p: int, m: int)
      reads this`free
    {
      forall x :: Count(x) == Cover(f, |f|, x) + In(p, m, x)
    }

    lemma LacksClear(f: seq<seq<Entry<int>>>, p: int, m: int)
      requires Lacks(f, p, m) && Once(f)
      ensures Clear(p, m)
    {
    }

    lemma ClearIsUncovered(p: int, m: int)
      requires Clear(p, m)
      ensures Uncovered(free, p, m)
    {
      forall x | p <= x < p + m ensures Cover(free, |free|, x) == 0 {
        assert Count(x) == 0;
      }
    }

    lemma GainsClear(f: seq<seq<Entry<int>>>, p: int, m: int, k: nat)
      requires Gains(f, p, k) && k <= m && Uncovered(f, p, m)
      ensures Clear(p + k, m - k)
    {
    }

    /** list_add(&free_list(i), &page->page_link), nr_free(i)++ */
    method AddFree(i: nat, p: int)
      requires Valid() && i < LISTS && 0 <= p && p + Pow2(i) <= n && order[p] == i
      requires Clear(p, Pow2(i))
      modifies this`free, parts - {order}
      ensures Valid() && Gains(old(free), p, Pow2(i)) && Starts() == Push(old(Starts()), i, p)
    {
      hide Pow2, Cover;
      ghost var free' := free[i := [links[p]] + free[i]];
      StartsPush(free, i, links[p]);
      forall x ensures Cover(free', |free'|, x) == Count(x) + In(p, Pow2(i), x) {
        CoverPush(free, i, links[p], x);
      }
      assert Once(free') && InRange(free', n);
      assert forall j :: 0 <= j < LISTS ==> Listed(j);
      LinkFirst(i, p);
      nrFree[i] := nrFree[i] + 1;
      free := free';
      forall j | 0 <= j < LISTS ensures Listed(j) {
        assert old(Listed(j));
        assert old(nrFree[..])[j] == old(nrFree[j]);
        assert old(order[..]) == order[..];
        forall e | e in free[j] ensures e in links && Block(j, e) {
          if e in old(free[j]) {
            assert old(Block(j, e));
            assert order[..][e.owner] == order[e.owner];
          }
        }
      }
    }

    /** The first entry of list i, if there is one. */
    lemma FirstBlock(i: nat)
      requires Valid() && i < LISTS
      ensures free[i] == [] <==> heads[i].next == heads[i]
      ensures free[i] != [] ==> heads[i].next == free[i][0] && Block(i, free[i][0]) && heads[i].next in links
    {
      assert Listed(i) && Linked(heads[i], free[i], 0);
    }

    /** list_del of the first entry of list i */
    method UnlinkFirst(i: nat)
      requires Valid() && i < LISTS && free[i] != []
      modifies set e | e in heads, set e | e in links
      ensures Ring(heads[i], free[i][1..])
      ensures forall j :: 0 <= j < LISTS && j != i ==> Ring(heads[j], free[j])
      ensures nrFree[..] == old(nrFree[..]) && order[..] == old(order[..])
    {
      assert Listed(i) && Linked(heads[i], free[i], 0) && Linked(heads[i], free[i], 1);
      ghost var e := free[i][0];
      forall j | 0 <= j < LISTS && j != i
        ensures Ring(heads[j], free[j]) && allocated(free[j])
        ensures heads[i] !in free[j] && e.next !in free[j] && heads[j] != heads[i] && heads[j] != e.next
      {
        Separate(i, j);
        assert Listed(j) && heads[j].owner < 0;
      }
      ListDel(heads[i].next, heads[i], free[i], 0);
      assert Remove(free[i], 0) == free[i][1..];
    }

    /** list_del(list_next(&free_list(i))), nr_free(i)-- */
    method DelFirst(i: nat) returns (p: int)
      requires Valid() && i < LISTS && free[i] != []
      modifies this`free, parts - {order}
      ensures Valid() && Lacks(old(free), p, Pow2(i))
      ensures p == old(Starts()[i][0]) && 0 <= p && p + Pow2(i) <= n && order[p] == i
      ensures Starts() == old(Starts()[i := Starts()[i][1..]])
    {
      hide Pow2, Cover;
      StartsPop(free, i);
      FirstBlock(i);
      p := heads[i].next.owner;
      ghost var free' := free[i := free[i][1..]];
      forall x ensures Cover(free', |free'|, x) + In(p, Pow2(i), x) == Count(x) {
        CoverPop(free, i, x);
      }
      assert Once(free') && InRange(free', n);
      assert forall j :: 0 <= j < LISTS ==> Listed(j);
      assert Listed(i);
      UnlinkFirst(i);
      assert nrFree[i] == nrFree[..][i] && old(nrFree[..])[i] == old(nrFree[i]);
      nrFree[i] := nrFree[i] - 1;
      free := free';
      forall j | 0 <= j < LISTS ensures Listed(j) {
        assert old(Listed(j));
        assert old(nrFree[..])[j] == old(nrFree[j]);
        assert old(order[..]) == order[..];
        forall e | e in free[j] ensures e in links && Block(j, e) {
          assert e in old(free[j]) && old(Block(j, e));
          assert order[..][e.owner] == order[e.owner];
        }
      }
    }

    /** Writing the order of a page that is not on a list. */
    method SetOrder(p: int, v: int)
      requires Valid() && 0 <= p < n && Count(p) == 0
      modifies order
      ensures Valid() && order[p] == v && forall q :: 0 <= q < n && q != p ==> order[q] == old(order[q])
    {
      NotListed(p);
      assert forall j :: 0 <= j < LISTS ==> Listed(j);
      order[p] := v;
      forall j | 0 <= j < LISTS ensures Listed(j) {
        assert old(Listed(j));
        forall e | e in free[j] ensures e in links && Block(j, e) {
          assert old(Block(j, e));
        }
      }
    }

    // ---------- freeing ----------

    /** buddy_free_pages_sub.  Its inner loop leaves by a break in the first round. */
    method FreePagesSub(base: int, ord: nat)
      requires Valid() && ord <= MAX_ORDER && 0 <= base && base + Pow2(ord) <= n
      requires Clear(base, Pow2(ord))
      modifies this`free, parts
      ensures Valid() && Gains(old(free), base, Pow2(ord)) && Freed(old(Starts()), Starts(), base, ord)
    {
      hide Freed, Grown, Adjoins, Climbed;
      ghost var free0, f := free, Starts();
      var p := base;
      StartOfGrowth(base, ord);
      SetOrder(p, ord);
      var i, flag := ord, false;
      while i < MAX_ORDER && !flag
        invariant Valid() && i <= MAX_ORDER && 0 <= p && p + Pow2(i) <= n && order[p] == i
        invariant forall x :: Count(x) + In(p, Pow2(i), x) == Cover(free0, |free0|, x) + In(base, Pow2(ord), x)
        invariant Clear(p, Pow2(i))
        invariant ord <= i && Climbed(f, Starts(), ord, i) && Grown(f, base, ord, i, p)
        invariant flag ==> !Adjoins(f, i, p)
        decreases MAX_ORDER - i, !flag
      {
        Climbing(f, base, ord, i, p);
        p, flag := MergeStep(p, i);
        if !flag {
          i := i + 1;
        }
      }
      ClimbedEnds(f, Starts(), base, ord, i, p);
      AddFree(i, p);
    }

    lemma StartOfGrowth(base: int, ord: nat)
      requires |free| == LISTS
      ensures Climbed(Starts(), Starts(), ord, ord) && Grown(Starts(), base, ord, ord, base)
    {
    }

    /** What a merge with the first block of list i comes to, and that list i has not changed. */
    lemma Climbing(f: Blocks, base: int, ord: nat, i: nat, p: int)
      requires Climbed(f, Starts(), ord, i) && Grown(f, base, ord, i, p) && ord <= i <= MAX_ORDER
      ensures Adjoins(Starts(), i, p) <==> Adjoins(f, i, p)
      ensures Adjoins(f, i, p) ==> Grown(f, base, ord, i + 1, Lower(p, Starts()[i][0]))
      ensures Adjoins(f, i, p) ==> Climbed(f, Starts()[i := Starts()[i][1..]], ord, i + 1)
    {
      hide Grown;
      if Adjoins(f, i, p) {
        Grows(f, base, ord, i, p);
        ClimbedNext(f, Starts(), ord, i);
      }
    }

    /** Lines 83-113: merges the block at p with the first block of list i, if adjacent. */
    method MergeStep(p: int, i: nat) returns (p': int, flag: bool)
      requires Valid() && i < MAX_ORDER && 0 <= p && p + Pow2(i) <= n && order[p] == i
      requires Clear(p, Pow2(i))
      modifies this`free, parts
      ensures Valid() && 0 <= p' < n && order[p'] == if flag then i else i + 1
      ensures flag <==> !old(Adjoins(Starts(), i, p))
      ensures flag ==> p' == p && free == old(free)
      ensures !flag ==> p' + Pow2(i + 1) <= n
      ensures !flag ==> p' == Lower(p, old(Starts()[i][0])) && Starts() == old(Starts()[i := Starts()[i][1..]])
      ensures !flag ==> forall x :: Count(x) + In(p', Pow2(i + 1), x) == old(Count(x)) + In(p, Pow2(i), x)
    {
      p', flag := p, false;
      assert Count(p) == 0;
      FirstBlock(i);
      if heads[i].next == heads[i] {
        flag := true;
      } else {
        var buddy := heads[i].next.owner;
        if p == buddy + BlockSize(order[buddy]) {
          var _ := DelFirst(i);
          p' := buddy;
          assert Count(p') + In(p', Pow2(i), p') <= 1;
          SetOrder(p', order[p'] + 1);
        } else if p + BlockSize(order[p]) == buddy {
          var _ := DelFirst(i);
          SetOrder(p', order[p'] + 1);
        } else {
          flag := true;
        }
      }
    }

    /** The blocks cover what they did when the lists were free0, and the pages of the m0 from
        base on that are not among the m from p on. */
    ghost predicate GaveTo(free0: seq<seq<Entry<int>>>, base: int, m0: int, p: int, m: int)
      reads this`free
    {
      && p + m == base + m0 && base <= p && 0 <= m && Clear(p, m)
      && forall x :: Count(x) + In(p, m, x) == Cover(free0, |free0|, x) + In(base, m0, x)
    }

    lemma GaveMore(free0: seq<seq<Entry<int>>>, free1: seq<seq<Entry<int>>>, base: int, m0: int, p: int, m: int, k: nat)
      requires p + m == base + m0 && base <= p && k <= m && Clear(p + k, m - k) && Gains(free1, p, k)
      requires forall x :: Cover(free1, |free1|, x) + In(p, m, x) == Cover(free0, |free0|, x) + In(base, m0, x)
      ensures GaveTo(free0, base, m0, p + k, m - k)
    {
      forall x ensures Count(x) + In(p + k, m - k, x) == Cover(free0, |free0|, x) + In(base, m0, x) {
        assert Count(x) == Cover(free1, |free1|, x) + In(p, k, x);
      }
    }

    lemma GaveNone(base: int, m0: nat)
      requires Clear(base, m0)
      ensures GaveTo(free, base, m0, base, m0)
    {
    }

    lemma GaveAll(free0: seq<seq<Entry<int>>>, base: int, m0: int, p: int)
      requires GaveTo(free0, base, m0, p, 0)
      ensures Gains(free0, base, m0)
    {
    }

    /** buddy_free_pages */
    method FreePagesIn(base0: int, n0: nat)
      requires Valid() && 0 <= base0 && base0 + n0 <= n && n0 < Pow2(MAX_ORDER + 1)
      requires Clear(base0, n0)
      modifies this`free, parts
      ensures Valid() && Gains(old(free), base0, n0) && FreedAll(old(Starts()), Starts(), base0, n0)
    {
      hide Freed, FreedAll, FreedUpTo, Starts, Block, GaveTo;
      ghost var f := Starts();
      if n0 == 1 {
        FreePagesSub(base0, 0);
        FreedAllPow2(f, Starts(), base0, 0);
      } else {
        ghost var free0 := free;
        FreedNone(f, base0, n0);
        GaveNone(base0, n0);
        var base, m := base0, n0;
        var i: nat, size: nat := OrderAbove(m);
        while m != 0
          invariant Valid() && size == Pow2(i) && i <= MAX_ORDER + 1 && (i == MAX_ORDER + 1 ==> m < size)
          invariant GaveTo(free0, base0, n0, base, m) && 0 <= m < 2 * size
          invariant FreedUpTo(f, Starts(), base0, n0, base, m)
        {
          i, size := OrderBelow(m, i, size);
          FreeGreatest(base, i, m, f, base0, n0, free0);
          base := base + size;
          m := m - size;
        }
        FreedIn(f, Starts(), base0, n0, base);
        GaveAll(free0, base0, n0, base);
      }
    }

    /** Lines 145-146 */
    method FreeGreatest(base: int, i: nat, m: nat, ghost f: Blocks, ghost base0: int, ghost n0: nat,
        ghost free0: seq<seq<Entry<int>>>)
      requires Valid() && i <= MAX_ORDER && 0 <= base0 && base0 + n0 <= n && Greatest(i, m)
      requires GaveTo(free0, base0, n0, base, m) && FreedUpTo(f, Starts(), base0, n0, base, m)
      modifies this`free, parts
      ensures Valid() && Pow2(i) <= m && GaveTo(free0, base0, n0, base + Pow2(i), m - Pow2(i))
      ensures FreedUpTo(f, Starts(), base0, n0, base + Pow2(i), m - Pow2(i))
    {
      hide Freed, FreedUpTo;
      SetOrder(base, i);
      ClearIsUncovered(base, m);
      ghost var free1, h := free, Starts();
      FreePagesSub(base, i);
      GainsClear(free1, base, m, Pow2(i));
      GaveMore(free0, free1, base0, n0, base, m, Pow2(i));
      FreedNext(f, h, Starts(), base0, n0, base, m, i);
    }

    // ---------- allocating ----------

    /** Lines 56-59: puts the upper half of a block of 2 * size pages on list i. */
    method AddHalf(page: int, i: nat, size: nat, ghost f: Blocks, ghost i0: nat)
      requires Valid() && i < LISTS && size == Pow2(i) && 0 <= page && page + 2 * size <= n
      requires Clear(page, 2 * size) && Splitting(f, Starts(), page, i + 1, i0)
      modifies this`free, parts
      ensures Valid() && Gains(old(free), page + size, size) && Splitting(f, Starts(), page, i, i0)
    {
      hide Splitting;
      SplittingNext(f, Starts(), page, i + 1, i0);
      var buddy := page + size;
      SetOrder(buddy, i);
      AddFree(i, buddy);
    }

    /** Lines 47-61: takes the first block of list i0 and puts back its upper halves. */
    method SplitFirst(i0: nat, ord: nat) returns (page: int)
      requires Valid() && ord <= i0 < LISTS && free[i0] != []
      modifies this`free, parts
      ensures Valid() && 0 <= page && page + Pow2(ord) <= n
      ensures Lacks(old(free), page, Pow2(ord)) && Splitting(old(Starts()), Starts(), page, ord, i0)
    {
      hide Splitting;
      ghost var free0, f := free, Starts();
      SplittingStarts(f, i0);
      var i := i0;
      page := DelFirst(i);
      var size := BlockSize(i);
      while i > ord
        invariant Valid() && ord <= i <= i0 && size == Pow2(i) && 0 <= page && page + Pow2(i) <= n
        invariant Lacks(free0, page, Pow2(i)) && Splitting(f, Starts(), page, i, i0)
      {
        LacksClear(free0, page, Pow2(i));
        i := i - 1;
        size := size / 2;
        AddHalf(page, i, size, f, i0);
      }
    }

    lemma EmptyLists()
      ensures forall k :: 0 <= k < |free| ==> (Starts()[k] == [] <==> free[k] == [])
    {
    }

    /** buddy_alloc_pages_sub */
    method AllocPagesSub(ord: nat) returns (page: Option<int>)
      requires Valid()
      modifies this`free, parts
      ensures Valid()
      ensures page.None? <==> forall i :: ord <= i < LISTS ==> old(free[i]) == []
      ensures page.None? ==> free == old(free)
      ensures page.Some? ==> ord < LISTS && 0 <= page.value && page.value + Pow2(ord) <= n
      ensures page.Some? ==> Lacks(old(free), page.value, Pow2(ord)) && Taken(old(Starts()), Starts(), page.value, ord)
    {
      hide Splitting, Taken, Starts;
      ghost var f := Starts();
      EmptyLists();
      var i := ord;
      while i <= MAX_ORDER
        invariant ord <= i && Valid() && free == old(free)
        invariant forall j :: ord <= j < i && j < LISTS ==> free[j] == []
      {
        FirstBlock(i);
        if heads[i].next != heads[i] {
          var p := SplitFirst(i, ord);
          SplitTaken(f, Starts(), p, ord, i);
          return Some(p);
        }
        i := i + 1;
      }
      return None;
    }

    /** buddy_alloc_pages */
    method AllocPagesIn(n0: nat) returns (page: Option<int>)
      requires Valid()
      modifies this`free, parts
      ensures Valid()
      ensures page.None? <==> n0 == 0 || forall i :: 0 <= i < LISTS && n0 <= Pow2(i) ==> old(free[i]) == []
      ensures page.None? ==> free == old(free)
      ensures page.Some? ==> 0 <= page.value && page.value + n0 <= n
      ensures page.Some? ==> Lacks(old(free), page.value, n0) && Allocated(old(Starts()), Starts(), page.value, n0)
    {
      hide Once, InRange, Block, Taken, FreedAll, Allocated;
      ghost var f := Starts();
      if n0 == 0 {
        return None;
      }
      var ord := GetOrder(n0);
      page := AllocPagesSub(ord);
      ghost var h := Starts();
      if page.Some? {
        NothingFreed(h, h, page.value + n0);
        LacksClear(old(free), page.value, Pow2(ord));
        Pow2Mono(ord, MAX_ORDER + 1);
      }
      if page.Some? && n0 != BlockSize(ord) {
        FreePagesIn(page.value + n0, BlockSize(ord) - n0);
      }
      if page.Some? {
        AllocatedIs(f, h, Starts(), page.value, n0, ord);
      }
    }

    // ---------- handing pages over ----------

    /** buddy_init_memmap */
    method InitMemmapIn(base: int, n0: nat)
      requires Valid() && 0 <= base && base + n0 <= n && Clear(base, n0)
      modifies this`free, parts
      ensures Valid() && Gains(old(free), base, n0) && Given(old(Starts()), Starts(), base, n0)
    {
      var p := base;
      while p != base + n0
        invariant Valid() && base <= p <= base + n0 && free == old(free) && Clear(base, n0)
      {
        SetOrder(p, 0);
        p := p + 1;
      }
      GiveBlocks(base, n0);
    }

    /** Lines 26-40 */
    method GiveBlocks(base: int, n0: nat)
      requires Valid() && 0 <= base && base + n0 <= n && Clear(base, n0)
      modifies this`free, parts
      ensures Valid() && Gains(old(free), base, n0) && Given(old(Starts()), Starts(), base, n0)
    {
      hide Given, GivenUpTo, GaveTo;
      ghost var free0, f := free, Starts();
      GivenNone(f, base, n0);
      GaveNone(base, n0);
      var p, m := base, n0;
      var ord, size := MAX_ORDER, BlockSize(MAX_ORDER);
      while m != 0
        invariant Valid() && -1 <= ord <= MAX_ORDER && (ord >= 0 ==> size == Pow2(ord)) && (ord == -1 ==> m == 0)
        invariant GaveTo(free0, base, n0, p, m) && (0 <= ord < MAX_ORDER ==> m < 2 * size)
        invariant GivenUpTo(f, Starts(), base, n0, p, m)
        decreases ord
      {
        p, m := GiveOrder(p, m, ord, size, free0, base, n0, f);
        ord, size := ord - 1, size / 2;
      }
      GivenIn(f, Starts(), base, n0, p);
      GaveAll(free0, base, n0, p);
    }

    /** Lines 29-37 */
    method GiveOrder(p0: int, m0: nat, ord: nat, size: nat, ghost free0: seq<seq<Entry<int>>>, ghost base: int,
        ghost n0: nat, ghost f: Blocks)
        returns (p: int, m: nat)
      requires Valid() && ord <= MAX_ORDER && size == Pow2(ord) && 0 <= base && base + n0 <= n
      requires GaveTo(free0, base, n0, p0, m0) && (ord < MAX_ORDER ==> m0 < 2 * size)
      requires GivenUpTo(f, Starts(), base, n0, p0, m0)
      modifies this`free, parts
      ensures Valid() && GaveTo(free0, base, n0, p, m) && m < size && GivenUpTo(f, Starts(), base, n0, p, m)
    {
      hide GivenUpTo, Starts, GaveTo;
      p, m := p0, m0;
      while m >= size
        invariant Valid() && GaveTo(free0, base, n0, p, m) && (ord < MAX_ORDER ==> m < 2 * size)
        invariant GivenUpTo(f, Starts(), base, n0, p, m)
        decreases m
      {
        AddBlock(p, ord, m, f, base, n0, free0);
        p, m := p + size, m - size;
      }
    }

    /** Lines 30-33 */
    method AddBlock(p: int, ord: nat, ghost m: nat, ghost f: Blocks, ghost base: int, ghost n0: nat,
        ghost free0: seq<seq<Entry<int>>>)
      requires Valid() && 0 <= base && base + n0 <= n && GreatestOrder(ord, m)
      requires GaveTo(free0, base, n0, p, m) && GivenUpTo(f, Starts(), base, n0, p, m)
      modifies this`free, parts
      ensures Valid() && Pow2(ord) <= m && GaveTo(free0, base, n0, p + Pow2(ord), m - Pow2(ord))
      ensures GivenUpTo(f, Starts(), base, n0, p + Pow2(ord), m - Pow2(ord))
    {
      hide GivenUpTo;
      ClearIsUncovered(p, m);
      ghost var free1 := free;
      GivenNext(f, Starts(), base, n0, p, m, ord);
      SetOrder(p, ord);
      AddFree(ord, p);
      GainsClear(free1, p, m, Pow2(ord));
      GaveMore(free0, free1, base, n0, p, m, Pow2(ord));
    }

    lemma LacksSet(f: seq<seq<Entry<int>>>, p: int, m: nat)
      requires Valid() && Lacks(f, p, m) && Once(f) && InRange(f, n)
      ensures Covered(f, |f|, n) == FreeSet() + Pages(p, m) && FreeSet() !! Pages(p, m)
    {
      forall x | x in Pages(p, m) ensures x in Covered(f, |f|, n) && x !in FreeSet() {
        assert Count(x) + In(p, m, x) == Cover(f, |f|, x);
      }
      forall x | x in Covered(f, |f|, n) ensures x in FreeSet() + Pages(p, m) {
        assert Count(x) + In(p, m, x) == Cover(f, |f|, x);
      }
      forall x | x in FreeSet() ensures x in Covered(f, |f|, n) {
        assert Count(x) + In(p, m, x) == Cover(f, |f|, x);
      }
    }

    lemma GainsSet(f: seq<seq<Entry<int>>>, p: int, m: nat)
      requires Valid() && Gains(f, p, m) && 0 <= p && p + m <= n
      ensures FreeSet() == Covered(f, |f|, n) + Pages(p, m)
    {
      forall x | 0 <= x < n ensures x in FreeSet() <==> x in Covered(f, |f|, n) + Pages(p, m) {
        assert Count(x) == Cover(f, |f|, x) + In(p, m, x);
      }
    }

    lemma OutIsClear(p: int, m: nat)
      requires Valid() && FreeSet() !! Pages(p, m)
      ensures Clear(p, m)
    {
      forall x | p <= x < p + m ensures Count(x) == 0 {
        assert x in Pages(p, m);
      }
    }

    /** No page is free exactly if all lists are empty. */
    lemma NoneFree()
      requires Valid()
      ensures FreeSet() == {} <==> forall i :: 0 <= i < LISTS ==> free[i] == []
    {
      if forall i :: 0 <= i < LISTS ==> free[i] == [] {
        forall x ensures Cover(free, |free|, x) == 0 {
          CoverEmpty(free, |free|, x);
        }
      } else {
        var i :| 0 <= i < LISTS && free[i] != [];
        assert Listed(i) && Block(i, free[i][0]);
        CoverAt(free, |free|, i, 0, free[i][0].owner);
        assert free[i][0].owner in FreeSet();
      }
    }

    /** init_memmap of the page manager */
    method InitMemmap(base: int, n0: nat)
      requires Sound() && 0 <= base && base + n0 <= n && Pages(base, n0) !! given
      modifies this, parts
      ensures Sound() && given == old(given) + Pages(base, n0) && out == old(out)
      ensures FreeSet() == old(FreeSet()) + Pages(base, n0) && Given(old(Starts()), Starts(), base, n0)
    {
      OutIsClear(base, n0);
      InitMemmapIn(base, n0);
      GainsSet(old(free), base, n0);
      given := given + Pages(base, n0);
    }

    /** alloc_pages of the page manager */
    method AllocPages(n0: nat) returns (page: Option<int>)
      requires Sound()
      modifies this, parts
      ensures Sound() && given == old(given)
      ensures page.None? <==> n0 == 0 || forall i :: 0 <= i < LISTS && n0 <= Pow2(i) ==> old(free[i]) == []
      ensures page.None? ==> free == old(free) && FreeSet() == old(FreeSet()) && out == old(out)
      ensures page.Some? ==> Pages(page.value, n0) <= old(FreeSet()) && 0 <= page.value && page.value + n0 <= n
      ensures page.Some? ==> FreeSet() == old(FreeSet()) - Pages(page.value, n0)
      ensures page.Some? ==> out == old(out) + Pages(page.value, n0)
      ensures page.Some? ==> Allocated(old(Starts()), Starts(), page.value, n0)
    {
      page := AllocPagesIn(n0);
      if page.Some? {
        LacksSet(old(free), page.value, n0);
        out := out + Pages(page.value, n0);
      }
    }

    /** free_pages of the page manager */
    method FreePages(base: int, n0: nat)
      requires Sound() && 0 <= base && base + n0 <= n && Pages(base, n0) <= out && n0 < Pow2(MAX_ORDER + 1)
      modifies this, parts
      ensures Sound() && given == old(given) && out == old(out) - Pages(base, n0)
      ensures FreeSet() == old(FreeSet()) + Pages(base, n0) && FreedAll(old(Starts()), Starts(), base, n0)
    {
      OutIsClear(base, n0);
      FreePagesIn(base, n0);
      GainsSet(old(free), base, n0);
      out := out - Pages(base, n0);
    }

    /** The pages given are those counted by nr_free and those handed out. */
    lemma PagesAccounted()
      requires Sound()
      ensures |given| == Weight(nrFree[..], LISTS) + |out|
    {
      forall i | 0 <= i < LISTS ensures nrFree[..][i] == |free[i]| {
        assert Listed(i);
      }
      assert Inside(free, |free|, n) by {
        forall i, j | 0 <= i < LISTS && 0 <= j < |free[i]|
          ensures 0 <= free[i][j].owner && free[i][j].owner + Pow2(i) <= n
        {
          assert Listed(i) && Block(i, free[i][j]);
        }
      }
      SumCoverIs(free, nrFree[..], |free|, n);
      SumCoverCounts(free, |free|, n);
    }

    /** Block j of list i and block l of list k share no page. */
    lemma BlocksDisjoint(i: nat, j: nat, k: nat, l: nat)
      requires Valid() && i <= k < LISTS && j < |free[i]| && l < |free[k]| && (i == k ==> j < l)
      ensures Pages(free[i][j].owner, Pow2(i)) !! Pages(free[k][l].owner, Pow2(k))
      ensures 0 <= free[i][j].owner < n && order[free[i][j].owner] == i && Pages(free[i][j].owner, Pow2(i)) <= FreeSet()
    {
      assert Listed(i) && Block(i, free[i][j]);
      forall x | x in Pages(free[i][j].owner, Pow2(i)) ensures x !in Pages(free[k][l].owner, Pow2(k)) {
        CoverTwo(free, |free|, i, j, k, l, x);
      }
      forall x | x in Pages(free[i][j].owner, Pow2(i)) ensures x in FreeSet() {
        CoverAt(free, |free|, i, j, x);
      }
    }
  }

  ghost function Objects(a: array<nat>, b: array<int>, hs: seq<Entry<int>>, ls: seq<Entry<int>>): (r: set<object>)
    ensures a in r && b in r && (forall e :: e in hs ==> e in r) && (forall e :: e in ls ==> e in r)
    ensures forall o :: o in r ==> o == a || o == b || o in hs || o in ls
  {
    {a as object, b as object} + (set e | e in hs) + (set e | e in ls)
  }

  method NewHeads() returns (hs: seq<Entry<int>>)
    ensures |hs| == LISTS && forall j :: 0 <= j < LISTS ==> fresh(hs[j]) && hs[j].owner == -1 - j && Ring(hs[j], [])
  {
    hs := [];
    while |hs| < LISTS
      invariant |hs| <= LISTS
      invariant forall j :: 0 <= j < |hs| ==> fresh(hs[j]) && hs[j].owner == -1 - j && Ring(hs[j], [])
    {
      var h := new Entry<int>(-1 - |hs|);
      ListInit(h);
      hs := hs + [h];
    }
  }

  method NewLinks(n: nat) returns (ls: seq<Entry<int>>)
    ensures |ls| == n && forall j :: 0 <= j < n ==> fresh(ls[j]) && ls[j].owner == j
  {
    ls := [];
    while |ls| < n
      invariant |ls| <= n && forall j :: 0 <= j < |ls| ==> fresh(ls[j]) && ls[j].owner == j
    {
      var e := new Entry<int>(|ls|);
      ls := ls + [e];
    }
  }

  /** Lines 135-139: the least power of two above m */
  method OrderAbove(m: nat) returns (i: nat, size: nat)
    requires m < Pow2(MAX_ORDER + 1)
    ensures size == Pow2(i) && m < size && i <= MAX_ORDER + 1 && (m > 0 ==> size <= 2 * m)
  {
    i, size := 0, 1;
    while m >= size
      invariant size == Pow2(i) && i <= MAX_ORDER + 1 && (m > 0 ==> size <= 2 * m)
      decreases MAX_ORDER + 1 - i
    {
      i, size := i + 1, size * 2;
    }
  }

  /** Lines 141-144: the greatest power of two not above m */
  method OrderBelow(m: nat, i0: nat, size0: nat) returns (i: nat, size: nat)
    requires size0 == Pow2(i0) && 0 < m < 2 * size0
    ensures size == Pow2(i) && size <= m < 2 * size && i <= i0
  {
    i, size := i0, size0;
    while m < size
      invariant size == Pow2(i) && m < 2 * size && i <= i0
    {
      i, size := i - 1, size / 2;
    }
  }

  /** getorder: the least order that is enough for n pages, or (size_t)-1 */
  method GetOrder(n: nat) returns (order: nat)
    ensures forall j :: 0 <= j < LISTS ==> (order <= j <==> n <= Pow2(j))
    ensures order >= LISTS ==> order == 0xFFFF_FFFF
  {
    order := 0;
    var orderSize := 1;
    while order <= MAX_ORDER
      invariant order <= LISTS && orderSize == Pow2(order)
      invariant forall j :: 0 <= j < order ==> Pow2(j) < n
    {
      if n <= orderSize {
        forall j | order <= j < LISTS ensures n <= Pow2(j) {
          Pow2Mono(order, j);
        }
        return;
      }
      order, orderSize := order + 1, orderSize * 2;
    }
    order := 0xFFFF_FFFF;
  }

  /** 1 << k, the number of pages of a block of order k */
  function BlockSize(k: int): nat
    requires k >= 0
  {
    Pow2(k)
  }
}
