// kern/mm/pmm.c, lines 370-430: print_pgdir goes through a table in runs of present
// entries with equal permissions.

module PgdirItems {
  import opened Arith
  import opened Mmu

  datatype Run = Run(left: nat, right: nat, perm: nat)

  function UserBits(e: word): nat {
    And(e, PTE_USER)
  }

  /** They are the present, write and user bits. */
  lemma UserBitsAre(e: word)
    ensures UserBits(e) == (if Bit(e, 0) then 1 else 0) + (if Bit(e, 1) then 2 else 0) + (if Bit(e, 2) then 4 else 0)
  {
    hide And, Bit, Pow2;
    UserMask(e);
    ModStep(e, 4);
    ModStep(e / 2, 2);
    LowBits(e);
  }

  lemma UserMask(e: word)
    ensures UserBits(e) == e % 8
  {
    AndLow(e, 3);
    assert Pow2(3) == 8;
  }

  lemma LowBits(e: word)
    ensures (Bit(e, 0) <==> e % 2 == 1) && (Bit(e, 1) <==> e / 2 % 2 == 1) && (Bit(e, 2) <==> e / 2 / 2 % 2 == 1)
  {
    assert Bit(e, 2) == Bit(e / 2, 1) == Bit(e / 2 / 2, 0) && Bit(e, 1) == Bit(e / 2, 0);
  }

  lemma PresentBits(e: word)
    ensures Present(e) ==> UserBits(e) != 0
    ensures !Present(e) ==> UserBits(e) % 2 == 0
  {
    FlagIsBit(e);
    AndBit(e, PTE_USER, 0);
  }

  /** The entries of a run are present, and equal in their permissions. */
  ghost predicate RunOk(table: seq<word>, r: Run) {
    r.left < r.right <= |table| && forall i :: r.left <= i < r.right ==>
        Present(table[i]) && UserBits(table[i]) == r.perm
  }

  ghost predicate NonePresent(table: seq<word>, from: nat, to: nat)
    requires to <= |table|
  {
    forall i :: from <= i < to ==> !Present(table[i])
  }

  /** get_pgtable_items: the first run from start on, as long as can be; 0 if there is none */
  method GetPgtableItems(right: nat, start0: nat, table: seq<word>) returns (perm: nat, leftStore: nat, rightStore: nat)
    requires right <= |table|
    ensures perm == 0 <==> NonePresent(table, start0, right)
    ensures perm != 0 ==> start0 <= leftStore < rightStore <= right && NonePresent(table, start0, leftStore)
    ensures perm != 0 ==> RunOk(table, Run(leftStore, rightStore, perm))
    ensures perm != 0 && rightStore < right ==> UserBits(table[rightStore]) != perm
  {
    var start := start0;
    perm, leftStore, rightStore := 0, 0, 0;
    if start >= right {
      return;
    }
    while start < right && !Present(table[start])
      invariant start0 <= start <= right && NonePresent(table, start0, start)
    {
      start := start + 1;
    }
    if start < right {
      leftStore := start;
      PresentBits(table[start]);
      perm := UserBits(table[start]);
      start := start + 1;
      while start < right && UserBits(table[start]) == perm
        invariant leftStore < start <= right && RunOk(table, Run(leftStore, start, perm))
      {
        PresentBits(table[leftStore]);
        SameBits(table[leftStore], table[start]);
        start := start + 1;
      }
      rightStore := start;
    }
  }

  lemma SameBits(e: word, f: word)
    requires UserBits(e) == UserBits(f) && Present(e)
    ensures Present(f)
  {
    FlagIsBit(e);
    FlagIsBit(f);
    AndBit(e, PTE_USER, 0);
    AndBit(f, PTE_USER, 0);
  }

  ghost predicate InRun(r: Run, i: nat) {
    r.left <= i < r.right
  }

  /** The runs come in order, cover exactly the present ones of the first n entries, and
      cannot be made longer. */
  ghost predicate Cut(table: seq<word>, n: nat, runs: seq<Run>)
    requires n <= |table|
  {
    && (forall k :: 0 <= k < |runs| ==> RunOk(table, runs[k]) && runs[k].right <= n)
    && (forall j, k :: 0 <= j < k < |runs| ==> runs[j].right <= runs[k].left)
    && (forall i :: 0 <= i < n ==> (Present(table[i]) <==> exists k :: 0 <= k < |runs| && InRun(runs[k], i)))
    && (forall k :: 0 <= k < |runs| && runs[k].right < n ==> UserBits(table[runs[k].right]) != runs[k].perm)
  }

  /** The outer loop of print_pgdir, which prints a line for each run */
  method PrintPgdir(table: seq<word>) returns (runs: seq<Run>)
    ensures Cut(table, |table|, runs)
  {
    runs := [];
    var right := 0;
    var perm, left, right' := GetPgtableItems(|table|, right, table);
    while perm != 0
      invariant right <= |table| && Cut(table, right, runs)
      invariant perm == 0 <==> NonePresent(table, right, |table|)
      invariant perm != 0 ==>
                right <= left < right' <= |table| && NonePresent(table, right, left) &&
                    RunOk(table, Run(left, right', perm))
      invariant perm != 0 && right' < |table| ==> UserBits(table[right']) != perm
      invariant |runs| > 0 ==>
                runs[|runs| - 1].right == right && (right < |table| ==> UserBits(table[right]) != runs[|runs| - 1].perm)
      decreases |table| - right, perm
    {
      NextRun(table, right, runs, Run(left, right', perm));
      runs := runs + [Run(left, right', perm)];
      right := right';
      perm, left, right' := GetPgtableItems(|table|, right, table);
    }
    LastRun(table, right, runs);
  }

  lemma NextRun(table: seq<word>, n: nat, runs: seq<Run>, r: Run)
    requires n <= r.left && RunOk(table, r) && Cut(table, n, runs) && NonePresent(table, n, r.left)
    requires |runs| > 0 ==> runs[|runs| - 1].right == n && UserBits(table[n]) != runs[|runs| - 1].perm
    ensures Cut(table, r.right, runs + [r])
  {
    var all := runs + [r];
    forall i | 0 <= i < r.right
      ensures Present(table[i]) <==> exists k :: 0 <= k < |all| && InRun(all[k], i)
    {
      if r.left <= i {
        assert InRun(all[|runs|], i);
      } else if i < n && Present(table[i]) {
        var k :| 0 <= k < |runs| && InRun(runs[k], i);
        assert InRun(all[k], i);
      }
    }
  }

  lemma LastRun(table: seq<word>, n: nat, runs: seq<Run>)
    requires n <= |table| && Cut(table, n, runs) && NonePresent(table, n, |table|)
    requires |runs| > 0 && n < |table| ==> runs[|runs| - 1].right == n && UserBits(table[n]) != runs[|runs| - 1].perm
    ensures Cut(table, |table|, runs)
  {
  }
}
