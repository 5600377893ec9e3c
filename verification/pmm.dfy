// kern/mm/pmm.c, lines 151-162 and 230-284: page tables in physical memory, with the
// translations that the processor may have cached.

module Pmm {
  import opened Arith
  import opened SlabLayout
  import opened Mmu
  import opened PageTables
  import opened BuddyBlocks
  import opened BuddyLists
  import opened BuddyPmm
  import opened Options

  class Machine {
    const buddy: Buddy
    /** Physical memory; word i of page p is mem[p * 1024 + i]. */
    const mem: array<word>
    /** The page of the directory in use, and the translations cached from it, by page. */
    var cr3: nat
    var tlb: map<nat, Translation>

    ghost predicate Ok()
      reads buddy, buddy.parts
    {
      && mem.Length == buddy.n * ENTRIES && buddy.n <= PAGES
      && mem !in buddy.parts && this !in buddy.parts && buddy.Sound()
    }

    /** The page tables of the directory in page d */
    ghost predicate Pgdir(d: nat)
      reads mem, buddy`out
    {
      Tables(mem[..], d, buddy.out)
    }

    /** No cached translation is stale. */
    ghost predicate Coherent()
      reads this, mem
    {
      Fresh(tlb, mem[..], cr3)
    }

    /** A machine with the memory that the page allocator manages, and no paging yet. */
    constructor (buddy: Buddy)
      requires buddy.Sound() && buddy.n <= PAGES
      ensures Ok() && this.buddy == buddy && tlb == map[]
    {
      this.buddy := buddy;
      mem := new word[buddy.n * ENTRIES](_ => 0);
      cr3, tlb := 0, map[];
    }

    /** memset(va, 0, PGSIZE) for page f */
    method ClearPage(f: nat)
      requires InMemory(mem[..], f)
      modifies mem
      ensures forall k :: f * ENTRIES <= k < (f + 1) * ENTRIES ==> mem[k] == 0
      ensures forall k :: 0 <= k < mem.Length && !(f * ENTRIES <= k < (f + 1) * ENTRIES) ==> mem[k] == old(mem[k])
    {
      var i := 0;
      while i < ENTRIES
        invariant 0 <= i <= ENTRIES
        invariant forall k :: f * ENTRIES <= k < f * ENTRIES + i ==> mem[k] == 0
        invariant forall k :: 0 <= k < mem.Length && !(f * ENTRIES <= k < f * ENTRIES + i) ==> mem[k] == old(mem[k])
      {
        mem[f * ENTRIES + i] := 0;
        i := i + 1;
      }
    }

    /** Lines 240-242: puts a table in page f, which no one uses yet. */
    method AddTable(d: nat, i: nat, f: nat, ghost out: set<int>)
      requires mem.Length == buddy.n * ENTRIES && f < buddy.n <= PAGES && i < ENTRIES
      requires Tables(mem[..], d, out) && !Present(mem[d * ENTRIES + i]) && f !in out
      modifies mem
      ensures Tables(mem[..], d, out + {f}) && SameWalks(old(mem[..]), mem[..], d) && Present(mem[d * ENTRIES + i])
      ensures forall k :: 0 <= k < mem.Length && !(f * ENTRIES <= k < (f + 1) * ENTRIES) && k != d * ENTRIES + i ==>
                mem[k] == old(mem[k])
    {
      ghost var m := mem[..];
      ClearPage(f);
      mem[d * ENTRIES + i] := MakeEntry(f, PTE_U + PTE_W);
      assert WithTable(m, mem[..], d, i, f);
      NewTable(m, mem[..], d, i, f, out);
    }

    /** Lines 239-242: gives entry i of d a new table, if there is a page for it. */
    method NewTableFor(d: nat, i: nat) returns (ok: bool)
      requires Ok() && Pgdir(d) && i < ENTRIES && !Present(mem[d * ENTRIES + i])
      modifies mem, buddy, buddy.parts
      ensures Ok() && Pgdir(d) && SameWalks(old(mem[..]), mem[..], d) && old(buddy.out) <= buddy.out &&
                buddy.FreeSet() <= old(buddy.FreeSet())
      ensures ok <==> old(buddy.FreeSet()) != {}
      ensures ok ==> Present(mem[d * ENTRIES + i])
      ensures !ok ==> mem[..] == old(mem[..]) && buddy.out == old(buddy.out) && buddy.FreeSet() == old(buddy.FreeSet())
      ensures forall k :: 0 <= k < mem.Length && k / ENTRIES in old(buddy.out) && k / ENTRIES != d ==>
                mem[k] == old(mem[k])
    {
      hide Allocated, Buddy.Starts;
      buddy.NoneFree();
      ghost var out := buddy.out;
      assert allocated(buddy.parts);
      var page := buddy.AllocPages(1);
      ok := page.Some?;
      if ok {
        OnePage(page.value);
        AddTable(d, i, page.value, out);
      }
    }

    /** get_pte: the index in mem of the table entry of la, if there is a page for the table
        or none is needed.  Without one the source goes on with the page at NULL. */
    method GetPte(d: nat, la: word) returns (p: Option<nat>)
      requires Ok() && Pgdir(d)
      modifies mem, buddy, buddy.parts
      ensures Ok() && Pgdir(d) && SameWalks(old(mem[..]), mem[..], d) && old(buddy.out) <= buddy.out &&
                buddy.FreeSet() <= old(buddy.FreeSet())
      ensures p.None? <==> !Present(old(Pde(mem[..], d, Ppn(la)))) && old(buddy.FreeSet()) == {}
      ensures p.None? || Present(old(Pde(mem[..], d, Ppn(la)))) ==>
                mem[..] == old(mem[..]) && buddy.out == old(buddy.out) && buddy.FreeSet() == old(buddy.FreeSet())
      ensures p.Some? ==> Present(Pde(mem[..], d, Ppn(la))) && p.value == PteIndex(mem[..], d, Ppn(la)) < mem.Length
      ensures forall k :: 0 <= k < mem.Length && k / ENTRIES in old(buddy.out) && k / ENTRIES != d ==>
                mem[k] == old(mem[k])
    {
      DivTwice(la, la);
      assert EntryOk(mem[..], d, Pdx(la), buddy.out);
      if !Present(mem[d * ENTRIES + Pdx(la)]) {
        var ok := NewTableFor(d, Pdx(la));
        if !ok {
          return None;
        }
      }
      assert EntryOk(mem[..], d, Pdx(la), buddy.out);
      return Some(Frame(mem[d * ENTRIES + Pdx(la)]) * ENTRIES + Ptx(la));
    }

    /** alloc_page, which leaves the page tables of d alone */
    method AllocPage(ghost d: nat) returns (p: Option<nat>)
      requires Ok() && Pgdir(d)
      modifies buddy, buddy.parts
      ensures Ok() && Pgdir(d) && buddy.FreeSet() <= old(buddy.FreeSet())
      ensures p.None? <==> old(buddy.FreeSet()) == {}
      ensures p.Some? ==> p.value < buddy.n && p.value in old(buddy.FreeSet()) && p.value !in buddy.FreeSet()
    {
      buddy.NoneFree();
      ghost var out := buddy.out;
      assert allocated(buddy.parts);
      p := buddy.AllocPages(1);
      if p.Some? {
        OnePage(p.value);
      }
      TablesMore(mem[..], d, out, buddy.out);
    }

    lemma OnePage(p: int)
      ensures Pages(p, 1) == {p}
    {
      assert In(p, 1, p) == 1;
    }

    /** tlb_invalidate; rcr3() is compared with PADDR(pgdir). */
    method TlbInvalidate(d: nat, la: word)
      modifies this`tlb
      ensures tlb == if cr3 == d then old(tlb) - {Ppn(la)} else old(tlb)
    {
      if cr3 == d {
        tlb := tlb - {Ppn(la)};
      }
    }

    /** Word p of memory is the table entry of la, which is not seen through the window. */
    ghost predicate PteAt(d: nat, la: word, p: nat)
      requires InMemory(mem[..], d)
      reads mem
    {
      !InWindow(mem[..], d, Ppn(la)) && Present(Pde(mem[..], d, Ppn(la))) &&
          p == PteIndex(mem[..], d, Ppn(la)) < mem.Length
    }

    /** *pte_p = e */
    method SetPte(d: nat, la: word, p: nat, e: word)
      requires Pgdir(d) && PteAt(d, la, p)
      modifies mem
      ensures Pgdir(d) && PteAt(d, la, p)
      ensures Walk(mem[..], d, Ppn(la)) == if Present(e) then Mapped(Frame(e), User(e), Writable(e)) else Unmapped
      ensures SameOthers(old(mem[..]), mem[..], d, Ppn(la)) && mem[p] == e
      ensures forall k :: 0 <= k < mem.Length && k != p ==> mem[k] == old(mem[k])
    {
      ghost var m := mem[..];
      SetEntry(m, d, Ppn(la), e, buddy.out);
      assert EntryOk(m, d, Ppn(la) / ENTRIES, buddy.out);
      mem[p] := e;
      assert mem[..] == m[p := e];
      SetEntryAt(m, d, Ppn(la), e, Ppn(la), buddy.out);
    }

    /** page_remove_pte */
    method PageRemovePte(d: nat, la: word, p: nat)
      requires Pgdir(d) && PteAt(d, la, p)
      modifies mem, this`tlb
      ensures Pgdir(d) && PteAt(d, la, p)
      ensures Walk(mem[..], d, Ppn(la)) == Unmapped && SameOthers(old(mem[..]), mem[..], d, Ppn(la))
      ensures old(Coherent()) && cr3 == d ==> Coherent()
      ensures forall k :: 0 <= k < mem.Length && k != p ==> mem[k] == old(mem[k])
    {
      if Present(mem[p]) {
        FlagsUW();
        ghost var m, coherent := mem[..], Coherent();
        SetPte(d, la, p, 0);
        if coherent && cr3 == d {
          StillFresh(tlb, m, mem[..], d, Ppn(la));
        }
        TlbInvalidate(d, la);
      }
    }

    /** page_insert from line 271 on */
    method PutPage(d: nat, page: nat, la: word, perm: nat, p: nat)
      requires Pgdir(d) && page < PAGES && perm < PGSIZE && PteAt(d, la, p)
      modifies mem, this`tlb
      ensures Pgdir(d) && PteAt(d, la, p) && SameOthers(old(mem[..]), mem[..], d, Ppn(la))
      ensures Walk(mem[..], d, Ppn(la)) == Mapped(page, User(perm), Writable(perm))
      ensures old(Coherent()) && cr3 == d ==> Coherent()
      ensures forall k :: 0 <= k < mem.Length && k != p ==> mem[k] == old(mem[k])
    {
      ghost var m0, coherent := mem[..], Coherent() && cr3 == d;
      if mem[p] != 0 {
        if Frame(mem[p]) != page {
          PageRemovePte(d, la, p);
        }
      }
      ghost var m1 := mem[..];
      SetPte(d, la, p, MakeEntry(page, perm));
      OthersTrans(m0, m1, mem[..], d, Ppn(la));
      if coherent {
        StillFresh(tlb, m1, mem[..], d, Ppn(la));
      }
      TlbInvalidate(d, la);
    }

    /** page_insert.  It fails where the source goes on with the page at NULL. */
    method PageInsert(d: nat, page: nat, la: word, perm: nat) returns (ok: bool)
      requires Ok() && Pgdir(d) && page < PAGES && perm < PGSIZE && !InWindow(mem[..], d, Ppn(la))
      modifies mem, this`tlb, buddy, buddy.parts
      ensures Ok() && Pgdir(d) && SameOthers(old(mem[..]), mem[..], d, Ppn(la)) && !InWindow(mem[..], d, Ppn(la))
      ensures ok ==> Walk(mem[..], d, Ppn(la)) == Mapped(page, User(perm), Writable(perm))
      ensures !ok <==> !Present(old(Pde(mem[..], d, Ppn(la)))) && old(buddy.FreeSet()) == {}
      ensures !ok ==> mem[..] == old(mem[..]) && tlb == old(tlb)
      ensures Present(old(Pde(mem[..], d, Ppn(la)))) ==> buddy.FreeSet() == old(buddy.FreeSet())
      ensures old(Coherent()) && cr3 == d ==> Coherent()
    {
      ghost var m0 := mem[..];
      var pte := GetPte(d, la);
      ghost var m1 := mem[..];
      assert SameWalk(m0, m1, d, Ppn(la));
      FreshGrown(tlb, m0, m1, cr3, d);
      if pte.None? {
        return false;
      }
      PutPage(d, page, la, perm, pte.value);
      OthersTrans(m0, m1, mem[..], d, Ppn(la));
      ok := true;
    }

    /** page_remove, which sets up a table for la if there is none */
    method PageRemove(d: nat, la: word) returns (ok: bool)
      requires Ok() && Pgdir(d) && !InWindow(mem[..], d, Ppn(la))
      modifies mem, this`tlb, buddy, buddy.parts
      ensures Ok() && Pgdir(d) && SameOthers(old(mem[..]), mem[..], d, Ppn(la)) && !InWindow(mem[..], d, Ppn(la))
      ensures Walk(mem[..], d, Ppn(la)) == Unmapped
      ensures !ok <==> !Present(old(Pde(mem[..], d, Ppn(la)))) && old(buddy.FreeSet()) == {}
      ensures old(Coherent()) && cr3 == d ==> Coherent()
    {
      ghost var m0 := mem[..];
      var pte := GetPte(d, la);
      ghost var m1 := mem[..];
      assert SameWalk(m0, m1, d, Ppn(la));
      FreshGrown(tlb, m0, m1, cr3, d);
      if pte.None? {
        return false;
      }
      PageRemovePte(d, la, pte.value);
      OthersTrans(m0, m1, mem[..], d, Ppn(la));
      ok := true;
    }

    /** get_page: the page that la is mapped to, if it is mapped */
    method GetPage(d: nat, la: word) returns (ok: bool, page: Option<nat>)
      requires Ok() && Pgdir(d)
      modifies mem, buddy, buddy.parts
      ensures Ok() && Pgdir(d) && SameWalks(old(mem[..]), mem[..], d)
      ensures !ok <==> !Present(old(Pde(mem[..], d, Ppn(la)))) && old(buddy.FreeSet()) == {}
      ensures ok ==> page == match Walk(mem[..], d, Ppn(la)) case Unmapped => None case Mapped(f, _, _) => Some(f)
    {
      var pte := GetPte(d, la);
      if pte.None? {
        return false, None;
      }
      assert EntryOk(mem[..], d, Ppn(la) / ENTRIES, buddy.out);
      ok, page := true, None;
      if Present(mem[pte.value]) {
        page := Some(Frame(mem[pte.value]));
      }
    }

    /** Line 160 */
    method MapOne(d: nat, la: word, pa: word, perm: nat) returns (ok: bool)
      requires Ok() && Pgdir(d) && perm < PGSIZE && pa % PGSIZE == 0 && !InWindow(mem[..], d, Ppn(la))
      modifies mem, buddy, buddy.parts
      ensures Ok() && Pgdir(d) && SameOthers(old(mem[..]), mem[..], d, Ppn(la)) && !InWindow(mem[..], d, Ppn(la))
      ensures ok ==> Walk(mem[..], d, Ppn(la)) == Mapped(Ppn(pa), User(perm), Writable(perm))
      ensures !ok ==> mem[..] == old(mem[..])
    {
      ghost var m0 := mem[..];
      var pte := GetPte(d, la);
      ghost var m1 := mem[..];
      assert SameWalk(m0, m1, d, Ppn(la));
      if pte.None? {
        return false;
      }
      SetPte(d, la, pte.value, MakeEntry(Ppn(pa), perm));
      OthersTrans(m0, m1, mem[..], d, Ppn(la));
      ok := true;
    }

    /** The state of map_physical_memory after i rounds. */
    ghost predicate MappedSoFar(m0: seq<word>, d: nat, la0: word, i: nat, pa0: word, perm: nat)
      requires InMemory(m0, d) && InMemory(mem[..], d) && perm < PGSIZE
      reads mem
    {
      && MappedRun(mem[..], d, la0, i, pa0, perm)
      && forall v :: 0 <= v < PAGES && Ahead(Ppn(la0), v) >= i ==> SameWalk(m0, mem[..], d, v)
    }

    /** Round i of map_physical_memory */
    method MapStep(d: nat, la: word, pa: word, perm: nat,
        ghost m0: seq<word>, ghost la0: word, ghost i: nat, ghost pa0: word)
        returns (ok: bool)
      requires Ok() && Pgdir(d) && perm < PGSIZE && InMemory(m0, d) && MappedSoFar(m0, d, la0, i, pa0, perm) &&
               i < PAGES - 1
      requires Reached(la0, i, la) && Reached(pa0, i, pa)
      requires !InWindow(m0, d, Ppn(la))
      modifies mem, buddy, buddy.parts
      ensures Ok() && Pgdir(d) && MappedSoFar(m0, d, la0, if ok then i + 1 else i, pa0, perm)
    {
      ghost var m1 := mem[..];
      PlusAhead(Ppn(la0), i);
      assert SameWalk(m0, m1, d, Ppn(la));
      ok := MapOne(d, la, pa, perm);
      if ok {
        MappedNext(m0, m1, mem[..], d, la0, i, pa0, perm);
      }
    }

    /** map_physical_memory, with the limits of a uint32_t: the tables */
    method MapAll(d: nat, la0: word, size: word, pa0: word, perm: nat) returns (ok: bool)
      requires Ok() && Pgdir(d) && perm < PGSIZE
      requires OffWindow(mem[..], d, la0, MapCount(la0, size))
      modifies mem, buddy, buddy.parts
      ensures Ok() && Pgdir(d)
      ensures ok ==> MappedSoFar(old(mem[..]), d, la0, MapCount(la0, size), pa0, perm)
      ensures !ok ==> exists i :: 0 <= i < MapCount(la0, size) && MappedSoFar(old(mem[..]), d, la0, i, pa0, perm)
    {
      var n := MapCount(la0, size);
      var la: word, pa: word := PageStart(la0), PageStart(pa0);
      ghost var i, m0 := 0, mem[..];
      while n > 0
        invariant n == MapCount(la0, size) - i && 0 <= i
        invariant Reached(la0, i, la) && Reached(pa0, i, pa)
        invariant Ok() && Pgdir(d) && MappedSoFar(m0, d, la0, i, pa0, perm)
      {
        OffWindowAt(m0, d, la0, MapCount(la0, size), i);
        ok := MapStep(d, la, pa, perm, m0, la0, i, pa0);
        if !ok {
          return;
        }
        ReachedNext(la0, i, la);
        ReachedNext(pa0, i, pa);
        n := n - 1;
        la, pa := PageAfter(la), PageAfter(pa);
        i := i + 1;
      }
      ok := true;
    }

    /** map_physical_memory, with the limits of a uint32_t */
    method MapPhysicalMemory(d: nat, la0: word, size: word, pa0: word, perm: nat) returns (ok: bool)
      requires Ok() && Pgdir(d) && perm < PGSIZE
      requires forall v :: 0 <= v < PAGES && InSpan(la0, size, v) ==> !InWindow(mem[..], d, v)
      modifies mem, buddy, buddy.parts
      ensures Ok() && Pgdir(d)
      ensures ok ==> SpanMapped(old(mem[..]), mem[..], d, la0, size, pa0, perm)
      ensures !ok ==> exists i :: 0 <= i < PAGES && InSpan(la0, size, Plus(Ppn(la0), i)) &&
                                  MappedSoFar(old(mem[..]), d, la0, i, pa0, perm)
      ensures ok && old(Coherent()) && cr3 == d ==>
                (Coherent() <==> SpanAgrees(tlb, old(mem[..]), d, la0, size, pa0, perm))
    {
      ghost var m0 := mem[..];
      SpanIsRun(la0, size);
      ok := MapAll(d, la0, size, pa0, perm);
      if ok {
        RunIsSpan(m0, mem[..], d, la0, size, pa0, perm);
        RunAgrees(tlb, m0, d, la0, size, pa0, perm);
      } else {
        StoppedInSpan(m0, d, la0, size, pa0, perm);
      }
      if ok && Fresh(tlb, m0, cr3) && cr3 == d {
        MapCoherence(tlb, m0, mem[..], d, la0, MapCount(la0, size), pa0, perm);
      }
    }

    lemma StoppedInSpan(m0: seq<word>, d: nat, la0: word, size: word, pa0: word, perm: nat)
      requires InMemory(m0, d) && InMemory(mem[..], d) && perm < PGSIZE
      requires forall v :: 0 <= v < PAGES ==> (InSpan(la0, size, v) <==> Ahead(Ppn(la0), v) < MapCount(la0, size))
      requires exists i :: 0 <= i < MapCount(la0, size) && MappedSoFar(m0, d, la0, i, pa0, perm)
      ensures exists i :: 0 <= i < PAGES && InSpan(la0, size, Plus(Ppn(la0), i)) &&
                          MappedSoFar(m0, d, la0, i, pa0, perm)
    {
      var i :| 0 <= i < MapCount(la0, size) && MappedSoFar(m0, d, la0, i, pa0, perm);
      PlusAhead(Ppn(la0), i);
    }

    /** The processor walks the tables for page v and may keep what it finds. */
    method Touch(v: nat)
      requires Coherent() && v < PAGES && mem.Length == buddy.n * ENTRIES
      modifies this`tlb
      ensures Coherent()
      ensures Walk(mem[..], cr3, v).Mapped? ==> tlb == old(tlb)[v := Walk(mem[..], cr3, v)]
    {
      var e := mem[cr3 * ENTRIES + v / ENTRIES];
      if Present(e) && Frame(e) < buddy.n {
        var t := Through(e, mem[Frame(e) * ENTRIES + v % ENTRIES]);
        assert t == Walk(mem[..], cr3, v);
        if t.Mapped? {
          FreshTouch(tlb, mem[..], cr3, v);
          tlb := tlb[v := t];
        }
      }
    }

    /** pmm_init, lines 181-190: an empty directory that leads back to itself */
    method InitPgdir() returns (d: Option<nat>)
      requires Ok()
      modifies this, mem, buddy, buddy.parts
      ensures Ok() && (d.None? <==> old(buddy.FreeSet()) == {})
      ensures d.Some? ==> Pgdir(d.value) && SelfMapped(mem[..], d.value) && cr3 == d.value && Coherent()
      ensures d.Some? ==> forall v :: 0 <= v < PAGES && v / ENTRIES != VPT_SLOT ==>
                Walk(mem[..], d.value, v) == Unmapped && !InWindow(mem[..], d.value, v)
    {
      hide Allocated, Buddy.Starts;
      buddy.NoneFree();
      assert allocated(buddy.parts);
      d := buddy.AllocPages(1);
      if d.Some? {
        OnePage(d.value);
        FlagsUW();
        ClearPage(d.value);
        mem[d.value * ENTRIES + VPT_SLOT] := MakeEntry(d.value, PTE_W);
        cr3, tlb := d.value, map[];
        EmptyPgdir(mem[..], d.value, buddy.out);
      }
    }
  }

  /** The cached translations are those of the directory in page d.  Only translations of
      mapped pages are cached, section 4.10.2.1 of the Intel SDM, volume 3A. */
  ghost predicate Fresh(tlb: map<nat, Translation>, m: seq<word>, d: nat) {
    InMemory(m, d) && forall v :: v in tlb ==> v < PAGES && tlb[v].Mapped? && tlb[v] == Walk(m, d, v)
  }

  /** Between m and m' no translation but that of page v changed. */
  ghost predicate SameOthers(m: seq<word>, m': seq<word>, d: nat, v: nat)
    requires InMemory(m, d) && InMemory(m', d) && v < PAGES
  {
    forall u :: 0 <= u < PAGES && u != v ==> SameWalk(m, m', d, u)
  }

  lemma TablesMore(m: seq<word>, d: nat, out: set<int>, more: set<int>)
    requires Tables(m, d, out) && out <= more
    ensures Tables(m, d, more)
  {
    forall i | 0 <= i < ENTRIES ensures EntryOk(m, d, i, more) {
      assert EntryOk(m, d, i, out);
    }
  }

  lemma FreshTouch(tlb: map<nat, Translation>, m: seq<word>, d: nat, v: nat)
    requires Fresh(tlb, m, d) && v < PAGES && Walk(m, d, v).Mapped?
    ensures Fresh(tlb[v := Walk(m, d, v)], m, d)
  {
  }

  lemma StillFresh(tlb: map<nat, Translation>, m: seq<word>, m': seq<word>, d: nat, v: nat)
    requires Fresh(tlb, m, d) && InMemory(m', d) && v < PAGES && SameOthers(m, m', d, v)
    ensures Fresh(tlb - {v}, m', d)
  {
    forall u | u in tlb - {v} ensures tlb[u] == Walk(m', d, u) {
      assert SameWalk(m, m', d, u);
    }
  }

  lemma FreshGrown(tlb: map<nat, Translation>, m: seq<word>, m': seq<word>, c: nat, d: nat)
    requires InMemory(m, d) && InMemory(m', d) && SameWalks(m, m', d)
    ensures c == d && Fresh(tlb, m, d) ==> Fresh(tlb, m', d)
  {
    if Fresh(tlb, m, d) {
      forall u | u in tlb ensures tlb[u] == Walk(m', d, u) {
        assert SameWalk(m, m', d, u);
      }
    }
  }

  lemma OthersTrans(m0: seq<word>, m1: seq<word>, m2: seq<word>, d: nat, v: nat)
    requires InMemory(m0, d) && InMemory(m1, d) && InMemory(m2, d) && v < PAGES
    requires m0 == m1 || SameWalks(m0, m1, d) || SameOthers(m0, m1, d, v)
    requires SameOthers(m1, m2, d, v)
    ensures SameOthers(m0, m2, d, v)
  {
    forall u | 0 <= u < PAGES && u != v ensures SameWalk(m0, m2, d, u) {
      assert m0 == m1 || SameWalk(m0, m1, d, u);
      assert SameWalk(m1, m2, d, u);
    }
  }

  // ---------- runs of pages ----------

  /** Line 153 */
  function MapCount(la: word, size: word): (n: nat)
    ensures n < PAGES
  {
    var up := ((size + PgOff(la)) % W32 + PGSIZE - 1) % W32;
    (up - up % PGSIZE) / PGSIZE
  }

  /** The page of the byte at a + o, in the linear address space, which goes round */
  function PageAt(a: word, o: nat): (v: nat)
    ensures v < PAGES
  {
    Ppn((a + o) % W32)
  }

  /** Page v holds one of the size bytes from la on, or, without any, la itself if that is not
      the start of a page.  Where the sum with the offset in the page does not leave room for
      rounding up it is counted modulo 2^32: the bytes from the start of the page on are 2^32
      fewer, if there are as many. */
  ghost predicate InSpan(la: word, size: word, v: nat) {
    if size + PgOff(la) + PGSIZE > W32 then
      exists o: nat :: o + W32 < size + PgOff(la) && PageAt(PageStart(la), o) == v
    else if size == 0 then
      PgOff(la) > 0 && v == Ppn(la)
    else
      exists o: nat :: o < size && PageAt(la, o) == v
  }

  lemma PageAtIs(la: word, o: nat)
    ensures PageAt(la, o) == Plus(Ppn(la), (PgOff(la) + o) / PGSIZE)
    ensures PageAt(PageStart(la), o) == Plus(Ppn(la), o / PGSIZE)
  {
    BytePage(Ppn(la), PgOff(la) + o);
    BytePage(Ppn(la), o);
    assert la + o == Ppn(la) * PGSIZE + (PgOff(la) + o) && PageStart(la) == Ppn(la) * PGSIZE;
  }

  lemma BytePage(p: nat, o: nat)
    requires p < PAGES
    ensures (p * PGSIZE + o) % W32 / PGSIZE == Plus(p, o / PGSIZE)
  {
    var x, i, r := p * PGSIZE + o, o / PGSIZE, o % PGSIZE;
    var q, s := (p + i) / PAGES, (p + i) % PAGES;
    assert x == (p + i) * PGSIZE + r == q * W32 + (s * PGSIZE + r);
    ModUnique(x, W32, q, s * PGSIZE + r);
    ModUnique(s * PGSIZE + r, PGSIZE, s, r);
  }

  /** Rounded up, e bytes from the start of a page on are n pages. */
  lemma PagesOf(la: word, e: nat, n: nat, v: nat)
    requires v < PAGES && n < PAGES && n * PGSIZE < e + PGSIZE && e <= n * PGSIZE
    ensures (exists o: nat :: o < e && PageAt(PageStart(la), o) == v) <==> Ahead(Ppn(la), v) < n
  {
    var p, i := Ppn(la), Ahead(Ppn(la), v);
    PlusAhead(p, i);
    if i < n {
      PageAtIs(la, i * PGSIZE);
      assert i * PGSIZE / PGSIZE == i && PageAt(PageStart(la), i * PGSIZE) == v;
    }
    forall o: nat | o < e && PageAt(PageStart(la), o) == v ensures i < n {
      PageAtIs(la, o);
      PlusAhead(p, o / PGSIZE);
    }
  }

  /** The same where the first bytes up to la are left out. */
  lemma PagesFrom(la: word, size: nat, n: nat, v: nat)
    requires v < PAGES && n < PAGES && size > 0
    requires n * PGSIZE < size + PgOff(la) + PGSIZE && size + PgOff(la) <= n * PGSIZE
    ensures (exists o: nat :: o < size && PageAt(la, o) == v) <==> Ahead(Ppn(la), v) < n
  {
    hide PageAt, Ppn, PgOff, Plus;
    var p, i := Ppn(la), Ahead(Ppn(la), v);
    PlusAhead(p, i);
    if i < n {
      var o := FirstByte(la, i);
    }
    forall o: nat | o < size && PageAt(la, o) == v ensures i < n {
      PageAtIs(la, o);
      PlusAhead(p, (PgOff(la) + o) / PGSIZE);
    }
  }

  lemma FirstByte(la: word, i: nat) returns (o: nat)
    ensures PageAt(la, o) == Plus(Ppn(la), i) && (if i == 0 then o == 0 else o + PgOff(la) == i * PGSIZE)
  {
    hide Ppn, Plus, PageAt;
    o := if i == 0 then 0 else i * PGSIZE - PgOff(la);
    PageAtIs(la, o);
    ModUnique(PgOff(la) + o, PGSIZE, i, PgOff(la) + o - i * PGSIZE);
  }

  /** The pages of the range are those that map_physical_memory counts. */
  lemma SpanIsRun(la: word, size: word)
    ensures forall v :: 0 <= v < PAGES ==> (InSpan(la, size, v) <==> Ahead(Ppn(la), v) < MapCount(la, size))
  {
    var e, n := size + PgOff(la), MapCount(la, size);
    forall v | 0 <= v < PAGES ensures InSpan(la, size, v) <==> Ahead(Ppn(la), v) < n {
      if e > W32 {
        CountOf(la, size, e - W32);
        PagesOf(la, e - W32, n, v);
      } else if e + PGSIZE > W32 {
        CountWrapped(la, size);
      } else {
        CountOf(la, size, e);
        if size > 0 {
          PagesFrom(la, size, n, v);
        }
      }
    }
  }

  lemma CountOf(la: word, size: word, e: nat)
    requires (size + PgOff(la) == e || size + PgOff(la) == e + W32) && e + PGSIZE <= W32
    ensures var n := MapCount(la, size); n * PGSIZE < e + PGSIZE && e <= n * PGSIZE
  {
    ModUnique(size + PgOff(la), W32, if size + PgOff(la) == e then 0 else 1, e);
    ModUnique(e + PGSIZE - 1, W32, 0, e + PGSIZE - 1);
  }

  lemma CountWrapped(la: word, size: word)
    requires W32 - PGSIZE < size + PgOff(la) <= W32
    ensures MapCount(la, size) == 0
  {
    var e := size + PgOff(la);
    if e == W32 {
      ModUnique(e, W32, 1, 0);
    } else {
      ModUnique(e, W32, 0, e);
      ModUnique(e + PGSIZE - 1, W32, 1, e + PGSIZE - 1 - W32);
    }
  }

  /** The pages of the range are mapped, one by one, and no others are changed. */
  ghost predicate SpanMapped(m0: seq<word>, m: seq<word>, d: nat, la: word, size: word, pa: word, perm: nat)
    requires InMemory(m0, d) && InMemory(m, d) && perm < PGSIZE
  {
    forall v :: 0 <= v < PAGES ==>
      if InSpan(la, size, v) then Walk(m, d, v) == Target(la, v, pa, perm) else SameWalk(m0, m, d, v)
  }

  lemma RunIsSpan(m0: seq<word>, m: seq<word>, d: nat, la: word, size: word, pa: word, perm: nat)
    requires InMemory(m0, d) && InMemory(m, d) && perm < PGSIZE && MappedRun(m, d, la, MapCount(la, size), pa, perm)
    requires forall v :: 0 <= v < PAGES && Ahead(Ppn(la), v) >= MapCount(la, size) ==> SameWalk(m0, m, d, v)
    requires forall v :: 0 <= v < PAGES ==> (InSpan(la, size, v) <==> Ahead(Ppn(la), v) < MapCount(la, size))
    ensures SpanMapped(m0, m, d, la, size, pa, perm)
  {
  }

  /** The cached translations of the range are those it is about to get. */
  ghost predicate SpanAgrees(tlb: map<nat, Translation>, m: seq<word>, d: nat, la: word, size: word, pa: word,
      perm: nat)
    requires InMemory(m, d) && perm < PGSIZE
  {
    forall v :: v in tlb && v < PAGES && InSpan(la, size, v) ==> Walk(m, d, v) == Target(la, v, pa, perm)
  }

  lemma RunAgrees(tlb: map<nat, Translation>, m: seq<word>, d: nat, la: word, size: word, pa: word, perm: nat)
    requires InMemory(m, d) && perm < PGSIZE
    requires forall v :: 0 <= v < PAGES ==> (InSpan(la, size, v) <==> Ahead(Ppn(la), v) < MapCount(la, size))
    ensures SpanAgrees(tlb, m, d, la, size, pa, perm) <==> Agrees(tlb, m, d, la, MapCount(la, size), pa, perm)
  {
  }

  /** Page v + i, and how many pages w is ahead of v, in the linear address space, which
      goes round. */
  function Plus(v: nat, i: nat): (w: nat)
    ensures w < PAGES
  {
    (v + i) % PAGES
  }

  function Ahead(v: nat, w: nat): (i: nat)
    requires v < PAGES && w < PAGES
    ensures i < PAGES
  {
    if v <= w then w - v else w + PAGES - v
  }

  lemma PlusAhead(v: nat, i: nat)
    requires v < PAGES && i < PAGES
    ensures Ahead(v, Plus(v, i)) == i
    ensures forall w :: 0 <= w < PAGES && Ahead(v, w) == i ==> w == Plus(v, i)
  {
    var q := if v + i < PAGES then 0 else 1;
    ModUnique(v + i, PAGES, q, v + i - q * PAGES);
  }

  lemma PlusNext(v: nat, i: nat)
    requires v < PAGES
    ensures Plus(v, i + 1) == if Plus(v, i) == PAGES - 1 then 0 else Plus(v, i) + 1
  {
    var q, r := (v + i) / PAGES, (v + i) % PAGES;
    if r == PAGES - 1 {
      ModUnique(v + i + 1, PAGES, q + 1, 0);
    } else {
      ModUnique(v + i + 1, PAGES, q, r + 1);
    }
  }

  /** ROUNDDOWN(la, PGSIZE) and la + PGSIZE */
  function PageStart(la: word): (r: word)
    ensures r % PGSIZE == 0 && Ppn(r) == Ppn(la) == Plus(Ppn(la), 0)
  {
    ModUnique(Ppn(la) * PGSIZE, PGSIZE, Ppn(la), 0);
    ModUnique(Ppn(la), PAGES, 0, Ppn(la));
    la - PgOff(la)
  }

  function PageAfter(la: word): (r: word)
    requires la % PGSIZE == 0
    ensures r % PGSIZE == 0 && Ppn(r) == if Ppn(la) == PAGES - 1 then 0 else Ppn(la) + 1
  {
    PageNext(la);
    (la + PGSIZE) % W32
  }

  lemma PageNext(la: word)
    requires la % PGSIZE == 0
    ensures var r: word := (la + PGSIZE) % W32;
            r % PGSIZE == 0 && Ppn(r) == if Ppn(la) == PAGES - 1 then 0 else Ppn(la) + 1
  {
    var v := Ppn(la);
    assert la == v * PGSIZE;
    if v == PAGES - 1 {
      ModUnique(la + PGSIZE, W32, 1, 0);
    } else {
      ModUnique(la + PGSIZE, W32, 0, la + PGSIZE);
      ModUnique(la + PGSIZE, PGSIZE, v + 1, 0);
    }
  }

  /** None of the first n pages from la on is in the window. */
  ghost predicate OffWindow(m: seq<word>, d: nat, la: word, n: nat)
    requires InMemory(m, d)
  {
    forall v :: 0 <= v < PAGES && Ahead(Ppn(la), v) < n ==> !InWindow(m, d, v)
  }

  lemma OffWindowAt(m: seq<word>, d: nat, la: word, n: nat, i: nat)
    requires InMemory(m, d) && OffWindow(m, d, la, n) && i < n < PAGES
    ensures !InWindow(m, d, Plus(Ppn(la), i))
  {
    PlusAhead(Ppn(la), i);
  }

  /** Address a is the start of page i from a0 on. */
  ghost predicate Reached(a0: word, i: nat, a: word) {
    a % PGSIZE == 0 && Ppn(a) == Plus(Ppn(a0), i)
  }

  lemma ReachedNext(a0: word, i: nat, a: word)
    requires Reached(a0, i, a)
    ensures Reached(a0, i + 1, PageAfter(a))
  {
    PlusNext(Ppn(a0), i);
  }

  /** The first n pages from la on are mapped to those from pa on. */
  ghost predicate MappedRun(m: seq<word>, d: nat, la: word, n: nat, pa: word, perm: nat)
    requires InMemory(m, d) && perm < PGSIZE
  {
    forall v :: 0 <= v < PAGES && Ahead(Ppn(la), v) < n ==> Walk(m, d, v) == Target(la, v, pa, perm)
  }

  /** What v is mapped to when la is mapped to pa. */
  function Target(la: word, v: nat, pa: word, perm: nat): Translation
    requires v < PAGES && perm < PGSIZE
  {
    Mapped(Plus(Ppn(pa), Ahead(Ppn(la), v)), User(perm), Writable(perm))
  }

  /** The cached translations of the run are those it is about to get. */
  ghost predicate Agrees(tlb: map<nat, Translation>, m: seq<word>, d: nat, la: word, n: nat, pa: word, perm: nat)
    requires InMemory(m, d) && perm < PGSIZE
  {
    forall v :: v in tlb && v < PAGES && Ahead(Ppn(la), v) < n ==> Walk(m, d, v) == Target(la, v, pa, perm)
  }

  /** map_physical_memory invalidates nothing: what is cached stays right exactly if none of
      the pages it maps was cached with another translation. */
  lemma MapCoherence(tlb: map<nat, Translation>, m0: seq<word>, m: seq<word>, d: nat, la: word, n: nat, pa: word,
      perm: nat)
    requires Fresh(tlb, m0, d) && InMemory(m, d) && perm < PGSIZE && MappedRun(m, d, la, n, pa, perm)
    requires forall v :: 0 <= v < PAGES && Ahead(Ppn(la), v) >= n ==> SameWalk(m0, m, d, v)
    ensures Fresh(tlb, m, d) <==> Agrees(tlb, m0, d, la, n, pa, perm)
  {
    forall v | v in tlb
      ensures tlb[v] == Walk(m, d, v) <==> (Ahead(Ppn(la), v) < n ==> Walk(m0, d, v) == Target(la, v, pa, perm))
    {
      assert Ahead(Ppn(la), v) >= n ==> SameWalk(m0, m, d, v);
    }
  }

  /** Mapping linear page 0 anew, from frame 1 to frame 2, leaves a stale translation. */
  lemma StaleExample(m0: seq<word>, m: seq<word>, d: nat)
    requires InMemory(m0, d) && InMemory(m, d) && Walk(m0, d, 0) == Mapped(1, false, true)
    requires MappedRun(m, d, 0, 1, 0x2000, PTE_W)
    ensures var tlb: map<nat, Translation> := map[0 := Mapped(1, false, true)]; Fresh(tlb, m0, d) && !Fresh(tlb, m, d)
  {
    assert Ppn(0) == 0 && Ahead(0, 0) == 0 && Plus(2, 0) == 2;
    assert Walk(m, d, 0) == Target(0, 0, 0x2000, PTE_W);
  }

  lemma EmptyPgdir(m: seq<word>, d: nat, out: set<int>)
    requires InMemory(m, d) && d in out && d < PAGES && m[d * ENTRIES + VPT_SLOT] == MakeEntry(d, PTE_W)
    requires forall k :: d * ENTRIES <= k < (d + 1) * ENTRIES && k != d * ENTRIES + VPT_SLOT ==> m[k] == 0
    ensures Tables(m, d, out) && SelfMapped(m, d)
    ensures forall v :: 0 <= v < PAGES && v / ENTRIES != VPT_SLOT ==> Walk(m, d, v) == Unmapped && !InWindow(m, d, v)
  {
    FlagsUW();
    forall i | 0 <= i < ENTRIES ensures EntryOk(m, d, i, out) {
      assert i != VPT_SLOT ==> m[d * ENTRIES + i] == 0;
    }
    forall i, j | 0 <= i < j < ENTRIES ensures Apart(m, d, i, j) {
      assert i != VPT_SLOT ==> m[d * ENTRIES + i] == 0;
      assert j != VPT_SLOT ==> m[d * ENTRIES + j] == 0;
    }
  }

  const KERNBASE: word := 0xC000_0000
  const KMEMSIZE: word := 0x3800_0000

  /** Once KERNBASE is mapped to 0 as in line 193, VADDR(pa) reaches physical address pa;
      the pages concerned are not in the window. */
  lemma KernelMap(m0: seq<word>, m: seq<word>, d: nat, la: word, size: word, pa: word, p: nat)
    requires InMemory(m0, d) && InMemory(m, d) && la == KERNBASE && size == KMEMSIZE && pa == 0 && p < size / PGSIZE
    requires SpanMapped(m0, m, d, la, size, pa, PTE_W)
    ensures var v := Ppn(la) + p; v < PAGES && v / ENTRIES != VPT_SLOT && Walk(m, d, v) == Mapped(p, false, true)
  {
    assert Ppn(la) == 0xC_0000 && size == 0x3_8000 * PGSIZE;
    WholePages(la, 0x3_8000, size);
    PlusAhead(Ppn(la), p);
    FlagIsBit(PTE_W);
    assert Bit(2, 2) == Bit(1, 1) == Bit(0, 0) && Bit(2, 1) == Bit(1, 0);
    ModUnique(p, PAGES, 0, p);
  }

  /** From the start of a page on, any positive number of bytes up to n pages, but more than
      n - 1, is in n pages. */
  lemma WholePages(la: word, n: nat, size: word)
    requires PgOff(la) == 0 && n * PGSIZE < size + PGSIZE <= W32 && size <= n * PGSIZE
    ensures forall v :: 0 <= v < PAGES ==> (InSpan(la, size, v) <==> Ahead(Ppn(la), v) < n)
  {
    SpanIsRun(la, size);
    CountOf(la, size, size);
  }

  /** The frame buffer of 800 * 600 pixels in two bytes each, line 207, takes 235 pages. */
  lemma FrameBuffer(la: word, size: word, v: nat)
    requires la == 0xFD00_0000 && size == 800 * 600 * 2 && v < PAGES
    ensures InSpan(la, size, v) <==> Ppn(la) <= v < Ppn(la) + 235
  {
    assert PgOff(la) == 0 && Ppn(la) == 0xF_D000;
    WholePages(la, 235, size);
  }

  lemma MappedNext(m0: seq<word>, m1: seq<word>, m2: seq<word>, d: nat, la: word, i: nat, pa: word, perm: nat)
    requires InMemory(m0, d) && InMemory(m1, d) && InMemory(m2, d) && perm < PGSIZE && i < PAGES - 1
    requires MappedRun(m1, d, la, i, pa, perm) && SameOthers(m1, m2, d, Plus(Ppn(la), i))
    requires Walk(m2, d, Plus(Ppn(la), i)) == Mapped(Plus(Ppn(pa), i), User(perm), Writable(perm))
    requires forall v :: 0 <= v < PAGES && Ahead(Ppn(la), v) >= i ==> SameWalk(m0, m1, d, v)
    ensures MappedRun(m2, d, la, i + 1, pa, perm)
    ensures forall v :: 0 <= v < PAGES && Ahead(Ppn(la), v) >= i + 1 ==> SameWalk(m0, m2, d, v)
  {
    PlusAhead(Ppn(la), i);
    forall v | 0 <= v < PAGES
      ensures Ahead(Ppn(la), v) < i + 1 ==> Walk(m2, d, v) == Target(la, v, pa, perm)
      ensures Ahead(Ppn(la), v) >= i + 1 ==> SameWalk(m0, m2, d, v)
    {
      if Ahead(Ppn(la), v) != i {
        assert SameWalk(m1, m2, d, v);
        assert Ahead(Ppn(la), v) >= i ==> SameWalk(m0, m1, d, v);
      }
    }
  }
}
