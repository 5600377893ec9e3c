// kern/mm/vmm.c, lines 177-235: page faults.

module Vmm {
  import opened Arith
  import opened BuddyPmm
  import opened SlabLayout
  import opened Mmu
  import opened PageTables
  import opened Pmm
  import opened VmaList
  import opened Options

  const VM_READ := 1
  const VM_WRITE := 2
  const VM_EXEC := 4

  /** What do_pgfault comes to: a return value, or a page allocation that fails, where the
      source goes on with the page at NULL. */
  datatype Outcome = Return(code: int) | NoPage

  /** The permission bits of an access and of an area fit, lines 182-204; error code bit 0
      says that the page was present, bit 1 that the access was a write. */
  predicate Permitted(vma: Vma?, errorCode: word, addr: word) {
    && vma != null && vma.start <= addr
    && if errorCode % 4 == 1 then false
       else if errorCode % 4 == 0 then And(vma.flags, Or(VM_READ, VM_EXEC)) != 0
       else And(vma.flags, VM_WRITE) != 0
  }

  /** What the permission bits mean: bit 1 of the error code is a write, for which the area
      needs bit 1; a read needs bit 0 or 2 of the area, and the page not to be there yet. */
  lemma PermittedBits(vma: Vma, errorCode: word, addr: word)
    ensures Permitted(vma, errorCode, addr) <==>
              vma.start <= addr &&
              if Bit(errorCode, 1) then Bit(vma.flags, 1)
              else !Bit(errorCode, 0) && (Bit(vma.flags, 0) || Bit(vma.flags, 2))
  {
    FlagIsBit(vma.flags);
    FlagBits(vma.flags);
    LowTwoBits(errorCode);
  }

  lemma FlagBits(x: word)
    ensures (And(x, VM_WRITE) != 0 <==> Bit(x, 1))
    ensures And(x, Or(VM_READ, VM_EXEC)) != 0 <==> Bit(x, 0) || Bit(x, 2)
  {
    FlagIsBit(x);
    OrFive();
    assert And(x, 5) == 2 * And(x / 2, 2) + if x % 2 == 1 then 1 else 0;
    assert And(x, 4) == 2 * And(x / 2, 2);
  }

  lemma OrFive()
    ensures Or(1, 4) == 5
  {
    assert Or(1, 4) == 2 * Or(0, 2) + 1 && Or(0, 2) == 2 * Or(0, 1) && Or(0, 1) == 1;
  }

  lemma LowTwoBits(x: word)
    ensures Bit(x, 0) <==> x % 4 == 1 || x % 4 == 3
    ensures Bit(x, 1) <==> x % 4 == 2 || x % 4 == 3
  {
    assert Bit(x, 1) == Bit(x / 2, 0);
    ModStep(x, 2);
  }

  /** Lines 184-204 */
  method Check(vma: Vma?, errorCode: word, addr: word) returns (ok: bool)
    ensures ok <==> Permitted(vma, errorCode, addr)
    ensures ok <==>
              vma != null && vma.start <= addr &&
              if Bit(errorCode, 1) then Bit(vma.flags, 1)
              else !Bit(errorCode, 0) && (Bit(vma.flags, 0) || Bit(vma.flags, 2))
  {
    hide And, Or, Bit;
    if vma != null {
      PermittedBits(vma, errorCode, addr);
    }
    AndLow(errorCode, 2);
    assert Pow2(2) == 4;
    if vma == null || vma.start > addr {
      return false;
    }
    match And(errorCode, 0x3)
    case 1 => return false;
    case 0 => return And(vma.flags, Or(VM_READ, VM_EXEC)) != 0;
    case _ => return And(vma.flags, VM_WRITE) != 0;
  }

  /** Lines 206-210 */
  method PermOf(flags: word) returns (perm: nat)
    ensures perm < 8 && User(perm) && (Writable(perm) <==> Bit(flags, 1))
  {
    FlagBits(flags);
    FlagIsBit(4);
    FlagIsBit(6);
    assert Bit(4, 2) == Bit(2, 1) == Bit(1, 0) && Bit(4, 1) == Bit(2, 0);
    assert Bit(6, 2) == Bit(3, 1) == Bit(1, 0) && Bit(6, 1) == Bit(3, 0);
    perm := PTE_U;
    if And(flags, VM_WRITE) != 0 {
      OrSix();
      perm := Or(perm, PTE_W);
    }
  }

  lemma OrSix()
    ensures Or(4, 2) == 6
  {
    assert Or(4, 2) == 2 * Or(2, 1) && Or(2, 1) == 2 * Or(1, 0) + 1 && Or(1, 0) == 1;
  }

  /** Lines 213-232: maps the page of la, to the page it has or to a new one. */
  method MapFault(machine: Machine, d: nat, la: word, perm: nat) returns (r: Outcome)
    requires machine.Ok() && machine.Pgdir(d) && perm < PGSIZE && !InWindow(machine.mem[..], d, Ppn(la))
    modifies machine.mem, machine`tlb, machine.buddy, machine.buddy.parts
    ensures machine.Ok() && machine.Pgdir(d) && SameOthers(old(machine.mem[..]), machine.mem[..], d, Ppn(la))
    ensures r == Return(0) || r == NoPage
    ensures r == NoPage ==> old(Walk(machine.mem[..], d, Ppn(la))) == Unmapped
    ensures r == Return(0) ==> Walk(machine.mem[..], d, Ppn(la)).Mapped?
    ensures r == Return(0) ==>
              Walk(machine.mem[..], d, Ppn(la)).user == User(perm) &&
                  Walk(machine.mem[..], d, Ppn(la)).write == Writable(perm)
    ensures r == Return(0) ==>
              KeptOrFree(old(Walk(machine.mem[..], d, Ppn(la))), Walk(machine.mem[..], d, Ppn(la)),
                  old(machine.buddy.FreeSet()), machine.buddy.FreeSet())
    ensures old(machine.Coherent()) && machine.cr3 == d ==> machine.Coherent()
  {
    ghost var m0 := machine.mem[..];
    var pte := machine.GetPte(d, la);
    ghost var m1 := machine.mem[..];
    assert SameWalk(m0, m1, d, Ppn(la));
    FreshGrown(machine.tlb, m0, m1, machine.cr3, d);
    if pte.None? {
      return NoPage;
    }
    var page := FaultPage(machine, d, la, pte.value);
    if page.None? {
      GrownIsSame(m0, m1, d, Ppn(la));
      return NoPage;
    }
    var ok := machine.PageInsert(d, page.value, la, perm);
    OthersTrans(m0, m1, machine.mem[..], d, Ppn(la));
    r := Return(0);
  }

  lemma GrownIsSame(m0: seq<word>, m1: seq<word>, d: nat, v: nat)
    requires InMemory(m0, d) && InMemory(m1, d) && SameWalks(m0, m1, d) && v < PAGES
    ensures SameOthers(m0, m1, d, v)
  {
  }

  /** Lines 221-229 */
  method FaultPage(machine: Machine, d: nat, la: word, p: nat) returns (page: Option<nat>)
    requires machine.Ok() && machine.Pgdir(d) && machine.PteAt(d, la, p)
    modifies machine.buddy, machine.buddy.parts
    ensures machine.Ok() && machine.Pgdir(d) && machine.buddy.FreeSet() <= old(machine.buddy.FreeSet())
    ensures page.Some? ==> page.value < PAGES
    ensures var before := Walk(machine.mem[..], d, Ppn(la));
            if before.Mapped? then page == Some(before.frame)
            else page.Some? ==> page.value in old(machine.buddy.FreeSet()) && page.value !in machine.buddy.FreeSet()
  {
    assert EntryOk(machine.mem[..], d, Ppn(la) / Mmu.ENTRIES, machine.buddy.out);
    if Present(machine.mem[p]) {
      page := Some(Frame(machine.mem[p]));
    } else {
      page := machine.AllocPage(d);
    }
  }

  /** The page stays the one it was, or is one that was free and now is not. */
  ghost predicate KeptOrFree(before: Translation, after: Translation, free0: set<int>, free: set<int>)
    requires after.Mapped?
  {
    if before.Mapped? then after.frame == before.frame else after.frame in free0 && after.frame !in free
  }

  /** The list of areas is no part of the page allocator. */
  ghost predicate Beside(mm: Mm, machine: Machine)
    reads mm`links
  {
    && mm !in machine.buddy.parts && mm.mmapList !in machine.buddy.parts
    && forall e :: e in mm.links ==> e !in machine.buddy.parts
  }

  /** do_pgfault */
  method DoPgfault(machine: Machine, mm: Mm?, errorCode: word, addr: word) returns (r: Outcome)
    requires machine.Ok()
    requires mm != null ==> Beside(mm, machine) && mm.Valid()
    requires mm != null ==> machine.Pgdir(mm.pgdir)
    requires mm != null && Permitted(Lookup(mm.mmapCache, mm.vmas, addr), errorCode, addr) ==>
               !InWindow(machine.mem[..], mm.pgdir, Ppn(addr))
    modifies if mm == null then {} else {mm, machine, machine.mem, machine.buddy} + machine.buddy.parts
    ensures machine.Ok() && (r == Return(-1) || r == Return(0) || r == NoPage)
    ensures r != Return(-1) <==>
              mm != null && var vma := old(Lookup(mm.mmapCache, mm.vmas, addr));
              vma != null && vma.start <= addr &&
              if Bit(errorCode, 1) then Bit(vma.flags, 1)
              else !Bit(errorCode, 0) && (Bit(vma.flags, 0) || Bit(vma.flags, 2))
    ensures r == Return(-1) ==> machine.mem[..] == old(machine.mem[..]) && machine.tlb == old(machine.tlb)
    ensures r == Return(-1) ==> machine.buddy.FreeSet() == old(machine.buddy.FreeSet())
    ensures r != Return(-1) ==> machine.Pgdir(old(mm.pgdir))
    ensures r != Return(-1) ==> SameOthers(old(machine.mem[..]), machine.mem[..], old(mm.pgdir), Ppn(addr))
    ensures r == Return(0) ==>
              var before, after := old(Walk(machine.mem[..], mm.pgdir, Ppn(addr))),
                Walk(machine.mem[..], old(mm.pgdir), Ppn(addr));
              && Handled(after, old(Lookup(mm.mmapCache, mm.vmas, addr)))
              && KeptOrFree(before, after, old(machine.buddy.FreeSet()), machine.buddy.FreeSet())
    ensures mm != null ==> mm.Valid() && mm.vmas == old(mm.vmas) && mm.pgdir == old(mm.pgdir)
    ensures mm != null ==>
              mm.mmapCache == old(if Lookup(mm.mmapCache, mm.vmas, addr) == null then mm.mmapCache
                  else Lookup(mm.mmapCache, mm.vmas, addr))
    ensures mm != null && old(machine.Coherent()) && machine.cr3 == old(mm.pgdir) ==> machine.Coherent()
  {
    hide Reachable, Bit, Permitted;
    if mm == null {
      return Return(-1);
    }
    ghost var links := mm.links;
    assert allocated(links);
    var vma := mm.FindVma(addr);
    var ok := Check(vma, errorCode, addr);
    if !ok {
      return Return(-1);
    }
    var perm := PermOf(vma.flags);
    var la: word := PageStart(addr);
    r := MapFault(machine, mm.pgdir, la, perm);
  }

  /** The page is mapped for user code, and for writing just if its area is. */
  ghost predicate Handled(after: Translation, vma: Vma?) {
    vma != null && after.Mapped? && after.user && (after.write <==> Bit(vma.flags, 1))
  }
}
