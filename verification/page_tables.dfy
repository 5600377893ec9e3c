// What the two-level page tables in memory mean: the walk of section 4.3 of the Intel SDM,
// volume 3A, over memory as a sequence of words, and what writing one word of a table does
// to it.  Word i of page p is m[p * 1024 + i].

module PageTables {
  import opened Arith
  import opened SlabLayout
  import opened Mmu

  /** The pages of the linear address space. */
  const PAGES := 0x10_0000

  /** What the hardware makes of a linear page: its frame, and whether user code may use and
      whether anyone may write it. */
  datatype Translation = Unmapped | Mapped(frame: nat, user: bool, write: bool)

  predicate InMemory(m: seq<word>, p: int) {
    p >= 0 && (p + 1) * ENTRIES <= |m|
  }

  /** The directory entry for linear page v. */
  function Pde(m: seq<word>, d: nat, v: nat): word
    requires InMemory(m, d) && v < PAGES
  {
    m[d * ENTRIES + v / ENTRIES]
  }

  function Through(pde: word, pte: word): Translation {
    if Present(pte) then Mapped(Frame(pte), User(pde) && User(pte), Writable(pde) && Writable(pte)) else Unmapped
  }

  /** The translation of page v under the directory in page d. */
  function Walk(m: seq<word>, d: nat, v: nat): Translation
    requires InMemory(m, d) && v < PAGES
  {
    var e := Pde(m, d, v);
    if Present(e) && InMemory(m, Frame(e)) then Through(e, m[Frame(e) * ENTRIES + v % ENTRIES]) else Unmapped
  }

  /** The walk in bits and numbers, as section 4.3 of the Intel SDM, volume 3A, has it: both
      entries must have bit 0; bits 12 to 31 are the next page; bit 2 of both lets user code
      in, and bit 1 of both permits writing. */
  lemma WalkBits(m: seq<word>, d: nat, v: nat)
    requires InMemory(m, d) && v < PAGES
    ensures var pde := m[d * 1024 + v / 1024];
            if !Bit(pde, 0) || (pde / 4096 + 1) * 1024 > |m| then Walk(m, d, v) == Unmapped
            else
              var pte := m[pde / 4096 * 1024 + v % 1024];
              if !Bit(pte, 0) then Walk(m, d, v) == Unmapped
              else Walk(m, d, v) == Mapped(pte / 4096, Bit(pde, 2) && Bit(pte, 2), Bit(pde, 1) && Bit(pte, 1))
  {
    var pde := m[d * ENTRIES + v / ENTRIES];
    FlagIsBit(pde);
    FrameIs(pde);
    if Bit(pde, 0) && (pde / 4096 + 1) * 1024 <= |m| {
      var pte := m[pde / 4096 * 1024 + v % 1024];
      FlagIsBit(pte);
      FrameIs(pte);
    }
  }

  lemma FrameIs(e: word)
    ensures Frame(e) == e / 4096
  {
  }

  /** Entry i of the directory leads to a page of its own that is handed out, for anyone to
      use and write, or back to the directory. */
  ghost predicate EntryOk(m: seq<word>, d: nat, i: nat, out: set<int>)
    requires InMemory(m, d) && i < ENTRIES
  {
    var e := m[d * ENTRIES + i];
    Present(e) ==> InMemory(m, Frame(e)) && Frame(e) in out && (Frame(e) != d ==> User(e) && Writable(e))
  }

  ghost predicate Apart(m: seq<word>, d: nat, i: nat, j: nat)
    requires InMemory(m, d) && i < ENTRIES && j < ENTRIES
  {
    var e, f := m[d * ENTRIES + i], m[d * ENTRIES + j];
    Present(e) && Present(f) ==> Frame(e) != Frame(f)
  }

  /** The directory in page d and its tables, no two entries sharing a table. */
  ghost predicate Tables(m: seq<word>, d: nat, out: set<int>) {
    && InMemory(m, d) && d in out
    && (forall i :: 0 <= i < ENTRIES ==> EntryOk(m, d, i, out))
    && (forall i, j :: 0 <= i < j < ENTRIES ==> Apart(m, d, i, j))
  }

  /** Page v is seen through the entry that leads back to the directory. */
  predicate InWindow(m: seq<word>, d: nat, v: nat)
    requires InMemory(m, d) && v < PAGES
  {
    Present(Pde(m, d, v)) && Frame(Pde(m, d, v)) == d
  }

  /** The memory after get_pte has put a new, zeroed table in page f at entry i of d. */
  ghost predicate WithTable(m: seq<word>, m': seq<word>, d: nat, i: nat, f: nat)
    requires InMemory(m, d) && i < ENTRIES
  {
    && |m'| == |m| && InMemory(m, f) && d != f < PAGES
    && m'[d * ENTRIES + i] == MakeEntry(f, PTE_U + PTE_W)
    && (forall k :: f * ENTRIES <= k < (f + 1) * ENTRIES ==> m'[k] == 0)
    && (forall k :: 0 <= k < |m| && !(f * ENTRIES <= k < (f + 1) * ENTRIES) && k != d * ENTRIES + i ==> m'[k] == m[k])
  }

  lemma FlagsUW()
    ensures User(PTE_U + PTE_W) && Writable(PTE_U + PTE_W) && !Present(0)
  {
    FlagIsBit(6);
    assert Bit(6, 1) == Bit(3, 0) && Bit(6, 2) == Bit(3, 1) && Bit(3, 1) == Bit(1, 0);
  }

  /** From m to m' no translation changed but for pages of the window that were unmapped. */
  ghost predicate SameWalks(m: seq<word>, m': seq<word>, d: nat)
    requires InMemory(m, d) && InMemory(m', d)
  {
    forall v :: 0 <= v < PAGES ==> SameWalk(m, m', d, v)
  }

  ghost predicate SameWalk(m: seq<word>, m': seq<word>, d: nat, v: nat)
    requires InMemory(m, d) && InMemory(m', d) && v < PAGES
  {
    && (InWindow(m', d, v) <==> InWindow(m, d, v))
    && (!InWindow(m', d, v) || Walk(m, d, v).Mapped? ==> Walk(m', d, v) == Walk(m, d, v))
  }

  /** A new table is a table, and maps nothing yet. */
  lemma NewTable(m: seq<word>, m': seq<word>, d: nat, i: nat, f: nat, out: set<int>)
    requires Tables(m, d, out) && i < ENTRIES && !Present(m[d * ENTRIES + i]) && f !in out && WithTable(m, m', d, i, f)
    ensures Tables(m', d, out + {f}) && SameWalks(m, m', d)
  {
    FlagsUW();
    forall j | 0 <= j < ENTRIES
      ensures EntryOk(m', d, j, out + {f}) && (j != i ==> m'[d * ENTRIES + j] == m[d * ENTRIES + j])
    {
      NewTableEntry(m, m', d, i, f, out, j);
    }
    forall j, k | 0 <= j < k < ENTRIES ensures Apart(m', d, j, k) {
      assert Apart(m, d, j, k) && EntryOk(m, d, j, out) && EntryOk(m, d, k, out);
    }
    forall v | 0 <= v < PAGES ensures SameWalk(m, m', d, v) {
      NewTableAt(m, m', d, i, f, out, v);
    }
  }

  lemma NewTableEntry(m: seq<word>, m': seq<word>, d: nat, i: nat, f: nat, out: set<int>, j: nat)
    requires Tables(m, d, out) && i < ENTRIES && !Present(m[d * ENTRIES + i]) && f !in out &&
             WithTable(m, m', d, i, f) && j < ENTRIES
    ensures EntryOk(m', d, j, out + {f}) && (j != i ==> m'[d * ENTRIES + j] == m[d * ENTRIES + j])
  {
    FlagsUW();
    assert EntryOk(m, d, j, out);
    if j == i {
      assert m'[d * ENTRIES + j] == MakeEntry(f, PTE_U + PTE_W);
    } else {
      assert m'[d * ENTRIES + j] == m[d * ENTRIES + j];
    }
  }

  lemma NewTableAt(m: seq<word>, m': seq<word>, d: nat, i: nat, f: nat, out: set<int>, v: nat)
    requires Tables(m, d, out) && i < ENTRIES && !Present(m[d * ENTRIES + i]) && f !in out &&
             WithTable(m, m', d, i, f) && v < PAGES
    ensures SameWalk(m, m', d, v)
  {
    FlagsUW();
    var j := v / ENTRIES;
    assert EntryOk(m, d, j, out);
    if j != i {
      assert Pde(m', d, v) == Pde(m, d, v);
      if Present(Pde(m, d, v)) {
        var t := Frame(Pde(m, d, v));
        assert t != f;
      }
    }
  }

  /** The word that holds the table entry of page v. */
  function PteIndex(m: seq<word>, d: nat, v: nat): nat
    requires InMemory(m, d) && v < PAGES
  {
    Frame(Pde(m, d, v)) * ENTRIES + v % ENTRIES
  }

  /** The words of the tables of two pages are different, and none is in the directory. */
  lemma EntriesApart(m: seq<word>, d: nat, v: nat, u: nat, out: set<int>)
    requires Tables(m, d, out) && v < PAGES && u < PAGES && u != v
    requires Present(Pde(m, d, v)) && !InWindow(m, d, v)
    ensures PteIndex(m, d, v) < |m| && !(d * ENTRIES <= PteIndex(m, d, v) < (d + 1) * ENTRIES)
    ensures Present(Pde(m, d, u)) ==> PteIndex(m, d, u) != PteIndex(m, d, v)
  {
    var i, j := v / ENTRIES, u / ENTRIES;
    assert EntryOk(m, d, i, out) && EntryOk(m, d, j, out);
    if i < j {
      assert Apart(m, d, i, j);
    } else if j < i {
      assert Apart(m, d, j, i);
    }
  }

  lemma SetEntryAt(m: seq<word>, d: nat, v: nat, e: word, u: nat, out: set<int>)
    requires Tables(m, d, out) && v < PAGES && Present(Pde(m, d, v)) && !InWindow(m, d, v) && u < PAGES
    ensures PteIndex(m, d, v) < |m|
    ensures var m' := m[PteIndex(m, d, v) := e];
            && Pde(m', d, u) == Pde(m, d, u) && (InWindow(m', d, u) <==> InWindow(m, d, u))
            && Walk(m', d, u) == if u == v then Through(Pde(m, d, v), e) else Walk(m, d, u)
  {
    assert EntryOk(m, d, v / ENTRIES, out);
    if u != v {
      EntriesApart(m, d, v, u, out);
    }
  }

  /** Writing the table entry of page v changes the translation of v and of no other page,
      unless v is in the window. */
  lemma SetEntry(m: seq<word>, d: nat, v: nat, e: word, out: set<int>)
    requires Tables(m, d, out) && v < PAGES && Present(Pde(m, d, v)) && !InWindow(m, d, v)
    ensures PteIndex(m, d, v) < |m|
    ensures var m' := m[PteIndex(m, d, v) := e];
            && Tables(m', d, out) && Walk(m', d, v) == Through(Pde(m, d, v), e)
            && (forall u :: 0 <= u < PAGES ==> (InWindow(m', d, u) <==> InWindow(m, d, u)))
            && forall u :: 0 <= u < PAGES && u != v ==> Walk(m', d, u) == Walk(m, d, u)
  {
    SetEntryAt(m, d, v, e, v, out);
    var m' := m[PteIndex(m, d, v) := e];
    forall u | 0 <= u < PAGES
      ensures InWindow(m', d, u) <==> InWindow(m, d, u)
      ensures u != v ==> Walk(m', d, u) == Walk(m, d, u)
    {
      SetEntryAt(m, d, v, e, u, out);
    }
    SameDirectory(m, m', d, out);
  }

  lemma SameDirectory(m: seq<word>, m': seq<word>, d: nat, out: set<int>)
    requires Tables(m, d, out) && |m'| == |m| && forall k :: d * ENTRIES <= k < (d + 1) * ENTRIES ==> m'[k] == m[k]
    ensures Tables(m', d, out)
  {
    forall i | 0 <= i < ENTRIES ensures EntryOk(m', d, i, out) {
      assert EntryOk(m, d, i, out);
    }
    forall i, j | 0 <= i < j < ENTRIES ensures Apart(m', d, i, j) {
      assert Apart(m, d, i, j);
    }
  }

  /** Why the window is left out: clearing the table entry of a page v there takes the whole
      table of entry v % 1024 away, and unmaps every page u that it mapped. */
  lemma WindowWrite(m: seq<word>, d: nat, v: nat, u: nat, out: set<int>)
    requires Tables(m, d, out) && v < PAGES && u < PAGES && InWindow(m, d, v)
    requires u / ENTRIES == v % ENTRIES && Walk(m, d, u).Mapped?
    ensures PteIndex(m, d, v) < |m| && Walk(m[PteIndex(m, d, v) := 0], d, u) == Unmapped
  {
    FlagsUW();
    assert PteIndex(m, d, v) == d * ENTRIES + u / ENTRIES;
  }

  // ---------- the page tables as seen through themselves ----------

  const VPD: word := 0xFAFE_B000
  const VPT_SLOT := 0x3EB

  /** The definitions of VPT_SLOT and of vpd */
  lemma Slots(vpt: word)
    requires vpt == VPT
    ensures Pdx(vpt) == VPT_SLOT && VPD == PgAddr(Pdx(vpt), Pdx(vpt), 0)
  {
  }

  /** The entry of the directory that leads back to it. */
  predicate SelfMapped(m: seq<word>, d: nat) {
    InMemory(m, d) && Present(m[d * ENTRIES + VPT_SLOT]) && Frame(m[d * ENTRIES + VPT_SLOT]) == d
  }

  /** The word of memory that a linear address reaches. */
  function WordAt(m: seq<word>, d: nat, a: word): nat
    requires InMemory(m, d) && Walk(m, d, Ppn(a)).Mapped?
  {
    Walk(m, d, Ppn(a)).frame * ENTRIES + PgOff(a) / 4
  }

  /** &vpt[v] and &vpd[j] */
  function VptAddr(v: nat): word
    requires v < PAGES
  {
    VPT + 4 * v
  }

  function VpdAddr(j: nat): word
    requires j < ENTRIES
  {
    VPD + 4 * j
  }

  /** A page whose directory entry leads back to the directory shows the directory. */
  lemma WindowWalk(m: seq<word>, d: nat, u: nat, i: nat)
    requires SelfMapped(m, d) && u < PAGES && u / ENTRIES == VPT_SLOT && u % ENTRIES == i
    ensures Walk(m, d, u).Mapped? <==> Present(m[d * ENTRIES + i])
    ensures Present(m[d * ENTRIES + i]) ==> Walk(m, d, u).frame == Frame(m[d * ENTRIES + i])
  {
  }

  lemma WindowAddress(v: nat)
    requires v < PAGES
    ensures var a := VptAddr(v);
            Ppn(a) / ENTRIES == VPT_SLOT && Ppn(a) % ENTRIES == v / ENTRIES && PgOff(a) / 4 == v % ENTRIES
  {
    var q, r := v / ENTRIES, v % ENTRIES;
    assert VptAddr(v) == (0xF_AC00 + q) * PGSIZE + 4 * r;
    ModUnique(VptAddr(v), PGSIZE, 0xF_AC00 + q, 4 * r);
    ModUnique(0xF_AC00 + q, ENTRIES, VPT_SLOT, q);
  }

  /** &vpt[PPN(la)] reaches the table entry of la exactly if its directory entry is present,
      and faults otherwise. */
  lemma VptReaches(m: seq<word>, d: nat, la: word)
    requires SelfMapped(m, d)
    ensures var a := VptAddr(Ppn(la));
            && (Walk(m, d, Ppn(a)).Mapped? <==> Present(Pde(m, d, Ppn(la))))
            && (Present(Pde(m, d, Ppn(la))) ==> WordAt(m, d, a) == PteIndex(m, d, Ppn(la)))
  {
    WindowAddress(Ppn(la));
    WindowWalk(m, d, Ppn(VptAddr(Ppn(la))), Ppn(la) / ENTRIES);
  }

  /** &vpd[j] reaches directory entry j. */
  lemma VpdReaches(m: seq<word>, d: nat, j: nat)
    requires SelfMapped(m, d) && j < ENTRIES
    ensures Walk(m, d, Ppn(VpdAddr(j))).Mapped? && WordAt(m, d, VpdAddr(j)) == d * ENTRIES + j
  {
    WindowEntry(j);
    WindowAddress(VPT_SLOT * ENTRIES + j);
    WindowWalk(m, d, Ppn(VpdAddr(j)), VPT_SLOT);
  }

  lemma WindowEntry(j: nat)
    requires j < ENTRIES
    ensures VpdAddr(j) == VptAddr(VPT_SLOT * ENTRIES + j)
    ensures (VPT_SLOT * ENTRIES + j) / ENTRIES == VPT_SLOT && (VPT_SLOT * ENTRIES + j) % ENTRIES == j
  {
    ModUnique(VPT_SLOT * ENTRIES + j, ENTRIES, VPT_SLOT, j);
  }
}
