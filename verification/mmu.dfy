// kern/mm/mmu.h and the conversions of kern/mm/pmm.h: linear addresses, page table
// entries and their bits.  A uint32_t is a number below 2^32; << and >> by k are the
// product with and the quotient by 2^k.

module Mmu {
  import opened Arith
  import opened SlabLayout

  const ENTRIES := 1024
  const PTE_P := 1
  const PTE_W := 2
  const PTE_U := 4
  const PTE_USER := 7
  const VPT: word := 0xFAC0_0000

  // ---------- bits ----------

  /** a & b */
  function And(a: nat, b: nat): (r: nat)
    ensures r <= b
  {
    if a == 0 || b == 0 then 0 else 2 * And(a / 2, b / 2) + (if a % 2 == 1 && b % 2 == 1 then 1 else 0)
  }

  /** a | b */
  function Or(a: nat, b: nat): nat {
    if a == 0 && b == 0 then 0 else 2 * Or(a / 2, b / 2) + (if a % 2 == 1 || b % 2 == 1 then 1 else 0)
  }

  /** Bit k of x is set. */
  predicate Bit(x: nat, k: nat) {
    if k == 0 then x % 2 == 1 else Bit(x / 2, k - 1)
  }

  /** Halving takes off the lowest bit. */
  lemma Halves(a: nat, b: nat)
    ensures And(a, b) / 2 == And(a / 2, b / 2) && Or(a, b) / 2 == Or(a / 2, b / 2)
    ensures (And(a, b) % 2 == 1 <==> a % 2 == 1 && b % 2 == 1) && (Or(a, b) % 2 == 1 <==> a % 2 == 1 || b % 2 == 1)
  {
  }

  lemma {:induction false} AndBit(a: nat, b: nat, k: nat)
    ensures Bit(And(a, b), k) <==> Bit(a, k) && Bit(b, k)
    decreases k
  {
    Halves(a, b);
    if k > 0 {
      AndBit(a / 2, b / 2, k - 1);
    }
  }

  lemma {:induction false} NoBits(k: nat)
    ensures !Bit(0, k)
  {
    if k > 0 {
      NoBits(k - 1);
    }
  }

  lemma {:induction false} OrBit(a: nat, b: nat, k: nat)
    ensures Bit(Or(a, b), k) <==> Bit(a, k) || Bit(b, k)
    decreases k
  {
    Halves(a, b);
    if k > 0 {
      OrBit(a / 2, b / 2, k - 1);
    }
  }

  /** x & (2^k - 1) is the remainder by 2^k. */
  lemma {:induction false} AndLow(x: nat, k: nat)
    ensures And(x, Pow2(k) - 1) == x % Pow2(k)
    decreases k
  {
    if k > 0 {
      AndLow(x / 2, k - 1);
      var m := Pow2(k - 1);
      assert (2 * m - 1) / 2 == m - 1;
      ModStep(x, m);
    }
  }

  lemma ModStep(x: nat, m: nat)
    requires m > 0
    ensures x % (2 * m) == 2 * ((x / 2) % m) + x % 2
  {
    var q, r := x / 2 / m, x / 2 % m;
    assert x == 2 * (q * m + r) + x % 2;
    assert x == q * (2 * m) + (2 * r + x % 2);
    ModUnique(x, 2 * m, q, 2 * r + x % 2);
  }

  /** x >> k and x << k, without the limit of a word */
  function Shr(x: nat, k: nat): nat
    decreases k
  {
    if k == 0 then x else Shr(x / 2, k - 1)
  }

  function Shl(x: nat, k: nat): nat {
    if k == 0 then x else 2 * Shl(x, k - 1)
  }

  lemma {:induction false} ShrIs(x: nat, k: nat)
    ensures Shr(x, k) == x / Pow2(k)
    decreases k
  {
    if k > 0 {
      ShrIs(x / 2, k - 1);
      DivDiv(x, Pow2(k - 1));
    }
  }

  lemma {:induction false} ShlIs(x: nat, k: nat)
    ensures Shl(x, k) == x * Pow2(k)
  {
    if k > 0 {
      ShlIs(x, k - 1);
      assert x * Pow2(k) == 2 * (x * Pow2(k - 1));
    }
  }

  lemma {:induction false} AndShift(x: nat, m: nat, k: nat)
    ensures And(x, Shl(m, k)) == Shl(And(Shr(x, k), m), k)
    decreases k
  {
    if k > 0 {
      AndShift(x / 2, m, k - 1);
      assert And(x, 2 * Shl(m, k - 1)) == 2 * And(x / 2, Shl(m, k - 1));
    }
  }

  lemma DivDiv(x: nat, m: nat)
    requires m > 0
    ensures x / 2 / m == x / (2 * m)
  {
    var q, r := x / 2 / m, x / 2 % m;
    assert x == q * (2 * m) + (2 * r + x % 2);
    ModUnique(x, 2 * m, q, 2 * r + x % 2);
  }

  /** Or of a multiple of 2^k and a number below 2^k is their sum. */
  lemma {:induction false} OrSum(h: nat, l: nat, k: nat)
    requires l < Pow2(k)
    ensures Or(Shl(h, k), l) == Shl(h, k) + l
    decreases k
  {
    if k == 0 {
      OrZero(h);
    } else {
      OrSum(h, l / 2, k - 1);
    }
  }

  lemma {:induction false} OrZero(a: nat)
    ensures Or(a, 0) == a
  {
    if a > 0 {
      OrZero(a / 2);
    }
  }

  /** The part of an Or above bit k is the Or of the parts. */
  lemma {:induction false} OrHigh(a: nat, b: nat, k: nat)
    ensures Shr(Or(a, b), k) == Or(Shr(a, k), Shr(b, k))
    decreases k
  {
    Halves(a, b);
    if k > 0 {
      OrHigh(a / 2, b / 2, k - 1);
    }
  }

  // ---------- linear addresses ----------

  function Pdx(la: word): (r: nat)
    ensures r == la / 0x40_0000 < ENTRIES
  {
    PowersOfTwo();
    ShrIs(la, 22);
    AndLow(la / 0x40_0000, 10);
    ModUnique(la / 0x40_0000, ENTRIES, 0, la / 0x40_0000);
    And(Shr(la, 22), 0x3FF)
  }

  function Ptx(la: word): (r: nat)
    ensures r == la / PGSIZE % ENTRIES
  {
    PowersOfTwo();
    ShrIs(la, 12);
    AndLow(la / PGSIZE, 10);
    And(Shr(la, 12), 0x3FF)
  }

  function Ppn(la: word): (r: nat)
    ensures r == la / PGSIZE < 0x10_0000
  {
    PowersOfTwo();
    ShrIs(la, 12);
    Shr(la, 12)
  }

  function PgOff(la: word): (r: nat)
    ensures r == la % PGSIZE
  {
    PowersOfTwo();
    AndLow(la, 12);
    And(la, 0xFFF)
  }

  lemma PowersOfTwo()
    ensures Pow2(1) == 2 && Pow2(10) == ENTRIES && Pow2(12) == PGSIZE && Pow2(20) == 0x10_0000 && Pow2(22) == 0x40_0000
  {
  }

  /** PTE_ADDR and PDE_ADDR */
  function PteAddr(e: word): (r: word)
    ensures r == e / PGSIZE * PGSIZE
  {
    HighBits(e, 0xFFFF_F000);
    And(e, 0xFFFF_F000)
  }

  lemma HighBits(e: word, mask: nat)
    requires mask == 0xF_FFFF * PGSIZE
    ensures And(e, mask) == e / PGSIZE * PGSIZE
  {
    PowersOfTwo();
    ShlIs(0xF_FFFF, 12);
    AndShift(e, 0xF_FFFF, 12);
    ShrIs(e, 12);
    AndLow(e / PGSIZE, 20);
    ModUnique(e / PGSIZE, 0x10_0000, 0, e / PGSIZE);
    ShlIs(e / PGSIZE, 12);
  }

  /** PGADDR */
  function PgAddr(d: nat, t: nat, o: nat): (la: word)
    requires d < ENTRIES && t < ENTRIES && o < PGSIZE
    ensures la == d * 0x40_0000 + t * PGSIZE + o
  {
    PowersOfTwo();
    ShlIs(d, 22);
    ShlIs(t, 12);
    ShlIs(d * 1024 + t, 12);
    OrSum(d, t * PGSIZE, 22);
    OrSum(d * 1024 + t, o, 12);
    Or(Or(Shl(d, 22), Shl(t, 12)), o)
  }

  /** An address is built from its directory index, its table index and its offset, and
      these are what is taken out of it again. */
  lemma AddressSplit(la: word, d: nat, t: nat, o: nat)
    requires d < ENTRIES && t < ENTRIES && o < PGSIZE
    ensures PgAddr(Pdx(la), Ptx(la), PgOff(la)) == la
    ensures Pdx(PgAddr(d, t, o)) == d && Ptx(PgAddr(d, t, o)) == t && PgOff(PgAddr(d, t, o)) == o
  {
    PageSplit(la / PGSIZE, d, t);
    DivTwice(la, d * 0x40_0000 + t * PGSIZE + o);
    ModUnique(d * 0x40_0000 + t * PGSIZE + o, PGSIZE, d * ENTRIES + t, o);
  }

  lemma PageSplit(v: nat, d: nat, t: nat)
    requires t < ENTRIES
    ensures v / ENTRIES * ENTRIES + v % ENTRIES == v
    ensures (d * ENTRIES + t) / ENTRIES == d && (d * ENTRIES + t) % ENTRIES == t
  {
    ModUnique(d * ENTRIES + t, ENTRIES, d, t);
  }

  lemma DivTwice(x: nat, y: nat)
    ensures x / 0x40_0000 == x / PGSIZE / ENTRIES && y / 0x40_0000 == y / PGSIZE / ENTRIES
  {
    ModUnique(x, 0x40_0000, x / PGSIZE / ENTRIES, x / PGSIZE % ENTRIES * PGSIZE + x % PGSIZE);
    ModUnique(y, 0x40_0000, y / PGSIZE / ENTRIES, y / PGSIZE % ENTRIES * PGSIZE + y % PGSIZE);
  }

  // ---------- entries ----------

  predicate Present(e: word) {
    And(e, PTE_P) != 0
  }

  predicate Writable(e: word) {
    And(e, PTE_W) != 0
  }

  predicate User(e: word) {
    And(e, PTE_U) != 0
  }

  /** The page frame an entry leads to. */
  function Frame(e: word): (r: nat)
    ensures r < 0x10_0000
  {
    PteAddr(e) / PGSIZE
  }

  lemma FlagIsBit(e: word)
    ensures (Present(e) <==> Bit(e, 0)) && (Writable(e) <==> Bit(e, 1)) && (User(e) <==> Bit(e, 2))
  {
    LowFlag(e);
    LowFlag(e / 2);
    LowFlag(e / 2 / 2);
    assert And(e, 2) == 2 * And(e / 2, 1);
    assert And(e, 4) == 2 * And(e / 2, 2) && And(e / 2, 2) == 2 * And(e / 2 / 2, 1);
    assert Bit(e, 1) == Bit(e / 2, 0) && Bit(e, 2) == Bit(e / 2, 1) && Bit(e / 2, 1) == Bit(e / 2 / 2, 0);
  }

  lemma LowFlag(x: nat)
    ensures And(x, 1) == x % 2
  {
    PowersOfTwo();
    AndLow(x, 1);
  }

  /** page << 12 | PTE_P | perm */
  function MakeEntry(page: nat, perm: nat): (e: word)
    requires page < 0x10_0000 && perm < PGSIZE
    ensures Present(e) && Frame(e) == page
    ensures (Writable(e) <==> Writable(perm)) && (User(e) <==> User(perm))
  {
    EntryHigh(page, perm);
    EntryBits(page, perm);
    Or(Or(Shl(page, 12), PTE_P), perm)
  }

  lemma EntryHigh(page: nat, perm: nat)
    requires page < 0x10_0000 && perm < PGSIZE
    ensures Or(Or(Shl(page, 12), PTE_P), perm) / PGSIZE == page
  {
    var x := Shl(page, 12);
    PowersOfTwo();
    ShlIs(page, 12);
    OrHigh(Or(x, PTE_P), perm, 12);
    OrHigh(x, PTE_P, 12);
    ShrIs(x, 12);
    ShrIs(PTE_P, 12);
    ShrIs(perm, 12);
    ShrIs(Or(Or(x, PTE_P), perm), 12);
    OrZero(page);
  }

  lemma EntryBits(page: nat, perm: word)
    requires page < 0x10_0000 && Or(Or(Shl(page, 12), PTE_P), perm) / PGSIZE == page
    ensures var e := Or(Or(Shl(page, 12), PTE_P), perm);
            e < W32 && Present(e) && (Writable(e) <==> Writable(perm)) && (User(e) <==> User(perm))
  {
    var e := Or(Or(Shl(page, 12), PTE_P), perm);
    FlagIsBit(e);
    FlagIsBit(perm);
    forall k | 0 <= k <= 2 ensures Bit(e, k) <==> k == 0 || Bit(perm, k) {
      OrBit(Or(Shl(page, 12), PTE_P), perm, k);
      OrBit(Shl(page, 12), PTE_P, k);
      LowClear(page, 12, k);
      NoBits(k);
      assert k > 0 ==> Bit(PTE_P, k) == Bit(0, k - 1);
      if k > 0 {
        NoBits(k - 1);
      }
    }
  }

  lemma {:induction false} LowClear(x: nat, n: nat, k: nat)
    requires k < n
    ensures !Bit(Shl(x, n), k)
  {
    assert Shl(x, n) == 2 * Shl(x, n - 1);
    if k > 0 {
      LowClear(x, n - 1, k - 1);
    }
  }
}
