// kern/mm/slab.c, lines 66-447: the slab allocator on top of the page allocator.  An
// address is page * PGSIZE + offset, counted from KERNBASE.

module SlabAlloc {
  import opened Arith
  import opened BuddyBlocks
  import opened BuddyLists
  import opened Counting
  import opened SlabLayout
  import opened BuddyPmm
  import opened Options

  const BUFCTL_END := 0xFFFF_FFFF

  /** A slab_t with its bufctl array.  What is set once, when the slab is made, is const. */
  class Slab {
    /** The index in slab_cache of the cache the slab belongs to. */
    const cache: nat
    const lay: Layout
    /** The first of the 2^lay.order pages of the slab. */
    const base: nat
    /** The address of the slab_t itself. */
    const addr: int
    const sMem: int
    const offset: nat
    const bufctl: array<nat>
    var inuse: nat
    var free: nat
    /** The indices on the chain of free objects, in order. */
    ghost var chain: seq<nat>

    constructor (cache: nat, lay: Layout, base: nat, addr: int)
      requires lay.num > 0
      ensures this.cache == cache && this.lay == lay && this.base == base && this.addr == addr
      ensures inuse == 0 && offset == lay.offset && sMem == base * PGSIZE + lay.offset
      ensures fresh(bufctl) && bufctl.Length == lay.num
    {
      this.cache, this.lay, this.base, this.addr := cache, lay, base, addr;
      inuse, offset, sMem := 0, lay.offset, base * PGSIZE + lay.offset;
      bufctl := new nat[lay.num];
      free := 0;
    }

    /** The address of object i. */
    function Obj(i: int): int {
      sMem + i * lay.objsize
    }

    /** The chain leads from free through distinct indices to BUFCTL_END, and the objects
        off the chain are those in use. */
    ghost predicate Chained()
      reads this, bufctl
    {
      && bufctl.Length == lay.num && inuse + |chain| == lay.num
      && (forall k :: 0 <= k < |chain| ==> chain[k] < lay.num)
      && (forall j, k :: 0 <= j < k < |chain| ==> chain[j] != chain[k])
      && free == Link(chain, 0)
      && (forall k :: 0 <= k < |chain| ==> bufctl[chain[k]] == Link(chain, k + 1))
    }
  }

  /** Entry k of a chain, or its end mark. */
  function Link(chain: seq<nat>, k: nat): nat {
    if k < |chain| then chain[k] else BUFCTL_END
  }

  /** The index that k steps along the bufctl array lead to from free, as long as there is
      an entry to read */
  function Walk(s: Slab, k: nat): nat
    reads s, s.bufctl
  {
    if k == 0 then s.free
    else var i := Walk(s, k - 1); if i < s.bufctl.Length then s.bufctl[i] else BUFCTL_END
  }

  lemma {:induction false} WalkIsChain(s: Slab, k: nat)
    requires s.Chained() && k <= |s.chain|
    ensures Walk(s, k) == Link(s.chain, k)
  {
    if k > 0 {
      WalkIsChain(s, k - 1);
    }
  }

  /** A kmem_cache_t; layout holds the fields that init_kmem_cache sets. */
  class Cache {
    const layout: Layout
    var full: seq<Slab>
    var notfull: seq<Slab>

    constructor (layout: Layout)
      ensures this.layout == layout && full == [] && notfull == []
    {
      this.layout := layout;
      full, notfull := [], [];
    }
  }

  /** kmem_cache_alloc_one */
  method AllocOne(c: Cache, s: Slab) returns (objp: int)
    requires s.Chained() && s.chain != [] && s.lay.num < BUFCTL_END && s.lay == c.layout
    requires c.notfull != [] && s == c.notfull[0]
    modifies s, c
    ensures s.Chained() && s.chain == old(s.chain)[1..] && s.inuse == old(s.inuse) + 1
    ensures objp == s.Obj(old(s.chain[0]))
    ensures c.notfull == if s.chain == [] then old(c.notfull)[1..] else old(c.notfull)
    ensures c.full == if s.chain == [] then [s] + old(c.full) else old(c.full)
  {
    s.inuse := s.inuse + 1;
    objp := s.sMem + s.free * c.layout.objsize;
    s.free := s.bufctl[s.free];
    s.chain := s.chain[1..];
    if s.free == BUFCTL_END {
      c.notfull := c.notfull[1..];
      c.full := [s] + c.full;
    }
  }

  /** kmem_cache_free_one, lines 406-409 */
  method FreeSlot(s: Slab, objnr: nat)
    requires s.Chained() && s.inuse > 0 && objnr < s.lay.num && objnr !in s.chain
    modifies s, s.bufctl
    ensures s.Chained() && s.chain == [objnr] + old(s.chain) && s.inuse == old(s.inuse) - 1
  {
    s.bufctl[objnr] := s.free;
    s.free := objnr;
    s.inuse := s.inuse - 1;
    s.chain := [objnr] + s.chain;
    forall k | 0 <= k < |s.chain| ensures s.bufctl[s.chain[k]] == Link(s.chain, k + 1) {
      if k > 0 {
        assert s.chain[k] == old(s.chain)[k - 1];
      }
    }
  }

  /** list_del of the slab_link of s: s is on one list of its cache, and stays on none. */
  function ListDel(list: seq<Slab>, s: Slab): seq<Slab> {
    if list == [] then [] else if list[0] == s then list[1..] else [list[0]] + ListDel(list[1..], s)
  }

  lemma {:induction false} ListDelMember(list: seq<Slab>, s: Slab, t: Slab)
    requires NoDup(list)
    ensures t in ListDel(list, s) <==> t in list && t != s
  {
    if list != [] {
      assert list == [list[0]] + list[1..];
      if list[0] != s {
        ListDelMember(list[1..], s, t);
      }
    }
  }

  /** The other slabs stay in order. */
  lemma {:induction false} ListDelOrder(a: seq<Slab>, s: Slab, b: seq<Slab>)
    requires s !in a
    ensures ListDel(a + [s] + b, s) == a + b
  {
    if a == [] {
      assert [] + [s] + b == [s] + b && [] + b == b;
    } else {
      assert (a + [s] + b)[1..] == a[1..] + [s] + b;
      ListDelOrder(a[1..], s, b);
      assert [a[0]] + (a[1..] + b) == a + b;
    }
  }

  lemma ListDelMembers(list: seq<Slab>, s: Slab)
    requires NoDup(list)
    ensures forall t :: t in ListDel(list, s) <==> t in list && t != s
  {
    forall t ensures t in ListDel(list, s) <==> t in list && t != s {
      ListDelMember(list, s, t);
    }
  }

  lemma {:induction false} ListDelNoDup(list: seq<Slab>, s: Slab)
    requires NoDup(list)
    ensures NoDup(ListDel(list, s))
  {
    if list != [] && list[0] != s {
      var rest := ListDel(list[1..], s);
      ListDelNoDup(list[1..], s);
      forall j | 0 <= j < |rest| ensures rest[j] != list[0] {
        ListDelMember(list[1..], s, rest[j]);
      }
    }
  }

  /** kmem_cache_free_one but for kmem_slab_destroy; ListDel leaves the list alone that s
      is not on. */
  method FreeOne(c: Cache, s: Slab, objnr: nat)
    requires s.Chained() && s.inuse > 0 && objnr < s.lay.num && objnr !in s.chain && s.lay == c.layout
    modifies s, s.bufctl, c
    ensures s.Chained() && s.chain == [objnr] + old(s.chain) && s.inuse == old(s.inuse) - 1
    ensures c.full == if s.inuse == 0 || s.inuse == s.lay.num - 1 then ListDel(old(c.full), s) else old(c.full)
    ensures c.notfull == if s.inuse == 0 then ListDel(old(c.notfull), s)
                         else if s.inuse == s.lay.num - 1 then [s] + ListDel(old(c.notfull), s) else old(c.notfull)
  {
    FreeSlot(s, objnr);
    if s.inuse == 0 {
      c.full, c.notfull := ListDel(c.full, s), ListDel(c.notfull, s);
    } else if s.inuse == c.layout.num - 1 {
      c.full, c.notfull := ListDel(c.full, s), [s] + ListDel(c.notfull, s);
    }
  }

  /** All objects of a slab with none in use are on the chain. */
  lemma AllFree(s: Slab)
    requires s.Chained() && s.inuse == 0
    ensures forall i :: 0 <= i < s.lay.num ==> i in s.chain
  {
    forall i: nat | i < s.lay.num ensures i in s.chain {
      if i !in s.chain {
        Pigeonhole(s.chain + [i], s.lay.num);
      }
    }
  }

  method NewCaches() returns (cs: seq<Cache>)
    ensures |cs| == SLAB_CACHE_NUM
    ensures forall i :: 0 <= i < |cs| ==>
              fresh(cs[i]) && cs[i].layout == Table(i) && cs[i].full == [] && cs[i].notfull == []
    ensures forall i, j :: 0 <= i < j < |cs| ==> cs[i] != cs[j]
  {
    var ls := SlabInit();
    cs := [];
    while |cs| < |ls|
      invariant |cs| <= |ls|
      invariant forall i :: 0 <= i < |cs| ==>
                fresh(cs[i]) && cs[i].layout == ls[i] && cs[i].full == [] && cs[i].notfull == []
      invariant forall i, j :: 0 <= i < j < |cs| ==> cs[i] != cs[j]
    {
      var c := new Cache(ls[|cs|]);
      cs := cs + [c];
    }
  }

  class SlabAllocator {
    const buddy: Buddy
    const caches: seq<Cache>
    /** What a page that belongs to a slab keeps in page_link: its cache and its slab. */
    const pageCache: array<int>
    const pageSlab: array<Slab?>
    ghost var slabs: set<Slab>
    /** The objects handed out by kmalloc, with the sizes asked for. */
    ghost var live: map<int, nat>
    /** The off-slab slab_t's, which are objects of other caches. */
    ghost var descs: map<int, Slab>

    // ---------- the invariant ----------

    ghost function Bufctls(): set<object>
      reads this`slabs
    {
      set s | s in slabs :: s.bufctl as object
    }

    ghost predicate LayoutOk(l: Layout) {
      && 0 < l.num < BUFCTL_END && l.objsize > 0 && l.order <= KMALLOC_MAX_ORDER
      && l.offset + l.num * l.objsize <= PGSIZE * Pow2(l.order)
      && (if l.offSlab then
            0 <= l.slabCache < |caches| && SLAB_T + l.num * BUFCTL_T <= caches[l.slabCache].layout.objsize
          else SLAB_T + l.num * BUFCTL_T <= l.offset)
      && (l.offSlab ==> !caches[l.slabCache].layout.offSlab && caches[l.slabCache].layout.order == 0)
    }

    ghost predicate CachesApart(k: nat) {
      k < |caches| && forall j :: 0 <= j < |caches| && j != k ==> caches[j] != caches[k]
    }

    ghost predicate BufctlApart(s: Slab)
      reads this`slabs
    {
      forall t :: t in slabs && t != s ==> t.bufctl != s.bufctl
    }

    ghost predicate Frame()
      reads this`slabs
    {
      && |caches| == SLAB_CACHE_NUM
      && (forall k :: 0 <= k < |caches| ==> LayoutOk(caches[k].layout))
      && (forall k :: 0 <= k < |caches| ==> CachesApart(k))
      && pageCache.Length == pageSlab.Length == buddy.n
      && this !in buddy.parts && pageCache !in buddy.parts && pageSlab !in buddy.parts
      && (forall c :: c in caches ==> c !in buddy.parts)
      && (forall s :: s in slabs ==> s !in buddy.parts && s.bufctl !in buddy.parts && s.bufctl as object != pageCache)
      && (forall s :: s in slabs ==> BufctlApart(s))
    }

    ghost function SlabPages(s: Slab): set<int> {
      Pages(s.base, Pow2(s.lay.order))
    }

    /** The slab has its pages to itself, and they lead back to it. */
    ghost predicate Placed(s: Slab)
      reads pageCache, pageSlab, buddy`out
    {
      && s.cache < |caches| && s.lay == caches[s.cache].layout
      && s.base + Pow2(s.lay.order) <= buddy.n && buddy.n == pageCache.Length == pageSlab.Length
      && s.offset == s.lay.offset && s.sMem == s.base * PGSIZE + s.lay.offset
      && (!s.lay.offSlab ==> s.addr == s.base * PGSIZE)
      && SlabPages(s) <= buddy.out
      && forall p :: s.base <= p < s.base + Pow2(s.lay.order) ==> pageSlab[p] == s && pageCache[p] == s.cache
    }

    ghost predicate AllPlaced()
      reads this`slabs, pageCache, pageSlab, buddy`out
    {
      forall s :: s in slabs ==> Placed(s)
    }

    ghost predicate AllChained()
      reads this`slabs, slabs, Bufctls()
    {
      forall s :: s in slabs ==> s.Chained()
    }

    /** The objects of s on the chain are exactly those not in use. */
    ghost predicate Slots(s: Slab, used: set<int>)
      reads s
    {
      forall i :: 0 <= i < s.lay.num ==> (i in s.chain <==> s.Obj(i) !in used)
    }

    ghost predicate AllSlots(used: set<int>)
      reads this`slabs, slabs
    {
      forall s :: s in slabs ==> Slots(s, used)
    }

    /** Address a is object i of the slab that its page leads to. */
    ghost predicate IsObj(a: int, i: nat)
      reads this`slabs, pageSlab
    {
      0 <= a / PGSIZE < pageSlab.Length && var s := pageSlab[a / PGSIZE];
      s != null && s in slabs && i < s.lay.num && a == s.Obj(i)
    }

    ghost predicate AllOwned(used: set<int>)
      reads this`slabs, pageSlab
    {
      forall a :: a in used ==> exists i: nat :: IsObj(a, i)
    }

    ghost predicate ListShape(k: nat)
      requires k < |caches|
      reads this`slabs, caches[k]
    {
      && NoDup(caches[k].full) && NoDup(caches[k].notfull)
      && (forall s :: s in caches[k].full ==> s in slabs && s.cache == k)
      && (forall s :: s in caches[k].notfull ==> s in slabs && s.cache == k)
    }

    /** A slab is on slabs_full if all its objects are in use, else on slabs_notfull. */
    ghost predicate OnList(s: Slab)
      requires s.cache < |caches|
      reads s, caches[s.cache]
    {
      && (s in caches[s.cache].full <==> s.inuse == s.lay.num)
      && (s in caches[s.cache].notfull <==> s.inuse != s.lay.num)
    }

    ghost predicate AllLists()
      reads this`slabs, slabs, caches
    {
      && (forall k :: 0 <= k < |caches| ==> ListShape(k))
      && (forall s :: s in slabs ==> s.cache < |caches| && OnList(s))
    }

    ghost predicate Busy()
      reads this`slabs, slabs
    {
      forall s :: s in slabs ==> s.inuse > 0
    }

    /** Every off-slab slab_t is an object of its own in the cache meant for it. */
    ghost predicate Described(ss: set<Slab>)
      reads this`descs, pageCache
    {
      && (forall a :: a in descs ==> descs[a] in ss && descs[a].lay.offSlab && descs[a].addr == a)
      && (forall s :: s in ss && s.lay.offSlab ==> s.addr in descs && descs[s.addr] == s)
      && (forall a :: a in descs ==>
        0 <= a / PGSIZE < pageCache.Length && pageCache[a / PGSIZE] == descs[a].lay.slabCache)
    }

    /** The size of the objects that the page of address a holds. */
    ghost function SizeAt(a: int): nat
      requires 0 <= a / PGSIZE < pageCache.Length
      reads pageCache
    {
      var k := pageCache[a / PGSIZE];
      if 0 <= k < |caches| then caches[k].layout.objsize else 0
    }

    /** Every object handed out is as big as was asked for. */
    ghost predicate BigEnough()
      reads this`live, pageCache
    {
      forall a :: a in live ==> 0 <= a / PGSIZE < pageCache.Length && live[a] <= SizeAt(a)
    }

    ghost function Used(extra: set<int>): set<int>
      reads this`live, this`descs
    {
      live.Keys + descs.Keys + extra
    }

    /** The slabs are as they should be when the objects in used are those in use. */
    ghost predicate Core(used: set<int>)
      reads this`slabs, slabs, Bufctls(), caches, pageCache, pageSlab, buddy, buddy.parts
    {
      && Frame() && buddy.Sound()
      && AllPlaced() && AllChained() && AllSlots(used) && AllOwned(used) && AllLists()
    }

    /** The invariant while the objects in extra are in use besides those of the callers
        and the off-slab slab_t's. */
    ghost predicate Inv(extra: set<int>)
      reads this, slabs, Bufctls(), caches, pageCache, pageSlab, buddy, buddy.parts
    {
      && Core(Used(extra)) && Described(slabs) && BigEnough()
      && live.Keys !! descs.Keys && extra !! live.Keys && extra !! descs.Keys
    }

    /** The caches are those that slab_init makes. */
    ghost predicate FromTable() {
      |caches| == SLAB_CACHE_NUM && forall k :: 0 <= k < |caches| ==> HasLayout(k)
    }

    ghost predicate HasLayout(k: nat) {
      k < |caches| == SLAB_CACHE_NUM && caches[k].layout == Table(k)
    }

    /** The invariant between calls. */
    ghost predicate Ready()
      reads this, slabs, Bufctls(), caches, pageCache, pageSlab, buddy, buddy.parts
    {
      Inv({}) && Busy() && FromTable()
    }

    /** slab_init */
    constructor (buddy: Buddy)
      requires buddy.Sound()
      ensures this.buddy == buddy && Ready() && live == map[]
    {
      hide LayoutOk, CachesApart, Table, Pages, Buddy.FreeSet, Buddy.Starts, Buddy.Listed, Buddy.Shape, Once, InRange;
      this.buddy := buddy;
      var cs := NewCaches();
      caches := cs;
      pageCache := new int[buddy.n](_ => -1);
      pageSlab := new Slab?[buddy.n](_ => null);
      slabs, live, descs := {}, map[], map[];
      new;
      LaidOut();
      AllApart();
      assert AllOwned(Used({})) && AllLists() && Described(slabs);
    }

    lemma AllApart()
      requires forall i, j :: 0 <= i < j < |caches| ==> caches[i] != caches[j]
      ensures forall k :: 0 <= k < |caches| ==> CachesApart(k)
    {
    }

    lemma LaidOut()
      requires FromTable()
      ensures forall k :: 0 <= k < |caches| ==> LayoutOk(caches[k].layout)
    {
      forall k | 0 <= k < |caches| ensures LayoutOk(caches[k].layout) {
        assert HasLayout(k);
        TableFits(k);
        TableControl(k);
        if Table(k).offSlab {
          TableFits(Table(k).slabCache);
          assert HasLayout(Table(k).slabCache);
        }
      }
    }

    // ---------- addresses ----------

    lemma PageInside(x: int, base: int, n: int)
      requires base * PGSIZE <= x < (base + n) * PGSIZE
      ensures base <= x / PGSIZE < base + n
    {
    }

    /** Object i of a placed slab lies in the pages of the slab, past the control area. */
    lemma ObjPage(s: Slab, i: nat)
      requires Placed(s) && i < s.lay.num && LayoutOk(s.lay)
      ensures s.base <= s.Obj(i) / PGSIZE < s.base + Pow2(s.lay.order)
      ensures s.base * PGSIZE + s.lay.offset <= s.Obj(i)
      ensures s.Obj(i) + s.lay.objsize <= (s.base + Pow2(s.lay.order)) * PGSIZE
    {
      MulMono(i + 1, s.lay.num, s.lay.objsize);
      assert (i + 1) * s.lay.objsize == i * s.lay.objsize + s.lay.objsize;
      PageInside(s.Obj(i), s.base, Pow2(s.lay.order));
    }

    /** Distinct objects have distinct addresses; moreover they do not overlap. */
    lemma ObjsApart(s: Slab, i: nat, t: Slab, j: nat)
      requires Placed(s) && Placed(t) && LayoutOk(s.lay) && LayoutOk(t.lay) && i < s.lay.num && j < t.lay.num
      requires s != t || i != j
      ensures s.Obj(i) + s.lay.objsize <= t.Obj(j) || t.Obj(j) + t.lay.objsize <= s.Obj(i)
    {
      if s == t {
        var d := s.lay.objsize;
        assert (i + 1) * d == i * d + d && (j + 1) * d == j * d + d;
        if i < j {
          MulMono(i + 1, j, d);
        } else {
          MulMono(j + 1, i, d);
        }
      } else {
        ObjPage(s, i);
        ObjPage(t, j);
        PagesApart(s, t);
      }
    }

    lemma PageOf(s: Slab, p: int)
      requires Placed(s) && s.base <= p < s.base + Pow2(s.lay.order)
      ensures 0 <= p < buddy.n && pageSlab[p] == s && pageCache[p] == s.cache
    {
    }

    lemma PagesApart(s: Slab, t: Slab)
      requires Placed(s) && Placed(t) && s != t
      ensures s.base + Pow2(s.lay.order) <= t.base || t.base + Pow2(t.lay.order) <= s.base
    {
      if s.base <= t.base < s.base + Pow2(s.lay.order) {
        PageOf(s, t.base);
      } else if t.base <= s.base < t.base + Pow2(t.lay.order) {
        PageOf(s, s.base);
      }
    }

    /** One more or one less object in use only matters for the slot of that object. */
    lemma SlotsElsewhere(t: Slab, s: Slab, i: nat, used: set<int>)
      requires Placed(s) && Placed(t) && LayoutOk(s.lay) && LayoutOk(t.lay) && i < s.lay.num && t != s
      ensures Slots(t, used) <==> Slots(t, used + {s.Obj(i)})
    {
      forall j | 0 <= j < t.lay.num ensures t.Obj(j) != s.Obj(i) {
        ObjsApart(s, i, t, j);
      }
    }

    lemma SlotsTaken(s: Slab, i: nat, chain0: seq<nat>, used: set<int>)
      requires Placed(s) && LayoutOk(s.lay) && i < s.lay.num && s.Chained()
      requires chain0 == [i] + s.chain && i !in s.chain
      ensures (forall j :: 0 <= j < s.lay.num ==> (j in chain0 <==> s.Obj(j) !in used)) ==> Slots(s, used + {s.Obj(i)})
      ensures Slots(s, used + {s.Obj(i)}) && s.Obj(i) !in used ==>
                forall j :: 0 <= j < s.lay.num ==> (j in chain0 <==> s.Obj(j) !in used)
    {
      forall j | 0 <= j < s.lay.num && j != i ensures s.Obj(j) != s.Obj(i) && (j in chain0 <==> j in s.chain) {
        ObjsApart(s, i, s, j);
      }
    }

    lemma AllSlotsTaken(s: Slab, i: nat, chain0: seq<nat>, used: set<int>)
      requires AllPlaced() && s in slabs && i < s.lay.num && s.Chained() && chain0 == [i] + s.chain && i !in s.chain
      requires forall t :: t in slabs ==> LayoutOk(t.lay)
      requires forall j :: 0 <= j < s.lay.num ==> (j in chain0 <==> s.Obj(j) !in used)
      requires forall t :: t in slabs && t != s ==> Slots(t, used)
      ensures AllSlots(used + {s.Obj(i)})
    {
      forall t | t in slabs ensures Slots(t, used + {s.Obj(i)}) {
        assert Placed(t) && Placed(s);
        if t == s {
          SlotsTaken(s, i, chain0, used);
        } else {
          SlotsElsewhere(t, s, i, used);
        }
      }
    }

    /** Every slab is in use, but perhaps for one that was just made. */
    ghost predicate BusyBut(s: Slab)
      reads this`slabs, slabs
    {
      forall t :: t in slabs && t != s ==> t.inuse > 0
    }

    /** kmem_cache_alloc_one, for the first slab of slabs_notfull: the chain and the lists of k. */
    method TakeOut(k: nat, ghost i: nat) returns (objp: int)
      requires k < |caches| && AllLists() && AllChained() && caches[k].notfull != []
      requires var s := caches[k].notfull[0];
               s.chain != [] && i == s.chain[0] && s.lay == caches[k].layout && s.lay.num < BUFCTL_END
      modifies caches[k].notfull[0], caches[k]
      ensures var s := old(caches[k].notfull[0]);
              && s.Chained() && old(s.chain) == [i] + s.chain && objp == s.Obj(i) && s.inuse > 0
              && forall t :: t in slabs && t.cache == k ==> OnList(t)
      ensures ListShape(k) && AllChained()
    {
      assert ListShape(k);
      var s := caches[k].notfull[0];
      assert s in caches[k].notfull && OnList(s) && s.Chained();
      ghost var ss := slabs;
      assert allocated(ss);
      objp := AllocOne(caches[k], s);
      forall t | t in slabs && t.cache == k ensures OnList(t) {
        assert old(OnList(t));
      }
    }

    /** kmem_cache_alloc_one, for the first slab of slabs_notfull: all but the slots. */
    method TakeSlot(k: nat, ghost i: nat, ghost used: set<int>) returns (objp: int)
      requires k < |caches| && Core(used) && caches[k].notfull != []
      requires var s := caches[k].notfull[0]; s.lay == caches[k].layout && s.chain != [] && i == s.chain[0]
      requires BusyBut(caches[k].notfull[0])
      modifies caches[k].notfull[0], caches[k]
      ensures var s := old(caches[k].notfull[0]);
              && AllLists() && AllChained() && (forall t :: t in slabs && t != s ==> Slots(t, used))
              && old(s.chain) == [i] + s.chain && objp == s.Obj(i)
      ensures Frame() && buddy.Sound() && AllPlaced() && AllOwned(used) && Busy()
    {
      ghost var ss := slabs;
      assert allocated(buddy.parts) && allocated(ss);
      assert Frame() && ListShape(k) && caches[k].notfull[0] in caches[k].notfull;
      assert CachesApart(k);
      objp := TakeOut(k, i);
      forall j | 0 <= j < |caches| ensures ListShape(j) {
        assert j != k ==> old(ListShape(j)) && caches[j] != caches[k];
      }
      forall t | t in slabs ensures t.cache < |caches| && OnList(t) {
        assert t.cache != k ==> old(OnList(t));
      }
    }

    /** The object that kmem_cache_alloc_one takes: the first one free in the first slab of
        slabs_notfull. */
    ghost function NextObject(k: nat): int
      requires k < |caches| && caches[k].notfull != []
      reads caches, caches[k].notfull
    {
      var s := caches[k].notfull[0];
      if s.chain == [] then s.sMem else s.Obj(s.chain[0])
    }

    /** kmem_cache_alloc_one, for the first slab of slabs_notfull. */
    method TakeObject(k: nat) returns (objp: int)
      requires Inv({}) && k < |caches| && caches[k].notfull != [] && BusyBut(caches[k].notfull[0])
      modifies caches[k].notfull[0], caches[k]
      ensures Inv({objp}) && Busy() && objp == old(NextObject(k))
      ensures 0 <= objp / PGSIZE < buddy.n && pageCache[objp / PGSIZE] == k
    {
      hide LayoutOk, IsObj, OnList, ListShape, CachesApart, BufctlApart, Slab.Chained, Placed;
      ghost var s := caches[k].notfull[0];
      ghost var used := Used({});
      FirstNotFull(k);
      ghost var i, chain0 := s.chain[0], s.chain;
      objp := TakeSlot(k, i, used);
      AllSlotsTaken(s, i, chain0, used);
      NewObject(s, i, used);
      assert Used({objp}) == used + {objp};
    }

    lemma NewObject(s: Slab, i: nat, used: set<int>)
      requires s in slabs && Placed(s) && LayoutOk(s.lay) && i < s.lay.num && AllOwned(used)
      ensures var a := s.Obj(i);
              && AllOwned(used + {a}) && used + {a} == {a} + used
              && 0 <= a / PGSIZE < buddy.n && pageCache[a / PGSIZE] == s.cache
    {
      ObjPage(s, i);
      PageOf(s, s.Obj(i) / PGSIZE);
      assert IsObj(s.Obj(i), i);
    }

    lemma FirstNotFull(k: nat)
      requires Inv({}) && k < |caches| && caches[k].notfull != []
      ensures var s := caches[k].notfull[0];
              && s in slabs && s.cache == k && s.lay == caches[k].layout && Placed(s) && s.Chained()
              && s.chain != [] && s.chain[0] < s.lay.num && s.chain[0] !in s.chain[1..] &&
                s.chain == [s.chain[0]] + s.chain[1..]
              && s.Obj(s.chain[0]) !in Used({})
              && (forall j :: 0 <= j < s.lay.num ==> (j in s.chain <==> s.Obj(j) !in Used({})))
      ensures forall t :: t in slabs ==> LayoutOk(t.lay)
    {
      var s := caches[k].notfull[0];
      assert ListShape(k) && s in caches[k].notfull;
      assert OnList(s) && Placed(s) && s.Chained() && Slots(s, Used({}));
      assert s.chain[0] in s.chain;
      forall t | t in slabs ensures LayoutOk(t.lay) {
        assert Placed(t);
      }
    }

    // ---------- growing ----------

    /** The pages in out that none of the slabs in ss has. */
    ghost function Rest(out: set<int>, ss: set<Slab>): set<int> {
      out - set s, p | s in ss && p in SlabPages(s) :: p
    }

    lemma RestWith(out: set<int>, ss: set<Slab>, s: Slab)
      ensures Rest(out, ss + {s}) == Rest(out, ss) - SlabPages(s)
    {
    }

    lemma RestMore(out: set<int>, ps: set<int>, ss: set<Slab>)
      requires forall s :: s in ss ==> SlabPages(s) !! ps
      ensures Rest(out + ps, ss) == Rest(out, ss) + ps
    {
      forall p | p in ps ensures p !in set s, q | s in ss && q in SlabPages(s) :: q {
      }
    }

    /** The pages of the slabs that were in ss0 and are not in ss are free. */
    ghost predicate Returned(ss0: set<Slab>, ss: set<Slab>, free: set<int>) {
      forall s :: s in ss0 && s !in ss ==> SlabPages(s) <= free
    }

    lemma ReturnedToo(ss0: set<Slab>, s: Slab, ss: set<Slab>, free: set<int>)
      requires Returned(ss0 - {s}, ss, free) && SlabPages(s) <= free
      ensures Returned(ss0, ss, free)
    {
    }

    lemma RestWithin(out: set<int>, ss: set<Slab>)
      ensures Rest(out, ss) <= out
    {
    }

    lemma RestBack(rest: set<int>, ps: set<int>)
      requires ps !! rest
      ensures rest + ps - ps == rest
    {
    }

    lemma RestLess(out: set<int>, ps: set<int>, ss: set<Slab>)
      ensures Rest(out - ps, ss) == Rest(out, ss) - ps
    {
    }

    /** None of the objects in used is in one of the n pages from page on. */
    ghost predicate Elsewhere(used: set<int>, page: int, n: int) {
      forall a :: a in used ==> !(page <= a / PGSIZE < page + n)
    }

    /** No slab has one of the n pages from page on. */
    ghost predicate Vacant(page: int, n: int)
      reads this`slabs
    {
      forall t :: t in slabs ==> t.base + Pow2(t.lay.order) <= page || page + n <= t.base
    }

    lemma UsedElsewhere(used: set<int>, page: int, n: int)
      requires AllOwned(used) && AllPlaced() && Vacant(page, n)
      requires forall t :: t in slabs ==> LayoutOk(t.lay)
      ensures Elsewhere(used, page, n)
    {
      forall a | a in used ensures !(page <= a / PGSIZE < page + n) {
        var i: nat :| IsObj(a, i);
        var t := pageSlab[a / PGSIZE];
        assert Placed(t);
        ObjPage(t, i);
      }
    }

    /** Lines 299-307: SET_PAGE_CACHE and SET_PAGE_SLAB for the pages of a new slab. */
    method SetPages(page: nat, n: nat, k: int, s: Slab)
      requires n > 0 && page + n <= buddy.n == pageCache.Length == pageSlab.Length
      modifies pageCache, pageSlab
      ensures forall p :: page <= p < page + n ==> pageCache[p] == k && pageSlab[p] == s
      ensures forall p :: 0 <= p < buddy.n && !(page <= p < page + n) ==>
                pageCache[p] == old(pageCache[p]) && pageSlab[p] == old(pageSlab[p])
    {
      var p, m := page, n;
      while m != 0
        invariant p + m == page + n && page <= p
        invariant forall q :: page <= q < p ==> pageCache[q] == k && pageSlab[q] == s
        invariant forall q :: 0 <= q < buddy.n && !(page <= q < p) ==>
                  pageCache[q] == old(pageCache[q]) && pageSlab[q] == old(pageSlab[q])
      {
        pageCache[p] := k;
        pageSlab[p] := s;
        p, m := p + 1, m - 1;
      }
    }

    /** The map entries of pages that no slab has can be overwritten. */
    method MapPages(page: nat, n: nat, k: int, s: Slab, ghost used: set<int>)
      requires n > 0 && page + n <= buddy.n == pageCache.Length == pageSlab.Length
      requires Vacant(page, n) && Elsewhere(used, page, n) && live.Keys <= used && descs.Keys <= used
      requires AllPlaced() && AllOwned(used) && Described(slabs) && BigEnough()
      modifies pageCache, pageSlab
      ensures AllPlaced() && AllOwned(used) && Described(slabs) && BigEnough()
      ensures forall p :: page <= p < page + n ==> pageCache[p] == k && pageSlab[p] == s
      ensures forall p :: 0 <= p < buddy.n && !(page <= p < page + n) ==>
                pageCache[p] == old(pageCache[p]) && pageSlab[p] == old(pageSlab[p])
    {
      SetPages(page, n, k, s);
      forall t | t in slabs ensures Placed(t) {
        assert old(Placed(t));
      }
      forall a | a in used ensures exists i: nat :: IsObj(a, i) {
        ghost var i: nat :| old(IsObj(a, i));
        assert IsObj(a, i);
      }
    }

    /** kmem_cache_slabmgmt and lines 309-314, but for the pages. */
    method NewSlab(k: nat, page: nat, addr: int) returns (s: Slab)
      requires k < |caches| && caches[k].layout.num > 0
      ensures fresh(s) && fresh(s.bufctl) && s.Chained() && s.inuse == 0 && s.chain == Upto(s.lay.num)
      ensures s.lay == caches[k].layout && s.cache == k && s.base == page && s.addr == addr
      ensures s.offset == s.lay.offset && s.sMem == s.base * PGSIZE + s.lay.offset
    {
      s := new Slab(k, caches[k].layout, page, addr);
      InitChain(s);
    }

    lemma LayoutsOk()
      requires Frame() && AllPlaced()
      ensures forall t :: t in slabs ==> LayoutOk(t.lay)
    {
      forall t | t in slabs ensures LayoutOk(t.lay) {
        assert Placed(t);
      }
    }

    lemma NewSlots(s: Slab, used: set<int>)
      requires Placed(s) && LayoutOk(s.lay) && s.chain == Upto(s.lay.num)
      requires Elsewhere(used, s.base, Pow2(s.lay.order))
      ensures Slots(s, used)
    {
      forall i | 0 <= i < s.lay.num ensures i in s.chain && s.Obj(i) !in used {
        assert s.chain[i] == i;
        ObjPage(s, i);
      }
    }

    /** list_add of a new slab to slabs_notfull: the lists. */
    method LinkFirst(k: nat, s: Slab)
      requires k < |caches| && AllLists() && Frame() && s !in slabs && s.cache == k && s.inuse == 0 < s.lay.num
      modifies this`slabs, caches[k]
      ensures slabs == old(slabs) + {s} && AllLists() && caches[k].notfull == [s] + old(caches[k].notfull)
    {
      assert ListShape(k) && CachesApart(k);
      caches[k].notfull := [s] + caches[k].notfull;
      slabs := slabs + {s};
      forall j | 0 <= j < |caches| ensures ListShape(j) {
        assert old(ListShape(j));
      }
      forall t | t in slabs ensures t.cache < |caches| && OnList(t) {
        if t != s {
          assert old(OnList(t));
        }
      }
    }

    /** list_add of a new slab to slabs_notfull: all but the off-slab slab_t's. */
    method LinkPlaced(k: nat, s: Slab, ghost used: set<int>)
      requires k < |caches| && Core(used) && s !in slabs && s.cache == k && s.inuse == 0
      requires LayoutOk(s.lay) && Placed(s) && s.Chained() && Slots(s, used)
      requires s !in buddy.parts && s.bufctl !in buddy.parts && s.bufctl as object != pageCache
      requires forall t :: t in slabs ==> t.bufctl != s.bufctl
      modifies this`slabs, caches[k]
      ensures Core(used) && slabs == old(slabs) + {s} && caches[k].notfull == [s] + old(caches[k].notfull)
    {
      hide OnList, ListShape, CachesApart, Pages, Rest, Buddy.FreeSet, Buddy.Listed, Buddy.Shape, Once, InRange;
      assert allocated(buddy.parts) && allocated(slabs) && allocated(Bufctls());
      LinkFirst(k, s);
      assert AllPlaced() && AllChained() && AllSlots(used) by {
        assert forall t :: t in slabs ==> t in old(slabs) || t == s;
      }
      forall a | a in used ensures exists i: nat :: IsObj(a, i) {
        ghost var i: nat :| old(IsObj(a, i));
        assert IsObj(a, i);
      }
    }

    /** From now on the slab_t of s, if it is off the slab, counts as the object of s. */
    ghost method Describe(s: Slab, ss: set<Slab>, extra: set<int>)
      requires Described(ss) && s !in ss && slabs == ss + {s} && extra == (if s.lay.offSlab then {s.addr} else {}) &&
               extra !! descs.Keys
      requires s.lay.offSlab ==>
               0 <= s.addr / PGSIZE < pageCache.Length && pageCache[s.addr / PGSIZE] == s.lay.slabCache
      modifies this`descs
      ensures Described(slabs) && descs.Keys == old(descs.Keys) + extra
    {
      if s.lay.offSlab {
        descs := descs[s.addr := s];
      }
    }

    /** list_add of a new slab to slabs_notfull. */
    method LinkSlab(k: nat, s: Slab, ghost extra: set<int>)
      requires Inv(extra) && k < |caches| && s.cache == k && Placed(s) && s.Chained() && s.inuse == 0 &&
               s.chain == Upto(s.lay.num)
      requires Elsewhere(Used(extra), s.base, Pow2(s.lay.order)) && s !in slabs
      requires s !in buddy.parts && s.bufctl !in buddy.parts && s.bufctl as object != pageCache
      requires forall t :: t in slabs ==> t.bufctl != s.bufctl
      requires extra == if s.lay.offSlab then {s.addr} else {}
      requires s.lay.offSlab ==> 0 <= s.addr / PGSIZE < buddy.n && pageCache[s.addr / PGSIZE] == s.lay.slabCache
      modifies this`slabs, this`descs, caches[k]
      ensures Inv({}) && slabs == old(slabs) + {s} && caches[k].notfull == [s] + old(caches[k].notfull)
    {
      hide IsObj, OnList, ListShape, CachesApart, BufctlApart, Slab.Chained, Slots, Pages, Buddy.FreeSet,
          Buddy.Listed, Buddy.Shape, Once, InRange, Upto, LayoutOk;
      ghost var used, ss := Used(extra), slabs;
      NewSlots(s, used);
      LinkPlaced(k, s, used);
      Describe(s, ss, extra);
      assert Used({}) == used;
    }

    /** The page allocator has no block of this order or a greater one. */
    ghost predicate NoBlock(order: nat)
      reads buddy`free
    {
      |buddy.free| == LISTS && forall i :: 0 <= i < LISTS && Pow2(order) <= Pow2(i) ==> buddy.free[i] == []
    }

    /** Cache k has no free object, and no block can be had for a new slab, or there is no
        object that its slab_t could be and the new slab would take all free pages. */
    ghost predicate Exhausted(k: nat)
      requires k < |caches|
      reads caches, buddy`free
    {
      caches[k].notfull == [] && NoRoom(k)
    }

    ghost predicate NoRoom(k: nat)
      requires k < |caches|
      reads caches, buddy`free
    {
      var n := caches[k].layout.order;
      NoBlock(n) || (NoneKept(k) && Count(buddy.FreeSet(), Pow2(n)))
    }

    /** The set has n elements. */
    ghost predicate Count(s: set<int>, n: nat) {
      |s| == n
    }

    /** The slab_t of a new slab in cache k would need another slab. */
    ghost predicate NoneKept(k: nat)
      requires k < |caches|
      reads caches
    {
      var l := caches[k].layout;
      l.offSlab && 0 <= l.slabCache < |caches| && caches[l.slabCache].notfull == []
    }

    lemma NoBlockNone()
      requires buddy.Sound()
      ensures NoBlock(0) <==> buddy.FreeSet() == {}
    {
      buddy.NoneFree();
    }

    /** Taking n of the free pages leaves none exactly if there are no others. */
    lemma TakesAll(free: set<int>, page: int, n: nat)
      requires Pages(page, n) <= free
      ensures free - Pages(page, n) == {} <==> Count(free, n)
    {
      PagesCount(page, n);
      var rest := free - Pages(page, n);
      assert free == Pages(page, n) + rest;
      assert |free| == n + |rest|;
    }

    /** Line 291: 2^order pages that no slab has. */
    method GetPages(k: nat) returns (page: Option<int>)
      requires Inv({}) && k < |caches|
      modifies buddy, buddy.parts
      ensures Inv({}) && buddy.given == old(buddy.given)
      ensures page.None? ==> buddy.out == old(buddy.out) && buddy.FreeSet() == old(buddy.FreeSet())
      ensures page.Some? ==> var n := Pow2(caches[k].layout.order);
              && 0 <= page.value && page.value + n <= buddy.n && Vacant(page.value, n)
              && Pages(page.value, n) !! old(buddy.out) && buddy.out == old(buddy.out) + Pages(page.value, n)
              && Pages(page.value, n) <= old(buddy.FreeSet()) &&
                buddy.FreeSet() == old(buddy.FreeSet()) - Pages(page.value, n)
      ensures page.Some? ==>
                Rest(buddy.out, slabs) == old(Rest(buddy.out, slabs)) + Pages(page.value, Pow2(caches[k].layout.order))
      ensures page.None? <==> old(NoBlock(caches[k].layout.order))
      ensures slabs == old(slabs) && live == old(live) && (NoneKept(k) <==> old(NoneKept(k)))
    {
      hide Buddy.Starts, Slab.Chained, Slots, IsObj, OnList, ListShape;
      ghost var out0, ss := buddy.out, slabs;
      assert allocated(buddy.parts) && allocated(ss);
      assert allocated(Bufctls());
      assert forall j :: 0 <= j < |caches| ==> caches[j] in caches;
      page := buddy.AllocPages(Pow2(caches[k].layout.order));
      forall s | s in slabs ensures Placed(s) && SlabPages(s) <= out0 {
        assert old(Placed(s));
      }
      if page.Some? {
        NowVacant(page.value, Pow2(caches[k].layout.order), out0);
        RestMore(out0, Pages(page.value, Pow2(caches[k].layout.order)), slabs);
      }
    }

    lemma NowVacant(page: int, n: nat, out0: set<int>)
      requires n > 0 && Pages(page, n) !! out0
      requires forall s :: s in slabs ==> SlabPages(s) <= out0
      ensures Vacant(page, n)
    {
      forall t | t in slabs ensures t.base + Pow2(t.lay.order) <= page || page + n <= t.base {
        var x := if t.base <= page then page else t.base;
        assert t.base <= x < t.base + Pow2(t.lay.order) ==> x in SlabPages(t);
        assert page <= x < page + n ==> x in Pages(page, n);
      }
    }

    /** kmem_cache_slabmgmt and lines 299-314 for pages of its own and a slab_t at addr. */
    method PlaceSlab(k: nat, page: nat, addr: int, ghost extra: set<int>) returns (s: Slab)
      requires Inv(extra) && k < |caches| && Room(k, page, addr, extra)
      modifies pageCache, pageSlab
      ensures Inv(extra) && fresh(s) && fresh(s.bufctl) && NewFor(s, k, page, addr)
      ensures caches[k].layout.offSlab ==> pageCache[addr / PGSIZE] == old(pageCache[addr / PGSIZE])
      ensures Elsewhere(Used(extra), page, Pow2(s.lay.order))
    {
      hide Buddy.Listed, Buddy.Shape, Once, InRange, Slab.Chained, Upto, CachesApart, IsObj;
      ghost var used := Used(extra);
      var n := Pow2(caches[k].layout.order);
      LayoutsOk();
      UsedElsewhere(used, page, n);
      ghost var ss := slabs;
      assert allocated(buddy.parts) && allocated(ss);
      assert allocated(Bufctls());
      s := NewSlab(k, page, addr);
      MapPages(page, n, k, s, used);
    }

    /** What the pages from page on and the address addr must be for a new slab in cache k. */
    ghost predicate Room(k: nat, page: nat, addr: int, extra: set<int>)
      requires k < |caches|
      reads this`slabs, buddy`out, pageCache
    {
      var l := caches[k].layout;
      && page + Pow2(l.order) <= buddy.n && Vacant(page, Pow2(l.order)) && Pages(page, Pow2(l.order)) <= buddy.out
      && (extra == if l.offSlab then {addr} else {})
      && (if l.offSlab then 0 <= addr / PGSIZE < pageCache.Length && pageCache[addr / PGSIZE] == l.slabCache
        else addr == page * PGSIZE)
    }

    ghost predicate NewFor(s: Slab, k: nat, page: nat, addr: int)
      reads s, s.bufctl, pageCache, pageSlab, buddy`out
    {
      && s.cache == k && s.base == page && s.addr == addr
      && Placed(s) && s.Chained() && s.inuse == 0 && s.chain == Upto(s.lay.num)
    }

    /** kmem_cache_grow from line 295 on. */
    method AddSlab(k: nat, page: nat, addr: int, ghost extra: set<int>) returns (ghost s: Slab)
      requires Inv(extra) && k < |caches| && Busy() && Room(k, page, addr, extra)
      modifies this`slabs, this`descs, caches[k], pageCache, pageSlab
      ensures Inv({}) && fresh(s) && fresh(s.bufctl) && slabs == old(slabs) + {s}
      ensures SlabPages(s) == Pages(page, Pow2(caches[k].layout.order))
      ensures caches[k].notfull != [] && BusyBut(caches[k].notfull[0])
    {
      hide IsObj, OnList, ListShape, CachesApart, BufctlApart, Slab.Chained, Slots, Pages, Rest, Buddy.Listed,
          Buddy.Shape, Once, InRange;
      ghost var ss, parts := slabs, buddy.parts;
      assert allocated(parts) && allocated(ss);
      assert allocated(Bufctls());
      var t := PlaceSlab(k, page, addr, extra);
      s := t;
      assert forall r :: r in slabs ==> r.bufctl != s.bufctl && r != s;
      LinkSlab(k, t, extra);
    }

    /** free_pages for the pages of a slab that never came to be, or is no more. */
    method ReturnPages(page: nat, order: nat, ghost extra: set<int>)
      requires Inv(extra) && order <= KMALLOC_MAX_ORDER && page + Pow2(order) <= buddy.n
      requires Vacant(page, Pow2(order)) && Pages(page, Pow2(order)) <= buddy.out
      modifies buddy, buddy.parts
      ensures Inv(extra) && buddy.given == old(buddy.given)
      ensures buddy.out == old(buddy.out) - Pages(page, Pow2(order)) &&
                buddy.FreeSet() == old(buddy.FreeSet()) + Pages(page, Pow2(order))
      ensures Rest(buddy.out, slabs) == old(Rest(buddy.out, slabs)) - Pages(page, Pow2(order))
    {
      ghost var ss := slabs;
      assert allocated(buddy.parts) && allocated(ss);
      assert allocated(Bufctls());
      Pow2Mono(order, KMALLOC_MAX_ORDER);
      RestLess(buddy.out, Pages(page, Pow2(order)), slabs);
      buddy.FreePages(page, Pow2(order));
      forall s | s in slabs ensures Placed(s) {
        assert old(Placed(s));
      }
    }

    /** The slabs made since they were ss have none of the pages in out. */
    ghost predicate Beside(ss: set<Slab>, out: set<int>)
      reads this`slabs
    {
      ss <= slabs && forall s :: s in slabs && s !in ss ==> SlabPages(s) !! out
    }

    lemma StillVacant(page: int, n: nat, ss: set<Slab>, out: set<int>)
      requires Beside(ss, out) && Pages(page, n) <= out && n > 0
      requires forall t :: t in ss ==> t.base + Pow2(t.lay.order) <= page || page + n <= t.base
      ensures Vacant(page, n)
    {
      forall t | t in slabs && t !in ss ensures t.base + Pow2(t.lay.order) <= page || page + n <= t.base {
        var x := if t.base <= page then page else t.base;
        assert t.base <= x < t.base + Pow2(t.lay.order) ==> x in SlabPages(t);
        assert page <= x < page + n ==> x in Pages(page, n);
      }
    }

    /** The address that kmem_cache_slabmgmt chooses for the slab_t. */
    method SlabMgmt(k: nat, page: nat) returns (addr: Option<int>)
      requires Inv({}) && Busy() && k < |caches|
      requires var n := Pow2(caches[k].layout.order);
               page + n <= buddy.n && Vacant(page, n) && Pages(page, n) <= buddy.out
      modifies this, caches, slabs, pageCache, pageSlab, buddy, buddy.parts
      ensures Busy() && live == old(live) && buddy.given == old(buddy.given)
      ensures Beside(old(slabs), old(buddy.out)) && old(buddy.out) <= buddy.out && fresh(slabs - old(slabs))
      ensures addr.Some? ==> var extra := Needed(k, addr.value); Inv(extra) && Room(k, page, addr.value, extra)
      ensures addr.None? ==>
                Inv({}) && slabs == old(slabs) && buddy.out == old(buddy.out) && buddy.FreeSet() == old(buddy.FreeSet())
      ensures Rest(buddy.out, slabs) == old(Rest(buddy.out, slabs))
      ensures addr.None? <==> old(NoneKept(k) && buddy.FreeSet() == {})
      decreases if caches[k].layout.offSlab then 1 else 0, 0
    {
      var l := caches[k].layout;
      addr := Some(page * PGSIZE);
      if l.offSlab {
        ghost var ss, out0 := slabs, buddy.out;
        NoBlockNone();
        addr := CacheAlloc(l.slabCache);
        StillVacant(page, Pow2(l.order), ss, out0);
      }
    }

    /** The object in use that is to become the slab_t of a slab of cache k. */
    ghost function Needed(k: nat, addr: int): set<int>
      requires k < |caches|
    {
      if caches[k].layout.offSlab then {addr} else {}
    }

    /** kmem_cache_grow, lines 294-322 */
    method Occupy(k: nat, page: nat) returns (ok: bool)
      requires Inv({}) && Busy() && k < |caches|
      requires var n := Pow2(caches[k].layout.order);
               page + n <= buddy.n && Vacant(page, n) && Pages(page, n) <= buddy.out
      modifies this, caches, slabs, pageCache, pageSlab, buddy, buddy.parts
      ensures Inv({}) && live == old(live) && buddy.given == old(buddy.given)
      ensures Beside(old(slabs), old(buddy.out) - Pages(page, Pow2(caches[k].layout.order)))
      ensures old(buddy.out) <= buddy.out && fresh(slabs - old(slabs))
      ensures ok ==> caches[k].notfull != [] && BusyBut(caches[k].notfull[0])
      ensures !ok ==> Busy() && slabs == old(slabs)
      ensures !ok ==> buddy.out == old(buddy.out) && buddy.FreeSet() == old(buddy.FreeSet())
      ensures Rest(buddy.out, slabs) ==
                old(Rest(buddy.out, slabs)) - if ok then Pages(page, Pow2(caches[k].layout.order)) else {}
      ensures !ok <==> old(NoneKept(k) && buddy.FreeSet() == {})
      decreases if caches[k].layout.offSlab then 1 else 0, 1
    {
      hide LayoutOk, IsObj, OnList, ListShape, CachesApart, BufctlApart, Slab.Chained, Placed, Slots, Pages, Rest,
          Buddy.FreeSet, Buddy.Listed, Buddy.Shape, Once, InRange;
      var addr := SlabMgmt(k, page);
      if addr.None? {
        return false;
      }
      ghost var ss := slabs;
      ghost var s := AddSlab(k, page, addr.value, Needed(k, addr.value));
      RestWith(buddy.out, ss, s);
      ok := true;
    }

    /** kmem_cache_grow */
    method Grow(k: nat) returns (ok: bool)
      requires Inv({}) && Busy() && k < |caches|
      modifies this, caches, slabs, pageCache, pageSlab, buddy, buddy.parts
      ensures Inv({}) && live == old(live) && buddy.given == old(buddy.given)
      ensures Beside(old(slabs), old(buddy.out)) && old(buddy.out) <= buddy.out && fresh(slabs - old(slabs))
      ensures ok ==> caches[k].notfull != [] && BusyBut(caches[k].notfull[0])
      ensures !ok ==> Busy() && slabs == old(slabs)
      ensures !ok ==> buddy.out == old(buddy.out) && buddy.FreeSet() == old(buddy.FreeSet())
      ensures Rest(buddy.out, slabs) == old(Rest(buddy.out, slabs))
      ensures !ok <==> old(NoRoom(k))
      decreases if caches[k].layout.offSlab then 1 else 0, 2
    {
      hide Buddy.Starts, NoBlock, Buddy.Listed, Buddy.Shape, Once, InRange, Count, Pages, Buddy.FreeSet, Rest;
      ghost var free, rest := buddy.FreeSet(), Rest(buddy.out, slabs);
      RestWithin(buddy.out, slabs);
      var page := GetPages(k);
      if page.None? {
        return false;
      }
      RestBack(rest, Pages(page.value, Pow2(caches[k].layout.order)));
      TakesAll(free, page.value, Pow2(caches[k].layout.order));
      ok := Occupy(k, page.value);
      if !ok {
        ReturnPages(page.value, caches[k].layout.order, {});
      }
    }

    /** kmem_cache_alloc */
    method CacheAlloc(k: nat) returns (objp: Option<int>)
      requires Inv({}) && Busy() && k < |caches|
      modifies this, caches, slabs, pageCache, pageSlab, buddy, buddy.parts
      ensures Busy() && live == old(live) && buddy.given == old(buddy.given)
      ensures Beside(old(slabs), old(buddy.out)) && old(buddy.out) <= buddy.out && fresh(slabs - old(slabs))
      ensures objp.Some? ==>
                Inv({objp.value}) && 0 <= objp.value / PGSIZE < buddy.n && pageCache[objp.value / PGSIZE] == k
      ensures objp.None? ==>
                Inv({}) && slabs == old(slabs) && buddy.out == old(buddy.out) && buddy.FreeSet() == old(buddy.FreeSet())
      ensures Rest(buddy.out, slabs) == old(Rest(buddy.out, slabs))
      ensures objp.None? <==> old(Exhausted(k))
      ensures old(caches[k].notfull) != [] ==>
                slabs == old(slabs) && buddy.out == old(buddy.out) && buddy.FreeSet() == old(buddy.FreeSet())
      ensures old(caches[k].notfull) != [] ==> objp == Some(old(NextObject(k)))
      decreases if caches[k].layout.offSlab then 1 else 0, 3
    {
      assert ListShape(k);
      if caches[k].notfull == [] {
        var ok := Grow(k);
        if !ok {
          return None;
        }
      }
      assert ListShape(k);
      var a := TakeObject(k);
      objp := Some(a);
    }

    // ---------- freeing ----------

    /** kmem_cache_free_one but for kmem_slab_destroy: the slots of s and the lists of k. */
    method ReturnSlot(k: nat, s: Slab, objnr: nat)
      requires k < |caches| && AllLists() && AllChained() && Frame() && s in slabs && s.cache == k
      requires objnr < s.lay.num && objnr !in s.chain && s.lay == caches[k].layout && s.inuse > 0
      modifies s, s.bufctl, caches[k]
      ensures AllChained() && s.chain == [objnr] + old(s.chain)
      ensures ListShape(k) && forall t :: t in slabs && t != s && t.cache == k ==> OnList(t)
      ensures if s.inuse == 0 then s !in caches[k].full && s !in caches[k].notfull else OnList(s)
    {
      ghost var ss := slabs;
      assert allocated(ss);
      assert ListShape(k) && s.Chained() && OnList(s) && BufctlApart(s);
      ghost var full0, notfull0 := caches[k].full, caches[k].notfull;
      assert forall t :: t in slabs && t.cache == k ==> OnList(t);
      FreeOne(caches[k], s, objnr);
      forall t | t in slabs && t != s ensures t.Chained() {
        assert old(t.Chained()) && t.bufctl != s.bufctl;
      }
      Relinked(k, s, full0, notfull0);
    }

    /** kmem_cache_free_one but for kmem_slab_destroy.  A slab with no object in use is a
        slab no more. */
    method TakeBack(k: nat, s: Slab, objnr: nat)
      requires k < |caches| && AllLists() && AllChained() && Frame() && Busy() && s in slabs && s.cache == k
      requires objnr < s.lay.num && objnr !in s.chain && s.lay == caches[k].layout
      modifies s, s.bufctl, caches[k], this`slabs
      ensures AllLists() && AllChained() && Frame() && Busy() && s.Chained() && s.chain == [objnr] + old(s.chain)
      ensures slabs == if s.inuse == 0 then old(slabs) - {s} else old(slabs)
    {
      hide OnList, Slab.Chained, Pages, Rest, Buddy.FreeSet, Buddy.Listed, Buddy.Shape, Once, InRange;
      ghost var ss := slabs;
      assert allocated(ss) && CachesApart(k);
      ReturnSlot(k, s, objnr);
      if s.inuse == 0 {
        slabs := slabs - {s};
      }
      forall j | 0 <= j < |caches| ensures ListShape(j) {
        assert j != k ==> old(ListShape(j));
      }
      forall t | t in slabs ensures t.cache < |caches| && OnList(t) {
        assert t.cache != k ==> old(OnList(t));
      }
    }

    lemma Relinked(k: nat, s: Slab, full0: seq<Slab>, notfull0: seq<Slab>)
      requires k < |caches| && s in slabs && s.cache == k && s.inuse < s.lay.num
      requires NoDup(full0) && NoDup(notfull0)
      requires forall t :: t in full0 || t in notfull0 ==> t in slabs && t.cache == k
      requires forall t :: t in slabs && t != s && t.cache == k ==>
               (t in full0 <==> t.inuse == t.lay.num) && (t in notfull0 <==> t.inuse != t.lay.num)
      requires if s.inuse + 1 == s.lay.num then s in full0 && s !in notfull0 else s !in full0 && s in notfull0
      requires caches[k].full == if s.inuse == 0 || s.inuse == s.lay.num - 1 then ListDel(full0, s) else full0
      requires caches[k].notfull == if s.inuse == 0 then ListDel(notfull0, s)
                                    else if s.inuse == s.lay.num - 1 then [s] + ListDel(notfull0, s) else notfull0
      ensures ListShape(k) && forall t :: t in slabs && t != s && t.cache == k ==> OnList(t)
      ensures if s.inuse == 0 then s !in caches[k].full && s !in caches[k].notfull else OnList(s)
    {
      ListDelNoDup(full0, s);
      ListDelNoDup(notfull0, s);
      ListDelMembers(full0, s);
      ListDelMembers(notfull0, s);
    }

    lemma SlotsReleased(s: Slab, i: nat, used: set<int>)
      requires AllPlaced() && Frame() && s in slabs && i < s.lay.num && s.Chained() && i !in s.chain
      requires s.Obj(i) !in used && AllSlots(used + {s.Obj(i)})
      ensures forall t :: t in slabs && t != s ==> Slots(t, used)
      ensures forall j :: 0 <= j < s.lay.num ==> (j in [i] + s.chain <==> s.Obj(j) !in used)
    {
      LayoutsOk();
      assert Placed(s) && Slots(s, used + {s.Obj(i)});
      SlotsTaken(s, i, [i] + s.chain, used);
      forall t | t in slabs && t != s ensures Slots(t, used) {
        assert Placed(t) && Slots(t, used + {s.Obj(i)});
        SlotsElsewhere(t, s, i, used);
      }
    }

    lemma NoneUsed(s: Slab, used: set<int>)
      requires s.Chained() && s.inuse == 0 && Slots(s, used)
      ensures forall i :: 0 <= i < s.lay.num ==> s.Obj(i) !in used
    {
      AllFree(s);
    }

    /** Giving back object i of s, for the slots of the slabs. */
    method ReleaseSlot(k: nat, s: Slab, i: nat, ghost used: set<int>)
      requires k < |caches| && Busy() && s in slabs && s.cache == k && i < s.lay.num
      requires i !in s.chain && s.lay == caches[k].layout
      requires s.Obj(i) !in used && Core(used + {s.Obj(i)})
      modifies s, s.bufctl, caches[k], this`slabs
      ensures Core(used) && Busy()
      ensures slabs == if s.inuse == 0 then old(slabs) - {s} else old(slabs)
    {
      hide Slab.Chained, Placed, LayoutOk;
      assert s.Chained();
      SlotsReleased(s, i, used);
      ghost var ss := slabs;
      assert allocated(buddy.parts) && allocated(ss);
      TakeBack(k, s, i);
      assert Slots(s, used);
      if s.inuse == 0 {
        NoneUsed(s, used);
      }
      forall a | a in used ensures exists j: nat :: IsObj(a, j) {
        ghost var j: nat :| old(IsObj(a, j));
        assert IsObj(a, j);
      }
    }

    /** The slab_t of s becomes an object like any other. */
    ghost method Forget(s: Slab, ss: set<Slab>, own: set<int>)
      requires Core(Used({})) && Described(ss) && BigEnough() && live.Keys !! descs.Keys
      requires s in ss && slabs == ss - {s} && own == if s.lay.offSlab then {s.addr} else {}
      modifies this`descs
      ensures Inv(own)
      ensures s.lay.offSlab ==> 0 <= s.addr / PGSIZE < pageCache.Length && pageCache[s.addr / PGSIZE] == s.lay.slabCache
    {
      ghost var used, keys := Used({}), descs.Keys;
      if s.lay.offSlab {
        descs := descs - {s.addr};
      }
      assert keys == descs.Keys + own;
      assert Core(used) && used == Used(own);
    }

    lemma NowApart(s: Slab, ss: set<Slab>)
      requires s in ss && (forall t :: t in ss ==> Placed(t)) && slabs == ss - {s}
      ensures Vacant(s.base, Pow2(s.lay.order))
    {
      forall t | t in slabs ensures t.base + Pow2(t.lay.order) <= s.base || s.base + Pow2(s.lay.order) <= t.base {
        assert Placed(t) && Placed(s);
        PagesApart(s, t);
      }
    }

    lemma RestWithout(out: set<int>, ss: set<Slab>, s: Slab)
      requires s in ss && SlabPages(s) <= out && Vacant(s.base, Pow2(s.lay.order)) && slabs == ss - {s}
      ensures Rest(out, slabs) == Rest(out, ss) + SlabPages(s) && SlabPages(s) !! Rest(out, ss)
    {
      RestWith(out, slabs, s);
      assert slabs + {s} == ss;
      forall p | p in SlabPages(s) ensures p in Rest(out, slabs) {
      }
    }

    /** Giving back object i of s, with address a. */
    method Release(k: nat, s: Slab, i: nat, a: int)
      requires Inv({a}) && Busy() && k < |caches| && s in slabs && s.cache == k && i < s.lay.num && a == s.Obj(i)
      modifies s, s.bufctl, caches[k], this`slabs, this`descs
      ensures Busy() && slabs == if s.inuse == 0 then old(slabs) - {s} else old(slabs)
      ensures s.inuse > 0 ==> Inv({})
      ensures s.inuse == 0 ==>
                Inv(Needed(k, s.addr)) && Vacant(s.base, Pow2(s.lay.order)) && Placed(s) && s.lay == caches[k].layout
      ensures s.inuse == 0 && s.lay.offSlab ==>
                0 <= s.addr / PGSIZE < pageCache.Length && pageCache[s.addr / PGSIZE] == s.lay.slabCache
      ensures s.inuse > 0 ==> Rest(buddy.out, slabs) == old(Rest(buddy.out, slabs))
      ensures s.inuse == 0 ==>
                Rest(buddy.out, slabs) == old(Rest(buddy.out, slabs)) + SlabPages(s) &&
                    SlabPages(s) !! old(Rest(buddy.out, slabs))
    {
      hide IsObj, OnList, ListShape, CachesApart, BufctlApart, Slab.Chained;
      assert Placed(s) && Slots(s, Used({a}));
      ghost var used, ss := Used({}), slabs;
      assert Used({a}) == used + {a};
      assert forall t :: t in ss ==> Placed(t);
      assert allocated(buddy.parts) && allocated(ss);
      ReleaseSlot(k, s, i, used);
      if s.inuse == 0 {
        NowApart(s, ss);
        RestWithout(buddy.out, ss, s);
        Forget(s, ss, Needed(k, s.addr));
      }
    }

    /** Finding the slab and the number of the object at address a, lines 428-438 and 406. */
    method FindObj(k: nat, a: int) returns (s: Slab, objnr: nat)
      requires Inv({a}) && k < |caches| && 0 <= a / PGSIZE < pageCache.Length && pageCache[a / PGSIZE] == k
      ensures s in slabs && s.cache == k && s.lay == caches[k].layout && objnr < s.lay.num && a == s.Obj(objnr)
    {
      assert a in Used({a});
      ghost var i: nat :| IsObj(a, i);
      s := pageSlab[a / PGSIZE];
      assert Placed(s);
      ObjPage(s, i);
      PageOf(s, a / PGSIZE);
      DivExact(i, s.lay.objsize);
      objnr := (a - s.sMem) / caches[k].layout.objsize;
    }

    /** kmem_slab_destroy */
    method Destroy(k: nat, s: Slab)
      requires k < |caches| && Inv(Needed(k, s.addr)) && Busy() && s !in slabs && s.lay == caches[k].layout
      requires Placed(s) && Vacant(s.base, Pow2(s.lay.order))
      requires s.lay.offSlab ==>
               0 <= s.addr / PGSIZE < pageCache.Length && pageCache[s.addr / PGSIZE] == s.lay.slabCache
      modifies this, caches, slabs, Bufctls(), buddy, buddy.parts
      ensures Inv({}) && Busy() && live == old(live) && buddy.given == old(buddy.given)
      ensures slabs <= old(slabs) && old(buddy.FreeSet()) + SlabPages(s) <= buddy.FreeSet()
      ensures Returned(old(slabs), slabs, buddy.FreeSet())
      ensures Rest(buddy.out, slabs) == old(Rest(buddy.out, slabs)) - SlabPages(s)
      decreases if caches[k].layout.offSlab then 1 else 0, 0
    {
      hide Pages, Rest, Buddy.FreeSet, Buddy.Listed, Buddy.Shape, Once, InRange;
      var page := (s.sMem - s.offset) / PGSIZE;
      ReturnPages(page, caches[k].layout.order, Needed(k, s.addr));
      if caches[k].layout.offSlab {
        CacheFree(caches[k].layout.slabCache, s.addr);
      }
    }

    /** kmem_cache_free_one, for object objnr of s */
    method CacheFreeOne(k: nat, s: Slab, objnr: nat, a: int)
      requires Inv({a}) && Busy() && k < |caches| && s in slabs && s.cache == k && objnr < s.lay.num &&
               a == s.Obj(objnr)
      modifies this, caches, slabs, Bufctls(), buddy, buddy.parts
      ensures Inv({}) && Busy() && live == old(live) && buddy.given == old(buddy.given)
      ensures slabs <= old(slabs) && old(buddy.FreeSet()) <= buddy.FreeSet()
      ensures Returned(old(slabs), slabs, buddy.FreeSet())
      ensures Rest(buddy.out, slabs) == old(Rest(buddy.out, slabs))
      decreases if caches[k].layout.offSlab then 1 else 0, 1
    {
      ghost var ss, rest := slabs, Rest(buddy.out, slabs);
      assert allocated(buddy.parts) && allocated(ss);
      Release(k, s, objnr, a);
      if s.inuse == 0 {
        RestBack(rest, SlabPages(s));
        Destroy(k, s);
        ReturnedToo(ss, s, slabs, buddy.FreeSet());
      }
    }

    /** kmem_cache_free */
    method CacheFree(k: nat, a: int)
      requires Inv({a}) && Busy() && k < |caches| && 0 <= a / PGSIZE < pageCache.Length && pageCache[a / PGSIZE] == k
      modifies this, caches, slabs, Bufctls(), buddy, buddy.parts
      ensures Inv({}) && Busy() && live == old(live) && buddy.given == old(buddy.given)
      ensures slabs <= old(slabs) && old(buddy.FreeSet()) <= buddy.FreeSet()
      ensures Returned(old(slabs), slabs, buddy.FreeSet())
      ensures Rest(buddy.out, slabs) == old(Rest(buddy.out, slabs))
      decreases if caches[k].layout.offSlab then 1 else 0, 2
    {
      var s, objnr := FindObj(k, a);
      CacheFreeOne(k, s, objnr, a);
    }

    // ---------- the interface ----------

    /** If cache k has a free object, that is the one taken, and there is no new slab. */
    ghost predicate TakesNext(objp: Option<int>, next: Option<int>, ss: set<Slab>, free: set<int>)
      reads this`slabs, buddy`free
    {
      next.Some? ==> objp == next && slabs == ss && buddy.FreeSet() == free
    }

    ghost function NextOf(k: nat): Option<int>
      requires k < |caches|
      reads caches, caches[k].notfull
    {
      if caches[k].notfull == [] then None else Some(NextObject(k))
    }

    /** kmalloc, line 377 */
    method KmallocFrom(k: nat, size: nat) returns (objp: Option<int>)
      requires Inv({}) && Busy() && k < |caches| && size <= caches[k].layout.objsize
      modifies this, caches, slabs, pageCache, pageSlab, buddy, buddy.parts
      ensures Inv({}) && Busy() && buddy.given == old(buddy.given)
      ensures objp.Some? ==> objp.value !in old(live) && live == old(live)[objp.value := size]
      ensures objp.Some? ==> 0 <= objp.value / PGSIZE < pageCache.Length && pageCache[objp.value / PGSIZE] == k
      ensures objp.None? ==> live == old(live) && slabs == old(slabs) && buddy.FreeSet() == old(buddy.FreeSet())
      ensures Rest(buddy.out, slabs) == old(Rest(buddy.out, slabs))
      ensures objp.None? <==> old(Exhausted(k))
      ensures TakesNext(objp, old(NextOf(k)), old(slabs), old(buddy.FreeSet()))
    {
      objp := CacheAlloc(k);
      if objp.Some? {
        HandOut(objp.value, size, k);
      }
    }

    /** The cache for objects of this size is exhausted. */
    ghost predicate ExhaustedFor(size: nat)
      reads caches, buddy`free
    {
      var k := OrderFor(size) - MIN_SIZE_ORDER;
      0 <= k < |caches| && Exhausted(k)
    }

    /** The object is as big as asked for, and in the smallest of the caches that will do. */
    ghost predicate FitsBest(a: int, size: nat)
      requires 0 <= a / PGSIZE < pageCache.Length
      reads pageCache
    {
      size <= SizeAt(a) && (SizeAt(a) == 32 || SizeAt(a) < 2 * size)
    }

    /** kmalloc */
    method Kmalloc(size: nat) returns (objp: Option<int>)
      requires Ready()
      modifies this, caches, slabs, pageCache, pageSlab, buddy, buddy.parts
      ensures Ready() && buddy.given == old(buddy.given)
      ensures objp.None? <==> size > MAX_OBJECT || old(ExhaustedFor(size))
      ensures objp.Some? ==> 0 <= objp.value / PGSIZE < pageCache.Length && FitsBest(objp.value, size)
      ensures var k := OrderFor(size) - MIN_SIZE_ORDER;
              0 <= k < |caches| ==> TakesNext(objp, old(NextOf(k)), old(slabs), old(buddy.FreeSet()))
      ensures objp.Some? ==> objp.value !in old(live) && live == old(live)[objp.value := size]
      ensures objp.None? ==> live == old(live) && slabs == old(slabs) && buddy.FreeSet() == old(buddy.FreeSet())
      ensures Rest(buddy.out, slabs) == old(Rest(buddy.out, slabs))
    {
      hide OrderFor, Pow2, NextOf, TakesNext, Buddy.FreeSet, LayoutOk, CachesApart, BufctlApart, Placed, Slots, IsObj,
        ListShape, OnList, Slab.Chained, Rest, Exhausted;
      var order := SlabLayout.GetOrder(size);
      if order > MAX_SIZE_ORDER {
        return None;
      }
      SizesFit(order, size);
      objp := KmallocFrom(order - MIN_SIZE_ORDER, size);
    }

    lemma SizesFit(order: nat, size: nat)
      requires FromTable() && MIN_SIZE_ORDER <= order <= MAX_SIZE_ORDER && size <= Pow2(order)
      requires order > MIN_SIZE_ORDER ==> size > Pow2(order - 1)
      ensures var n := caches[order - MIN_SIZE_ORDER].layout.objsize; size <= n && (n == 32 || n < 2 * size)
    {
      assert HasLayout(order - MIN_SIZE_ORDER);
      TableSizes(order - MIN_SIZE_ORDER);
    }

    ghost method HandOut(a: int, size: nat, k: nat)
      requires Inv({a}) && k < |caches| && 0 <= a / PGSIZE < pageCache.Length && pageCache[a / PGSIZE] == k &&
               size <= caches[k].layout.objsize
      modifies this`live
      ensures Inv({}) && a !in old(live) && live == old(live)[a := size]
    {
      ghost var used := Used({a});
      live := live[a := size];
      assert Used({}) == used;
      assert Core(used);
    }

    /** kfree */
    method Kfree(objp: int)
      requires Ready() && objp in live
      modifies this, caches, slabs, Bufctls(), buddy, buddy.parts
      ensures Ready() && buddy.given == old(buddy.given) && live == old(live) - {objp}
      ensures slabs <= old(slabs) && old(buddy.FreeSet()) <= buddy.FreeSet()
      ensures Returned(old(slabs), slabs, buddy.FreeSet())
      ensures Rest(buddy.out, slabs) == old(Rest(buddy.out, slabs))
    {
      TakeIn(objp);
      CacheFree(pageCache[objp / PGSIZE], objp);
    }

    ghost method TakeIn(a: int)
      requires Inv({}) && a in live
      modifies this`live
      ensures Inv({a}) && live == old(live) - {a}
      ensures 0 <= a / PGSIZE < pageCache.Length && 0 <= pageCache[a / PGSIZE] < |caches|
    {
      ghost var used := Used({});
      assert a in used;
      ghost var i: nat :| IsObj(a, i);
      ghost var s := pageSlab[a / PGSIZE];
      assert Placed(s);
      ObjPage(s, i);
      PageOf(s, a / PGSIZE);
      live := live - {a};
      assert Used({a}) == used;
      assert Core(used);
    }

    // ---------- what the invariant means ----------

    /** The object at a: its slab and its number there. */
    lemma Located(a: int) returns (s: Slab, i: nat)
      requires Core(Used({})) && a in Used({})
      ensures 0 <= a / PGSIZE < buddy.n && s == pageSlab[a / PGSIZE] && s in slabs && i < s.lay.num && a == s.Obj(i)
      ensures Placed(s) && LayoutOk(s.lay) && pageCache[a / PGSIZE] == s.cache && SizeAt(a) == s.lay.objsize
    {
      i :| IsObj(a, i);
      s := pageSlab[a / PGSIZE];
      assert Placed(s);
      ObjPage(s, i);
      PageOf(s, a / PGSIZE);
    }

    /** Two objects in use, handed out or slab_t, do not overlap. */
    lemma ObjectsDisjoint(a: int, b: int)
      requires Ready() && a in live.Keys + descs.Keys && b in live.Keys + descs.Keys && a != b
      ensures 0 <= a / PGSIZE < pageCache.Length && 0 <= b / PGSIZE < pageCache.Length
      ensures a + SizeAt(a) <= b || b + SizeAt(b) <= a
    {
      assert a in Used({}) && b in Used({});
      var s, i := Located(a);
      var t, j := Located(b);
      ObjsApart(s, i, t, j);
    }

    /** The object at a lies between the control area of its slab, if that is there, and the
        end of the slab. */
    ghost predicate InSlab(a: int)
      requires 0 <= a / PGSIZE < pageSlab.Length && pageCache.Length == pageSlab.Length
      reads this`slabs, pageSlab, pageCache
    {
      var s := pageSlab[a / PGSIZE];
      && s != null && s in slabs && s.base * PGSIZE + s.lay.offset <= a
      && a + SizeAt(a) <= (s.base + Pow2(s.lay.order)) * PGSIZE
      && (!s.lay.offSlab ==> s.addr + SLAB_T + s.lay.num * BUFCTL_T <= a)
    }

    /** An object in use lies in pages that the page allocator has handed out, behind the
        control area if that is in the slab; it is as big as was asked for, or as the slab_t
        needs that it holds. */
    lemma ObjectInside(a: int)
      requires Ready() && a in live.Keys + descs.Keys
      ensures 0 <= a / PGSIZE < pageSlab.Length == pageCache.Length
      ensures forall x :: a <= x < a + SizeAt(a) ==> x / PGSIZE in buddy.out
      ensures InSlab(a)
      ensures a in live ==> live[a] <= SizeAt(a)
      ensures a in descs ==> SLAB_T + descs[a].lay.num * BUFCTL_T <= SizeAt(a)
    {
      assert a in Used({});
      var s, i := Located(a);
      ObjPage(s, i);
      forall x | a <= x < a + SizeAt(a) ensures x / PGSIZE in buddy.out {
        PageInside(x, s.base, Pow2(s.lay.order));
        assert x / PGSIZE in SlabPages(s);
      }
      if a in descs {
        assert Placed(descs[a]);
      }
    }

    /** The slabs share no page, and none of their pages is free. */
    lemma SlabsApart(s: Slab, t: Slab)
      requires Ready() && s in slabs && t in slabs
      ensures SlabPages(s) !! buddy.FreeSet() && (s != t ==> SlabPages(s) !! SlabPages(t))
    {
      assert Placed(s) && Placed(t);
      if s != t {
        PagesApart(s, t);
      }
    }

    /** From free the bufctl array leads through as many distinct objects as are not in use,
        and then to its end mark; the slab is on the list that its inuse field asks for. */
    lemma SlabState(s: Slab)
      requires Ready() && s in slabs
      ensures forall k :: 0 <= k < s.lay.num - s.inuse ==> Walk(s, k) < s.lay.num && s.Obj(Walk(s, k)) !in Used({})
      ensures forall j, k :: 0 <= j < k < s.lay.num - s.inuse ==> Walk(s, j) != Walk(s, k)
      ensures 0 <= s.lay.num - s.inuse && Walk(s, s.lay.num - s.inuse) == BUFCTL_END
      ensures s.cache < |caches| && (s in caches[s.cache].full <==> s.inuse == s.lay.num)
      ensures s in caches[s.cache].notfull <==> s.inuse != s.lay.num
    {
      assert s.Chained() && Slots(s, Used({})) && OnList(s);
      forall k | 0 <= k <= |s.chain| ensures Walk(s, k) == Link(s.chain, k) {
        WalkIsChain(s, k);
      }
    }

    /** The objects of s in use are inuse many. */
    lemma InUseCounts(s: Slab)
      requires Ready() && s in slabs
      ensures 0 < s.inuse <= s.lay.num && |set i | 0 <= i < s.lay.num && s.Obj(i) in Used({})| == s.inuse
    {
      assert s.Chained() && Slots(s, Used({}));
      var free := Elements(s.chain);
      ElementsCount(s.chain);
      var all := Below(s.lay.num);
      assert (set i | 0 <= i < s.lay.num && s.Obj(i) in Used({})) == all - free;
    }

    /** Once all objects are given back there is no slab any more, and no page is handed out
        to one. */
    lemma NothingKept()
      requires Ready() && live == map[]
      ensures slabs == {} && descs == map[] && Rest(buddy.out, slabs) == buddy.out
    {
      forall a ensures a !in descs {
        if a in descs {
          NoOffSlab(descs[a]);
        }
      }
      forall s ensures s !in slabs {
        if s in slabs {
          var i := SomeInUse(s);
        }
      }
    }

    /** Only a slab_t could be in use in a slab, and no slab of a cache for these is off-slab. */
    lemma NoOffSlab(s: Slab)
      requires Ready() && live == map[] && s in slabs
      ensures !s.lay.offSlab
    {
      var i := SomeInUse(s);
      ObjPage(s, i);
      PageOf(s, s.Obj(i) / PGSIZE);
      assert Placed(descs[s.Obj(i)]);
    }

    lemma SomeInUse(s: Slab) returns (i: nat)
      requires Ready() && s in slabs
      ensures i < s.lay.num && s.Obj(i) in Used({}) && Placed(s) && LayoutOk(s.lay)
    {
      InUseCounts(s);
      LayoutsOk();
      var inUse := set i | 0 <= i < s.lay.num && s.Obj(i) in Used({});
      assert (forall j :: j !in inUse) ==> inUse == {};
      var j :| j in inUse;
      i := j;
    }

    // ---------- slab_allocated ----------

    /** The objects in use that belong to a slab on the list. */
    ghost function UsedIn(list: seq<Slab>): set<int>
      reads this, pageSlab
    {
      set a | a in Used({}) && 0 <= a / PGSIZE < pageSlab.Length && pageSlab[a / PGSIZE] in list
    }

    /** The objects in use that belong to cache k. */
    ghost function UsedOf(k: int): set<int>
      reads this, pageCache
    {
      set a | a in Used({}) && 0 <= a / PGSIZE < pageCache.Length && pageCache[a / PGSIZE] == k
    }

    ghost function InUse(list: seq<Slab>): nat
      reads list
    {
      if list == [] then 0 else list[0].inuse + InUse(list[1..])
    }

    ghost function ObjOf(s: Slab): int -> int {
      i => s.Obj(i)
    }

    lemma ObjsCount(s: Slab, ks: set<int>)
      requires Placed(s) && LayoutOk(s.lay) && forall i :: i in ks ==> 0 <= i < s.lay.num
      ensures |Image(ks, ObjOf(s))| == |ks|
      ensures forall i :: i in ks ==> var p := s.Obj(i) / PGSIZE; 0 <= p < pageSlab.Length && pageSlab[p] == s
    {
      forall i | i in ks ensures var p := s.Obj(i) / PGSIZE; 0 <= p < pageSlab.Length && pageSlab[p] == s {
        ObjPage(s, i);
        PageOf(s, s.Obj(i) / PGSIZE);
      }
      forall i, j | i in ks && j in ks && s.Obj(i) == s.Obj(j) ensures i == j {
        if i != j {
          ObjsApart(s, i, s, j);
        }
      }
      ImageCount(ks, ObjOf(s));
    }

    lemma UsedInOne(s: Slab)
      requires Ready() && s in slabs
      ensures |UsedIn([s])| == s.inuse
    {
      InUseCounts(s);
      LayoutsOk();
      var used := set i | 0 <= i < s.lay.num && s.Obj(i) in Used({});
      assert Placed(s);
      ObjsCount(s, used);
      forall a | a in UsedIn([s]) ensures a in Image(used, ObjOf(s)) {
        var t, i := Located(a);
        assert i in used && ObjOf(s)(i) == a;
      }
      assert UsedIn([s]) == Image(used, ObjOf(s));
    }

    lemma {:induction false} UsedInCount(list: seq<Slab>)
      requires NoDup(list) && forall s :: s in list ==> |UsedIn([s])| == s.inuse
      ensures |UsedIn(list)| == InUse(list)
    {
      if list == [] {
        assert UsedIn(list) == {};
      } else {
        var s, rest := list[0], list[1..];
        assert NoDup(rest) && forall t :: t in rest ==> t in list && t != s;
        UsedInCount(rest);
        assert UsedIn(list) == UsedIn([s]) + UsedIn(rest) && UsedIn([s]) !! UsedIn(rest);
      }
    }

    /** The objects of cache k are those of the slabs on its lists. */
    lemma UsedOfCount(k: nat)
      requires Ready() && k < |caches|
      ensures |UsedOf(k)| == InUse(caches[k].full) + InUse(caches[k].notfull)
    {
      var full, notfull := caches[k].full, caches[k].notfull;
      assert ListShape(k);
      forall s | s in full || s in notfull ensures |UsedIn([s])| == s.inuse {
        UsedInOne(s);
      }
      UsedInCount(full);
      UsedInCount(notfull);
      forall a | a in Used({}) ensures a in UsedOf(k) <==> a in UsedIn(full) || a in UsedIn(notfull) {
        var s, i := Located(a);
        assert OnList(s);
      }
      assert UsedOf(k) == UsedIn(full) + UsedIn(notfull);
      forall s | s in full ensures s !in notfull {
        assert OnList(s);
      }
      assert UsedIn(full) !! UsedIn(notfull);
    }

    /** The bytes of the objects in use that belong to the first k caches. */
    ghost function Total(k: nat): nat
      requires k <= |caches|
      reads this, pageCache
    {
      if k == 0 then 0 else Total(k - 1) + |UsedOf(k - 1)| * caches[k - 1].layout.objsize
    }

    /** Lines 128-136, for one cache */
    method CacheAllocated(k: nat) returns (total: nat)
      requires Ready() && k < |caches|
      ensures total == |UsedOf(k)| * caches[k].layout.objsize
    {
      var c := caches[k];
      FullCount(k);
      var a := FullBytes(c);
      var b := NotfullBytes(c);
      total := a + b;
      Distribute(|c.full| * c.layout.num, InUse(c.notfull), c.layout.objsize);
    }

    lemma Distribute(a: nat, b: nat, d: nat)
      ensures (a + b) * d == a * d + b * d
    {
    }

    /** Lines 128-131 */
    method FullBytes(c: Cache) returns (total: nat)
      ensures total == |c.full| * c.layout.num * c.layout.objsize
    {
      total := 0;
      var i := 0;
      while i < |c.full|
        invariant 0 <= i <= |c.full| && total == i * c.layout.num * c.layout.objsize
      {
        Distribute(i, 1, c.layout.num);
        Distribute(i * c.layout.num, c.layout.num, c.layout.objsize);
        total := total + c.layout.num * c.layout.objsize;
        i := i + 1;
      }
    }

    /** Lines 132-136 */
    method NotfullBytes(c: Cache) returns (total: nat)
      ensures total == InUse(c.notfull) * c.layout.objsize
    {
      total := 0;
      var i := 0;
      while i < |c.notfull|
        invariant 0 <= i <= |c.notfull| && total == InUse(c.notfull[..i]) * c.layout.objsize
      {
        InUseNext(c.notfull, i);
        Distribute(InUse(c.notfull[..i]), c.notfull[i].inuse, c.layout.objsize);
        total := total + c.notfull[i].inuse * c.layout.objsize;
        i := i + 1;
      }
      assert c.notfull[..i] == c.notfull;
    }

    lemma {:induction false} InUseNext(list: seq<Slab>, i: nat)
      requires i < |list|
      ensures InUse(list[..i + 1]) == InUse(list[..i]) + list[i].inuse
    {
      if i > 0 {
        InUseNext(list[1..], i - 1);
        assert list[..i + 1][1..] == list[1..][..i] && list[..i][1..] == list[1..][..i - 1];
      }
    }

    lemma {:induction false} InUseOfFull(list: seq<Slab>, num: nat)
      requires forall s :: s in list ==> s.inuse == num
      ensures InUse(list) == |list| * num
    {
      if list != [] {
        InUseOfFull(list[1..], num);
        Distribute(1, |list[1..]|, num);
      }
    }

    lemma FullCount(k: nat)
      requires Ready() && k < |caches|
      ensures |UsedOf(k)| == |caches[k].full| * caches[k].layout.num + InUse(caches[k].notfull)
    {
      assert ListShape(k);
      forall s | s in caches[k].full ensures s.inuse == caches[k].layout.num {
        assert OnList(s) && Placed(s);
      }
      InUseOfFull(caches[k].full, caches[k].layout.num);
      UsedOfCount(k);
    }

    method AddCache(k: nat, total0: nat) returns (total: nat)
      requires Ready() && k < |caches| && total0 == Total(k)
      ensures total == Total(k + 1)
    {
      var t := CacheAllocated(k);
      total := total0 + t;
    }

    /** slab_allocated */
    method SlabAllocated() returns (total: nat)
      requires Ready()
      ensures total == Total(SLAB_CACHE_NUM)
    {
      total := 0;
      var i := 0;
      while i < SLAB_CACHE_NUM
        invariant 0 <= i <= SLAB_CACHE_NUM && total == Total(i)
      {
        total := AddCache(i, total);
        i := i + 1;
      }
    }
  }

  ghost function Upto(n: nat): (s: seq<nat>)
    ensures |s| == n && forall i :: 0 <= i < n ==> s[i] == i
  {
    if n == 0 then [] else Upto(n - 1) + [n - 1]
  }

  lemma DivExact(i: nat, d: nat)
    requires d > 0
    ensures (i * d) / d == i
  {
    ModUnique(i * d, d, i, 0);
  }

  /** Lines 309-314: every object free, in the order of their indices. */
  method InitChain(s: Slab)
    requires 0 < s.lay.num == s.bufctl.Length && s.inuse == 0
    modifies s, s.bufctl
    ensures s.Chained() && s.inuse == 0 && s.chain == Upto(s.lay.num)
  {
    var i := 0;
    while i < s.lay.num
      invariant 0 <= i <= s.lay.num && s.inuse == 0
      invariant forall j :: 0 <= j < i ==> s.bufctl[j] == j + 1
    {
      s.bufctl[i] := i + 1;
      i := i + 1;
    }
    s.bufctl[s.lay.num - 1] := BUFCTL_END;
    s.free := 0;
    s.chain := Upto(s.lay.num);
  }
}
