// kern/mm/vmm.c, lines 1-113: the virtual memory areas of an address space, on a list
// ordered by their starts, with the area found last in front of it.

module VmaList {
  import opened Arith
  import opened Counting
  import opened Lists
  import opened Mmu

  class Vma {
    const start: word
    const end: word
    const flags: word
    var link: Entry<Vma?>
    var mm: Mm?

    /** vma_create */
    constructor (start: word, end: word, flags: word)
      ensures this.start == start && this.end == end && this.flags == flags
      ensures link.owner == this && fresh(link)
    {
      this.start, this.end, this.flags := start, end, flags;
      mm := null;
      link := new Entry<Vma?>(null);
      new;
      link := new Entry<Vma?>(this);
    }
  }

  predicate Contains(v: Vma, addr: word) {
    v.start <= addr < v.end
  }

  /** The first area of the list that ends after addr */
  function Scan(l: seq<Vma>, addr: word): Vma? {
    if l == [] then null else if addr < l[0].end then l[0] else Scan(l[1..], addr)
  }

  lemma {:induction false} ScanAt(l: seq<Vma>, i: nat, addr: word)
    requires i < |l| && addr < l[i].end && forall j :: 0 <= j < i ==> l[j].end <= addr
    ensures Scan(l, addr) == l[i]
  {
    if i > 0 {
      ScanAt(l[1..], i - 1, addr);
    }
  }

  lemma {:induction false} ScanNone(l: seq<Vma>, addr: word)
    requires forall j :: 0 <= j < |l| ==> l[j].end <= addr
    ensures Scan(l, addr) == null
  {
    if l != [] {
      ScanNone(l[1..], addr);
    }
  }

  lemma {:induction false} ScanFinds(l: seq<Vma>, i: nat, addr: word) returns (k: nat)
    requires i < |l| && addr < l[i].end
    ensures k <= i && Scan(l, addr) == l[k]
  {
    if addr < l[0].end {
      k := 0;
    } else {
      k := ScanFinds(l[1..], i - 1, addr);
      k := k + 1;
    }
  }

  /** What find_vma finds with area c in front of the list. */
  function Lookup(c: Vma?, l: seq<Vma>, addr: word): Vma? {
    if c != null && Contains(c, addr) then c else Scan(l, addr)
  }

  /** No area before area k reaches past the start of area k, or that is empty. */
  ghost predicate FrontRight(l: seq<Vma>, k: nat) {
    k < |l| && (l[k].start < l[k].end ==> forall i :: 0 <= i < k ==> l[i].end <= l[k].start)
  }

  /** With area k in front of the list no answer differs from that of the list exactly if no
      area before it reaches past its start. */
  lemma FrontExact(l: seq<Vma>, k: nat)
    requires NoDup(l) && k < |l|
    ensures (forall addr: word :: Lookup(l[k], l, addr) == Scan(l, addr)) <==> FrontRight(l, k)
  {
    if FrontRight(l, k) {
      forall addr: word ensures Lookup(l[k], l, addr) == Scan(l, addr) {
        if Contains(l[k], addr) {
          ScanAt(l, k, addr);
        }
      }
    } else {
      var i :| 0 <= i < k && l[k].start < l[i].end;
      var j := ScanFinds(l, i, l[k].start);
      assert Lookup(l[k], l, l[k].start) == l[k];
    }
  }

  /** Areas that are not empty and follow one another. */
  ghost predicate Tidy(l: seq<Vma>) {
    && (forall i :: 0 <= i < |l| ==> l[i].start < l[i].end)
    && (forall i, j :: 0 <= i < j < |l| ==> l[i].end <= l[j].start)
  }

  ghost predicate Sorted(l: seq<Vma>) {
    forall i, j :: 0 <= i < j < |l| ==> l[i].start <= l[j].start
  }

  /** Where insert_vma_struct puts v: behind all areas that start no later. */
  ghost predicate Place(l: seq<Vma>, i: nat, v: Vma) {
    && i <= |l| && (forall j :: 0 <= j < i ==> l[j].start <= v.start)
    && (i < |l| ==> l[i].start > v.start)
  }

  lemma SortedStays(l: seq<Vma>, i: nat, v: Vma)
    requires Sorted(l) && Place(l, i, v)
    ensures Sorted(Insert(l, i, v))
  {
  }

  function PlaceOf(l: seq<Vma>, v: Vma): (i: nat)
    ensures Place(l, i, v)
  {
    if l == [] || l[0].start > v.start then 0 else PlaceOf(l[1..], v) + 1
  }

  lemma PlaceUnique(l: seq<Vma>, i: nat, v: Vma)
    requires Place(l, i, v)
    ensures i == PlaceOf(l, v)
  {
  }

  ghost predicate Overlap(u: Vma, v: Vma) {
    u.start < v.end && v.start < u.end
  }

  /** A tidy list stays tidy exactly if the new area overlaps none of the others. */
  lemma TidyStays(l: seq<Vma>, i: nat, v: Vma)
    requires Tidy(l) && Place(l, i, v) && v.start < v.end
    ensures Tidy(Insert(l, i, v)) <==> forall u :: u in l ==> !Overlap(u, v)
  {
    if forall u :: u in l ==> !Overlap(u, v) {
      TidyWith(l, i, v);
    }
    if Tidy(Insert(l, i, v)) {
      forall u | u in l ensures !Overlap(u, v) {
        var j :| 0 <= j < |l| && l[j] == u;
        NoOverlap(l, i, v, j);
      }
    }
  }

  lemma TidyWith(l: seq<Vma>, i: nat, v: Vma)
    requires Tidy(l) && Place(l, i, v) && v.start < v.end && forall u :: u in l ==> !Overlap(u, v)
    ensures Tidy(Insert(l, i, v))
  {
    var m := Insert(l, i, v);
    forall j | 0 <= j < |l| ensures if j < i then l[j].end <= v.start else v.end <= l[j].start {
      assert !Overlap(l[j], v);
      assert i <= j ==> v.start < l[j].start;
    }
    forall j, k | 0 <= j < k < |m| ensures m[j].end <= m[k].start {
      assert j < i ==> m[j] == l[j];
      assert k > i ==> m[k] == l[k - 1];
    }
  }

  lemma NoOverlap(l: seq<Vma>, i: nat, v: Vma, j: nat)
    requires i <= |l| && j < |l| && Tidy(Insert(l, i, v))
    ensures !Overlap(l[j], v)
  {
    var m := Insert(l, i, v);
    assert m[i] == v && m[if j < i then j else j + 1] == l[j];
  }

  // ---------- runs ----------

  datatype Call = Find(addr: word) | Add(vma: Vma)

  /** The list and the area in front of it */
  datatype State = State(l: seq<Vma>, c: Vma?)

  function Step(s: State, call: Call): State {
    match call
    case Find(addr) => var v := Lookup(s.c, s.l, addr); if v == null then s else s.(c := v)
    case Add(vma) => s.(l := Insert(s.l, PlaceOf(s.l, vma), vma))
  }

  /** What a run of find_vma and insert_vma_struct makes of a state */
  function Run(s: State, calls: seq<Call>): State
    decreases calls
  {
    if calls == [] then s else Run(Step(s, calls[0]), calls[1..])
  }

  const NoVmas := State([], null)

  /** Area k can have come to the front: it ends behind all that start where it does and
      come before it, which were on the list before it was. */
  ghost predicate Cacheable(l: seq<Vma>, k: nat) {
    k < |l| && l[k].end > 0 && forall j :: 0 <= j < k && l[j].start == l[k].start ==> l[j].end < l[k].end
  }

  /** What holds in every state of a run. */
  ghost predicate Reachable(s: State) {
    Sorted(s.l) && (s.c != null ==> exists k: nat :: Cacheable(s.l, k) && s.l[k] == s.c)
  }

  lemma FindReachable(s: State, addr: word)
    requires Reachable(s)
    ensures Reachable(Step(s, Find(addr)))
  {
    var v := Lookup(s.c, s.l, addr);
    if v != null && v != s.c {
      var k := ScanIndex(s.l, addr);
      assert Cacheable(s.l, k);
    }
  }

  lemma {:induction false} ScanIndex(l: seq<Vma>, addr: word) returns (k: nat)
    requires Scan(l, addr) != null
    ensures k < |l| && Scan(l, addr) == l[k] && addr < l[k].end && forall j :: 0 <= j < k ==> l[j].end <= addr
  {
    k := 0;
    if l[0].end <= addr {
      k := ScanIndex(l[1..], addr);
      k := k + 1;
    }
  }

  lemma AddReachable(s: State, v: Vma)
    requires Reachable(s)
    ensures Reachable(Step(s, Add(v)))
  {
    var i := PlaceOf(s.l, v);
    SortedStays(s.l, i, v);
    if s.c != null {
      var k: nat :| Cacheable(s.l, k) && s.l[k] == s.c;
      StaysCacheable(s.l, i, v, k);
    }
  }

  lemma AddPlaced(l: seq<Vma>, c: Vma?, i: nat, v: Vma)
    requires Reachable(State(l, c)) && Place(l, i, v)
    ensures Reachable(State(Insert(l, i, v), c))
  {
    hide Reachable;
    PlaceUnique(l, i, v);
    AddReachable(State(l, c), v);
  }

  lemma StaysCacheable(l: seq<Vma>, i: nat, v: Vma, k: nat)
    requires Sorted(l) && Place(l, i, v) && Cacheable(l, k)
    ensures Cacheable(Insert(l, i, v), if k < i then k else k + 1)
  {
    var m, k' := Insert(l, i, v), if k < i then k else k + 1;
    forall j | 0 <= j < k' && m[j].start == m[k'].start ensures m[j].end < m[k'].end {
      assert m[j] == if j < i then l[j] else if j == i then v else l[j - 1];
      assert i <= k ==> l[i].start <= l[k].start;
    }
  }

  lemma {:induction false} RunReachable(s: State, calls: seq<Call>)
    requires Reachable(s)
    ensures Reachable(Run(s, calls))
    decreases calls
  {
    if calls != [] {
      match calls[0] {
        case Find(addr) => FindReachable(s, addr);
        case Add(vma) => AddReachable(s, vma);
      }
      RunReachable(Step(s, calls[0]), calls[1..]);
    }
  }

  lemma {:induction false} RunOn(s: State, a: seq<Call>, b: seq<Call>)
    ensures Run(s, a + b) == Run(Run(s, a), b)
    decreases a
  {
    if a == [] {
      assert a + b == b;
    } else {
      assert (a + b)[1..] == a[1..] + b;
      RunOn(Step(s, a[0]), a[1..], b);
    }
  }

  function Adds(vs: seq<Vma>): seq<Call> {
    if vs == [] then [] else [Add(vs[0])] + Adds(vs[1..])
  }

  /** Adding the areas of vs one by one puts them between a and b, if they belong there. */
  lemma {:induction false} AddsBetween(a: seq<Vma>, vs: seq<Vma>, b: seq<Vma>, c: Vma?)
    requires Sorted(a + vs) && (vs != [] ==> forall v, u :: v in vs && u in b ==> v.start < u.start)
    ensures Run(State(a + b, c), Adds(vs)) == State(a + vs + b, c)
    decreases vs
  {
    if vs == [] {
      assert a + vs + b == a + b;
    } else {
      var v := vs[0];
      FitsBetween(a, vs, b);
      PlaceUnique(a + b, |a|, v);
      assert Insert(a + b, |a|, v) == a + [v] + b;
      assert a + [v] + vs[1..] == a + vs;
      AddsBetween(a + [v], vs[1..], b, c);
    }
  }

  lemma FitsBetween(a: seq<Vma>, vs: seq<Vma>, b: seq<Vma>)
    requires vs != [] && Sorted(a + vs) && forall v, u :: v in vs && u in b ==> v.start < u.start
    ensures Place(a + b, |a|, vs[0])
  {
    forall j | 0 <= j < |a| ensures (a + b)[j].start <= vs[0].start {
      assert (a + vs)[j] == a[j] && (a + vs)[|a|] == vs[0];
    }
    assert b != [] ==> b[0] in b;
  }

  /** The first area that starts where area k does */
  function FirstLike(l: seq<Vma>, k: nat): (a: nat)
    requires k < |l|
    ensures a <= k && (forall j :: a <= j <= k ==> l[j].start == l[k].start)
    ensures a > 0 ==> l[a - 1].start != l[k].start
  {
    if k == 0 || l[k - 1].start != l[k].start then k else FirstLike(l, k - 1)
  }

  /** A run that ends with list l and area k in front: first those that start where area k
      does and come before it, then area k, which is looked for, then the others. */
  function RunTo(l: seq<Vma>, k: nat): seq<Call>
    requires k < |l| && l[k].end > 0
  {
    var a := FirstLike(l, k);
    Adds(l[a..k + 1]) + [Find(l[k].end - 1)] + Adds(l[..a]) + Adds(l[k + 1..])
  }

  lemma RunToReaches(l: seq<Vma>, k: nat)
    requires Sorted(l) && Cacheable(l, k)
    ensures Run(NoVmas, RunTo(l, k)) == State(l, l[k])
  {
    hide Adds, Run;
    var a := FirstLike(l, k);
    LikeFirst(l, a, k);
    RestBefore(l, a, k, l[k]);
    RestBehind(l, k + 1, l[k]);
    var start := Adds(l[a..k + 1]) + [Find(l[k].end - 1)];
    RunOn(NoVmas, start, Adds(l[..a]));
    RunOn(NoVmas, start + Adds(l[..a]), Adds(l[k + 1..]));
  }

  lemma AddsFront(vs: seq<Vma>, b: seq<Vma>, c: Vma?)
    requires Sorted(vs) && forall v, u :: v in vs && u in b ==> v.start < u.start
    ensures Run(State(b, c), Adds(vs)) == State(vs + b, c)
  {
    hide Adds, Run;
    assert [] + vs == vs && [] + b == b;
    AddsBetween([], vs, b, c);
  }

  lemma LikeFirst(l: seq<Vma>, a: nat, k: nat)
    requires Sorted(l) && k < |l| && l[k].end > 0 && Cacheable(l, k) && a == FirstLike(l, k)
    ensures Run(NoVmas, Adds(l[a..k + 1]) + [Find(l[k].end - 1)]) == State(l[a..k + 1], l[k])
  {
    hide Adds, Run, FirstLike, Scan, Cacheable;
    var like, addr: word := l[a..k + 1], l[k].end - 1;
    AddsFront(like, [], null);
    assert like + [] == like;
    LikeFound(l, a, k, addr);
    RunOn(NoVmas, Adds(like), [Find(addr)]);
    FindOnce(State(like, null), addr);
  }

  lemma LikeFound(l: seq<Vma>, a: nat, k: nat, addr: word)
    requires Cacheable(l, k) && a == FirstLike(l, k) && addr == l[k].end - 1
    ensures Scan(l[a..k + 1], addr) == l[k]
  {
    hide FirstLike, Scan;
    var like := l[a..k + 1];
    forall j | 0 <= j < k - a ensures like[j].end <= addr {
      assert like[j] == l[a + j];
    }
    ScanAt(like, k - a, addr);
  }

  lemma FindOnce(s: State, addr: word)
    ensures Run(s, [Find(addr)]) == Step(s, Find(addr))
  {
    assert [Find(addr)][1..] == [];
  }

  lemma RestBefore(l: seq<Vma>, a: nat, k: nat, c: Vma)
    requires Sorted(l) && k < |l| && a == FirstLike(l, k)
    ensures Run(State(l[a..k + 1], c), Adds(l[..a])) == State(l[..k + 1], c)
  {
    hide Adds, Run;
    LikeLater(l, a, k);
    AddsFront(l[..a], l[a..k + 1], c);
    assert l[..a] + l[a..k + 1] == l[..k + 1];
  }

  lemma LikeLater(l: seq<Vma>, a: nat, k: nat)
    requires Sorted(l) && k < |l| && a == FirstLike(l, k)
    ensures forall v, u :: v in l[..a] && u in l[a..k + 1] ==> v.start < u.start
  {
    hide FirstLike;
    forall v, u | v in l[..a] && u in l[a..k + 1] ensures v.start < u.start {
      var i :| 0 <= i < a && l[i] == v;
      var j :| a <= j <= k && l[j] == u;
      assert l[i].start <= l[a - 1].start <= l[a].start;
    }
  }

  lemma RestBehind(l: seq<Vma>, k: nat, c: Vma)
    requires Sorted(l) && k <= |l|
    ensures Run(State(l[..k], c), Adds(l[k..])) == State(l, c)
  {
    assert l[..k] + l[k..] == l && l + [] == l && l[..k] + [] == l[..k];
    AddsBetween(l[..k], l[k..], [], c);
  }

  /** No area that can have come to the front starts before the end of one before it. */
  ghost predicate Clean(l: seq<Vma>) {
    forall k :: 0 <= k < |l| && Cacheable(l, k) ==> FrontRight(l, k)
  }

  /** The area in front of a list never changes an answer, after whatever run that ends
      with this list, exactly if the list is clean. */
  lemma RunsExact(l: seq<Vma>)
    requires NoDup(l) && Sorted(l)
    ensures Clean(l) <==> forall calls, addr: word :: Run(NoVmas, calls).l == l ==>
                            Lookup(Run(NoVmas, calls).c, l, addr) == Scan(l, addr)
  {
    if Clean(l) {
      forall calls, addr: word | Run(NoVmas, calls).l == l
        ensures Lookup(Run(NoVmas, calls).c, l, addr) == Scan(l, addr)
      {
        RunReachable(NoVmas, calls);
        CleanFront(Run(NoVmas, calls), addr);
      }
    } else {
      var k :| 0 <= k < |l| && Cacheable(l, k) && !FrontRight(l, k);
      RunToReaches(l, k);
      FrontExact(l, k);
      var addr: word :| Lookup(l[k], l, addr) != Scan(l, addr);
      assert Run(NoVmas, RunTo(l, k)).l == l;
    }
  }

  lemma CleanFront(s: State, addr: word)
    requires Reachable(s) && NoDup(s.l) && Clean(s.l)
    ensures Lookup(s.c, s.l, addr) == Scan(s.l, addr)
  {
    if s.c != null {
      var k: nat :| Cacheable(s.l, k) && s.l[k] == s.c;
      FrontExact(s.l, k);
    }
  }

  lemma TidyIsClean(l: seq<Vma>)
    requires Tidy(l)
    ensures Clean(l) && Sorted(l)
  {
    forall i, j | 0 <= i < j < |l| ensures l[i].start <= l[j].start {
      assert l[i].start < l[i].end <= l[j].start;
    }
  }

  class Mm {
    const mmapList: Entry<Vma?>
    var mmapCache: Vma?
    /** The page of the directory */
    var pgdir: nat
    var mapCount: int
    /** The areas on the list, and their entries. */
    ghost var vmas: seq<Vma>
    ghost var links: seq<Entry<Vma?>>

    ghost predicate Valid()
      reads this, mmapList, links
    {
      && Ring(mmapList, links) && |links| == |vmas| == mapCount && NoDup(vmas)
      && (forall i :: 0 <= i < |links| ==> links[i].owner == vmas[i])
      && mmapList.owner == null && Reachable(State(vmas, mmapCache))
    }

    /** mm_create */
    constructor ()
      ensures Valid() && vmas == [] && mmapCache == null && pgdir == 0 && fresh(mmapList)
    {
      mmapList := new Entry<Vma?>(null);
      mmapCache, pgdir, mapCount := null, 0, 0;
      vmas, links := [], [];
      new;
      ListInit(mmapList);
    }

    /** The loop of find_vma */
    method ScanList(addr: word) returns (vma: Vma?)
      requires Valid()
      ensures vma == Scan(vmas, addr) && (vma != null ==> vma in vmas)
    {
      var le := mmapList;
      ghost var i := 0;
      assert Linked(mmapList, links, 0);
      while le.next != mmapList
        invariant 0 <= i <= |links| && le == Around(mmapList, links, i) && Linked(mmapList, links, i)
        invariant forall j :: 0 <= j < i ==> vmas[j].end <= addr
        decreases |links| - i
      {
        le := le.next;
        assert le == links[i] && le.owner == vmas[i];
        if addr < le.owner.end {
          ScanAt(vmas, i, addr);
          return le.owner;
        }
        i := i + 1;
        assert Linked(mmapList, links, i);
      }
      assert i == |links|;
      ScanNone(vmas, addr);
      return null;
    }

    /** find_vma */
    method FindVma(addr: word) returns (vma: Vma?)
      requires Valid()
      modifies this`mmapCache
      ensures Valid() && vma == Lookup(old(mmapCache), vmas, addr)
      ensures mmapCache == if vma == null then old(mmapCache) else vma
      ensures Clean(vmas) || Tidy(vmas) ==> vma == Scan(vmas, addr)
    {
      hide Reachable, Clean, Tidy;
      if Tidy(vmas) {
        TidyIsClean(vmas);
      }
      if Clean(vmas) {
        CleanFront(State(vmas, mmapCache), addr);
      }
      FindReachable(State(vmas, mmapCache), addr);
      vma := mmapCache;
      if !(vma != null && vma.start <= addr && addr < vma.end) {
        vma := ScanList(addr);
      }
      if vma != null {
        mmapCache := vma;
      }
    }

    /** The loop of insert_vma_struct: the entry to insert behind, and its place */
    method FindPlace(vma: Vma) returns (lePrev: Entry<Vma?>, ghost i: nat)
      requires Valid()
      ensures i <= |links| && lePrev == Around(mmapList, links, i) && Place(vmas, i, vma)
    {
      lePrev := mmapList;
      i := 0;
      var le := mmapList;
      assert Linked(mmapList, links, 0);
      while le.next != mmapList
        invariant 0 <= i <= |links| && le == lePrev == Around(mmapList, links, i) && Linked(mmapList, links, i)
        invariant forall j :: 0 <= j < i ==> vmas[j].start <= vma.start
        decreases |links| - i
      {
        le := le.next;
        assert le == links[i] && le.owner == vmas[i];
        if le.owner.start > vma.start {
          return;
        }
        lePrev := le;
        i := i + 1;
        assert Linked(mmapList, links, i);
      }
      assert i == |links|;
    }

    /** Lines 82-85 */
    method LinkVma(vma: Vma, lePrev: Entry<Vma?>, ghost i: nat)
      requires Valid() && vma !in vmas && vma.link.owner == vma
      requires Place(vmas, i, vma) && lePrev == Around(mmapList, links, i)
      modifies this, mmapList, links, vma, vma.link
      ensures Valid() && vma.mm == this && vma.link == old(vma.link) && vmas == Insert(old(vmas), i, vma)
      ensures mapCount == old(mapCount) + 1 && mmapCache == old(mmapCache) && pgdir == old(pgdir)
    {
      assert vma.link !in links && Linked(mmapList, links, i);
      hide Reachable, Place, PlaceOf;
      AddPlaced(vmas, mmapCache, i, vma);
      ghost var entries, node := links, vma.link;
      vma.mm := this;
      ListAddAfter(lePrev, vma.link, mmapList, entries, i);
      mapCount := mapCount + 1;
      vmas, links := Insert(vmas, i, vma), Insert(entries, i, node);
    }

    /** insert_vma_struct */
    method InsertVma(vma: Vma)
      requires Valid() && vma !in vmas && vma.link.owner == vma
      modifies this, mmapList, links, vma, vma.link
      ensures Valid() && vma.mm == this && vma.link == old(vma.link)
      ensures vmas == Insert(old(vmas), PlaceOf(old(vmas), vma), vma) && Sorted(vmas)
      ensures mapCount == old(mapCount) + 1 && mmapCache == old(mmapCache) && pgdir == old(pgdir)
      ensures old(Tidy(vmas)) && vma.start < vma.end ==>
                (Tidy(vmas) <==> forall u :: u in old(vmas) ==> !Overlap(u, vma))
    {
      var lePrev, i := FindPlace(vma);
      PlaceUnique(vmas, i, vma);
      if Tidy(vmas) && vma.start < vma.end {
        TidyStays(vmas, i, vma);
      }
      LinkVma(vma, lePrev, i);
    }

    ghost function Entries(): set<object>
      reads this`links
    {
      set e | e in links
    }

    ghost predicate Listed()
      reads this, mmapList, links
    {
      Ring(mmapList, links) && |links| == |vmas| && forall i :: 0 <= i < |links| ==> links[i].owner == vmas[i]
    }

    /** Line 109, for the first entry */
    method UnlinkFirst() returns (vma: Vma)
      requires Listed() && links != []
      modifies this`vmas, this`links, mmapList, Entries()
      ensures Listed() && vma == old(vmas)[0] && vmas == old(vmas)[1..] && links == old(links)[1..]
    {
      var le := mmapList.next;
      ghost var entries := links;
      assert Linked(mmapList, entries, 0) && Linked(mmapList, entries, 1) && le == entries[0];
      ListDel(le, mmapList, entries, 0);
      vma := le.owner;
      assert Remove(entries, 0) == entries[1..];
      links, vmas := entries[1..], vmas[1..];
    }

    /** mm_destroy.  The areas are given to kfree in the order of the list, each once, and
        then the mm_struct. */
    method Destroy() returns (freed: seq<Vma>)
      requires Valid()
      modifies this, mmapList, Entries()
      ensures freed == old(vmas) && NoDup(freed) && Ring(mmapList, [])
    {
      freed := [];
      FirstLink();
      while mmapList.next != mmapList
        invariant Listed() && freed + vmas == old(vmas) && Entries() <= old(Entries())
        invariant mmapList.next == mmapList <==> links == []
        decreases |links|
      {
        Shift(freed, vmas);
        var vma := UnlinkFirst();
        freed := freed + [vma];
        FirstLink();
      }
    }

    lemma FirstLink()
      requires Listed()
      ensures mmapList.next == mmapList <==> links == []
    {
      assert Linked(mmapList, links, 0);
    }
  }

  lemma Shift<T>(s: seq<T>, t: seq<T>)
    requires t != []
    ensures (s + [t[0]]) + t[1..] == s + t
  {
  }

  /** Two areas that overlap: with b inserted first and found, address 6 is found in b once
      a is there too, although a comes first on the list. */
  method OverlapExample() returns (mm: Mm, a: Vma, b: Vma, found: Vma?)
    ensures fresh(mm) && mm.Valid() && mm.vmas == [a, b]
    ensures a.start == 0 && a.end == 10 && b.start == 5 && b.end == 8
    ensures found == b && Scan(mm.vmas, 6) == a
  {
    hide Reachable, Place, Tidy, Clean;
    mm := new Mm();
    a := new Vma(0, 10, 0);
    b := new Vma(5, 8, 0);
    mm.InsertVma(b);
    found := mm.FindVma(6);
    mm.InsertVma(a);
    found := mm.FindVma(6);
  }
}
