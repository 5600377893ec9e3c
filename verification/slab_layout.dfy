// kern/mm/slab.c, lines 63-246: how a slab of 2^order pages is divided into a control
// area (a slab_t followed by one bufctl per object) and objects of equal size.

module SlabLayout {
  import opened Arith
  import opened BuddyBlocks

  const PGSIZE := 4096
  /** sizeof(slab_t) and sizeof(kmem_bufctl_t) on the 32-bit target */
  const SLAB_T := 24
  const BUFCTL_T := 4
  const SLAB_LIMIT := 0xFFFF_FFFE
  const KMALLOC_MAX_ORDER := 10
  const MIN_SIZE_ORDER := 5
  const MAX_SIZE_ORDER := 17
  /** 2^MAX_SIZE_ORDER, the size of the greatest objects */
  const MAX_OBJECT := 0x2_0000
  const SLAB_CACHE_NUM := MAX_SIZE_ORDER - MIN_SIZE_ORDER + 1

  function RoundDown(a: nat, n: nat): nat
    requires n > 0
  {
    a - a % n
  }

  function RoundUp(a: nat, n: nat): nat
    requires n > 0
  {
    RoundDown(a + n - 1, n)
  }

  lemma RoundUpBounds(a: nat, n: nat)
    requires n > 0
    ensures a <= RoundUp(a, n) < a + n && RoundUp(a, n) == n * ((a + n - 1) / n)
  {
  }

  /** Rounding up yields the least multiple of n that is not below a. */
  lemma RoundUpLeast(a: nat, n: nat, q: nat)
    requires n > 0 && a <= n * q
    ensures RoundUp(a, n) <= n * q
  {
    RoundUpBounds(a, n);
    LessProduct(n, q, (a + n - 1) / n);
  }

  lemma LessProduct(n: nat, p: nat, q: nat)
    requires n * q < n * p + n
    ensures n * q <= n * p
  {
    if p < q {
      MulMono(p + 1, q, n);
    }
  }

  /** The size of a control area for num objects */
  function MgmtSize(num: nat, align: nat): nat
    requires align > 0
  {
    RoundUp(SLAB_T + num * BUFCTL_T, align)
  }

  function SlabSize(order: nat): nat {
    PGSIZE * Pow2(order)
  }

  /** num objects and their control area fit into a slab. */
  predicate Fits(order: nat, objsize: nat, align: nat, num: nat)
    requires align > 0
  {
    MgmtSize(num, align) + num * objsize <= SlabSize(order)
  }

  lemma MgmtMono(a: nat, b: nat, align: nat)
    requires align > 0 && a <= b
    ensures MgmtSize(a, align) <= MgmtSize(b, align)
  {
    var y := SLAB_T + b * BUFCTL_T;
    RoundUpBounds(y, align);
    RoundUpLeast(SLAB_T + a * BUFCTL_T, align, (y + align - 1) / align);
  }

  lemma FitsMono(order: nat, objsize: nat, align: nat, a: nat, b: nat)
    requires align > 0 && a <= b && Fits(order, objsize, align, b)
    ensures Fits(order, objsize, align, a)
  {
    MgmtMono(a, b, align);
    MulMono(a, b, objsize);
  }

  lemma QuotientBound(k: nat, d: nat, m: nat)
    requires d > 0 && k * d <= m
    ensures k <= m / d
  {
    QuotientSmall(m, d);
    var q := m / d;
    assert (q + 1) * d == q * d + d;
    if k > q {
      MulMono(q + 1, k, d);
    }
  }

  lemma QuotientSmall(m: nat, d: nat)
    requires d > 0
    ensures m / d <= m && (m / d) * d <= m < (m / d) * d + d
  {
    var q := m / d;
    assert m == q * d + m % d;
    MulMono(1, d, q);
  }

  /** Some number of objects fits with its control area if and only if the alignment is at
      most the slab. */
  lemma SomeFits(order: nat, objsize: nat, align: nat)
    requires align > 0
    ensures (exists num :: Fits(order, objsize, align, num)) <==> align <= SlabSize(order)
    ensures Fits(order, objsize, align, 0) <==> align <= SlabSize(order)
  {
    NoneFits(order, objsize, align);
    forall num | Fits(order, objsize, align, num) ensures Fits(order, objsize, align, 0) {
      FitsMono(order, objsize, align, 0, num);
    }
  }

  lemma NoneFits(order: nat, objsize: nat, align: nat)
    requires align > 0
    ensures Fits(order, objsize, align, 0) <==> align <= SlabSize(order)
  {
    RoundUpBounds(SLAB_T, align);
    if align >= SLAB_T {
      RoundUpLeast(SLAB_T, align, 1);
    }
    MulMono(1, (SLAB_T + align - 1) / align, align);
    assert MgmtSize(0, align) == RoundUp(SLAB_T, align);
    assert align <= RoundUp(SLAB_T, align);
    assert align < SLAB_T ==> RoundUp(SLAB_T, align) < 2 * SLAB_T <= SlabSize(order);
  }

  /** The first guess of line 163 */
  function FirstGuess(order: nat, objsize: nat): nat {
    (SlabSize(order) - SLAB_T) / (objsize + BUFCTL_T)
  }

  lemma GuessTooHigh(order: nat, objsize: nat, align: nat, k: nat)
    requires align > 0 && Fits(order, objsize, align, k)
    ensures k <= FirstGuess(order, objsize)
  {
    RoundUpBounds(SLAB_T + k * BUFCTL_T, align);
    assert k * (objsize + BUFCTL_T) == k * objsize + k * BUFCTL_T;
    QuotientBound(k, objsize + BUFCTL_T, SlabSize(order) - SLAB_T);
  }

  // ---------- the loop of cache_estimate, on 32-bit numbers ----------

  /** ROUNDUP on size_t: the sum may wrap around. */
  function RoundUp32(a: nat, n: nat): nat
    requires n > 0
  {
    RoundDown((a + n - 1) % W32, n)
  }

  /** slab_mgmt_size */
  function MgmtSize32(num: nat, align: nat): nat
    requires align > 0
  {
    RoundUp32((SLAB_T + num * BUFCTL_T) % W32, align)
  }

  /** num objects pass the test of line 164, which is computed modulo 2^32. */
  predicate Passes(order: nat, objsize: nat, align: nat, num: nat)
    requires align > 0
  {
    (MgmtSize32(num, align) + num * objsize) % W32 <= SlabSize(order)
  }

  /** The number that nr_objs has been counted down to from start in i rounds: below 0 it
      goes on with 2^32 - 1. */
  function Down(start: nat, i: nat): nat {
    (start - i) % W32
  }

  /** The loop stops after i rounds. */
  ghost predicate StopsAfter(order: nat, objsize: nat, align: nat, i: nat)
    requires align > 0
  {
    && Passes(order, objsize, align, Down(FirstGuess(order, objsize), i))
    && forall j: nat :: j < i ==> !Passes(order, objsize, align, Down(FirstGuess(order, objsize), j))
  }

  /** The loop stops, with nr_objs == num. */
  ghost predicate StopsAt(order: nat, objsize: nat, align: nat, num: nat)
    requires align > 0
  {
    exists i: nat :: StopsAfter(order, objsize, align, i) && num == Down(FirstGuess(order, objsize), i)
  }

  /** Some number that a size_t can hold passes the test. */
  ghost predicate SomePasses(order: nat, objsize: nat, align: nat)
    requires align > 0
  {
    exists k :: 0 <= k < W32 && Passes(order, objsize, align, k)
  }

  /** The rounds it takes from start to k */
  lemma DownTo(start: nat, k: nat)
    requires k < W32
    ensures Down(start, (start - k) % W32) == k
  {
    var d := start - k;
    assert start - d % W32 == k + (d / W32) * W32;
  }

  lemma DownStep(start: nat, i: nat)
    requires start < W32
    ensures Down(start, 0) == start && (Down(start, i) - 1) % W32 == Down(start, i + 1)
  {
  }

  lemma DownSmall(start: nat, i: nat)
    requires i <= start < W32
    ensures Down(start, i) == start - i
  {
  }

  lemma {:induction false} StopsBefore(order: nat, objsize: nat, align: nat, i: nat)
    requires align > 0 && Passes(order, objsize, align, Down(FirstGuess(order, objsize), i))
    ensures exists j: nat :: StopsAfter(order, objsize, align, j)
    decreases i
  {
    if j: nat :| j < i && Passes(order, objsize, align, Down(FirstGuess(order, objsize), j)) {
      StopsBefore(order, objsize, align, j);
    } else {
      assert StopsAfter(order, objsize, align, i);
    }
  }

  /** The loop stops if and only if some 32-bit number passes its test.  One does if the
      alignment is at most the slab; but also for objects of size 0, whatever the alignment. */
  lemma EstimateStops(order: nat, objsize: nat, align: nat)
    requires order <= KMALLOC_MAX_ORDER && 0 < align < W32 && objsize + BUFCTL_T < W32
    ensures (exists num :: StopsAt(order, objsize, align, num)) <==> SomePasses(order, objsize, align)
    ensures align <= SlabSize(order) || objsize == 0 ==> SomePasses(order, objsize, align)
  {
    var start := FirstGuess(order, objsize);
    if k :| 0 <= k < W32 && Passes(order, objsize, align, k) {
      DownTo(start, k);
      StopsBefore(order, objsize, align, (start - k) % W32);
      var i: nat :| StopsAfter(order, objsize, align, i);
      assert StopsAt(order, objsize, align, Down(start, i));
    }
    if align <= SlabSize(order) {
      SomeFits(order, objsize, align);
      NoWrap(order, objsize, align, 0);
    } else if objsize == 0 {
      ZeroPasses(order, align, W32 - 6);
    }
  }

  lemma SlabSizes(order: nat)
    requires order <= KMALLOC_MAX_ORDER
    ensures PGSIZE <= SlabSize(order) <= 0x40_0000
  {
    Pow2Mono(order, KMALLOC_MAX_ORDER);
  }

  /** Up to the first guess nothing wraps around, if the alignment is at most the slab. */
  lemma NoWrap(order: nat, objsize: nat, align: nat, k: nat)
    requires order <= KMALLOC_MAX_ORDER && 0 < align <= SlabSize(order) && k <= FirstGuess(order, objsize)
    ensures MgmtSize32(k, align) == MgmtSize(k, align)
    ensures Passes(order, objsize, align, k) <==> Fits(order, objsize, align, k)
  {
    hide MgmtSize, MgmtSize32, FirstGuess, SlabSize;
    SlabSizes(order);
    GuessFits(order, objsize, k);
    ControlSmall(k, align);
  }

  lemma GuessFits(order: nat, objsize: nat, k: nat)
    requires order <= KMALLOC_MAX_ORDER && k <= FirstGuess(order, objsize)
    ensures k <= SLAB_T + k * BUFCTL_T + k * objsize <= SlabSize(order)
  {
    SlabSizes(order);
    QuotientSmall(SlabSize(order) - SLAB_T, objsize + BUFCTL_T);
    MulMono(k, FirstGuess(order, objsize), objsize + BUFCTL_T);
    assert k * (objsize + BUFCTL_T) == k * objsize + k * BUFCTL_T;
  }

  lemma Small(x: nat, align: nat)
    requires align > 0 && x + align <= W32
    ensures RoundUp32(x % W32, align) == RoundUp(x, align)
  {
    hide RoundDown;
  }

  /** Where the alignment is at most the slab the loop finds the greatest number that fits. */
  lemma StopsAtGreatest(order: nat, objsize: nat, align: nat, num: nat)
    requires order <= KMALLOC_MAX_ORDER && 0 < align <= SlabSize(order) && StopsAt(order, objsize, align, num)
    ensures Fits(order, objsize, align, num) && num <= FirstGuess(order, objsize)
    ensures forall k :: k > num ==> !Fits(order, objsize, align, k)
  {
    hide Passes, Fits, FirstGuess, SlabSize, Down;
    var start := FirstGuess(order, objsize);
    var i: nat :| StopsAfter(order, objsize, align, i) && num == Down(start, i);
    GuessFits(order, objsize, start);
    SlabSizes(order);
    NoWrap(order, objsize, align, 0);
    SomeFits(order, objsize, align);
    DownSmall(start, start);
    DownSmall(start, i);
    NoWrap(order, objsize, align, num);
    forall k: nat | k > num ensures !Fits(order, objsize, align, k) {
      if k <= start {
        NoWrap(order, objsize, align, k);
        DownSmall(start, start - k);
      } else if Fits(order, objsize, align, k) {
        GuessTooHigh(order, objsize, align, k);
      }
    }
  }

  lemma RoundDownBounds(y: nat, n: nat)
    requires n > 0
    ensures RoundDown(y, n) <= y && (RoundDown(y, n) == 0 <==> y < n) && (y >= n ==> RoundDown(y, n) >= n)
  {
    QuotientSmall(y, n);
    if y >= n {
      QuotientBound(1, n, y);
      MulMono(1, y / n, n);
    } else {
      ModUnique(y, n, 0, y);
    }
  }

  lemma WrappedRounding(x: nat, align: nat)
    requires x < W32 && 0 < align < W32
    ensures RoundUp32(x, align) == 0 <==> x == 0 || x + align > W32
    ensures RoundUp32(x, align) == 0 || align <= RoundUp32(x, align) < W32
    ensures x + align <= W32 ==> RoundUp32(x, align) == RoundUp(x, align)
  {
    hide RoundDown;
    RoundDownBounds((x + align - 1) % W32, align);
  }

  /** For objects of size 0 and alignments above the slab a number passes if its control
      area rounds up to 0, which is where that is 0 or rounding wraps around. */
  lemma ZeroPasses(order: nat, align: nat, k: nat)
    requires SlabSize(order) < align < W32
    ensures var x := (SLAB_T + k * BUFCTL_T) % W32;
            && (Passes(order, 0, align, k) <==> x == 0 || x + align > W32)
            && (Passes(order, 0, align, k) <==> MgmtSize32(k, align) == 0)
  {
    hide RoundUp32, SlabSize;
    WrappedRounding((SLAB_T + k * BUFCTL_T) % W32, align);
  }

  /** What the loop comes to there: the count runs through 0 to 2^32 - 6, unless rounding
      wraps around at once. */
  lemma StopsAtWrapped(order: nat, align: nat, num: nat)
    requires order <= KMALLOC_MAX_ORDER && SlabSize(order) < align < W32 && StopsAt(order, 0, align, num)
    ensures num == if SlabSize(order) + align > W32 then FirstGuess(order, 0) else W32 - 6
    ensures MgmtSize32(num, align) == 0
  {
    hide Passes, FirstGuess, SlabSize, MgmtSize32;
    var start := FirstGuess(order, 0);
    var i: nat :| StopsAfter(order, 0, align, i) && num == Down(start, i);
    ZeroPasses(order, align, num);
    SlabSizes(order);
    ZeroPasses(order, align, start);
    ZeroGuess(order);
    assert Down(start, 0) == start;
    if SlabSize(order) + align <= W32 {
      ZeroPasses(order, align, W32 - 6);
      assert Down(start, start + 6) == W32 - 6;
      FirstZero(start, i, num, align);
    }
  }

  /** The first control area on the way from start to 2^32 - 6 that rounds up to 0 */
  lemma FirstZero(start: nat, i: nat, num: nat, align: nat)
    requires 0 < align && i <= start + 6 && SLAB_T + start * BUFCTL_T + align <= W32 && num == Down(start, i)
    requires var x := (SLAB_T + num * BUFCTL_T) % W32; x == 0 || x + align > W32
    ensures num == W32 - 6
  {
    assert num == if i <= start then start - i else W32 + start - i;
    assert i > start ==> (SLAB_T + num * BUFCTL_T) % W32 == SLAB_T - (i - start) * BUFCTL_T;
  }

  lemma ZeroGuess(order: nat)
    ensures SLAB_T + FirstGuess(order, 0) * BUFCTL_T == SlabSize(order)
  {
    assert SlabSize(order) == 4 * (1024 * Pow2(order));
  }

  lemma StopsAtOnce(order: nat, objsize: nat, align: nat, m: nat, n: nat)
    requires align > 0 && StopsAt(order, objsize, align, m) && StopsAt(order, objsize, align, n)
    ensures m == n
  {
    var start := FirstGuess(order, objsize);
    var i: nat :| StopsAfter(order, objsize, align, i) && m == Down(start, i);
    var j: nat :| StopsAfter(order, objsize, align, j) && n == Down(start, j);
    assert i == j;
  }

  /** cache_estimate, lines 163-166 */
  method EstimateOnSlab(order: nat, objsize: nat, align: nat) returns (nrObjs: nat)
    requires order <= KMALLOC_MAX_ORDER && 0 < align < W32 && objsize + BUFCTL_T < W32
    requires SomePasses(order, objsize, align)
    ensures nrObjs < W32 && StopsAt(order, objsize, align, nrObjs)
    ensures align <= SlabSize(order) ==>
              Fits(order, objsize, align, nrObjs) && forall k :: k > nrObjs ==> !Fits(order, objsize, align, k)
  {
    hide Passes, Fits, SlabSize, Down, FirstGuess;
    ghost var start := FirstGuess(order, objsize);
    ghost var k :| 0 <= k < W32 && Passes(order, objsize, align, k);
    ghost var i, rounds := 0, (start - k) % W32;
    DownTo(start, k);
    SlabSizes(order);
    nrObjs := FirstGuess(order, objsize);
    GuessFits(order, objsize, nrObjs);
    DownStep(start, 0);
    while !Passes(order, objsize, align, nrObjs)
      invariant nrObjs == Down(start, i) < W32 && i <= rounds
      invariant forall j: nat :: j < i ==> !Passes(order, objsize, align, Down(start, j))
      decreases rounds - i
    {
      DownStep(start, i);
      nrObjs := (nrObjs - 1) % W32;
      i := i + 1;
    }
    assert StopsAfter(order, objsize, align, i);
    if align <= SlabSize(order) {
      StopsAtGreatest(order, objsize, align, nrObjs);
    }
  }

  /** What cache_estimate reports: num objects and an unusable remainder.  The last case is
      that of an alignment above the slab, where the arithmetic of the source wraps around. */
  ghost predicate Estimate(order: nat, objsize: nat, align: nat, offSlab: bool, num: nat, remainder: nat)
    requires align > 0
  {
    if offSlab then
      remainder + num * objsize == SlabSize(order) && remainder < objsize
    else if align <= SlabSize(order) then
      && remainder + num * objsize + MgmtSize(num, align) == SlabSize(order)
      && forall k :: k > num ==> !Fits(order, objsize, align, k)
    else
      exists n :: StopsAt(order, objsize, align, n) && num == Limited(n)
                  && remainder == (SlabSize(order) - num * objsize - MgmtSize32(num, align)) % W32
  }

  function Limited(n: nat): nat {
    if n > SLAB_LIMIT then SLAB_LIMIT else n
  }

  lemma OnSlabRemainder(order: nat, objsize: nat, align: nat, n: nat)
    requires order <= KMALLOC_MAX_ORDER && 0 < align <= SlabSize(order) && StopsAt(order, objsize, align, n)
    ensures var r := (SlabSize(order) - n * objsize - MgmtSize32(n, align)) % W32;
            n <= SLAB_LIMIT && Estimate(order, objsize, align, false, n, r)
  {
    hide MgmtSize, MgmtSize32, SlabSize, FirstGuess, StopsAt;
    SlabSizes(order);
    StopsAtGreatest(order, objsize, align, n);
    GuessFits(order, objsize, n);
    NoWrap(order, objsize, align, n);
  }

  /** cache_estimate */
  method CacheEstimate(order: nat, objsize: nat, align: nat, offSlab: bool) returns (remainder: nat, num: nat)
    requires order <= KMALLOC_MAX_ORDER && 0 < align < W32
    requires if offSlab then objsize > 0 else objsize + BUFCTL_T < W32 && SomePasses(order, objsize, align)
    ensures Estimate(order, objsize, align, offSlab, num, remainder) && num <= SLAB_LIMIT
  {
    hide MgmtSize, MgmtSize32, SlabSize, FirstGuess, StopsAt, SomePasses, Fits;
    var slabSize := SlabSize(order);
    var mgmtSize := 0;
    SlabSizes(order);
    if offSlab {
      num := slabSize / objsize;
      QuotientSmall(slabSize, objsize);
    } else {
      num := EstimateOnSlab(order, objsize, align);
    }
    ghost var n := num;
    if num > SLAB_LIMIT {
      num := SLAB_LIMIT;
    }
    if !offSlab {
      mgmtSize := MgmtSize32(num, align);
    }
    remainder := (slabSize - num * objsize - mgmtSize) % W32;
    if !offSlab && align <= slabSize {
      OnSlabRemainder(order, objsize, align, n);
    }
    assert num == Limited(n);
  }

  // ---------- choosing an order ----------

  lemma QuotientUnique(d: nat, n: nat, r: nat, n': nat, r': nat)
    requires r + n * d == r' + n' * d && r < d && r' < d
    ensures n == n' && r == r'
  {
    ModUnique(r + n * d, d, n, r);
    ModUnique(r' + n' * d, d, n', r');
  }

  lemma EstimateUnique(order: nat, objsize: nat, align: nat, offSlab: bool, n: nat, r: nat, n': nat, r': nat)
    requires align > 0 && (offSlab ==> objsize > 0)
    requires Estimate(order, objsize, align, offSlab, n, r) && Estimate(order, objsize, align, offSlab, n', r')
    ensures n == n' && r == r'
  {
    hide MgmtSize, MgmtSize32, SlabSize, StopsAt;
    if offSlab {
      QuotientUnique(objsize, n, r, n', r');
    } else if align <= SlabSize(order) {
      assert Fits(order, objsize, align, n) && Fits(order, objsize, align, n');
    } else {
      var m :| StopsAt(order, objsize, align, m) && n == Limited(m);
      var m' :| StopsAt(order, objsize, align, m') && n' == Limited(m');
      StopsAtOnce(order, objsize, align, m, m');
    }
  }

  /** Objects of size 0 with an alignment above the slab: as many as 2^32 - 6 are reported,
      but the whole slab remains, which no order accepts. */
  lemma ZeroEstimate(order: nat, align: nat, num: nat, remainder: nat)
    requires order <= KMALLOC_MAX_ORDER && SlabSize(order) < align < W32
    requires Estimate(order, 0, align, false, num, remainder)
    ensures num == if SlabSize(order) + align > W32 then FirstGuess(order, 0) else W32 - 6
    ensures remainder == SlabSize(order) && !Acceptable(order, num, remainder)
  {
    hide StopsAt, MgmtSize32, FirstGuess, SlabSize;
    var n :| StopsAt(order, 0, align, n) && num == Limited(n)
             && remainder == (SlabSize(order) - num * 0 - MgmtSize32(num, align)) % W32;
    SlabSizes(order);
    StopsAtWrapped(order, align, n);
    GuessFits(order, 0, FirstGuess(order, 0));
  }

  /** The test of lines 189 and 196 */
  predicate Acceptable(order: nat, num: nat, remainder: nat) {
    num != 0 && remainder * 8 % W32 <= SlabSize(order)
  }

  datatype Choice = NoChoice | Choice(order: nat, num: nat, leftOver: nat)

  ghost predicate Rejected(order: nat, objsize: nat, align: nat, offSlab: bool)
    requires align > 0
  {
    forall n, r :: Estimate(order, objsize, align, offSlab, n, r) ==> !Acceptable(order, n, r)
  }

  /** calculate_slab_order: the least order that is acceptable, if there is one.  The
      test of line 193 guards nothing. */
  method CalculateSlabOrder(objsize: nat, align: nat, offSlab: bool) returns (c: Choice)
    requires 0 < align < W32
    requires if offSlab then objsize > 0
             else objsize + BUFCTL_T < W32 && forall o :: 0 <= o <= KMALLOC_MAX_ORDER ==> SomePasses(o, objsize, align)
    ensures c.NoChoice? ==> forall o :: 0 <= o <= KMALLOC_MAX_ORDER ==> Rejected(o, objsize, align, offSlab)
    ensures c.Choice? ==> c.order <= KMALLOC_MAX_ORDER && Acceptable(c.order, c.num, c.leftOver)
    ensures c.Choice? ==> Estimate(c.order, objsize, align, offSlab, c.num, c.leftOver)
    ensures c.Choice? ==> forall o :: 0 <= o < c.order ==> Rejected(o, objsize, align, offSlab)
  {
    var order := 0;
    while order <= KMALLOC_MAX_ORDER
      invariant 0 <= order <= KMALLOC_MAX_ORDER + 1
      invariant forall o :: 0 <= o < order ==> Rejected(o, objsize, align, offSlab)
    {
      var remainder, num := CacheEstimate(order, objsize, align, offSlab);
      if num != 0 && remainder * 8 % W32 <= PGSIZE * Pow2(order) {
        return Choice(order, num, remainder);
      }
      forall n, r | Estimate(order, objsize, align, offSlab, n, r) ensures !Acceptable(order, n, r) {
        EstimateUnique(order, objsize, align, offSlab, num, remainder, n, r);
      }
      order := order + 1;
    }
    return NoChoice;
  }

  // ---------- a cache ----------

  lemma MaxObject()
    ensures Pow2(MAX_SIZE_ORDER) == MAX_OBJECT
  {
    assert Pow2(8) == 256 && Pow2(9) == 512;
    Pow2Add(8, 9);
  }

  /** getorder: the least order from 5 to 17 that is enough for n bytes, or (size_t)-1 */
  method GetOrder(n: nat) returns (order: nat)
    ensures order == OrderFor(n)
    ensures order <= MAX_SIZE_ORDER ==> MIN_SIZE_ORDER <= order && n <= Pow2(order)
    ensures MIN_SIZE_ORDER < order <= MAX_SIZE_ORDER ==> n > Pow2(order - 1)
    ensures order > MAX_SIZE_ORDER <==> n > MAX_OBJECT
  {
    MaxObject();
    order := MIN_SIZE_ORDER;
    var orderSize := Pow2(MIN_SIZE_ORDER);
    while order <= MAX_SIZE_ORDER
      invariant MIN_SIZE_ORDER <= order <= MAX_SIZE_ORDER + 1 && orderSize == Pow2(order)
      invariant OrderFor(n) == OrderFrom(n, order)
      invariant order > MIN_SIZE_ORDER ==> n > Pow2(order - 1)
    {
      if n <= orderSize {
        Pow2Mono(order, MAX_SIZE_ORDER);
        return;
      }
      order, orderSize := order + 1, orderSize * 2;
    }
    order := 0xFFFF_FFFF;
  }

  function OrderFor(n: nat): nat {
    OrderFrom(n, MIN_SIZE_ORDER)
  }

  function OrderFrom(n: nat, order: nat): nat
    decreases MAX_SIZE_ORDER + 1 - order
  {
    if order > MAX_SIZE_ORDER then 0xFFFF_FFFF else if n <= Pow2(order) then order else OrderFrom(n, order + 1)
  }

  /** The fields of a kmem_cache_t that init_kmem_cache sets for good; slabCache is the
      index in slab_cache of the cache that off-slab control areas come from. */
  datatype Layout = Layout(objsize: nat, order: nat, num: nat, offSlab: bool, offset: nat, slabCache: int)

  /** The objects, and the control area where it belongs, fit into the slab, of which at
      most one eighth stays unused. */
  ghost predicate WellLaid(l: Layout, align: nat)
    requires align > 0
  {
    && l.num > 0 && l.order <= KMALLOC_MAX_ORDER
    && (if l.offSlab then l.offset == 0 else l.offset == MgmtSize(l.num, align) >= SLAB_T + l.num * BUFCTL_T)
    && l.offset + l.num * l.objsize <= SlabSize(l.order)
    && 8 * (SlabSize(l.order) - l.offset - l.num * l.objsize) <= SlabSize(l.order)
    && l.slabCache == if l.offSlab then OrderFor(MgmtSize(l.num, align)) - MIN_SIZE_ORDER else 0
  }

  /** The outcome of init_kmem_cache for objects of objsize bytes. */
  ghost predicate Initialised(objsize: nat, align: nat, c: Choice, l: Layout)
    requires align > 0
  {
    var off := objsize >= PGSIZE / 8;
    if c.NoChoice? then
      forall o :: 0 <= o <= KMALLOC_MAX_ORDER ==> Rejected(o, objsize, align, off)
    else
      && c.order <= KMALLOC_MAX_ORDER
      && WellLaid(l, align) && l.objsize == objsize && l.order == c.order && l.num == c.num
      && Estimate(c.order, objsize, align, off, c.num, c.leftOver) && Acceptable(c.order, c.num, c.leftOver)
      && (forall o :: 0 <= o < c.order ==> Rejected(o, objsize, align, off))
      && (l.offSlab <==> off && c.leftOver < MgmtSize(c.num, align))
  }

  /** init_kmem_cache.  Where no order is acceptable the source leaves num and page_order
      as they are; here the layout then has neither. */
  method InitKmemCache(objsize0: nat, align: nat) returns (c: Choice, l: Layout)
    requires objsize0 < W32 && 0 < align < W32
    ensures Initialised(if objsize0 + align <= W32 then RoundUp(objsize0, align) else 0, align, c, l)
  {
    Rounded(objsize0, align);
    var objsize := RoundUp32(objsize0, align);
    var offSlab := objsize >= PGSIZE / 8;
    EstimatesStop(objsize, align);
    c := CalculateSlabOrder(objsize, align, offSlab);
    l := Layout(objsize, 0, 0, offSlab, 0, 0);
    if c.Choice? {
      var mgmtSize := MgmtSize32(c.num, align);
      ChoiceSmall(objsize, align, offSlab, c);
      if offSlab && c.leftOver >= mgmtSize {
        offSlab := false;
      }
      if offSlab {
        var order := GetOrder(mgmtSize);
        l := Layout(objsize, c.order, c.num, offSlab, 0, order - MIN_SIZE_ORDER);
      } else {
        l := Layout(objsize, c.order, c.num, offSlab, mgmtSize, 0);
      }
    }
  }

  /** Line 225: if rounding wraps around, the object size becomes 0. */
  lemma Rounded(objsize: nat, align: nat)
    requires objsize < W32 && 0 < align < W32
    ensures RoundUp32(objsize, align) == if objsize + align <= W32 then RoundUp(objsize, align) else 0
    ensures RoundUp32(objsize, align) == 0 || align <= RoundUp32(objsize, align) < W32
  {
    hide RoundUp, RoundUp32;
    WrappedRounding(objsize, align);
  }

  /** For objects small enough for the slab every estimate stops: their size is 0, or the
      alignment is less than a page. */
  lemma EstimatesStop(objsize: nat, align: nat)
    requires 0 < align < W32 && (objsize == 0 || align <= objsize < W32)
    ensures objsize < PGSIZE / 8 ==> forall o :: 0 <= o <= KMALLOC_MAX_ORDER ==> SomePasses(o, objsize, align)
  {
    if objsize < PGSIZE / 8 {
      forall o | 0 <= o <= KMALLOC_MAX_ORDER ensures SomePasses(o, objsize, align) {
        SlabSizes(o);
        EstimateStops(o, objsize, align);
      }
    }
  }

  /** Nothing wraps around in the control area of an accepted estimate. */
  lemma ChoiceSmall(objsize: nat, align: nat, offSlab: bool, c: Choice)
    requires 0 < align < W32 && (objsize == 0 || align <= objsize < W32) && (offSlab <==> objsize >= PGSIZE / 8)
    requires c.Choice? && c.order <= KMALLOC_MAX_ORDER && Acceptable(c.order, c.num, c.leftOver)
    requires Estimate(c.order, objsize, align, offSlab, c.num, c.leftOver)
    ensures MgmtSize32(c.num, align) == MgmtSize(c.num, align) >= SLAB_T + c.num * BUFCTL_T
    ensures c.leftOver + c.num * objsize <= SlabSize(c.order) && 8 * c.leftOver <= SlabSize(c.order)
    ensures !offSlab ==> align <= SlabSize(c.order)
  {
    hide MgmtSize, MgmtSize32, SlabSize, FirstGuess;
    SlabSizes(c.order);
    if offSlab {
      FewObjects(c.num, objsize, SlabSize(c.order));
    } else if align > SlabSize(c.order) {
      ZeroEstimate(c.order, align, c.num, c.leftOver);
    } else {
      ControlBelow(c.num, align);
    }
    ControlSmall(c.num, align);
  }

  lemma FewObjects(num: nat, objsize: nat, size: nat)
    requires num > 0 && objsize >= PGSIZE / 8 && num * objsize <= size
    ensures objsize <= size && num * BUFCTL_T <= size
  {
    MulMono(1, num, objsize);
    MulMono(PGSIZE / 8, objsize, num);
  }

  lemma ControlBelow(num: nat, align: nat)
    requires align > 0
    ensures SLAB_T + num * BUFCTL_T <= MgmtSize(num, align)
  {
    RoundUpBounds(SLAB_T + num * BUFCTL_T, align);
  }

  lemma ControlSmall(num: nat, align: nat)
    requires align > 0 && SLAB_T + num * BUFCTL_T + align <= W32
    ensures MgmtSize32(num, align) == MgmtSize(num, align)
    ensures SLAB_T + num * BUFCTL_T <= MgmtSize(num, align) < SLAB_T + num * BUFCTL_T + align
  {
    Small(SLAB_T + num * BUFCTL_T, align);
    RoundUpBounds(SLAB_T + num * BUFCTL_T, align);
  }

  // ---------- the caches of slab_init ----------

  const ALIGN := 16

  /** The layout of slab_cache[i], which holds objects of 2^(i + 5) bytes. */
  function Table(i: nat): Layout
    requires i < SLAB_CACHE_NUM
  {
    if i == 0 then Layout(32, 0, 113, false, 480, 0)
    else if i == 1 then Layout(64, 0, 59, false, 272, 0)
    else if i == 2 then Layout(128, 0, 30, false, 144, 0)
    else if i == 3 then Layout(256, 0, 15, false, 96, 0)
    else if i == 4 then Layout(512, 0, 8, true, 0, 1)
    else if i == 5 then Layout(1024, 0, 4, true, 0, 1)
    else if i == 6 then Layout(2048, 0, 2, true, 0, 0)
    else if i == 7 then Layout(4096, 0, 1, true, 0, 0)
    else Layout(Pow2(i + MIN_SIZE_ORDER), i - 7, 1, true, 0, 0)
  }

  lemma OnSlabEstimate(i: nat)
    requires i < 4
    ensures Estimate(0, Table(i).objsize, ALIGN, false, Table(i).num,
              SlabSize(0) - Table(i).offset - Table(i).num * Table(i).objsize)
  {
    var l := Table(i);
    assert !Fits(0, l.objsize, ALIGN, l.num + 1);
    forall k: nat | k > l.num ensures !Fits(0, l.objsize, ALIGN, k) {
      if Fits(0, l.objsize, ALIGN, k) {
        FitsMono(0, l.objsize, ALIGN, l.num + 1, k);
      }
    }
  }

  lemma OffSlabEstimate(i: nat)
    requires 4 <= i < SLAB_CACHE_NUM
    ensures Estimate(Table(i).order, Table(i).objsize, ALIGN, true, Table(i).num, 0)
    ensures forall o :: 0 <= o < Table(i).order ==> SlabSize(o) < Table(i).objsize
  {
    if i >= 8 {
      GreatSlabs(i);
      forall o | 0 <= o < Table(i).order ensures SlabSize(o) < Table(i).objsize {
        LesserSlab(o, i);
      }
    }
  }

  lemma LesserSlab(o: nat, i: nat)
    requires 8 <= i < SLAB_CACHE_NUM && o < i - 7
    ensures SlabSize(o) < SlabSize(i - 7)
  {
    Pow2Mono(o + 1, i - 7);
  }

  lemma SizeRounded(i: nat)
    ensures RoundUp(Pow2(i + MIN_SIZE_ORDER), ALIGN) == Pow2(i + MIN_SIZE_ORDER)
  {
    hide Pow2;
    Pow2Add(4, i + 1);
    AreRounded(Pow2(i + 1));
    TwoToFour();
  }

  lemma AreRounded(q: nat)
    ensures RoundUp(ALIGN * q, ALIGN) == ALIGN * q
  {
  }

  lemma TwoToFour()
    ensures Pow2(4) == ALIGN
  {
  }

  lemma TableSizes(i: nat)
    requires i < SLAB_CACHE_NUM
    ensures Table(i).objsize == Pow2(i + MIN_SIZE_ORDER)
    ensures (Table(i).offSlab <==> Table(i).objsize >= PGSIZE / 8) && Table(i).order <= KMALLOC_MAX_ORDER
  {
    Pow2Add(4, i + 1);
    if i >= 4 {
      Pow2Mono(9, i + MIN_SIZE_ORDER);
    }
  }

  /** The estimate on which calculate_slab_order settles for slab_cache[i]. */
  lemma TableChosen(i: nat)
    requires i < SLAB_CACHE_NUM
    ensures var l := Table(i); var r := SlabSize(l.order) - l.offset - l.num * l.objsize;
            && r >= 0 && Estimate(l.order, l.objsize, ALIGN, l.offSlab, l.num, r) && Acceptable(l.order, l.num, r)
            && forall o :: 0 <= o < l.order ==> Rejected(o, l.objsize, ALIGN, l.offSlab)
  {
    var l := Table(i);
    if i < 4 {
      OnSlabEstimate(i);
    } else {
      OffSlabEstimate(i);
      forall o | 0 <= o < l.order ensures Rejected(o, l.objsize, ALIGN, true) {
        forall n: nat, r: nat | Estimate(o, l.objsize, ALIGN, true, n, r) ensures n == 0 {
          if n > 0 {
            MulMono(1, n, l.objsize);
          }
        }
      }
      if i >= 8 {
        GreatSlabs(i);
      }
    }
  }

  lemma TableControl(i: nat)
    requires i < SLAB_CACHE_NUM
    ensures var l := Table(i);
            && (l.offSlab ==> 0 < MgmtSize(l.num, ALIGN))
            && (l.offSlab ==> l.slabCache == OrderFor(MgmtSize(l.num, ALIGN)) - MIN_SIZE_ORDER)
            && (l.offSlab ==> 0 <= l.slabCache < 4 && MgmtSize(l.num, ALIGN) <= Table(l.slabCache).objsize)
            && (!l.offSlab ==> l.offset == MgmtSize(l.num, ALIGN) && l.slabCache == 0)
            && (l.offSlab ==> l.offset == 0 && SlabSize(l.order) == l.num * l.objsize)
  {
    hide MgmtSize, OrderFor;
    ControlAreas();
    ControlOrders();
    if i >= 8 {
      hide SlabSize;
      GreatSlabs(i);
    }
  }

  /** The control areas of the 13 caches */
  lemma ControlAreas()
    ensures MgmtSize(113, ALIGN) == 480 && MgmtSize(59, ALIGN) == 272
    ensures MgmtSize(30, ALIGN) == 144 && MgmtSize(15, ALIGN) == 96
    ensures MgmtSize(8, ALIGN) == 64 && MgmtSize(4, ALIGN) == 48 && MgmtSize(2, ALIGN) == MgmtSize(1, ALIGN) == 32
  {
    hide MgmtSize;
    Area(113, 30); Area(59, 17); Area(30, 9); Area(15, 6);
    Area(8, 4); Area(4, 3); Area(2, 2); Area(1, 2);
  }

  lemma Area(num: nat, q: nat)
    requires q * ALIGN <= SLAB_T + num * BUFCTL_T + ALIGN - 1 < q * ALIGN + ALIGN
    ensures MgmtSize(num, ALIGN) == q * ALIGN
  {
  }

  /** The orders of those that are off the slab */
  lemma ControlOrders()
    ensures OrderFor(64) == OrderFor(48) == 6 && OrderFor(32) == 5
  {
    assert Pow2(5) == 32 && Pow2(6) == 64;
  }

  /** Slabs of more than one page hold one object. */
  lemma GreatSlabs(i: nat)
    requires 8 <= i < SLAB_CACHE_NUM
    ensures SlabSize(i - 7) == Pow2(i + MIN_SIZE_ORDER)
  {
    Pow2Add(12, i - 7);
  }

  /** slab_init */
  method SlabInit() returns (ls: seq<Layout>)
    ensures |ls| == SLAB_CACHE_NUM && forall i :: 0 <= i < SLAB_CACHE_NUM ==> ls[i] == Table(i)
  {
    ls := [];
    while |ls| < SLAB_CACHE_NUM
      invariant |ls| <= SLAB_CACHE_NUM && forall i :: 0 <= i < |ls| ==> ls[i] == Table(i)
    {
      var l := InitCache(|ls|);
      ls := ls + [l];
    }
  }

  /** Line 113 */
  method InitCache(i: nat) returns (l: Layout)
    requires i < SLAB_CACHE_NUM
    ensures l == Table(i)
  {
    hide Table, Initialised, RoundUp, Pow2;
    MaxObject();
    Pow2Mono(i + MIN_SIZE_ORDER, MAX_SIZE_ORDER);
    var c, layout := InitKmemCache(Pow2(i + MIN_SIZE_ORDER), ALIGN);
    TableSizes(i);
    SizeRounded(i);
    LayoutIsTable(i, c, layout);
    l := layout;
  }

  lemma LayoutIsTable(i: nat, c: Choice, l: Layout)
    requires i < SLAB_CACHE_NUM
    requires Initialised(Table(i).objsize, ALIGN, c, l)
    ensures l == Table(i)
  {
    hide Table, Initialised, Estimate, Rejected, Acceptable, MgmtSize, OrderFor, SlabSize, Pow2, RoundUp;
    TableSizes(i);
    TableChosen(i);
    TableControl(i);
    var t := Table(i);
    SameChoice(t, SlabSize(t.order) - t.offset - t.num * t.objsize, c, l);
  }

  lemma SameChoice(t: Layout, r: nat, c: Choice, l: Layout)
    requires Initialised(t.objsize, ALIGN, c, l) && t.objsize > 0 && t.order <= KMALLOC_MAX_ORDER
    requires t.offSlab <==> t.objsize >= PGSIZE / 8
    requires Estimate(t.order, t.objsize, ALIGN, t.offSlab, t.num, r) && Acceptable(t.order, t.num, r)
    requires forall o :: 0 <= o < t.order ==> Rejected(o, t.objsize, ALIGN, t.offSlab)
    requires t.offSlab ==> r < MgmtSize(t.num, ALIGN) && t.offset == 0
    requires !t.offSlab ==> t.offset == MgmtSize(t.num, ALIGN)
    requires t.slabCache == if t.offSlab then OrderFor(MgmtSize(t.num, ALIGN)) - MIN_SIZE_ORDER else 0
    ensures l == t
  {
    assert !Rejected(t.order, t.objsize, ALIGN, t.offSlab);
    assert c.Choice?;
    assert c.order < t.order ==> Rejected(c.order, t.objsize, ALIGN, t.offSlab);
    EstimateUnique(t.order, t.objsize, ALIGN, t.offSlab, t.num, r, c.num, c.leftOver);
  }

  lemma TableFits(i: nat)
    requires i < SLAB_CACHE_NUM
    ensures var l := Table(i);
            && 0 < l.num <= 113 && l.objsize > 0 && l.order <= KMALLOC_MAX_ORDER
            && l.offset + l.num * l.objsize <= PGSIZE * Pow2(l.order)
            && (!l.offSlab ==> SLAB_T + l.num * BUFCTL_T <= l.offset)
            && (l.offSlab ==> SLAB_T + l.num * BUFCTL_T <= Table(l.slabCache).objsize)
            && (l.offSlab ==> !Table(l.slabCache).offSlab && Table(l.slabCache).order == 0)
  {
    if i >= 8 {
      Pow2Add(12, i - 7);
    }
  }
}
