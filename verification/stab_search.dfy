// kern/debug/kdebug.c, lines 25-110: binary search among the entries of one type.

module StabSearch {
  import opened Arith

  datatype Stab = Stab(kind: int, value: word)

  /** The last entry of the kind from i down to l, or l - 1 */
  function LastOf(stabs: seq<Stab>, kind: int, l: int, i: int): (m: int)
    requires 0 <= l <= i + 1 <= |stabs|
    ensures l - 1 <= m <= i && (m >= l ==> stabs[m].kind == kind)
    ensures forall j :: m < j <= i ==> stabs[j].kind != kind
    decreases i
  {
    if i < l then l - 1 else if stabs[i].kind == kind then i else LastOf(stabs, kind, l, i - 1)
  }

  /** The variables of the loop */
  datatype State = State(l: int, r: int, left: int, right: int, addr: nat, any: bool)

  ghost predicate InBounds(stabs: seq<Stab>, s: State) {
    0 <= s.l && s.r < |stabs| && s.l <= |stabs| && s.r >= -1 && s.right < |stabs| && s.left >= 0
  }

  /** One round of the loop */
  function Round(stabs: seq<Stab>, kind: int, s: State): (t: State)
    requires InBounds(stabs, s) && s.l <= s.r
    ensures InBounds(stabs, t)
  {
    var trueM := (s.l + s.r) / 2;
    var m := LastOf(stabs, kind, s.l, trueM);
    if m < s.l then s.(l := trueM + 1)
    else if stabs[m].value < s.addr then s.(any := true, left := m, l := trueM + 1)
    else if stabs[m].value > s.addr then s.(any := true, right := m - 1, r := m - 1)
    else s.(any := true, left := m, l := m, addr := (s.addr + 1) % W32)
  }

  function Size(s: State): nat {
    if s.l <= s.r then s.r - s.l + 1 else 0
  }

  /** 1 if the entry at l is an exact match, which one round passes without moving l. */
  function Stuck(stabs: seq<Stab>, kind: int, s: State): nat
    requires InBounds(stabs, s)
  {
    if s.l <= s.r && stabs[s.l].kind == kind && stabs[s.l].value == s.addr then 1 else 0
  }

  /** Every round makes the region smaller, or an exact match at its left end an inexact one. */
  lemma RoundShrinks(stabs: seq<Stab>, kind: int, s: State)
    requires InBounds(stabs, s) && s.l <= s.r && s.addr < W32
    ensures var t := Round(stabs, kind, s);
            t.addr < W32 && (Size(t) < Size(s) || (Size(t) == Size(s) && Stuck(stabs, kind, t) < Stuck(stabs, kind, s)))
  {
  }

  function Loop(stabs: seq<Stab>, kind: int, s: State): (t: State)
    requires InBounds(stabs, s) && s.addr < W32
    ensures InBounds(stabs, t) && t.l > t.r
    decreases Size(s), Stuck(stabs, kind, s)
  {
    if s.l <= s.r then RoundShrinks(stabs, kind, s); Loop(stabs, kind, Round(stabs, kind, s)) else s
  }

  /** Lines 100-109 */
  function Finish(stabs: seq<Stab>, kind: int, t: State): (int, int)
    requires InBounds(stabs, t)
  {
    if !t.any then (t.left, t.left - 1)
    else (if t.right <= t.left then t.right else LastAbove(stabs, kind, t.left, t.right), t.right)
  }

  /** The last entry of the kind from i down to above low, or low */
  function LastAbove(stabs: seq<Stab>, kind: int, low: int, i: int): (m: int)
    requires 0 <= low <= i < |stabs|
    ensures low <= m <= i && (m > low ==> stabs[m].kind == kind)
    ensures forall j :: m < j <= i ==> stabs[j].kind != kind
    decreases i
  {
    if i > low && stabs[i].kind != kind then LastAbove(stabs, kind, low, i - 1) else i
  }

  function Search(stabs: seq<Stab>, kind: int, left: int, right: int, addr: nat): (int, int)
    requires 0 <= left <= |stabs| && -1 <= right < |stabs| && addr < W32
  {
    Finish(stabs, kind, Loop(stabs, kind, State(left, right, left, right, addr, false)))
  }

  /** Lines 75-77 */
  method ScanBack(stabs: seq<Stab>, kind: int, l: int, trueM: int) returns (m: int)
    requires 0 <= l <= trueM < |stabs|
    ensures m == LastOf(stabs, kind, l, trueM)
  {
    m := trueM;
    while m >= l && stabs[m].kind != kind
      invariant l - 1 <= m <= trueM && LastOf(stabs, kind, l, m) == LastOf(stabs, kind, l, trueM)
    {
      m := m - 1;
    }
  }

  /** Lines 100-109 */
  method FinishSearch(stabs: seq<Stab>, kind: int, s: State) returns (left: int, right: int)
    requires InBounds(stabs, s)
    ensures (left, right) == Finish(stabs, kind, s)
  {
    left, right := s.left, s.right;
    if !s.any {
      right := left - 1;
    } else {
      var l := right;
      while l > left && stabs[l].kind != kind
        invariant right > left ==>
                  left <= l <= right && LastAbove(stabs, kind, left, l) == LastAbove(stabs, kind, left, right)
        invariant right <= left ==> l == right
      {
        l := l - 1;
      }
      left := l;
    }
  }

  /** Lines 72-97 */
  method OneRound(stabs: seq<Stab>, kind: int, s: State) returns (t: State)
    requires InBounds(stabs, s) && s.l <= s.r
    ensures t == Round(stabs, kind, s)
  {
    t := s;
    var trueM := (s.l + s.r) / 2;
    var m := ScanBack(stabs, kind, s.l, trueM);
    if m < s.l {
      t := t.(l := trueM + 1);
    } else {
      t := t.(any := true);
      if stabs[m].value < s.addr {
        t := t.(left := m, l := trueM + 1);
      } else if stabs[m].value > s.addr {
        t := t.(right := m - 1, r := m - 1);
      } else {
        t := t.(left := m, l := m, addr := (s.addr + 1) % W32);
      }
    }
  }

  /** stab_binsearch, for every table and region */
  method StabBinsearch(stabs: seq<Stab>, left0: int, right0: int, kind: int, addr0: nat) returns (left: int, right: int)
    requires 0 <= left0 <= |stabs| && -1 <= right0 < |stabs| && addr0 < W32
    ensures (left, right) == Search(stabs, kind, left0, right0, addr0)
  {
    var s := State(left0, right0, left0, right0, addr0, false);
    ghost var end := Loop(stabs, kind, s);
    while s.l <= s.r
      invariant InBounds(stabs, s) && s.addr < W32 && Loop(stabs, kind, s) == end
      decreases Size(s), Stuck(stabs, kind, s)
    {
      RoundShrinks(stabs, kind, s);
      s := OneRound(stabs, kind, s);
    }
    left, right := FinishSearch(stabs, kind, s);
  }

  // ---------- what is found ----------

  predicate IsKind(stabs: seq<Stab>, kind: int, i: int) {
    0 <= i < |stabs| && stabs[i].kind == kind
  }

  /** The entries of the kind in the region have increasing values. */
  ghost predicate Increasing(stabs: seq<Stab>, kind: int, left: int, right: int) {
    forall i, j :: left <= i < j <= right && IsKind(stabs, kind, i) && IsKind(stabs, kind, j) ==>
        stabs[i].value < stabs[j].value
  }

  /** Entry p is the last of the kind in the region whose value is at most addr. */
  ghost predicate Holds(stabs: seq<Stab>, kind: int, left: int, right: int, addr: nat, p: int) {
    && left <= p <= right && IsKind(stabs, kind, p) && stabs[p].value <= addr
    && forall i :: p < i <= right && IsKind(stabs, kind, i) ==> stabs[i].value > addr
  }

  /** No entry has the value after that of an exact match, which a caller can read off the
      table. */
  ghost predicate NoneNext(stabs: seq<Stab>, kind: int, left: int, right: int, addr: nat, p: int)
    requires IsKind(stabs, kind, p)
  {
    stabs[p].value == addr ==> addr + 1 < W32 && forall i :: left <= i <= right && IsKind(stabs, kind, i) ==>
        stabs[i].value != addr + 1
  }

  /** What the loop keeps: the entries before l are not behind p, p is not behind right, and
      right is before no entry but the one after p. */
  ghost predicate Searching(stabs: seq<Stab>, kind: int, left: int, right: int, addr: nat, p: int, s: State)
    requires IsKind(stabs, kind, p)
  {
    && InBounds(stabs, s) && s.r == s.right <= right && left <= s.l && p <= s.right
    && left <= s.left <= p
    && (forall i :: left <= i < s.l && IsKind(stabs, kind, i) ==> i <= p)
    && (s.right == right || IsKind(stabs, kind, s.right + 1))
    && (s.addr == addr || (s.addr == addr + 1 < W32 && stabs[p].value == addr))
    && (!s.any ==> s.right == right && forall i :: left <= i < s.l ==> !IsKind(stabs, kind, i))
  }

  lemma RoundKeeps(stabs: seq<Stab>, kind: int, left: int, right: int, addr: nat, p: int, s: State)
    requires 0 <= left <= right < |stabs| && addr < W32 && Increasing(stabs, kind, left, right)
    requires Holds(stabs, kind, left, right, addr, p) && NoneNext(stabs, kind, left, right, addr, p)
    requires Searching(stabs, kind, left, right, addr, p, s) && s.l <= s.r
    ensures Searching(stabs, kind, left, right, addr, p, Round(stabs, kind, s))
  {
    hide LastOf;
    var trueM := (s.l + s.r) / 2;
    var m := LastOf(stabs, kind, s.l, trueM);
    if m >= s.l {
      assert IsKind(stabs, kind, m) && left <= m <= right;
      assert stabs[m].value == s.addr ==> m == p;
      assert stabs[m].value < s.addr ==> m <= p;
      assert stabs[m].value > s.addr ==> m > p;
    }
  }

  lemma {:induction false} LoopKeeps(stabs: seq<Stab>, kind: int, left: int, right: int, addr: nat, p: int, s: State)
    requires 0 <= left <= right < |stabs| && addr < W32 && Increasing(stabs, kind, left, right)
    requires Holds(stabs, kind, left, right, addr, p) && NoneNext(stabs, kind, left, right, addr, p)
    requires Searching(stabs, kind, left, right, addr, p, s) && s.addr < W32
    ensures Searching(stabs, kind, left, right, addr, p, Loop(stabs, kind, s))
    decreases Size(s), Stuck(stabs, kind, s)
  {
    if s.l <= s.r {
      RoundShrinks(stabs, kind, s);
      RoundKeeps(stabs, kind, left, right, addr, p, s);
      LoopKeeps(stabs, kind, left, right, addr, p, Round(stabs, kind, s));
    }
  }

  /** The region from l to r is that of entry p: it ends before the next entry of the kind,
      or with the region given. */
  ghost predicate Found(stabs: seq<Stab>, kind: int, right: int, p: int, l: int, r: int) {
    && l == p && p <= r <= right && (r == right || IsKind(stabs, kind, r + 1))
    && forall i :: p < i <= r ==> !IsKind(stabs, kind, i)
  }

  /** The entry found is the last of the kind whose value is at most addr, and the region
      found ends before the next entry of the kind, or with the region given. */
  lemma SearchFinds(stabs: seq<Stab>, kind: int, left: int, right: int, addr: nat, p: int)
    requires 0 <= left <= right < |stabs| && addr < W32 && Increasing(stabs, kind, left, right)
    requires Holds(stabs, kind, left, right, addr, p) && NoneNext(stabs, kind, left, right, addr, p)
    ensures var (l, r) := Search(stabs, kind, left, right, addr); Found(stabs, kind, right, p, l, r)
  {
    var s := State(left, right, left, right, addr, false);
    LoopKeeps(stabs, kind, left, right, addr, p, s);
    Finished(stabs, kind, left, right, addr, p, Loop(stabs, kind, s));
  }

  lemma Finished(stabs: seq<Stab>, kind: int, left: int, right: int, addr: nat, p: int, t: State)
    requires left <= p <= right < |stabs| && IsKind(stabs, kind, p) &&
             Searching(stabs, kind, left, right, addr, p, t) && t.l > t.r
    ensures Finish(stabs, kind, t) == (p, t.right) && forall i :: p < i <= t.right ==> !IsKind(stabs, kind, i)
  {
    assert left <= p < t.l && t.any;
    if t.left < t.right {
      var m := LastAbove(stabs, kind, t.left, t.right);
      assert m >= p;
      assert m > t.left ==> IsKind(stabs, kind, m);
    }
  }

  /** Why NoneNext is asked for: of two entries with values 7 and 8, address 7 finds the
      second. */
  lemma NextValueExample(stabs: seq<Stab>)
    requires stabs == [Stab(0, 7), Stab(0, 8)]
    ensures Holds(stabs, 0, 0, 1, 7, 0) && Search(stabs, 0, 0, 1, 7) == (1, 1)
  {
    var s1 := State(0, 1, 0, 1, 8, true);
    var s2 := State(1, 1, 0, 1, 8, true);
    var s3 := State(1, 1, 1, 1, 9, true);
    var s4 := State(2, 1, 1, 1, 9, true);
    assert Round(stabs, 0, State(0, 1, 0, 1, 7, false)) == s1;
    assert Round(stabs, 0, s1) == s2;
    assert Round(stabs, 0, s2) == s3;
    assert Round(stabs, 0, s3) == s4;
    assert Loop(stabs, 0, s1) == Loop(stabs, 0, s2) == Loop(stabs, 0, s3) == s4;
  }

  /** What the loop keeps where f is the first entry of the kind and all are above addr */
  ghost predicate Below(stabs: seq<Stab>, kind: int, left: int, right: int, addr: nat, f: int, s: State) {
    && InBounds(stabs, s) && s.r == s.right <= right && left <= s.l <= f && s.left == left && s.addr == addr
    && s.right >= f - 1 && (!s.any ==> s.right == right)
  }

  lemma {:induction false} LoopBelow(stabs: seq<Stab>, kind: int, left: int, right: int, addr: nat, f: int, s: State)
    requires 0 <= left <= f <= right < |stabs| && addr < W32 && IsKind(stabs, kind, f)
    requires forall i :: left <= i <= right && IsKind(stabs, kind, i) ==> i >= f && stabs[i].value > addr
    requires Below(stabs, kind, left, right, addr, f, s)
    ensures Below(stabs, kind, left, right, addr, f, Loop(stabs, kind, s))
    decreases Size(s), Stuck(stabs, kind, s)
  {
    if s.l <= s.r {
      var m := LastOf(stabs, kind, s.l, (s.l + s.r) / 2);
      assert m >= s.l ==> IsKind(stabs, kind, m);
      RoundShrinks(stabs, kind, s);
      LoopBelow(stabs, kind, left, right, addr, f, Round(stabs, kind, s));
    }
  }

  /** Where all entries of the kind are above addr, the region before the first of them is
      found: it is not empty, though the documentation promises that. */
  lemma SearchFindsBelow(stabs: seq<Stab>, kind: int, left: int, right: int, addr: nat, f: int)
    requires 0 <= left <= f <= right < |stabs| && addr < W32 && IsKind(stabs, kind, f)
    requires forall i :: left <= i <= right && IsKind(stabs, kind, i) ==> i >= f && stabs[i].value > addr
    ensures Search(stabs, kind, left, right, addr) == (if f - 1 > left then left else f - 1, f - 1)
  {
    var s := State(left, right, left, right, addr, false);
    LoopBelow(stabs, kind, left, right, addr, f, s);
    var t := Loop(stabs, kind, s);
    assert t.right == f - 1 && t.any;
    if t.left < t.right {
      var m := LastAbove(stabs, kind, left, f - 1);
      assert m > left ==> IsKind(stabs, kind, m);
    }
  }

  /** Without an entry of the kind the region found is empty. */
  lemma SearchFindsNone(stabs: seq<Stab>, kind: int, left: int, right: int, addr: nat)
    requires 0 <= left <= |stabs| && -1 <= right < |stabs| && addr < W32
    requires forall i :: left <= i <= right ==> !IsKind(stabs, kind, i)
    ensures Search(stabs, kind, left, right, addr) == (left, left - 1)
  {
    NoneMatches(stabs, kind, left, right, State(left, right, left, right, addr, false));
  }

  lemma {:induction false} NoneMatches(stabs: seq<Stab>, kind: int, left: int, right: int, s: State)
    requires InBounds(stabs, s) && s.addr < W32 && s.r <= right && left <= s.l
    requires forall i :: left <= i <= right ==> !IsKind(stabs, kind, i)
    ensures Loop(stabs, kind, s).any == s.any && Loop(stabs, kind, s).left == s.left
    decreases Size(s), Stuck(stabs, kind, s)
  {
    if s.l <= s.r {
      var m := LastOf(stabs, kind, s.l, (s.l + s.r) / 2);
      assert m >= s.l ==> IsKind(stabs, kind, m);
      RoundShrinks(stabs, kind, s);
      NoneMatches(stabs, kind, left, right, Round(stabs, kind, s));
    }
  }

  // ---------- an entry next to an exact match ----------

  /** The next entry to look at has the value addr. */
  predicate Hits(stabs: seq<Stab>, kind: int, s: State)
    requires InBounds(stabs, s)
  {
    s.l <= s.r && var m := LastOf(stabs, kind, s.l, (s.l + s.r) / 2); m >= s.l && stabs[m].value == s.addr
  }

  /** The state in which the loop first finds an exact match, or ends without one */
  function FirstHit(stabs: seq<Stab>, kind: int, s: State): (h: State)
    requires InBounds(stabs, s) && s.addr < W32
    ensures InBounds(stabs, h) && h.addr == s.addr && (h.l <= h.r ==> Hits(stabs, kind, h))
    ensures Loop(stabs, kind, s) == Loop(stabs, kind, h)
    decreases Size(s)
  {
    if s.l > s.r || Hits(stabs, kind, s) then s
    else RoundShrinks(stabs, kind, s); FirstHit(stabs, kind, Round(stabs, kind, s))
  }

  /** What the loop keeps while it looks for p, whose value is addr */
  ghost predicate Hunting(stabs: seq<Stab>, kind: int, left: int, right: int, addr: nat, p: int, s: State) {
    && InBounds(stabs, s) && s.r == s.right <= right && left <= s.l <= p <= s.right && s.addr == addr &&
      left <= s.left <= p
    && (forall i :: left <= i < s.l && IsKind(stabs, kind, i) ==> i <= p)
    && (s.right == right || IsKind(stabs, kind, s.right + 1))
    && (!s.any ==> s.right == right && forall i :: left <= i < s.l ==> !IsKind(stabs, kind, i))
  }

  lemma HuntingKeeps(stabs: seq<Stab>, kind: int, left: int, right: int, addr: nat, p: int, s: State)
    requires 0 <= left <= right < |stabs| && addr < W32 && Increasing(stabs, kind, left, right)
    requires left <= p <= right && IsKind(stabs, kind, p) && stabs[p].value == addr
    requires Hunting(stabs, kind, left, right, addr, p, s) && !Hits(stabs, kind, s)
    ensures Hunting(stabs, kind, left, right, addr, p, Round(stabs, kind, s))
  {
    hide LastOf;
    var m := LastOf(stabs, kind, s.l, (s.l + s.r) / 2);
    if m >= s.l {
      assert IsKind(stabs, kind, m) && left <= m <= right;
      assert stabs[m].value < addr ==> m < p;
      assert stabs[m].value > addr ==> m > p;
    }
  }

  lemma {:induction false} HuntingEnds(stabs: seq<Stab>, kind: int, left: int, right: int, addr: nat, p: int, s: State)
    requires 0 <= left <= right < |stabs| && addr < W32 && Increasing(stabs, kind, left, right)
    requires left <= p <= right && IsKind(stabs, kind, p) && stabs[p].value == addr
    requires Hunting(stabs, kind, left, right, addr, p, s)
    ensures var h := FirstHit(stabs, kind, s); Hunting(stabs, kind, left, right, addr, p, h) && h.l <= h.r
    decreases Size(s)
  {
    if !Hits(stabs, kind, s) {
      HuntingKeeps(stabs, kind, left, right, addr, p, s);
      RoundShrinks(stabs, kind, s);
      HuntingEnds(stabs, kind, left, right, addr, p, Round(stabs, kind, s));
    }
  }

  /** The state at the first exact match of a search */
  function HitState(stabs: seq<Stab>, kind: int, left: int, right: int, addr: nat): (h: State)
    requires 0 <= left <= |stabs| && -1 <= right < |stabs| && addr < W32
    ensures InBounds(stabs, h) && h.addr < W32
    ensures Loop(stabs, kind, State(left, right, left, right, addr, false)) == Loop(stabs, kind, h)
  {
    FirstHit(stabs, kind, State(left, right, left, right, addr, false))
  }

  /** The entry with value addr + 1, if there is one, is cut off before addr itself is met.
      This replays the search; NoneNext is the part of it that the table shows. */
  ghost predicate CutOff(stabs: seq<Stab>, kind: int, left: int, right: int, addr: nat)
    requires 0 <= left <= |stabs| && -1 <= right < |stabs| && addr < W32
  {
    forall i :: left <= i <= HitState(stabs, kind, left, right, addr).right && IsKind(stabs, kind, i) ==>
        stabs[i].value != addr + 1
  }

  /** What the loop keeps once it looks for the value of entry q, or has found it */
  ghost predicate Overshooting(stabs: seq<Stab>, kind: int, right: int, q: int, s: State)
    requires IsKind(stabs, kind, q)
  {
    && InBounds(stabs, s) && s.r == s.right <= right && q <= s.right && s.any && s.addr < W32
    && if s.l > q then q <= s.left else s.addr == stabs[q].value || (s.addr > stabs[q].value && q == s.l == s.left)
  }

  lemma OvershootKeeps(stabs: seq<Stab>, kind: int, left: int, right: int, q: int, s: State)
    requires 0 <= left <= right < |stabs| && Increasing(stabs, kind, left, right)
    requires left <= q <= right && IsKind(stabs, kind, q) && stabs[q].value + 1 < W32
    requires Overshooting(stabs, kind, right, q, s) && left <= s.l <= s.r
    ensures Overshooting(stabs, kind, right, q, Round(stabs, kind, s)) && left <= Round(stabs, kind, s).l
  {
    var m := LastOf(stabs, kind, s.l, (s.l + s.r) / 2);
    if m >= s.l {
      assert IsKind(stabs, kind, m) && left <= m <= right;
      assert stabs[m].value < stabs[q].value ==> m < q;
      assert stabs[m].value > stabs[q].value ==> m > q;
      assert stabs[m].value == stabs[q].value ==> m == q;
    }
  }

  lemma {:induction false} Overshoot(stabs: seq<Stab>, kind: int, left: int, right: int, q: int, s: State)
    requires 0 <= left <= right < |stabs| && Increasing(stabs, kind, left, right)
    requires left <= q <= right && IsKind(stabs, kind, q) && stabs[q].value + 1 < W32
    requires Overshooting(stabs, kind, right, q, s) && left <= s.l
    ensures Overshooting(stabs, kind, right, q, Loop(stabs, kind, s))
    decreases Size(s), Stuck(stabs, kind, s)
  {
    if s.l <= s.r {
      OvershootKeeps(stabs, kind, left, right, q, s);
      RoundShrinks(stabs, kind, s);
      Overshoot(stabs, kind, left, right, q, Round(stabs, kind, s));
    }
  }

  /** What the loop keeps while it looks for entry q, whose value is the greatest of all, and
      when it has found it and goes on looking for 0 */
  ghost predicate Topmost(stabs: seq<Stab>, kind: int, right: int, q: int, s: State) {
    && InBounds(stabs, s) && s.r == s.right <= right && s.l <= q
    && if s.addr == 0 then s.any && s.left == s.l == q && q - 1 <= s.right else s.addr == W32 - 1 && q <= s.right
  }

  lemma {:induction false} TopmostEnds(stabs: seq<Stab>, kind: int, left: int, right: int, q: int, s: State)
    requires 0 <= left <= right < |stabs| && Increasing(stabs, kind, left, right)
    requires left <= q <= right && IsKind(stabs, kind, q) && stabs[q].value == W32 - 1
    requires Topmost(stabs, kind, right, q, s) && left <= s.l
    ensures Finish(stabs, kind, Loop(stabs, kind, s)) == (q - 1, q - 1)
    decreases Size(s), Stuck(stabs, kind, s)
  {
    if s.l <= s.r {
      var m := LastOf(stabs, kind, s.l, (s.l + s.r) / 2);
      if m >= s.l {
        assert IsKind(stabs, kind, m) && left <= m <= right;
        assert m <= q && (m < q ==> stabs[m].value < stabs[q].value);
      }
      RoundShrinks(stabs, kind, s);
      TopmostEnds(stabs, kind, left, right, q, Round(stabs, kind, s));
    }
  }

  /** The search is right unless it takes the value after that of an exact match for it: that
      is so if the match has no value after it, or if the entry with that value is still in
      the region when the match is met.  If its value is the greatest of all, it is cut off
      after all, and the search is right if it comes directly behind the match. */
  lemma SearchExact(stabs: seq<Stab>, kind: int, left: int, right: int, addr: nat, p: int)
    requires 0 <= left <= right < |stabs| && addr < W32 && Increasing(stabs, kind, left, right)
    requires Holds(stabs, kind, left, right, addr, p)
    ensures var (l, r) := Search(stabs, kind, left, right, addr);
            Found(stabs, kind, right, p, l, r) <==>
              || stabs[p].value != addr
              || (addr + 1 < W32 && CutOff(stabs, kind, left, right, addr))
              || (addr + 2 == W32 && p < right && IsKind(stabs, kind, p + 1))
  {
    if stabs[p].value != addr {
      SearchFinds(stabs, kind, left, right, addr, p);
    } else if addr + 1 == W32 {
      TopmostEnds(stabs, kind, left, right, p, State(left, right, left, right, addr, false));
    } else if CutOff(stabs, kind, left, right, addr) {
      CutOffFinds(stabs, kind, left, right, addr, p);
    } else if addr + 2 == W32 {
      TopmostNext(stabs, kind, left, right, addr, p);
    } else {
      NextMisleads(stabs, kind, left, right, addr, p);
    }
  }

  /** Where the search is when it meets the exact match */
  lemma HitHunted(stabs: seq<Stab>, kind: int, left: int, right: int, addr: nat, p: int)
    requires 0 <= left <= right < |stabs| && addr < W32 && Increasing(stabs, kind, left, right)
    requires left <= p <= right && IsKind(stabs, kind, p) && stabs[p].value == addr
    ensures var h := HitState(stabs, kind, left, right, addr);
            && Hunting(stabs, kind, left, right, addr, p, h) && h.l <= h.r && Hits(stabs, kind, h)
            && Search(stabs, kind, left, right, addr) == Finish(stabs, kind, Loop(stabs, kind, h))
  {
    HuntingEnds(stabs, kind, left, right, addr, p, State(left, right, left, right, addr, false));
  }

  lemma CutOffFinds(stabs: seq<Stab>, kind: int, left: int, right: int, addr: nat, p: int)
    requires 0 <= left <= right < |stabs| && addr + 1 < W32 && Increasing(stabs, kind, left, right)
    requires Holds(stabs, kind, left, right, addr, p) && stabs[p].value == addr
    requires CutOff(stabs, kind, left, right, addr)
    ensures var (l, r) := Search(stabs, kind, left, right, addr); Found(stabs, kind, right, p, l, r)
  {
    hide Search, Loop, FirstHit, HitState;
    var h := HitState(stabs, kind, left, right, addr);
    HitHunted(stabs, kind, left, right, addr, p);
    assert Holds(stabs, kind, left, h.right, addr, p) && NoneNext(stabs, kind, left, h.right, addr, p);
    assert Increasing(stabs, kind, left, h.right) && Searching(stabs, kind, left, h.right, addr, p, h);
    LoopKeeps(stabs, kind, left, h.right, addr, p, h);
    Finished(stabs, kind, left, h.right, addr, p, Loop(stabs, kind, h));
  }

  /** Where the search does not cut off the entry of value addr + 1: it is entry q, and the
      search goes on from s for it. */
  lemma NextSought(stabs: seq<Stab>, kind: int, left: int, right: int, addr: nat, p: int) returns (q: int, s: State)
    requires 0 <= left <= right < |stabs| && addr + 1 < W32 && Increasing(stabs, kind, left, right)
    requires Holds(stabs, kind, left, right, addr, p) && stabs[p].value == addr
    requires !CutOff(stabs, kind, left, right, addr)
    ensures p < q <= right && IsKind(stabs, kind, q) && stabs[q].value == addr + 1 == s.addr
    ensures InBounds(stabs, s) && s.l == p && s.any && s.r == s.right <= right && q <= s.right
    ensures Search(stabs, kind, left, right, addr) == Finish(stabs, kind, Loop(stabs, kind, s))
  {
    hide Search, Loop, FirstHit, HitState, Round, Finish;
    var h := HitState(stabs, kind, left, right, addr);
    HitHunted(stabs, kind, left, right, addr, p);
    q :| left <= q <= h.right && IsKind(stabs, kind, q) && stabs[q].value == addr + 1;
    HitIsExact(stabs, kind, left, right, addr, p, h);
    s := Round(stabs, kind, h);
    LoopRound(stabs, kind, h);
  }

  lemma LoopRound(stabs: seq<Stab>, kind: int, s: State)
    requires InBounds(stabs, s) && s.addr < W32 && s.l <= s.r
    ensures Round(stabs, kind, s).addr < W32 && Loop(stabs, kind, s) == Loop(stabs, kind, Round(stabs, kind, s))
  {
  }

  lemma NextMisleads(stabs: seq<Stab>, kind: int, left: int, right: int, addr: nat, p: int)
    requires 0 <= left <= right < |stabs| && addr + 2 < W32 && Increasing(stabs, kind, left, right)
    requires Holds(stabs, kind, left, right, addr, p) && stabs[p].value == addr
    requires !CutOff(stabs, kind, left, right, addr)
    ensures Search(stabs, kind, left, right, addr).0 > p
  {
    hide Search, CutOff;
    var q, s := NextSought(stabs, kind, left, right, addr, p);
    Overshoot(stabs, kind, left, right, q, s);
    FinishBeyond(stabs, kind, q, Loop(stabs, kind, s));
  }

  lemma FinishBeyond(stabs: seq<Stab>, kind: int, q: int, t: State)
    requires InBounds(stabs, t) && t.any && t.left >= q && t.right >= q
    ensures Finish(stabs, kind, t).0 >= q
  {
  }

  lemma TopmostNext(stabs: seq<Stab>, kind: int, left: int, right: int, addr: nat, p: int)
    requires 0 <= left <= right < |stabs| && addr + 2 == W32 && Increasing(stabs, kind, left, right)
    requires Holds(stabs, kind, left, right, addr, p) && stabs[p].value == addr
    requires !CutOff(stabs, kind, left, right, addr)
    ensures var (l, r) := Search(stabs, kind, left, right, addr);
            Found(stabs, kind, right, p, l, r) <==> p < right && IsKind(stabs, kind, p + 1)
  {
    hide Search, CutOff, Finish;
    var q, s := NextSought(stabs, kind, left, right, addr, p);
    TopmostEnds(stabs, kind, left, right, q, s);
    assert p < right && IsKind(stabs, kind, p + 1) ==> q == p + 1;
  }

  lemma HitIsExact(stabs: seq<Stab>, kind: int, left: int, right: int, addr: nat, p: int, h: State)
    requires 0 <= left <= right < |stabs| && addr + 1 < W32 && Increasing(stabs, kind, left, right)
    requires left <= p <= right && IsKind(stabs, kind, p) && stabs[p].value == addr
    requires Hunting(stabs, kind, left, right, addr, p, h) && Hits(stabs, kind, h)
    ensures Round(stabs, kind, h) == h.(any := true, left := p, l := p, addr := addr + 1)
  {
    var m := LastOf(stabs, kind, h.l, (h.l + h.r) / 2);
    assert IsKind(stabs, kind, m) && left <= m <= right;
    assert m == p;
  }
}
