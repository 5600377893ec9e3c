// Counting with sequences of distinct numbers and with images of sets.

module Counting {
  ghost predicate NoDup<T>(s: seq<T>) {
    forall i, j :: 0 <= i < j < |s| ==> s[i] != s[j]
  }

  /** The entries of c. */
  ghost function Elements(c: seq<nat>): (r: set<int>)
    ensures forall i :: i in r <==> i >= 0 && i in c
  {
    if c == [] then {} else Elements(c[1..]) + {c[0]}
  }

  lemma {:induction false} ElementsCount(c: seq<nat>)
    requires NoDup(c)
    ensures |Elements(c)| == |c|
  {
    if c != [] {
      ElementsCount(c[1..]);
      assert c[0] !in c[1..];
    }
  }

  ghost function Below(n: nat): (r: set<int>)
    ensures (forall i :: i in r <==> 0 <= i < n) && |r| == n
  {
    if n == 0 then {} else Below(n - 1) + {n - 1}
  }

  /** The images of the numbers in ks under f. */
  ghost function Image(ks: set<int>, f: int -> int): set<int> {
    set k | k in ks :: f(k)
  }

  lemma {:induction false} ImageCount(ks: set<int>, f: int -> int)
    requires forall j, k :: j in ks && k in ks && f(j) == f(k) ==> j == k
    ensures |Image(ks, f)| == |ks|
    decreases |ks|
  {
    assert (forall k :: k !in ks) ==> ks == {};
    if ks == {} {
      assert Image(ks, f) == {};
    } else {
      var k :| k in ks;
      ImageCount(ks - {k}, f);
      assert Image(ks, f) == Image(ks - {k}, f) + {f(k)};
    }
  }

  /** More distinct numbers than there are below m do not exist. */
  lemma {:induction false} Pigeonhole(c: seq<nat>, m: nat)
    requires forall k :: 0 <= k < |c| ==> c[k] < m
    requires NoDup(c)
    ensures |c| <= m
  {
    assert c == [] || c[0] < m;
    if m > 0 {
      if j :| 0 <= j < |c| && c[j] == m - 1 {
        Pigeonhole(c[..j] + c[j + 1..], m - 1);
      } else {
        Pigeonhole(c, m - 1);
      }
    }
  }
}
