// libs/list.h: circular doubly linked lists threaded through entries that are
// embedded in larger structs.  A list is a head entry h and the sequence s of the
// entries after it.

module Lists {
  import opened Counting

  class Entry<T> {
    var prev: Entry<T>
    var next: Entry<T>
    /** What to_struct recovers: the struct the entry is embedded in. */
    const owner: T

    constructor (owner: T)
      ensures this.owner == owner
    {
      this.owner := owner;
      prev, next := this, this;
    }
  }

  /** Entry<T> k of the ring: the head comes before and after the entries of s. */
  function Around<T>(h: Entry<T>, s: seq<Entry<T>>, k: nat): Entry<T>
    requires k <= |s| + 1
  {
    if k == 0 || k == |s| + 1 then h else s[k - 1]
  }

  ghost predicate Linked<T>(h: Entry<T>, s: seq<Entry<T>>, k: nat)
    requires k <= |s|
    reads h, s
  {
    Around(h, s, k).next == Around(h, s, k + 1) && Around(h, s, k + 1).prev == Around(h, s, k)
  }

  ghost predicate Ring<T>(h: Entry<T>, s: seq<Entry<T>>)
    reads h, s
  {
    h !in s && NoDup(s) && forall k :: 0 <= k <= |s| ==> Linked(h, s, k)
  }

  function Insert<T>(s: seq<T>, i: nat, x: T): seq<T>
    requires i <= |s|
  {
    s[..i] + [x] + s[i..]
  }

  function Remove<T>(s: seq<T>, i: nat): seq<T>
    requires i < |s|
  {
    s[..i] + s[i + 1..]
  }

  method ListInit<T>(h: Entry<T>)
    modifies h
    ensures Ring(h, [])
  {
    h.prev, h.next := h, h;
  }

  method ListAddAfter<T>(cur: Entry<T>, node: Entry<T>, ghost h: Entry<T>, ghost s: seq<Entry<T>>, ghost i: nat)
    requires Ring(h, s) && i <= |s| && cur == Around(h, s, i) && node != h && node !in s
    modifies cur, cur.next, node
    ensures Ring(h, Insert(s, i, node))
  {
    ghost var s' := Insert(s, i, node);
    ghost var nx := cur.next;
    assert Linked(h, s, i);
    assert nx == Around(h, s, i + 1);
    cur.next.prev := node;
    node.next := cur.next;
    node.prev := cur;
    cur.next := node;
    forall k | 0 <= k <= |s'| ensures Linked(h, s', k) {
      if k < i {
        assert old(Linked(h, s, k));
      } else if k > i + 1 {
        assert old(Linked(h, s, k - 1));
      }
    }
  }

  /** list_add */
  method ListAdd<T>(cur: Entry<T>, node: Entry<T>, ghost h: Entry<T>, ghost s: seq<Entry<T>>, ghost i: nat)
    requires Ring(h, s) && i <= |s| && cur == Around(h, s, i) && node != h && node !in s
    modifies cur, cur.next, node
    ensures Ring(h, Insert(s, i, node))
  {
    ListAddAfter(cur, node, h, s, i);
  }

  method ListAddBefore<T>(cur: Entry<T>, node: Entry<T>, ghost h: Entry<T>, ghost s: seq<Entry<T>>, ghost i: nat)
    requires Ring(h, s) && i <= |s| && cur == Around(h, s, i + 1) && node != h && node !in s
    modifies cur, cur.prev, node
    ensures Ring(h, Insert(s, i, node))
  {
    ghost var s' := Insert(s, i, node);
    assert Linked(h, s, i);
    assert cur.prev == Around(h, s, i);
    cur.prev.next := node;
    node.next := cur;
    node.prev := cur.prev;
    cur.prev := node;
    forall k | 0 <= k <= |s'| ensures Linked(h, s', k) {
      if k < i {
        assert old(Linked(h, s, k));
      } else if k > i + 1 {
        assert old(Linked(h, s, k - 1));
      }
    }
  }

  /** list_del leaves the pointers of the removed entry as they are. */
  method ListDel<T>(cur: Entry<T>, ghost h: Entry<T>, ghost s: seq<Entry<T>>, ghost i: nat)
    requires Ring(h, s) && i < |s| && cur == s[i]
    modifies cur.prev, cur.next
    ensures Ring(h, Remove(s, i)) && cur.prev == old(cur.prev) && cur.next == old(cur.next)
  {
    ghost var s' := Remove(s, i);
    assert Linked(h, s, i) && Linked(h, s, i + 1);
    cur.prev.next := cur.next;
    cur.next.prev := cur.prev;
    forall k | 0 <= k <= |s'| ensures Linked(h, s', k) {
      if k < i {
        assert old(Linked(h, s, k));
      } else if k > i {
        assert old(Linked(h, s, k + 1));
      }
    }
  }

  method ListDelInit<T>(cur: Entry<T>, ghost h: Entry<T>, ghost s: seq<Entry<T>>, ghost i: nat)
    requires Ring(h, s) && i < |s| && cur == s[i]
    modifies cur, cur.prev, cur.next
    ensures Ring(h, Remove(s, i)) && Ring(cur, [])
  {
    assert Linked(h, s, i) && Linked(h, s, i + 1);
    assert allocated(s);
    ListDel(cur, h, s, i);
    ListInit(cur);
  }

  method ListEmpty<T>(h: Entry<T>, ghost s: seq<Entry<T>>) returns (b: bool)
    requires Ring(h, s)
    ensures b <==> s == []
  {
    assert Linked(h, s, 0);
    b := h.next == h;
  }

  method ListNext<T>(cur: Entry<T>, ghost h: Entry<T>, ghost s: seq<Entry<T>>, ghost i: nat) returns (e: Entry<T>)
    requires Ring(h, s) && i <= |s| && cur == Around(h, s, i)
    ensures e == cur.next && e == Around(h, s, i + 1)
  {
    assert Linked(h, s, i);
    e := cur.next;
  }

  method ListPrev<T>(cur: Entry<T>, ghost h: Entry<T>, ghost s: seq<Entry<T>>, ghost i: nat) returns (e: Entry<T>)
    requires Ring(h, s) && i <= |s| && cur == Around(h, s, i + 1)
    ensures e == cur.prev && e == Around(h, s, i)
  {
    assert Linked(h, s, i);
    e := cur.prev;
  }

  /** Taking out an entry that was put in gives the list back, and the other way round. */
  lemma InsertRemove<T>(s: seq<T>, i: nat, x: T)
    requires i <= |s|
    ensures Remove(Insert(s, i, x), i) == s
    ensures i < |s| ==> Insert(Remove(s, i), i, s[i]) == s
  {
  }
}
