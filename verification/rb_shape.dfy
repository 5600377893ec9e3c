// The mathematical side of kern/libs/rb_tree.c: trees and zippers whose nodes
// are the heap objects of the intrusive tree.  Nothing in this module reads a
// mutable field of a node.

module RbShape {
  import opened Arith
  import opened Counting

  /** The C struct rb_node, embedded by its users in a larger struct. */
  class Node {
    var red: bool
    var parent: Node
    var left: Node
    var right: Node

    constructor ()
    {
      red := false;
      parent, left, right := this, this, this;
    }
  }

  /** The pair (_left, _right) the source passes to its macros, by its first half. */
  datatype Side = Left | Right

  function Other(d: Side): Side {
    if d.Left? then Right else Left
  }

  datatype Shape = Leaf | Fork(red: bool, l: Shape, n: Node, r: Shape)

  /** What surrounds a subtree, innermost step first: Step(up, n, c, d, sib) says the
      subtree hangs on side d of node n, whose colour is c and whose other child is sib. */
  datatype Path = Top | Step(up: Path, n: Node, red: bool, side: Side, sib: Shape)

  // ---------- trees ----------

  function Near(t: Shape, d: Side): Shape
    requires t.Fork?
  {
    if d.Left? then t.l else t.r
  }

  function Mk(red: bool, d: Side, near: Shape, n: Node, far: Shape): (t: Shape)
  {
    if d.Left? then Fork(red, near, n, far) else Fork(red, far, n, near)
  }

  ghost function Nodes(t: Shape): set<Node> {
    match t
    case Leaf => {}
    case Fork(_, l, n, r) => Nodes(l) + {n} + Nodes(r)
  }

  ghost function Inorder(t: Shape): seq<Node> {
    match t
    case Leaf => []
    case Fork(_, l, n, r) => Inorder(l) + [n] + Inorder(r)
  }

  /** No node object occurs twice. */
  ghost predicate Apart(t: Shape) {
    match t
    case Leaf => true
    case Fork(_, l, n, r) =>
      Apart(l) && Apart(r) && n !in Nodes(l) && n !in Nodes(r) && Nodes(l) !! Nodes(r)
  }

  predicate IsRed(t: Shape) {
    t.Fork? && t.red
  }

  function Weight(red: bool): nat {
    if red then 0 else 1
  }

  /** Black nodes on the leftmost way down. */
  ghost function BlackHeight(t: Shape): nat {
    match t
    case Leaf => 0
    case Fork(c, l, _, _) => BlackHeight(l) + Weight(c)
  }

  ghost predicate Balanced(t: Shape) {
    match t
    case Leaf => true
    case Fork(_, l, _, r) => Balanced(l) && Balanced(r) && BlackHeight(l) == BlackHeight(r)
  }

  ghost predicate NoRedRed(t: Shape) {
    match t
    case Leaf => true
    case Fork(c, l, _, r) => NoRedRed(l) && NoRedRed(r) && (c ==> !IsRed(l) && !IsRed(r))
  }

  /** The invariant of a red-black tree. */
  ghost predicate RedBlack(t: Shape) {
    Balanced(t) && NoRedRed(t) && !IsRed(t)
  }

  function Paint(t: Shape, red: bool): Shape {
    if t.Leaf? then Leaf else t.(red := red)
  }

  function Rotated(d: Side, t: Shape): Shape
    requires t.Fork? && Near(t, Other(d)).Fork?
  {
    var y := Near(t, Other(d));
    Mk(y.red, d, Mk(t.red, d, Near(t, d), t.n, Near(y, d)), y.n, Near(y, Other(d)))
  }

  lemma ChildParts(t: Shape)
    requires t.Fork? && Apart(t)
    ensures t.n !in Nodes(t.l) && t.n !in Nodes(t.r) && Nodes(t.l) !! Nodes(t.r)
    ensures t.l.Fork? ==> t.l.n in Nodes(t.l) && {t.n, t.l.n} !! Nodes(t.l.l) && {t.n, t.l.n} !! Nodes(t.l.r)
    ensures t.r.Fork? ==> t.r.n in Nodes(t.r) && {t.n, t.r.n} !! Nodes(t.r.l) && {t.n, t.r.n} !! Nodes(t.r.r)
  {
    assert Apart(t.l) && Apart(t.r);
  }

  lemma RootIn(t: Shape)
    ensures t.Fork? ==> t.n in Nodes(t)
  {
  }

  /** Another node in the place of the root of t */
  lemma ReplaceParts(t: Shape, y: Node)
    requires t.Fork? && Apart(t) && y !in Nodes(t)
    ensures var s := Fork(t.red, t.l, y, t.r);
            Apart(s) && Nodes(s) == Nodes(t.l) + {y} + Nodes(t.r) && Nodes(t) == Nodes(t.l) + {t.n} + Nodes(t.r)
    ensures t.l.Fork? ==> Nodes(t.l) == Nodes(t.l.l) + {t.l.n} + Nodes(t.l.r)
    ensures t.r.Fork? ==> Nodes(t.r) == Nodes(t.r.l) + {t.r.n} + Nodes(t.r.r)
  {
  }

  lemma RotateParts(d: Side, t: Shape)
    requires t.Fork? && Near(t, Other(d)).Fork? && Apart(t)
    ensures var s := Near(t, Other(d)); var m := Near(s, d);
            && Nodes(t) == Nodes(Near(t, d)) + {t.n} + {s.n} + Nodes(m) + Nodes(Near(s, Other(d)))
            && t.n != s.n && {t.n, s.n} !! Nodes(Near(t, d)) && {t.n, s.n} !! Nodes(Near(s, Other(d)))
            && {t.n, s.n} !! Nodes(m)
            && (m.Fork? ==> m.n !in Nodes(m.l) && m.n !in Nodes(m.r))
            && (m.Fork? ==> m.n !in Nodes(Near(t, d)) && m.n !in Nodes(Near(s, Other(d))))
  {
    assert Apart(Near(t, Other(d)));
    assert Apart(Near(Near(t, Other(d)), d));
  }

  lemma RotatedNodes(d: Side, t: Shape)
    requires t.Fork? && Near(t, Other(d)).Fork? && Apart(t)
    ensures Nodes(Rotated(d, t)) == Nodes(t) && Apart(Rotated(d, t))
  {
    RotateParts(d, t);
    var s := Near(t, Other(d));
    var x := Mk(t.red, d, Near(t, d), t.n, Near(s, d));
    assert Apart(s);
    assert Apart(x) && Nodes(x) == Nodes(Near(t, d)) + {t.n} + Nodes(Near(s, d));
  }

  lemma RotatedInorder(d: Side, t: Shape)
    requires t.Fork? && Near(t, Other(d)).Fork?
    ensures Inorder(Rotated(d, t)) == Inorder(t)
  {
    var y := Near(t, Other(d));
    if d == Left {
      Shift(Inorder(t.l) + [t.n], Inorder(y.l), [y.n], Inorder(y.r));
    } else {
      Shift(Inorder(y.l), [y.n], Inorder(y.r), [t.n] + Inorder(t.r));
    }
  }

  // ---------- paths ----------

  ghost function PathNodes(p: Path): set<Node> {
    match p
    case Top => {}
    case Step(up, n, _, _, sib) => PathNodes(up) + {n} + Nodes(sib)
  }

  ghost predicate PathApart(p: Path) {
    match p
    case Top => true
    case Step(up, n, _, _, sib) =>
      PathApart(up) && Apart(sib) && n !in PathNodes(up) && n !in Nodes(sib) && Nodes(sib) !! PathNodes(up)
  }

  /** The subtree one step further up. */
  function Close(p: Path, t: Shape): Shape
    requires p.Step?
  {
    Mk(p.red, p.side, t, p.n, p.sib)
  }

  function Plug(p: Path, t: Shape): Shape {
    match p
    case Top => t
    case Step(up, _, _, _, _) => Plug(up, Close(p, t))
  }

  /** The path of p followed by that of base. */
  function Append(p: Path, base: Path): Path {
    match p
    case Top => base
    case Step(up, n, c, d, sib) => Step(Append(up, base), n, c, d, sib)
  }

  lemma {:induction false} AppendTop(p: Path)
    ensures Append(p, Top) == p
  {
    if p.Step? {
      AppendTop(p.up);
    }
  }

  ghost function Before(p: Path): seq<Node> {
    match p
    case Top => []
    case Step(up, n, _, Left, sib) => Before(up)
    case Step(up, n, _, Right, sib) => Before(up) + Inorder(sib) + [n]
  }

  ghost function After(p: Path): seq<Node> {
    match p
    case Top => []
    case Step(up, n, _, Left, sib) => [n] + Inorder(sib) + After(up)
    case Step(up, n, _, Right, sib) => After(up)
  }

  lemma {:induction false} PlugInorder(p: Path, t: Shape)
    ensures Inorder(Plug(p, t)) == Before(p) + Inorder(t) + After(p)
  {
    match p
    case Top =>
      assert Before(p) == [] && After(p) == [];
    case Step(up, n, c, d, sib) =>
      PlugInorder(up, Close(p, t));
      if d == Left {
        Regroup(Before(up), Inorder(t), [n], Inorder(sib), After(up));
      } else {
        Regroup(Before(up), Inorder(sib), [n], Inorder(t), After(up));
      }
  }

  lemma Shift<T>(a: seq<T>, b: seq<T>, c: seq<T>, d: seq<T>)
    ensures a + (b + c) + d == a + b + (c + d)
    ensures a + (b + c) + d == (a + b) + c + d
  {
  }

  lemma {:induction false} PlugNodes(p: Path, t: Shape)
    ensures Nodes(Plug(p, t)) == PathNodes(p) + Nodes(t)
    ensures Apart(Plug(p, t)) <==> PathApart(p) && Apart(t) && PathNodes(p) !! Nodes(t)
  {
    match p
    case Top =>
    case Step(up, n, c, d, sib) =>
      PlugNodes(up, Close(p, t));
      assert Nodes(Close(p, t)) == Nodes(t) + {n} + Nodes(sib);
  }

  lemma {:induction false} PlugAppend(p: Path, base: Path, t: Shape)
    ensures Plug(Append(p, base), t) == Plug(base, Plug(p, t))
  {
    match p
    case Top =>
    case Step(up, n, c, d, sib) => PlugAppend(up, base, Close(p, t));
  }

  /** Plugging a balanced tree of black height h gives a balanced tree. */
  ghost predicate PathBalanced(p: Path, h: nat) {
    match p
    case Top => true
    case Step(up, _, c, _, sib) => Balanced(sib) && BlackHeight(sib) == h && PathBalanced(up, h + Weight(c))
  }

  /** No red node of the path has a red neighbour on it; the node at the top is black. */
  ghost predicate PathNoRedRed(p: Path) {
    match p
    case Top => true
    case Step(up, _, c, _, sib) =>
      NoRedRed(sib) && PathNoRedRed(up) && (c ==> !IsRed(sib) && up.Step? && !up.red)
  }

  ghost predicate MayHangRed(p: Path) {
    p.Step? && !p.red
  }

  lemma {:induction false} PlugRedBlack(p: Path, t: Shape)
    ensures RedBlack(Plug(p, t)) <==>
      Balanced(t) && NoRedRed(t) && PathBalanced(p, BlackHeight(t)) && PathNoRedRed(p)
      && (IsRed(t) ==> MayHangRed(p))
  {
    match p
    case Top =>
    case Step(up, n, c, d, sib) => PlugRedBlack(up, Close(p, t));
  }

  /** The black nodes on a way down. */
  ghost function BlacksOn(p: Path): nat {
    match p
    case Top => 0
    case Step(up, _, c, _, _) => BlacksOn(up) + Weight(c)
  }

  /** All ways down a balanced tree meet equally many black nodes. */
  lemma {:induction false} SameBlacks(p: Path, t: Shape)
    requires Balanced(Plug(p, t))
    ensures Balanced(t) && BlackHeight(Plug(p, t)) == BlacksOn(p) + BlackHeight(t)
  {
    if p.Step? {
      SameBlacks(p.up, Close(p, t));
    }
  }

  ghost function Length(p: Path): nat {
    if p.Top? then 0 else Length(p.up) + 1
  }

  ghost function Members(s: seq<Node>): set<Node> {
    set a | a in s
  }

  lemma {:induction false} MembersInorder(t: Shape)
    ensures Members(Inorder(t)) == Nodes(t)
  {
    match t
    case Leaf =>
    case Fork(_, l, n, r) =>
      MembersInorder(l);
      MembersInorder(r);
      assert Members(Inorder(t)) == Members(Inorder(l)) + {n} + Members(Inorder(r));
  }

  /** The same nodes in the same order. */
  ghost predicate SameTree(p: Path, t: Shape, q: Path, s: Shape) {
    Inorder(Plug(p, t)) == Inorder(Plug(q, s))
  }

  lemma SameNodes(p: Path, t: Shape, q: Path, s: Shape)
    requires SameTree(p, t, q, s)
    ensures PathNodes(p) + Nodes(t) == PathNodes(q) + Nodes(s)
  {
    PlugNodes(p, t);
    PlugNodes(q, s);
    MembersInorder(Plug(p, t));
    MembersInorder(Plug(q, s));
  }

  /** Two subtrees with the same nodes in the same order are interchangeable. */
  lemma Interchange(p: Path, a: Shape, b: Shape)
    requires Inorder(a) == Inorder(b)
    ensures Inorder(Plug(p, a)) == Inorder(Plug(p, b))
  {
    PlugInorder(p, a);
    PlugInorder(p, b);
  }

  lemma MkFacts(c: bool, d: Side, a: Shape, n: Node, b: Shape)
    ensures Balanced(Mk(c, d, a, n, b)) <==> Balanced(a) && Balanced(b) && BlackHeight(a) == BlackHeight(b)
    ensures BlackHeight(a) == BlackHeight(b) ==> BlackHeight(Mk(c, d, a, n, b)) == BlackHeight(a) + Weight(c)
    ensures NoRedRed(Mk(c, d, a, n, b)) <==> NoRedRed(a) && NoRedRed(b) && (c ==> !IsRed(a) && !IsRed(b))
  {
  }

  /** Colouring a red node black. */
  lemma PaintFacts(t: Shape)
    ensures Balanced(Paint(t, false)) <==> Balanced(t)
    ensures BlackHeight(Paint(t, false)) == BlackHeight(t) + if IsRed(t) then 1 else 0
    ensures NoRedRed(t) ==> NoRedRed(Paint(t, false))
    ensures Inorder(Paint(t, false)) == Inorder(t)
  {
  }

  // ---------- orders ----------

  /** compare is a three-way comparison on S. */
  ghost predicate ThreeWay(compare: (Node, Node) -> int, S: set<Node>) {
    && (forall a, b :: a in S && b in S ==> (compare(a, b) > 0 <==> compare(b, a) < 0))
    && (forall a, b, c :: a in S && b in S && c in S && compare(a, b) <= 0 && compare(b, c) <= 0 ==> compare(a, c) <= 0)
  }

  ghost predicate Sorted(compare: (Node, Node) -> int, s: seq<Node>) {
    forall i, j :: 0 <= i < j < |s| ==> compare(s[i], s[j]) <= 0
  }

  ghost predicate AtMost(compare: (Node, Node) -> int, s: seq<Node>, node: Node) {
    forall a :: a in s ==> compare(a, node) <= 0
  }

  ghost predicate Above(compare: (Node, Node) -> int, s: seq<Node>, node: Node) {
    forall a :: a in s ==> compare(a, node) > 0
  }

  /** The position that rb_insert_binary's comparisons lead node to. */
  ghost predicate Descended(compare: (Node, Node) -> int, p: Path, node: Node) {
    match p
    case Top => true
    case Step(up, n, _, d, _) => (d == Left <==> compare(n, node) > 0) && Descended(compare, up, node)
  }

  ghost predicate Within(s: seq<Node>, S: set<Node>) {
    forall a :: a in s ==> a in S
  }

  /** In a sorted sequence the elements above node form a suffix. */
  lemma SortedCut(compare: (Node, Node) -> int, s: seq<Node>, i: nat, node: Node, S: set<Node>)
    requires Sorted(compare, s) && i < |s| && ThreeWay(compare, S) && node in S && Within(s, S)
    ensures compare(s[i], node) > 0 ==> Above(compare, s[i..], node)
    ensures compare(s[i], node) <= 0 ==> AtMost(compare, s[..i + 1], node)
  {
    forall j | 0 <= j < |s|
      ensures j >= i && compare(s[i], node) > 0 ==> compare(s[j], node) > 0
      ensures j <= i && compare(s[i], node) <= 0 ==> compare(s[j], node) <= 0
    {
      assert s[i] in S && s[j] in S;
    }
  }

  lemma {:induction false} DescentSeparates(compare: (Node, Node) -> int, p: Path, m: seq<Node>, s: seq<Node>,
      node: Node, S: set<Node>)
    requires Descended(compare, p, node) && ThreeWay(compare, S) && node in S
    requires s == Before(p) + m + After(p) && Sorted(compare, s) && Within(s, S)
    ensures AtMost(compare, Before(p), node) && Above(compare, After(p), node)
    decreases p
  {
    if p.Step? {
      var m' := StepBack(p, m);
      DescentSeparates(compare, p.up, m', s, node, S);
      SortedCut(compare, s, if p.side == Left then |Before(p) + m| else |Before(p)| - 1, node, S);
    }
  }

  lemma StepBack(p: Path, m: seq<Node>) returns (m': seq<Node>)
    requires p.Step?
    ensures var s := Before(p) + m + After(p);
            && s == Before(p.up) + m' + After(p.up)
            && (p.side == Left ==> s[|Before(p) + m|..] == After(p) && After(p)[0] == p.n && Before(p) == Before(p.up))
            && (p.side == Right ==>
              |Before(p)| > 0 && s[..|Before(p)|] == Before(p) && s[|Before(p)| - 1] == p.n && After(p) == After(p.up))
  {
    var o := Inorder(p.sib);
    if p.side == Left {
      m' := m + ([p.n] + o);
    } else {
      m' := o + [p.n] + m;
      assert Before(p) == Before(p.up) + o + [p.n];
    }
  }

  /** A node placed after everything at most as great leaves the order sorted. */
  lemma SortedInsert(compare: (Node, Node) -> int, a: seq<Node>, node: Node, b: seq<Node>, S: set<Node>)
    requires Sorted(compare, a + b) && AtMost(compare, a, node) && Above(compare, b, node)
    requires ThreeWay(compare, S) && node in S && Within(a + b, S)
    ensures Sorted(compare, a + [node] + b)
  {
    var s := a + [node] + b;
    forall i, j | 0 <= i < j < |s| ensures compare(s[i], s[j]) <= 0 {
      var i', j' := if i <= |a| then i else i - 1, if j <= |a| then j else j - 1;
      if i == |a| {
        assert s[j] in b && s[j] in a + b;
      } else if j == |a| {
        assert s[i] in a;
      } else {
        assert s[i] == (a + b)[i'] && s[j] == (a + b)[j'];
      }
    }
  }

  /** node goes into s at k after everything that is at most as great. */
  ghost predicate RightSpot(compare: (Node, Node) -> int, s: seq<Node>, k: nat, node: Node)
    requires k <= |s|
  {
    Sorted(compare, s) && ThreeWay(compare, Members(s) + {node}) ==>
      AtMost(compare, s[..k], node) && Above(compare, s[k..], node) && Sorted(compare, s[..k] + [node] + s[k..])
  }

  lemma DescentIsRight(compare: (Node, Node) -> int, p: Path, node: Node)
    requires Descended(compare, p, node)
    ensures var s, k := Inorder(Plug(p, Leaf)), |Before(p)|;
            k <= |s| && s[..k] == Before(p) && s[k..] == After(p) && RightSpot(compare, s, k, node)
  {
    var s, k := Inorder(Plug(p, Leaf)), |Before(p)|;
    PlugInorder(p, Leaf);
    assert s == Before(p) + [] + After(p);
    assert s[..k] == Before(p) && s[k..] == After(p);
    var S := Members(s) + {node};
    if Sorted(compare, s) && ThreeWay(compare, S) {
      DescentSeparates(compare, p, [], s, node, S);
      assert s == s[..k] + s[k..];
      SortedInsert(compare, s[..k], node, s[k..], S);
    }
  }

  // ---------- the cases of rb_insert ----------

  /** The loop invariant of rb_insert: only the edge above the red t may be red-red. */
  ghost predicate Inserting(p: Path, t: Shape) {
    IsRed(t) && Balanced(t) && NoRedRed(t) && PathBalanced(p, BlackHeight(t)) && PathNoRedRed(p)
  }

  /** The recolouring of line 164. */
  lemma InsertingDone(p: Path, t: Shape)
    requires Inserting(p, t) && (p.Step? ==> !p.red)
    ensures RedBlack(Paint(Plug(p, t), false)) && Inorder(Paint(Plug(p, t), false)) == Inorder(Plug(p, t))
    ensures p.Step? ==> !IsRed(Plug(p, t))
  {
    PaintFacts(Plug(p, t));
    PlugRedBlack(p, t);
  }

  lemma InsertingStart(p: Path, node: Node)
    requires RedBlack(Plug(p, Leaf))
    ensures Inserting(p, Fork(true, Leaf, node, Leaf))
  {
    PlugRedBlack(p, Leaf);
  }

  /** What a new red node at the end of a descent makes of the order and of the nodes. */
  lemma PlacedOk(compare: (Node, Node) -> int, p: Path, node: Node)
    requires RedBlack(Plug(p, Leaf)) && Descended(compare, p, node)
    ensures var s, k, t := Inorder(Plug(p, Leaf)), |Before(p)|, Fork(true, Leaf, node, Leaf);
            && k <= |s| && RightSpot(compare, s, k, node) && Inorder(Plug(p, t)) == s[..k] + [node] + s[k..]
            && Inserting(p, t) && PathNodes(p) + Nodes(t) == Nodes(Plug(p, Leaf)) + {node}
  {
    DescentIsRight(compare, p, node);
    InsertingStart(p, node);
    PlugInorder(p, Fork(true, Leaf, node, Leaf));
    PlugNodes(p, Leaf);
  }

  /** Red uncle: the two steps above t recoloured. */
  function Recoloured(p: Path, t: Shape): Shape
    requires p.Step? && p.up.Step?
  {
    Mk(true, p.up.side, Mk(false, p.side, t, p.n, p.sib), p.up.n, Paint(p.up.sib, false))
  }

  lemma RecolouredOk(p: Path, t: Shape)
    requires Inserting(p, t) && p.Step? && p.red
    ensures p.up.Step? && !p.up.red
    ensures IsRed(p.up.sib) ==> Inserting(p.up.up, Recoloured(p, t))
    ensures IsRed(p.up.sib) ==> SameTree(p.up.up, Recoloured(p, t), p, t)
  {
    assert PathBalanced(p.up, BlackHeight(t)) && PathNoRedRed(p.up);
    if IsRed(p.up.sib) {
      MkFacts(false, p.side, t, p.n, p.sib);
      PaintFacts(p.up.sib);
      MkFacts(true, p.up.side, Mk(false, p.side, t, p.n, p.sib), p.up.n, Paint(p.up.sib, false));
      assert Plug(p, t) == Plug(p.up.up, Close(p.up, Close(p, t)));
      Interchange(p.up.up, Recoloured(p, t), Close(p.up, Close(p, t)));
    }
  }

  /** Black uncle, t on the inner side: the path and subtree after the first rotation. */
  function Unbent(p: Path, t: Shape): (Path, Shape)
    requires p.Step? && t.Fork?
  {
    var d := Other(p.side);
    (Step(p.up, t.n, t.red, d, Near(t, Other(d))), Mk(p.red, d, p.sib, p.n, Near(t, d)))
  }

  lemma UnbentOk(p: Path, t: Shape)
    requires Inserting(p, t) && p.Step? && p.red
    ensures var (q, s) := Unbent(p, t);
            && q.red && Inserting(q, s) && q.up == p.up && q.side == Other(p.side)
            && SameTree(q, s, p, t) && Close(q, s) == Rotated(Other(p.side), Close(p, t))
  {
    var (q, s) := Unbent(p, t);
    MkFacts(p.red, Other(p.side), p.sib, p.n, Near(t, Other(p.side)));
    RotatedInorder(Other(p.side), Close(p, t));
    Interchange(p.up, Close(q, s), Close(p, t));
  }

  /** Black uncle, t on the outer side: the path above t after recolouring and rotation. */
  function Lifted(p: Path): Path
    requires p.Step? && p.up.Step?
  {
    Step(p.up.up, p.n, false, p.side, Mk(true, Other(p.side), p.up.sib, p.up.n, p.sib))
  }

  lemma LiftedOk(p: Path, t: Shape)
    requires Inserting(p, t) && p.Step? && p.red && p.up.Step? && !IsRed(p.up.sib) && p.side == p.up.side
    ensures Inserting(Lifted(p), t)
    ensures SameTree(Lifted(p), t, p, t)
    ensures var g := Mk(true, p.side, Mk(false, p.side, t, p.n, p.sib), p.up.n, p.up.sib);
            Close(Lifted(p), t) == Rotated(Other(p.side), g)
  {
    var g := Mk(true, p.side, Mk(false, p.side, t, p.n, p.sib), p.up.n, p.up.sib);
    assert PathBalanced(p.up, BlackHeight(t)) && PathNoRedRed(p.up);
    MkFacts(true, Other(p.side), p.up.sib, p.up.n, p.sib);
    RotatedInorder(Other(p.side), g);
    assert Inorder(g) == Inorder(Close(p.up, Close(p, t)));
    Interchange(p.up.up, Close(Lifted(p), t), Close(p.up, Close(p, t)));
  }

  // ---------- the cases of rb_delete_fixup ----------

  /** The loop invariant of rb_delete_fixup: t is one black node short, and may be red
      below a red node. */
  ghost predicate Deficient(p: Path, t: Shape) {
    Balanced(t) && NoRedRed(Paint(t, false)) && PathBalanced(p, BlackHeight(t) + 1) && PathNoRedRed(p)
  }

  lemma DeficientSibling(p: Path, t: Shape)
    requires Deficient(p, t) && p.Step?
    ensures p.sib.Fork? && (p.sib.red ==> !p.red)
    ensures !IsRed(t) ==> NoRedRed(t)
  {
  }

  /** Case 1, the sibling is red: the path after recolouring and rotation. */
  function RedSibling(p: Path): Path
    requires p.Step? && p.sib.Fork?
  {
    Step(Step(p.up, p.sib.n, false, p.side, Near(p.sib, Other(p.side))), p.n, true, p.side, Near(p.sib, p.side))
  }

  lemma RedSiblingOk(p: Path, t: Shape)
    requires Deficient(p, t) && p.Step? && IsRed(p.sib)
    ensures Deficient(RedSibling(p), t) && !IsRed(RedSibling(p).sib) && SameTree(RedSibling(p), t, p, t)
    ensures Close(RedSibling(p).up, Close(RedSibling(p), t)) == Rotated(p.side,
              Mk(true, p.side, t, p.n, Paint(p.sib, false)))
  {
    var d, q := p.side, RedSibling(p);
    var g := Mk(true, d, t, p.n, Paint(p.sib, false));
    RotatedInorder(d, g);
    assert Inorder(g) == Inorder(Close(p, t));
    assert Plug(q, t) == Plug(p.up, Close(q.up, Close(q, t)));
    Interchange(p.up, Rotated(d, g), Close(p, t));
  }

  /** Case 2, both nephews are black: the subtree one step up. */
  function BlackNephews(p: Path, t: Shape): Shape
    requires p.Step?
  {
    Mk(p.red, p.side, t, p.n, Paint(p.sib, true))
  }

  lemma BlackNephewsOk(p: Path, t: Shape)
    requires Deficient(p, t) && p.Step? && !IsRed(t) && !IsRed(p.sib)
    requires p.sib.Fork? && !IsRed(p.sib.l) && !IsRed(p.sib.r)
    ensures Deficient(p.up, BlackNephews(p, t)) && SameTree(p.up, BlackNephews(p, t), p, t)
  {
    MkFacts(p.red, p.side, t, p.n, Paint(p.sib, true));
    MkFacts(false, p.side, t, p.n, Paint(p.sib, true));
    assert Inorder(BlackNephews(p, t)) == Inorder(Close(p, t));
    Interchange(p.up, BlackNephews(p, t), Close(p, t));
  }

  /** Case 3, only the near nephew is red: the sibling after recolouring. */
  function NearRecoloured(w: Shape, d: Side): Shape
    requires w.Fork?
  {
    Mk(true, d, Paint(Near(w, d), false), w.n, Near(w, Other(d)))
  }

  function NearNephew(p: Path): Path
    requires p.Step? && p.sib.Fork? && Near(p.sib, p.side).Fork?
  {
    p.(sib := Rotated(Other(p.side), NearRecoloured(p.sib, p.side)))
  }

  lemma NearNephewOk(p: Path, t: Shape)
    requires Deficient(p, t) && p.Step? && p.sib.Fork? && !p.sib.red
    requires IsRed(Near(p.sib, p.side)) && !IsRed(Near(p.sib, Other(p.side)))
    ensures var q := NearNephew(p);
            Deficient(q, t) && q.sib.Fork? && !q.sib.red && IsRed(Near(q.sib, Other(p.side))) && SameTree(q, t, p, t)
  {
    var d, w := p.side, p.sib;
    var a, f := Near(w, d), Near(w, Other(d));
    var v := NearRecoloured(w, d);
    MkFacts(true, Other(d), f, w.n, Near(a, Other(d)));
    MkFacts(false, d, Near(a, d), a.n, Mk(true, Other(d), f, w.n, Near(a, Other(d))));
    assert w == Mk(false, d, a, w.n, f) && a == Mk(true, d, Near(a, d), a.n, Near(a, Other(d)));
    MkFacts(false, d, a, w.n, f);
    MkFacts(true, d, Near(a, d), a.n, Near(a, Other(d)));
    RotatedInorder(Other(d), v);
    assert Inorder(v) == Inorder(w);
    Interchange(p.up, Close(NearNephew(p), t), Close(p, t));
  }

  /** Case 4, the far nephew is red: the subtree at the parent when all is done. */
  function FarRecoloured(p: Path, t: Shape): Shape
    requires p.Step? && p.sib.Fork?
  {
    var d := p.side;
    Mk(false, d, t, p.n, Mk(p.red, d, Near(p.sib, d), p.sib.n, Paint(Near(p.sib, Other(d)), false)))
  }

  lemma FarNephewOk(p: Path, t: Shape)
    requires Deficient(p, t) && p.Step? && !IsRed(t) && p.sib.Fork? && !p.sib.red
    requires IsRed(Near(p.sib, Other(p.side)))
    ensures var r := Rotated(p.side, FarRecoloured(p, t));
            RedBlack(Plug(p.up, r)) && SameTree(p.up, r, p, t)
  {
    var d, w := p.side, p.sib;
    var a, f := Near(w, d), Near(w, Other(d));
    assert w == Mk(false, d, a, w.n, f);
    MkFacts(false, d, a, w.n, f);
    PaintFacts(f);
    MkFacts(false, d, t, p.n, a);
    MkFacts(p.red, d, Mk(false, d, t, p.n, a), w.n, Paint(f, false));
    var r := Rotated(d, FarRecoloured(p, t));
    RotatedInorder(d, FarRecoloured(p, t));
    assert Inorder(FarRecoloured(p, t)) == Inorder(Close(p, t));
    PlugRedBlack(p.up, r);
    Interchange(p.up, r, Close(p, t));
  }

  /** The colouring of line 281. */
  lemma DeficientDone(p: Path, t: Shape)
    requires Deficient(p, t) && (p.Top? || IsRed(t))
    ensures RedBlack(Plug(p, Paint(t, false))) && SameTree(p, Paint(t, false), p, t)
  {
    PaintFacts(t);
    PlugRedBlack(p, Paint(t, false));
    Interchange(p, Paint(t, false), t);
  }

  // ---------- in-order lookups ----------

  /** A path from the root of t to node n. */
  lemma {:induction false} Locate(t: Shape, n: Node) returns (p: Path, s: Shape)
    requires n in Nodes(t)
    ensures s.Fork? && s.n == n && Plug(p, s) == t
    decreases t
  {
    if t.n == n {
      p, s := Top, t;
    } else if n in Nodes(t.l) {
      var q;
      q, s := Locate(t.l, n);
      p := Append(q, Step(Top, t.n, t.red, Left, t.r));
      PlugAppend(q, Step(Top, t.n, t.red, Left, t.r), s);
    } else {
      var q;
      q, s := Locate(t.r, n);
      p := Append(q, Step(Top, t.n, t.red, Right, t.l));
      PlugAppend(q, Step(Top, t.n, t.red, Right, t.l), s);
    }
  }

  /** The last node met when always turning to side d. */
  function Extreme(t: Shape, d: Side): Node
    requires t.Fork?
  {
    if Near(t, d).Leaf? then t.n else Extreme(Near(t, d), d)
  }

  lemma {:induction false} InorderNodes(t: Shape, x: Node)
    ensures x in Inorder(t) <==> x in Nodes(t)
  {
    match t
    case Leaf =>
    case Fork(_, l, n, r) => InorderNodes(l, x); InorderNodes(r, x);
  }

  lemma {:induction false} ApartNoDup(t: Shape)
    requires Apart(t)
    ensures NoDup(Inorder(t))
  {
    match t
    case Leaf =>
    case Fork(_, l, n, r) =>
      ApartNoDup(l); ApartNoDup(r);
      InorderNodes(l, n); InorderNodes(r, n);
      NoDupConcat(Inorder(l), [n]);
      forall x | x in Inorder(l) + [n] ensures x !in Inorder(r) {
        InorderNodes(l, x); InorderNodes(r, x);
      }
      NoDupConcat(Inorder(l) + [n], Inorder(r));
  }

  lemma NoDupConcat(a: seq<Node>, b: seq<Node>)
    requires NoDup(a) && NoDup(b)
    requires forall x :: x in a ==> x !in b
    ensures NoDup(a + b)
  {
    var s := a + b;
    forall i, j | 0 <= i < j < |s| ensures s[i] != s[j] {
      if i < |a| <= j {
        assert s[i] in a && s[j] in b;
      }
    }
  }

  lemma {:induction false} ExtremeIsEnd(t: Shape)
    requires t.Fork?
    ensures |Inorder(t)| > 0 && Inorder(t)[0] == Extreme(t, Left) && Inorder(t)[|Inorder(t)| - 1] == Extreme(t, Right)
  {
    if t.l.Fork? {
      ExtremeIsEnd(t.l);
    }
    if t.r.Fork? {
      ExtremeIsEnd(t.r);
    }
  }

  /** The element after x in s, and nil after the last one. */
  ghost function NextIn(s: seq<Node>, x: Node, nil: Node): Node {
    if s == [] then nil
    else if s[0] == x then if |s| > 1 then s[1] else nil
    else NextIn(s[1..], x, nil)
  }

  ghost function PrevIn(s: seq<Node>, x: Node, nil: Node): Node {
    if |s| <= 1 then nil
    else if s[1] == x && s[0] != x then s[0]
    else PrevIn(s[1..], x, nil)
  }

  lemma {:induction false} NextAt(s: seq<Node>, i: nat, nil: Node)
    requires NoDup(s) && i < |s|
    ensures NextIn(s, s[i], nil) == if i + 1 < |s| then s[i + 1] else nil
  {
    if i > 0 {
      NextAt(s[1..], i - 1, nil);
    }
  }

  lemma {:induction false} PrevAt(s: seq<Node>, i: nat, nil: Node)
    requires NoDup(s) && i < |s|
    ensures PrevIn(s, s[i], nil) == if i > 0 then s[i - 1] else nil
  {
    if i > 1 {
      PrevAt(s[1..], i - 1, nil);
    } else if |s| > 1 {
      PrevNone(s[1..], s[0], nil);
    }
  }

  lemma {:induction false} PrevNone(s: seq<Node>, x: Node, nil: Node)
    requires x !in s
    ensures PrevIn(s, x, nil) == nil
  {
    if |s| > 1 {
      assert s[1] in s;
      PrevNone(s[1..], x, nil);
    }
  }

  /** k steps of rb_node_next. */
  ghost function Follow(s: seq<Node>, x: Node, nil: Node, k: nat): Node {
    if k == 0 then x else NextIn(s, Follow(s, x, nil, k - 1), nil)
  }

  /** Following the successors of the leftmost node visits every node once, in order,
      and then comes to nil; predecessors lead back. */
  lemma {:induction false} FollowEnumerates(t: Shape, nil: Node, k: nat)
    requires Apart(t) && t.Fork? && k <= |Inorder(t)|
    ensures var s := Inorder(t);
            && Follow(s, Extreme(t, Left), nil, k) == (if k < |s| then s[k] else nil)
            && (0 < k < |s| ==> PrevIn(s, s[k], nil) == s[k - 1])
    decreases k
  {
    ApartNoDup(t);
    ExtremeIsEnd(t);
    if k > 0 {
      FollowEnumerates(t, nil, k - 1);
      NextAt(Inorder(t), k - 1, nil);
      if k < |Inorder(t)| {
        PrevAt(Inorder(t), k, nil);
      }
    }
  }

  lemma NeighboursOf(p: Path, t: Shape, nil: Node)
    requires t.Fork? && Apart(Plug(p, t))
    ensures var s := Inorder(Plug(p, t));
            && NextIn(s, t.n, nil) == (if t.r.Fork? then Extreme(t.r, Left)
                                       else if After(p) != [] then After(p)[0] else nil)
            && PrevIn(s, t.n, nil) == (if t.l.Fork? then Extreme(t.l, Right)
                                       else if Before(p) != [] then Before(p)[|Before(p)| - 1] else nil)
  {
    var s := Inorder(Plug(p, t));
    var b, a := Before(p) + Inorder(t.l), Inorder(t.r) + After(p);
    PlugInorder(p, t);
    ApartNoDup(Plug(p, t));
    Around(Before(p), Inorder(t.l), t.n, Inorder(t.r), After(p));
    NextAt(s, |b|, nil);
    PrevAt(s, |b|, nil);
    if t.l.Fork? { ExtremeIsEnd(t.l); }
    if t.r.Fork? { ExtremeIsEnd(t.r); }
  }

  // ---------- the splicing of rb_delete ----------

  /** The only child, if any, of a node that lacks one. */
  function OnlyChild(t: Shape): Shape
    requires t.Fork?
  {
    if t.l.Fork? then t.l else t.r
  }

  lemma SpliceOk(p: Path, t: Shape)
    requires t.Fork? && (t.l.Leaf? || t.r.Leaf?) && RedBlack(Plug(p, t))
    ensures t.red ==> RedBlack(Plug(p, OnlyChild(t)))
    ensures !t.red ==> Deficient(p, OnlyChild(t))
  {
    PlugRedBlack(p, t);
    PlugRedBlack(p, OnlyChild(t));
  }

  ghost function Without(s: seq<Node>, n: Node): seq<Node> {
    if s == [] then [] else if s[0] == n then s[1..] else [s[0]] + Without(s[1..], n)
  }

  lemma {:induction false} WithoutMiddle(a: seq<Node>, n: Node, b: seq<Node>)
    requires n !in a
    ensures Without(a + [n] + b, n) == a + b
  {
    if a == [] {
      assert a + [n] + b == [n] + b;
    } else {
      WithoutMiddle(a[1..], n, b);
      assert (a + [n] + b)[1..] == a[1..] + [n] + b;
      assert [a[0]] + (a[1..] + b) == a + b;
    }
  }

  lemma SpliceInorder(p: Path, t: Shape)
    requires t.Fork? && (t.l.Leaf? || t.r.Leaf?) && Apart(Plug(p, t))
    ensures Inorder(Plug(p, OnlyChild(t))) == Without(Inorder(Plug(p, t)), t.n)
  {
    PlugInorder(p, OnlyChild(t));
    RemoveTop(p, t);
    assert Inorder(OnlyChild(t)) == Inorder(t.l) + Inorder(t.r);
    Shift(Before(p), Inorder(t.l), Inorder(t.r), After(p));
  }

  lemma RemoveTop(p: Path, t: Shape)
    requires t.Fork? && Apart(Plug(p, t))
    ensures Without(Inorder(Plug(p, t)), t.n) == Before(p) + Inorder(t.l) + (Inorder(t.r) + After(p))
  {
    PlugInorder(p, t);
    ApartNoDup(Plug(p, t));
    Around(Before(p), Inorder(t.l), t.n, Inorder(t.r), After(p));
    NoDupMiddle(Before(p) + Inorder(t.l), t.n, Inorder(t.r) + After(p));
    WithoutMiddle(Before(p) + Inorder(t.l), t.n, Inorder(t.r) + After(p));
  }

  lemma Around<T>(a: seq<T>, b: seq<T>, n: T, c: seq<T>, d: seq<T>)
    ensures a + (b + [n] + c) + d == (a + b) + [n] + (c + d)
  {
  }

  lemma NoDupMiddle(a: seq<Node>, n: Node, b: seq<Node>)
    requires NoDup(a + [n] + b)
    ensures n !in a
  {
    var s := a + [n] + b;
    forall i | 0 <= i < |a| ensures a[i] != n {
      assert s[i] != s[|a|];
    }
  }

  /** The leftmost node of r, with the path to it. */
  lemma {:induction false} SplitLeftmost(r: Shape) returns (q: Path, t: Shape)
    requires r.Fork?
    ensures t.Fork? && t.l.Leaf? && t.n == Extreme(r, Left) && Plug(q, t) == r && Before(q) == []
  {
    if r.l.Leaf? {
      q, t := Top, r;
    } else {
      var q';
      q', t := SplitLeftmost(r.l);
      var base := Step(Top, r.n, r.red, Left, r.r);
      q := Append(q', base);
      PlugAppend(q', base, t);
      BeforeAppend(q', base);
    }
  }

  lemma {:induction false} BeforeAppend(q: Path, base: Path)
    ensures Before(Append(q, base)) == Before(base) + Before(q)
  {
    match q
    case Top =>
    case Step(up, n, c, Left, sib) => BeforeAppend(up, base);
    case Step(up, n, c, Right, sib) => BeforeAppend(up, base);
  }

  /** The path to the place left by the successor t.n of z, once t.n has replaced z. */
  function Transplanted(p: Path, z: Shape, q: Path, y: Node): Path
    requires z.Fork?
  {
    Append(q, Step(p, y, z.red, Right, z.l))
  }

  lemma TransplantOk(p: Path, z: Shape, q: Path, t: Shape)
    requires z.Fork? && t.Fork? && t.l.Leaf? && Plug(q, t) == z.r && Before(q) == []
    requires RedBlack(Plug(p, z)) && Apart(Plug(p, z))
    ensures var r := Transplanted(p, z, q, t.n);
            && (t.red ==> RedBlack(Plug(r, t.r))) && (!t.red ==> Deficient(r, t.r))
            && Plug(r, t.r) == Plug(p, Fork(z.red, z.l, t.n, Plug(q, t.r)))
            && Inorder(Plug(r, t.r)) == Without(Inorder(Plug(p, z)), z.n)
  {
    var r := Transplanted(p, z, q, t.n);
    var z' := Fork(z.red, z.l, t.n, z.r);
    PlugRedBlack(p, z);
    PlugRedBlack(p, z');
    PlugAppend(q, Step(p, t.n, z.red, Right, z.l), t);
    PlugAppend(q, Step(p, t.n, z.red, Right, z.l), t.r);
    SpliceOk(r, t);
    TransplantInorder(p, z, q, t);
  }

  lemma TransplantInorder(p: Path, z: Shape, q: Path, t: Shape)
    requires z.Fork? && t.Fork? && t.l.Leaf? && Plug(q, t) == z.r && Before(q) == [] && Apart(Plug(p, z))
    ensures Inorder(Plug(p, Fork(z.red, z.l, t.n, Plug(q, t.r)))) == Without(Inorder(Plug(p, z)), z.n)
  {
    LeftmostFirst(q, t);
    PlugInorder(p, Fork(z.red, z.l, t.n, Plug(q, t.r)));
    RemoveTop(p, z);
    Regroup(Before(p), Inorder(z.l), [t.n], Inorder(Plug(q, t.r)), After(p));
  }

  lemma LeftmostFirst(q: Path, t: Shape)
    requires t.Fork? && t.l.Leaf? && Before(q) == []
    ensures Inorder(Plug(q, t)) == [t.n] + Inorder(Plug(q, t.r))
  {
    PlugInorder(q, t);
    PlugInorder(q, t.r);
    Shift([], [t.n], Inorder(t.r), After(q));
    Shift([t.n], [], Inorder(t.r), After(q));
    assert Inorder(t) == [t.n] + Inorder(t.r);
  }

  lemma Regroup<T>(a: seq<T>, b: seq<T>, n: seq<T>, c: seq<T>, d: seq<T>)
    ensures a + (b + n + c) + d == a + b + (n + c + d) == (a + b + n) + c + d
  {
  }

  lemma DeleteFullNodes(p: Path, t: Shape, q: Path, s: Shape)
    requires t.Fork? && s.Fork? && Plug(q, s) == t.r && Apart(Plug(p, t))
    ensures var r := Transplanted(p, t, q, s.n);
            && s.n !in PathNodes(p) && s.n in Nodes(t) && s.n !in Nodes(Fork(t.red, t.l, t.n, Plug(q, s.r)))
            && PathNodes(p) + Nodes(Fork(t.red, t.l, t.n, Plug(q, s.r))) <= Nodes(Plug(p, t))
            && PathNodes(r) + Nodes(s.r) <= Nodes(Plug(p, t))
            && PathNodes(p) + Nodes(t) == Nodes(Plug(p, t))
  {
    PlugNodes(p, t);
    PlugNodes(q, s);
    PlugNodes(q, s.r);
    PathNodesAppend(q, Step(p, s.n, t.red, Right, t.l));
    ChildParts(t);
  }

  lemma {:induction false} PlugStep(q: Path, t: Shape)
    ensures q.Step? || t.Fork? <==> Plug(q, t).Fork?
    decreases q
  {
    if q.Step? {
      PlugStep(q.up, Close(q, t));
    }
  }

  lemma {:induction false} PathNodesAppend(q: Path, base: Path)
    ensures PathNodes(Append(q, base)) == PathNodes(q) + PathNodes(base)
  {
    if q.Step? {
      PathNodesAppend(q.up, base);
    }
  }

  lemma {:induction false} WithoutSorted(compare: (Node, Node) -> int, s: seq<Node>, n: Node)
    requires Sorted(compare, s)
    ensures Sorted(compare, Without(s, n)) && forall x :: x in Without(s, n) ==> x in s
  {
    if s != [] && s[0] != n {
      WithoutSorted(compare, s[1..], n);
      var w := Without(s[1..], n);
      forall j | 0 <= j < |w| ensures compare(s[0], w[j]) <= 0 {
        assert w[j] in s[1..];
        var k :| 0 <= k < |s[1..]| && s[1..][k] == w[j];
        assert s[1 + k] == w[j];
      }
    }
  }

  // ---------- searching ----------

  /** A three-way comparison of nodes with a key, consistent with the order of s. */
  ghost predicate Monotone(probe: Node -> int, s: seq<Node>) {
    forall i, j :: 0 <= i < j < |s| ==> (probe(s[i]) > 0 ==> probe(s[j]) > 0) && (probe(s[j]) < 0 ==> probe(s[i]) < 0)
  }

  /** Every node equal to the key is in s. */
  ghost predicate Covers(probe: Node -> int, t: Shape, s: Shape) {
    forall x :: x in Inorder(t) && probe(x) == 0 ==> x in Inorder(s)
  }

  lemma SearchTurn(probe: Node -> int, t: Shape, d: Side)
    requires Monotone(probe, Inorder(t)) && t.Fork?
    requires if d == Left then probe(t.n) > 0 else probe(t.n) < 0
    ensures Monotone(probe, Inorder(Near(t, d))) && Covers(probe, t, Near(t, d))
  {
    var s, a, b := Inorder(t), Inorder(t.l), Inorder(t.r);
    assert s[|a|] == t.n;
    forall i | 0 <= i < |s| && probe(s[i]) == 0 ensures if d == Left then i < |a| else i > |a| {
    }
    if d == Left {
      assert a == s[..|a|];
    } else {
      assert b == s[|a| + 1..];
    }
  }

  function Max(a: nat, b: nat): nat {
    if a < b then b else a
  }

  function Height(t: Shape): nat {
    if t.Leaf? then 0 else 1 + Max(Height(t.l), Height(t.r))
  }

  lemma {:induction false} HeightBound(t: Shape)
    requires Balanced(t) && NoRedRed(t)
    ensures Height(t) <= 2 * BlackHeight(t) + if IsRed(t) then 1 else 0
    ensures Pow2(BlackHeight(t)) <= |Inorder(t)| + 1
  {
    if t.Fork? {
      HeightBound(t.l);
      HeightBound(t.r);
    }
  }

  /** The height of a red-black tree of n nodes is at most 2 * log2(n + 1). */
  lemma LogarithmicHeight(t: Shape)
    requires RedBlack(t)
    ensures Pow2(Height(t)) <= (|Inorder(t)| + 1) * (|Inorder(t)| + 1)
  {
    HeightBound(t);
    var h, n := BlackHeight(t), |Inorder(t)| + 1;
    Pow2Mono(Height(t), h + h);
    Pow2Add(h, h);
    Squares(Pow2(h), n);
  }

  lemma Squares(a: nat, b: nat)
    requires a <= b
    ensures a * a <= b * b
  {
  }
}
