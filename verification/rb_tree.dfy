// kern/libs/rb_tree.c: the intrusive, parent-pointer red-black tree with its two
// sentinels.  The pointer code is proved against the trees and zippers of RbShape.

module RbTree {
  import opened Arith
  import opened RbShape

  // ---------- how the heap represents a shape ----------

  function Child(n: Node, d: Side): Node
    reads n
  {
    if d.Left? then n.left else n.right
  }

  method SetChild(n: Node, d: Side, c: Node)
    modifies n
    ensures Child(n, d) == c && Child(n, Other(d)) == old(Child(n, Other(d)))
    ensures n.red == old(n.red) && n.parent == old(n.parent)
  {
    if d.Left? { n.left := c; } else { n.right := c; }
  }

  /** Pointer x, kept in a field of node up, is the subtree t. */
  ghost predicate Rep(t: Shape, x: Node, up: Node, nil: Node)
    reads Nodes(t)
  {
    match t
    case Leaf => x == nil
    case Fork(c, l, n, r) =>
      x == n && n.red == c && n.parent == up && Rep(l, n.left, n, nil) && Rep(r, n.right, n, nil)
  }

  /** Pointer x, kept in a field of node up, is where the path p ends. */
  ghost predicate PathRep(p: Path, x: Node, up: Node, nil: Node, root: Node)
    reads PathNodes(p), root
  {
    match p
    case Top => up == root && root.left == x
    case Step(q, n, c, d, sib) =>
      up == n && n.red == c && Child(n, d) == x && Rep(sib, Child(n, Other(d)), n, nil)
      && PathRep(q, n, n.parent, nil, root)
  }

  class Tree {
    const compare: (Node, Node) -> int
    const nil: Node
    const root: Node
    ghost var shape: Shape

    /** The heap is the tree Plug(p, t), with t found at pointer x below node up. */
    ghost predicate At(p: Path, t: Shape, x: Node, up: Node)
      reads PathNodes(p), Nodes(t), root, nil
    {
      && nil != root && !nil.red && !root.red && root.right == nil
      && {nil, root} !! PathNodes(p) && {nil, root} !! Nodes(t)
      && PathApart(p) && Apart(t) && PathNodes(p) !! Nodes(t)
      && PathRep(p, x, up, nil, root) && Rep(t, x, up, nil)
    }

    ghost predicate Valid()
      reads this, Nodes(shape), root, nil
    {
      At(Top, shape, root.left, root) && RedBlack(shape)
    }

    ghost function Contents(): seq<Node>
      reads this
    {
      Inorder(shape)
    }

    /** rb_tree_create */
    constructor (compare: (Node, Node) -> int)
      ensures Valid() && Contents() == []
      ensures fresh(nil) && fresh(root) && this.compare == compare
    {
      this.compare := compare;
      var nilNode := new Node();
      nilNode.parent, nilNode.left, nilNode.right := nilNode, nilNode, nilNode;
      nilNode.red := false;
      nil := nilNode;
      var rootNode := new Node();
      rootNode.parent, rootNode.left, rootNode.right := nilNode, nilNode, nilNode;
      rootNode.red := false;
      root := rootNode;
      shape := Leaf;
    }

    // ---------- moving the focus ----------

    lemma GoUp(p: Path, t: Shape, x: Node, up: Node)
      requires p.Step? && At(p, t, x, up)
      ensures up == p.n && At(p.up, Close(p, t), up, up.parent)
    {
      assert Nodes(Close(p, t)) == Nodes(t) + {p.n} + Nodes(p.sib);
    }

    lemma GoDown(p: Path, t: Shape, x: Node, up: Node, d: Side)
      requires t.Fork? && At(p, t, x, up)
      ensures At(Step(p, x, t.red, d, Near(t, Other(d))), Near(t, d), Child(x, d), x)
    {
    }

    lemma {:induction false} GoTop(p: Path, t: Shape, x: Node, up: Node)
      requires At(p, t, x, up)
      ensures At(Top, Plug(p, t), root.left, root)
      decreases p
    {
      if p.Step? {
        GoUp(p, t, x, up);
        GoTop(p.up, Close(p, t), up, up.parent);
      }
    }

    /** The node a path from base ends at; up is where base itself ends. */
    ghost function EndOf(q: Path, up: Node): Node {
      if q.Top? then up else q.n
    }

    ghost function PointerTo(t: Shape): Node {
      if t.Leaf? then nil else t.n
    }

    lemma {:induction false} GoAlong(base: Path, q: Path, t: Shape, x: Node, up: Node)
      requires At(base, Plug(q, t), x, up)
      ensures At(Append(q, base), t, PointerTo(t), EndOf(q, up))
      decreases q
    {
      match q
      case Top =>
      case Step(q', n, c, d, sib) =>
        GoAlong(base, q', Close(q, t), x, up);
        GoDown(Append(q', base), Close(q, t), n, EndOf(q', up), d);
    }

    lemma {:induction false} GoBack(base: Path, q: Path, t: Shape, x: Node, up: Node, y: Node)
      requires At(Append(q, base), t, x, up) && base.Step? && up == EndOf(q, y) && y == base.n
      ensures At(base, Plug(q, t), PointerTo(Plug(q, t)), y)
      decreases q
    {
      if q.Step? {
        GoUp(Append(q, base), t, x, up);
        GoBack(base, q.up, Close(q, t), q.n, q.n.parent, y);
      }
    }

    // ---------- rotation ----------

    /** The side of up that a child at pointer x hangs on, d being tried first. */
    function SideOf(up: Node, x: Node, d: Side): Side
      reads up
    {
      if x == Child(up, d) then d else Other(d)
    }

    /** FUNC_ROTATE with _left = d, as an exchange of pointers among x, its child y,
        their common grandchild b and the parent up of x. */
    method RotatePointers(x: Node, d: Side, ghost y: Node, ghost b: Node, ghost up: Node)
      requires y == Child(x, Other(d)) && b == Child(y, d) && up == x.parent
      requires x != y && up != x && up != y && (b != nil ==> b != x && b != y && b != up)
      modifies x, y, up, if b != nil then {b} else {}
      ensures Child(x, d) == old(Child(x, d)) && Child(x, Other(d)) == b && x.parent == y && x.red == old(x.red)
      ensures Child(y, d) == x && Child(y, Other(d)) == old(Child(y, Other(d))) && y.parent == up && y.red == old(y.red)
      ensures b != nil ==> b.parent == x && b.left == old(b.left) && b.right == old(b.right) && b.red == old(b.red)
      ensures up.parent == old(up.parent) && up.red == old(up.red)
      ensures var e := old(SideOf(up, x, d));
              Child(up, e) == y && Child(up, Other(e)) == old(Child(up, Other(SideOf(up, x, d))))
    {
      var y := Child(x, Other(d));
      SetChild(x, Other(d), Child(y, d));
      if Child(y, d) != nil {
        Child(y, d).parent := x;
      }
      y.parent := x.parent;
      if x == Child(x.parent, d) {
        SetChild(x.parent, d, y);
      } else {
        SetChild(x.parent, Other(d), y);
      }
      SetChild(y, d, x);
      x.parent := y;
    }

    /** FUNC_ROTATE with _left = d. */
    method Rotate(x: Node, d: Side, ghost p: Path, ghost t: Shape)
      requires t.Fork? && Near(t, Other(d)).Fork?
      requires At(p, t, x, x.parent)
      modifies Nodes(t), x.parent
      ensures At(p, Rotated(d, t), old(Child(x, Other(d))), old(x.parent))
    {
      ghost var s := Near(t, Other(d));
      ghost var m := Near(s, d);
      ghost var up, y := x.parent, Child(x, Other(d));
      ghost var b := Child(y, d);
      RotatedNodes(d, t);
      RotateParts(d, t);
      assert Rep(s, y, x, nil) && Rep(m, b, y, nil);
      assert allocated(PathNodes(p)) && allocated(Nodes(t));
      RotatePointers(x, d, y, b, up);
      assert Rep(m, b, x, nil);
      assert Rep(Mk(t.red, d, Near(t, d), x, m), x, y, nil);
    }

    // ---------- insertion ----------

    /** Colours the node in focus. */
    method SetRed(x: Node, red: bool, ghost p: Path, ghost t: Shape)
      requires t.Fork? && At(p, t, x, x.parent)
      modifies x
      ensures At(p, Paint(t, red), x, x.parent) && x.parent == old(x.parent)
    {
      x.red := red;
    }

    /** Colours the child w, on side d, of the node n in focus. */
    method SetRedBelow(w: Node, red: bool, ghost n: Node, ghost d: Side, ghost p: Path, ghost t: Shape)
      requires At(p, t, n, n.parent) && t.Fork? && Near(t, d).Fork? && w == Child(n, d)
      modifies Nodes(Near(t, d))
      ensures At(p, Mk(t.red, d, Paint(Near(t, d), red), n, Near(t, Other(d))), n, n.parent)
      ensures n.parent == old(n.parent)
    {
      GoDown(p, t, n, n.parent, d);
      ghost var q := Step(p, n, t.red, d, Near(t, Other(d)));
      SetRed(w, red, q, Near(t, d));
      GoUp(q, Paint(Near(t, d), red), w, n);
    }

    /** The descent of rb_insert_binary: the node to hang a new leaf on. */
    method FindSlot(node: Node) returns (y: Node, ghost p: Path)
      requires Valid()
      ensures Plug(p, Leaf) == shape && Descended(compare, p, node) && At(p, Leaf, nil, y)
    {
      y := root;
      var x: Node := y.left;
      p := Top;
      ghost var t := shape;
      while x != nil
        invariant At(p, t, x, y) && Plug(p, t) == shape && Descended(compare, p, node)
        decreases t
      {
        y := x;
        ghost var d := if compare(x, node) > 0 then Left else Right;
        GoDown(p, t, x, x.parent, d);
        p, t := Step(p, x, t.red, d, Near(t, Other(d))), Near(t, d);
        x := if compare(x, node) > 0 then x.left else x.right;
      }
    }

    /** rb_insert_binary, and the colouring with which rb_insert follows it. */
    method InsertBinary(node: Node) returns (ghost p: Path)
      requires Valid()
      requires node !in Nodes(shape) && node != nil && node != root
      modifies Nodes(shape), root, node
      ensures Plug(p, Leaf) == shape && Descended(compare, p, node)
      ensures At(p, Fork(true, Leaf, node, Leaf), node, node.parent)
    {
      var y;
      y, p := FindSlot(node);
      PlugNodes(p, Leaf);
      assert allocated(PathNodes(p));
      Hang(node, y);
      if p.Step? {
        assert Child(p.n, p.side) == node && Rep(p.sib, Child(p.n, Other(p.side)), p.n, nil);
      }
    }

    /** Line 120: the side of y on which node is to hang */
    function Turn(y: Node, node: Node): Side {
      if y == root || compare(y, node) > 0 then Left else Right
    }

    /** Lines 119-126 and 132: node becomes a red leaf below y. */
    method Hang(node: Node, y: Node)
      requires node != y
      modifies node, y
      ensures node.red && node.parent == y && node.left == node.right == nil
      ensures y.parent == old(y.parent) && y.red == old(y.red)
      ensures var d := Turn(y, node);
              Child(y, d) == node && Child(y, Other(d)) == old(Child(y, Other(Turn(y, node))))
    {
      node.left, node.right := nil, nil;
      node.parent := y;
      if y == root || compare(y, node) > 0 {
        y.left := node;
      } else {
        y.right := node;
      }
      node.red := true;
    }

    /** RB_INSERT_SUB, lines 138-144: the uncle y is red. */
    method InsertRecolour(x: Node, y: Node, ghost p: Path, ghost t: Shape) returns (x': Node)
      requires At(p, t, x, x.parent) && Inserting(p, t) && p.Step? && p.red && p.up.Step? && IsRed(p.up.sib)
      requires y == p.up.sib.n
      modifies PathNodes(p)
      ensures At(p.up.up, Recoloured(p, t), x', x'.parent) && x' == p.up.n
    {
      hide Inserting;
      ghost var t1 := Paint(Close(p, t), false);
      GoUp(p, t, x, p.n);
      SetRed(x.parent, false, p.up, Close(p, t));
      GoUp(p.up, t1, p.n, p.up.n);
      GoDown(p.up.up, Close(p.up, t1), p.up.n, p.up.n.parent, Other(p.up.side));
      SetRedBelow(y, false, p.up.n, Other(p.up.side), p.up.up, Close(p.up, t1));
      SetRed(x.parent.parent, true, p.up.up, Mk(p.up.red, p.up.side, t1, p.up.n, Paint(p.up.sib, false)));
      x' := x.parent.parent;
    }

    /** RB_INSERT_SUB, lines 146-149, for x on the inner side of its parent. */
    method InsertUnbend(x: Node, d: Side, ghost p: Path, ghost t: Shape) returns (x': Node)
      requires At(p, t, x, x.parent) && t.Fork? && p.Step? && p.side == Other(d)
      modifies PathNodes(p), Nodes(t), root
      ensures var (q, s) := Unbent(p, t); At(q, s, x', x'.parent) && x' == p.n && x'.parent == q.n
    {
      GoUp(p, t, x, p.n);
      x' := x.parent;
      Rotate(x', d, p.up, Close(p, t));
      GoDown(p.up, Rotated(d, Close(p, t)), x, x.parent, d);
    }

    /** RB_INSERT_SUB, lines 150-152, for x on the outer side of its parent. */
    method InsertLift(x: Node, d: Side, ghost p: Path, ghost t: Shape)
      requires At(p, t, x, x.parent) && t.Fork? && p.Step? && p.up.Step? && p.side == p.up.side == d
      modifies PathNodes(p), Nodes(t), root
      ensures At(Lifted(p), t, x, x.parent) && x.parent == p.n
    {
      ghost var t1 := Close(p, t);
      GoUp(p, t, x, p.n);
      SetRed(x.parent, false, p.up, t1);
      GoUp(p.up, Paint(t1, false), p.n, p.up.n);
      ghost var t2 := Close(p.up, Paint(t1, false));
      SetRed(x.parent.parent, true, p.up.up, t2);
      Rotate(x.parent.parent, Other(d), p.up.up, Paint(t2, true));
      GoDown(p.up.up, Rotated(Other(d), Paint(t2, true)), p.n, p.n.parent, d);
    }

    /** RB_INSERT_SUB(d, Other(d)) */
    method InsertSub(x: Node, d: Side, ghost p: Path, ghost t: Shape)
        returns (x': Node, ghost p': Path, ghost t': Shape)
      requires At(p, t, x, x.parent) && Inserting(p, t) && p.Step? && p.red && p.up.Step? && p.up.side == d
      modifies PathNodes(p), Nodes(t), root
      ensures At(p', t', x', x'.parent) && Inserting(p', t') && Length(p') < Length(p)
      ensures SameTree(p', t', p, t)
    {
      RecolouredOk(p, t);
      GoUp(p, t, x, p.n);
      GoUp(p.up, Close(p, t), p.n, p.up.n);
      var y := Child(x.parent.parent, Other(d));
      if y.red {
        x' := InsertRecolour(x, y, p, t);
        p', t' := p.up.up, Recoloured(p, t);
      } else {
        x', p', t' := x, p, t;
        if x == Child(x.parent, Other(d)) {
          UnbentOk(p, t);
          SameNodes(Unbent(p, t).0, Unbent(p, t).1, p, t);
          x' := InsertUnbend(x, d, p, t);
          p', t' := Unbent(p, t).0, Unbent(p, t).1;
        }
        LiftedOk(p', t');
        InsertLift(x', d, p', t');
        p' := Lifted(p');
      }
    }

    /** A focus on a node of the tree tells on which side of its parent the node hangs. */
    lemma SideOfFocus(p: Path, t: Shape, x: Node, up: Node)
      requires At(p, t, x, up) && p.Step? && (t.Fork? || p.sib.Fork?)
      ensures forall d :: x == Child(up, d) <==> p.side == d
    {
      assert Rep(p.sib, Child(up, Other(p.side)), up, nil);
    }

    /** tree->root->left->red = 0 */
    method BlackenRoot(x: Node, ghost p: Path, ghost t: Shape)
      requires At(p, t, x, x.parent) && Inserting(p, t) && (p.Step? ==> !p.red)
      modifies this`shape, PathNodes(p), Nodes(t)
      ensures Valid() && Contents() == Inorder(Plug(p, t))
    {
      InsertingDone(p, t);
      GoTop(p, t, x, x.parent);
      PlugNodes(p, t);
      SetRed(root.left, false, Top, Plug(p, t));
      shape := Paint(Plug(p, t), false);
    }

    lemma AboveRedParent(x: Node, p: Path, t: Shape)
      requires At(p, t, x, x.parent) && Inserting(p, t) && x.parent.red
      ensures p.Step? && p.red && p.up.Step? && (x.parent == x.parent.parent.left <==> p.up.side == Left)
    {
      RecolouredOk(p, t);
      GoUp(p, t, x, p.n);
      SideOfFocus(p.up, Close(p, t), p.n, p.up.n);
    }

    /** The loop of rb_insert, lines 156-163, and what follows it. */
    method InsertFixup(node: Node, ghost p0: Path, ghost t0: Shape)
      requires At(p0, t0, node, node.parent) && Inserting(p0, t0)
      modifies this`shape, PathNodes(p0), Nodes(t0), root
      ensures Valid() && Contents() == Inorder(Plug(p0, t0))
    {
      ghost var p, t := p0, t0;
      var x: Node := node;
      while x.parent.red
        invariant At(p, t, x, x.parent) && Inserting(p, t)
        invariant SameTree(p, t, p0, t0)
        decreases Length(p)
      {
        SameNodes(p, t, p0, t0);
        AboveRedParent(x, p, t);
        if x.parent == x.parent.parent.left {
          x, p, t := InsertSub(x, Left, p, t);
        } else {
          x, p, t := InsertSub(x, Right, p, t);
        }
      }
      SameNodes(p, t, p0, t0);
      BlackenRoot(x, p, t);
    }

    /** rb_insert */
    method Insert(node: Node) returns (ghost k: nat)
      requires Valid()
      requires node !in Nodes(shape) && node != nil && node != root
      modifies this`shape, Nodes(shape), root, node
      ensures Valid()
      ensures k <= |old(Contents())| && Contents() == old(Contents())[..k] + [node] + old(Contents())[k..]
      ensures RightSpot(compare, old(Contents()), k, node)
    {
      ghost var p := InsertBinary(node);
      k := |Before(p)|;
      PlacedOk(compare, p, node);
      InsertFixup(node, p, Fork(true, Leaf, node, Leaf));
    }

    // ---------- deletion ----------

    /** RB_DELETE_FIXUP_SUB, lines 248-253: the sibling is red. */
    method DeleteRedSibling(x: Node, w: Node, d: Side, ghost p: Path, ghost t: Shape)
      requires At(p, t, x, x.parent) && p.Step? && p.side == d && p.sib.Fork? && w == p.sib.n
      modifies PathNodes(p), Nodes(t), root
      ensures At(RedSibling(p), t, x, x.parent) && x.parent == p.n
    {
      ExchangeColours(x, w, d, p, t);
      ghost var g := Mk(true, d, t, p.n, Paint(p.sib, false));
      Rotate(x.parent, d, p.up, g);
      ghost var r := Rotated(d, g);
      GoDown(p.up, r, p.sib.n, p.sib.n.parent, d);
      GoDown(RedSibling(p).up, Near(r, d), p.n, p.sib.n, d);
    }

    /** Lines 249-250 */
    method ExchangeColours(x: Node, w: Node, d: Side, ghost p: Path, ghost t: Shape)
      requires At(p, t, x, x.parent) && p.Step? && p.side == d && p.sib.Fork? && w == p.sib.n
      modifies PathNodes(p)
      ensures At(p.up, Mk(true, d, t, p.n, Paint(p.sib, false)), p.n, p.n.parent) && x.parent == p.n
    {
      GoUp(p, t, x, p.n);
      GoDown(p.up, Close(p, t), p.n, p.n.parent, Other(d));
      SetRedBelow(w, false, p.n, Other(d), p.up, Close(p, t));
      SetRed(x.parent, true, p.up, Mk(p.red, d, t, p.n, Paint(p.sib, false)));
    }

    /** RB_DELETE_FIXUP_SUB, lines 259-264: only the near child of the sibling w is red. */
    method DeleteNearNephew(x: Node, w: Node, d: Side, ghost p: Path, ghost t: Shape)
      requires At(p, t, x, x.parent) && p.Step? && p.side == d && p.sib.Fork? && Near(p.sib, d).Fork?
      requires w == p.sib.n
      modifies PathNodes(p), Nodes(t), root
      ensures At(NearNephew(p), t, x, x.parent) && x.parent == p.n
    {
      GoUp(p, t, x, p.n);
      GoDown(p.up, Close(p, t), p.n, p.n.parent, Other(d));
      ghost var q := Step(p.up, p.n, p.red, Other(d), t);
      SetRedBelow(Child(w, d), false, w, d, q, p.sib);
      SetRed(w, true, q, Mk(p.sib.red, d, Paint(Near(p.sib, d), false), w, Near(p.sib, Other(d))));
      Rotate(w, Other(d), q, NearRecoloured(p.sib, d));
      ghost var r := Rotated(Other(d), NearRecoloured(p.sib, d));
      GoUp(q, r, r.n, p.n);
      GoDown(p.up, Close(q, r), p.n, p.n.parent, d);
    }

    /** RB_DELETE_FIXUP_SUB, lines 265-268: the far child of the sibling w is red. */
    method DeleteFarNephew(x: Node, w: Node, d: Side, ghost p: Path, ghost t: Shape)
      requires At(p, t, x, x.parent) && p.Step? && p.side == d && p.sib.Fork? && Near(p.sib, Other(d)).Fork?
      requires w == p.sib.n
      modifies PathNodes(p), Nodes(t), root
      ensures At(p.up, Rotated(d, FarRecoloured(p, t)), w, w.parent) && !p.n.red
    {
      GoUp(p, t, x, p.n);
      SetRedBelow(w, x.parent.red, p.n, Other(d), p.up, Close(p, t));
      SetRed(x.parent, false, p.up, Mk(p.red, d, t, p.n, Paint(p.sib, p.red)));
      ghost var g := Mk(false, d, t, p.n, Paint(p.sib, p.red));
      GoDown(p.up, g, p.n, p.n.parent, Other(d));
      ghost var q := Step(p.up, p.n, false, Other(d), t);
      SetRedBelow(Child(w, Other(d)), false, w, Other(d), q, Paint(p.sib, p.red));
      GoUp(q, Mk(p.red, d, Near(p.sib, d), w, Paint(Near(p.sib, Other(d)), false)), w, p.n);
      Rotate(x.parent, d, p.up, FarRecoloured(p, t));
      GoDown(p.up, Rotated(d, FarRecoloured(p, t)), w, w.parent, d);
    }

    /** The top node of the whole tree, seen from a focus on x. */
    ghost function RootFrom(p: Path, x: Node): Node {
      if p.Top? then x else RootFrom(p.up, p.n)
    }

    lemma {:induction false} RootFromFocus(p: Path, t: Shape, x: Node, up: Node)
      requires At(p, t, x, up)
      ensures RootFrom(p, x) == root.left
      decreases p
    {
      if p.Step? {
        GoUp(p, t, x, up);
        RootFromFocus(p.up, Close(p, t), up, up.parent);
      }
    }

    /** RB_DELETE_FIXUP_SUB(d, Other(d)), lines 258-270: w is black with a red child. */
    method DeleteRedNephew(x: Node, w0: Node, rootNode: Node, d: Side, ghost p0: Path, ghost t: Shape)
      returns (x': Node, ghost t': Shape)
      requires At(p0, t, x, x.parent) && Deficient(p0, t) && !IsRed(t) && p0.Step? && p0.side == d && p0.sib.Fork?
      requires w0 == p0.sib.n && !p0.sib.red && (IsRed(Near(p0.sib, d)) || IsRed(Near(p0.sib, Other(d))))
      requires Child(w0, Other(d)).red <==> IsRed(Near(p0.sib, Other(d)))
      requires rootNode == RootFrom(p0, x) || rootNode == p0.n
      modifies PathNodes(p0), Nodes(t), root
      ensures At(Top, t', root.left, root) && RedBlack(t') && SameTree(Top, t', p0, t)
      ensures x' == rootNode && !rootNode.red
    {
      var w := w0;
      ghost var p := p0;
      if !Child(w, Other(d)).red {
        NearNephewOk(p, t);
        DeleteNearNephew(x, w, d, p, t);
        p := NearNephew(p);
        GoUp(p, t, x, p.n);
        GoDown(p.up, Close(p, t), p.n, p.n.parent, Other(d));
        w := Child(x.parent, Other(d));
        SameNodes(p, t, p0, t);
      }
      FarNephewOk(p, t);
      DeleteFarNephew(x, w, d, p, t);
      x' := rootNode;
      ghost var r := Rotated(d, FarRecoloured(p, t));
      t' := Plug(p.up, r);
      RootFromFocus(p.up, r, w, w.parent);
      GoTop(p.up, r, w, w.parent);
    }

    /** RB_DELETE_FIXUP_SUB(d, Other(d)) from line 254 on, the sibling being black. */
    method DeleteBlackSibling(x: Node, rootNode: Node, d: Side, ghost p: Path, ghost t: Shape)
      returns (x': Node, ghost done: bool, ghost p': Path, ghost t': Shape)
      requires At(p, t, x, x.parent) && Deficient(p, t) && !IsRed(t) && p.Step? && p.side == d && !IsRed(p.sib)
      requires rootNode == RootFrom(p, x) || (rootNode == p.n && p.red)
      modifies PathNodes(p), Nodes(t), root
      ensures SameTree(p', t', p, t)
      ensures !done ==> At(p', t', x', x'.parent) && p' == p.up && Deficient(p', t')
      ensures !done ==> (rootNode == RootFrom(p', x') || IsRed(t'))
      ensures !done && p.red ==> IsRed(t')
      ensures done ==> x' == rootNode && !rootNode.red && At(p', t', root.left, root) && p' == Top && RedBlack(t')
    {
      DeficientSibling(p, t);
      GoUp(p, t, x, p.n);
      GoDown(p.up, Close(p, t), p.n, p.n.parent, Other(d));
      var w := Child(x.parent, Other(d));
      GoDown(Step(p.up, p.n, p.red, Other(d), t), p.sib, w, p.n, d);
      GoDown(Step(p.up, p.n, p.red, Other(d), t), p.sib, w, p.n, Other(d));
      if !Child(w, d).red && !Child(w, Other(d)).red {
        BlackNephewsOk(p, t);
        SetRedBelow(w, true, p.n, Other(d), p.up, Close(p, t));
        x', done, p', t' := x.parent, false, p.up, BlackNephews(p, t);
      } else {
        done, p' := true, Top;
        x', t' := DeleteRedNephew(x, w, rootNode, d, p, t);
      }
    }

    /** RB_DELETE_FIXUP_SUB(d, Other(d)) */
    method DeleteSub(x: Node, rootNode: Node, d: Side, ghost p: Path, ghost t: Shape)
      returns (x': Node, ghost done: bool, ghost p': Path, ghost t': Shape)
      requires At(p, t, x, x.parent) && Deficient(p, t) && !IsRed(t) && p.Step? && p.side == d
      requires rootNode == RootFrom(p, x)
      modifies PathNodes(p), Nodes(t), root
      ensures SameTree(p', t', p, t)
      ensures !done ==> At(p', t', x', x'.parent) && Deficient(p', t') && (rootNode == RootFrom(p', x') || IsRed(t'))
      ensures !done ==> Length(p') < Length(p) || IsRed(t')
      ensures done ==> x' == rootNode && !rootNode.red && At(p', t', root.left, root) && p' == Top && RedBlack(t')
    {
      DeficientSibling(p, t);
      GoUp(p, t, x, p.n);
      GoDown(p.up, Close(p, t), p.n, p.n.parent, Other(d));
      var w := Child(x.parent, Other(d));
      if w.red {
        RedSiblingOk(p, t);
        DeleteRedSibling(x, w, d, p, t);
        SameNodes(RedSibling(p), t, p, t);
        assert RootFrom(RedSibling(p), x) == RootFrom(p.up, p.sib.n);
        x', done, p', t' := DeleteBlackSibling(x, rootNode, d, RedSibling(p), t);
      } else {
        x', done, p', t' := DeleteBlackSibling(x, rootNode, d, p, t);
      }
    }

    lemma {:induction false} RootFromStep(p: Path, x: Node)
      requires p.Step?
      ensures RootFrom(p, x) in PathNodes(p)
      decreases p
    {
      if p.up.Step? {
        RootFromStep(p.up, p.n);
      }
    }

    /** x->red = 0 on line 281.  In the end x is nil if the tree has become empty, and if
        the loop ended in case 4 it is a node, no longer the root perhaps, that is black. */
    method DeleteFinish(x: Node, ghost done: bool, ghost p: Path, ghost t: Shape)
      requires !done ==> At(p, t, x, x.parent) && Deficient(p, t) && (p.Top? || IsRed(t))
      requires done ==> !x.red && At(p, t, root.left, root) && p == Top && RedBlack(t)
      modifies this`shape, x
      ensures Valid() && Contents() == Inorder(Plug(p, t))
    {
      x.red := false;
      if done {
        shape := t;
      } else {
        DeficientDone(p, t);
        GoTop(p, Paint(t, false), x, x.parent);
        shape := Plug(p, Paint(t, false));
      }
    }

    /** rb_delete_fixup.  The local rootNode is the source's root, read once: it may
        stop being the root when a rotation lifts another node above it. */
    method DeleteFixup(node: Node, ghost p0: Path, ghost t0: Shape)
      requires At(p0, t0, node, node.parent) && Deficient(p0, t0)
      modifies this`shape, PathNodes(p0), Nodes(t0), root, nil
      ensures Valid() && Contents() == Inorder(Plug(p0, t0))
    {
      RootFromFocus(p0, t0, node, node.parent);
      var x: Node, rootNode: Node := node, root.left;
      if p0.Step? {
        RootFromStep(p0, node);
      }
      assert rootNode in PathNodes(p0) + Nodes(t0) + {nil};
      ghost var p, t, done := p0, t0, false;
      while x != rootNode && !x.red
        invariant SameTree(p, t, p0, t0)
        invariant !done ==> At(p, t, x, x.parent) && Deficient(p, t) && (rootNode == RootFrom(p, x) || IsRed(t))
        invariant done ==> x == rootNode && !x.red && At(p, t, root.left, root) && p == Top && RedBlack(t)
        decreases if IsRed(t) || done then 0 else Length(p) + 1
      {
        SameNodes(p, t, p0, t0);
        DeficientSibling(p, t);
        SideOfFocus(p, t, x, x.parent);
        if x == x.parent.left {
          x, done, p, t := DeleteSub(x, rootNode, Left, p, t);
        } else {
          x, done, p, t := DeleteSub(x, rootNode, Right, p, t);
        }
      }
      SameNodes(p, t, p0, t0);
      if !done && p.Step? {
        RootFromStep(p, x);
      }
      DeleteFinish(x, done, p, t);
    }

    // ---------- neighbours ----------

    /** The walk down side d of lines 178-183 and 204-209. */
    method Descend(y0: Node, d: Side, ghost p: Path, ghost t: Shape) returns (y: Node)
      requires At(p, t, y0, y0.parent) && t.Fork?
      ensures y == Extreme(t, d)
    {
      y := y0;
      ghost var q, s := p, t;
      while Child(y, d) != nil
        invariant At(q, s, y, y.parent) && s.Fork? && Extreme(s, d) == Extreme(t, d)
        decreases s
      {
        GoDown(q, s, y, y.parent, d);
        q, s := Step(q, y, s.red, d, Near(s, Other(d))), Near(s, d);
        y := Child(y, d);
      }
      GoDown(q, s, y, y.parent, d);
    }

    /** rb_tree_successor, for the node in focus */
    method Successor(node: Node, ghost p: Path, ghost t: Shape) returns (y: Node)
      requires At(p, t, node, node.parent) && t.Fork?
      ensures y == if t.r.Fork? then Extreme(t.r, Left) else if After(p) != [] then After(p)[0] else nil
    {
      GoDown(p, t, node, node.parent, Right);
      if node.right != nil {
        y := Descend(node.right, Left, Step(p, node, t.red, Right, t.l), t.r);
      } else {
        var x: Node := node;
        y := x.parent;
        ghost var q, s := p, t;
        while x == y.right
          invariant At(q, s, x, y) && s.Fork? && y == x.parent && After(q) == After(p)
          decreases q
        {
          SideOfFocus(q, s, x, y);
          GoUp(q, s, x, y);
          q, s := q.up, Close(q, s);
          x, y := y, y.parent;
        }
        if q.Step? {
          SideOfFocus(q, s, x, y);
        }
        if y == root {
          y := nil;
        }
      }
    }

    /** rb_tree_predecessor, for the node in focus */
    method Predecessor(node: Node, ghost p: Path, ghost t: Shape) returns (y: Node)
      requires At(p, t, node, node.parent) && t.Fork?
      ensures y == if t.l.Fork? then Extreme(t.l, Right)
                   else if Before(p) != [] then Before(p)[|Before(p)| - 1] else nil
    {
      GoDown(p, t, node, node.parent, Left);
      if node.left != nil {
        y := Descend(node.left, Right, Step(p, node, t.red, Left, t.r), t.l);
      } else {
        var x: Node := node;
        y := x.parent;
        ghost var q, s := p, t;
        while x == y.left
          invariant At(q, s, x, y) && s.Fork? && y == x.parent && Before(q) == Before(p)
          decreases q
        {
          if y == root {
            return nil;
          }
          SideOfFocus(q, s, x, y);
          GoUp(q, s, x, y);
          q, s := q.up, Close(q, s);
          x, y := y, y.parent;
        }
        if q.Step? {
          SideOfFocus(q, s, x, y);
        }
      }
    }

    lemma FocusOn(node: Node) returns (p: Path, t: Shape)
      requires Valid() && node in Nodes(shape)
      ensures At(p, t, node, node.parent) && t.Fork? && t.n == node && Plug(p, t) == shape
    {
      p, t := Locate(shape, node);
      GoAlong(Top, p, t, root.left, root);
      AppendTop(p);
    }

    /** rb_node_next */
    method NodeNext(node: Node) returns (r: Node?)
      requires Valid() && node in Nodes(shape)
      ensures var y := NextIn(Contents(), node, nil); r == if y != nil then y else null
    {
      ghost var p, t := FocusOn(node);
      NeighboursOf(p, t, nil);
      var next := Successor(node, p, t);
      r := if next != nil then next else null;
    }

    /** rb_node_prev */
    method NodePrev(node: Node) returns (r: Node?)
      requires Valid() && node in Nodes(shape)
      ensures var y := PrevIn(Contents(), node, nil); r == if y != nil then y else null
    {
      ghost var p, t := FocusOn(node);
      NeighboursOf(p, t, nil);
      var prev := Predecessor(node, p, t);
      r := if prev != nil then prev else null;
    }

    // ---------- rb_delete ----------

    /** Lines 296-305: y, which lacks a child, gives its place to the other one. */
    method SpliceOut(y: Node, ghost p: Path, ghost t: Shape) returns (x: Node)
      requires At(p, t, y, y.parent) && t.Fork? && (t.l.Leaf? || t.r.Leaf?)
      modifies y.parent, y.left, y.right
      ensures At(p, OnlyChild(t), x, x.parent) && x.parent == y.parent
      ensures y.parent == old(y.parent) && y.red == old(y.red)
    {
      GoDown(p, t, y, y.parent, Left);
      GoDown(p, t, y, y.parent, Right);
      x := if y.left != nil then y.left else y.right;
      assert allocated(PathNodes(p)) && allocated(Nodes(t));
      Bypass(y, x, y.parent);
      if p.Step? {
        assert Child(p.n, p.side) == x && Rep(p.sib, Child(p.n, Other(p.side)), p.n, nil);
      }
    }

    /** Lines 299-305, as an exchange of pointers: x takes the place of y. */
    method Bypass(y: Node, x: Node, ghost up: Node)
      requires up == y.parent && x != y && x != up && y != up
      modifies x, up
      ensures x.parent == up && x.red == old(x.red) && x.left == old(x.left) && x.right == old(x.right)
      ensures up.parent == old(up.parent) && up.red == old(up.red)
      ensures var e := old(SideOf(up, y, Left));
              Child(up, e) == x && Child(up, Other(e)) == old(Child(up, Other(SideOf(up, y, Left))))
    {
      x.parent := y.parent;
      if y == y.parent.left {
        y.parent.left := x;
      } else {
        y.parent.right := x;
      }
    }

    /** Lines 309-318, as an exchange of pointers: y takes the place, the links and the
        colour of z. */
    method ReplacePointers(z: Node, y: Node, ghost l: Node, ghost r: Node, ghost up: Node)
      requires l == z.left && r == z.right && up == z.parent
      requires y != z && y != l && y != r && y != up && z != l && z != r && z != up && up != l && up != r && l != r
      modifies y, up, l, r
      ensures y.red == z.red && y.parent == up && y.left == l && y.right == r
      ensures l.parent == y && l.red == old(l.red) && l.left == old(l.left) && l.right == old(l.right)
      ensures r.parent == y && r.red == old(r.red) && r.left == old(r.left) && r.right == old(r.right)
      ensures up.parent == old(up.parent) && up.red == old(up.red)
      ensures var e := old(SideOf(up, z, Left));
              Child(up, e) == y && Child(up, Other(e)) == old(Child(up, Other(SideOf(up, z, Left))))
    {
      if z == z.parent.left {
        z.parent.left := y;
      } else {
        z.parent.right := y;
      }
      z.right.parent := y;
      z.left.parent := y;
      y.red, y.parent, y.left, y.right := z.red, z.parent, z.left, z.right;
    }

    method Replace(z: Node, y: Node, ghost p: Path, ghost t: Shape)
      requires At(p, t, z, z.parent) && t.Fork? && t.l.Fork?
      requires y !in PathNodes(p) && y !in Nodes(t) && y != nil && y != root
      modifies y, PathNodes(p), Nodes(t), root, nil
      ensures At(p, Fork(t.red, t.l, y, t.r), y, y.parent)
      ensures nil.parent == if t.r.Fork? then old(nil.parent) else y
    {
      hide Apart, Nodes;
      ghost var l, r, up := z.left, z.right, z.parent;
      ChildParts(t);
      ReplaceParts(t, y);
      if p.Step? {
        RootIn(p.sib);
      }
      assert Rep(t.l, l, z, nil) && Rep(t.r, r, z, nil);
      assert allocated(PathNodes(p)) && allocated(Nodes(t));
      ReplacePointers(z, y, l, r, up);
      assert Rep(t.l, l, y, nil) && Rep(t.r, r, y, nil);
      if p.Step? {
        assert Child(up, p.side) == y && Rep(p.sib, Child(up, Other(p.side)), up, nil);
      }
    }

    /** Lines 307-321, for the node y that has been spliced out: x is where it was. */
    method DeleteRest(x: Node, red: bool, ghost p: Path, ghost t: Shape)
      requires At(p, t, x, x.parent) && (red ==> RedBlack(Plug(p, t))) && (!red ==> Deficient(p, t))
      modifies this`shape, PathNodes(p), Nodes(t), root, nil
      ensures Valid() && Contents() == Inorder(Plug(p, t))
    {
      if !red {
        DeleteFixup(x, p, t);
      } else {
        GoTop(p, t, x, x.parent);
        shape := Plug(p, t);
      }
    }

    /** rb_delete of a node that lacks a child */
    method DeleteSparse(z: Node, ghost p: Path, ghost t: Shape)
      requires Valid() && At(p, t, z, z.parent) && Plug(p, t) == shape && t.Fork? && (t.l.Leaf? || t.r.Leaf?)
      modifies this`shape, Nodes(shape), root, nil
      ensures Valid() && Contents() == Without(old(Contents()), z)
    {
      GoDown(p, t, z, z.parent, Left);
      GoDown(p, t, z, z.parent, Right);
      PlugNodes(p, t);
      PlugNodes(p, OnlyChild(t));
      SpliceInorder(p, t);
      SpliceOk(p, t);
      var red := z.red;
      var x := SpliceOut(z, p, t);
      DeleteRest(x, red, p, OnlyChild(t));
    }

    /** Takes the successor y of z, where path q leads from the right child of z, out. */
    method Detach(z: Node, y: Node, ghost p: Path, ghost t: Shape, ghost q: Path, ghost s: Shape) returns (x: Node)
      requires At(p, t, z, z.parent) && t.Fork? && t.l.Fork?
      requires s.Fork? && s.l.Leaf? && s.n == y && Plug(q, s) == t.r
      modifies Nodes(t), nil
      ensures At(p, Fork(t.red, t.l, z, Plug(q, s.r)), z, z.parent)
      ensures x == PointerTo(s.r) && x.parent == EndOf(q, z) && y.red == s.red
    {
      ghost var base := Step(p, z, t.red, Right, t.l);
      GoDown(p, t, z, z.parent, Right);
      GoAlong(base, q, s, z.right, z);
      PlugNodes(q, s);
      assert y.parent == EndOf(q, z) && EndOf(q, z) in Nodes(t);
      GoDown(Append(q, base), s, y, EndOf(q, z), Left);
      GoDown(Append(q, base), s, y, EndOf(q, z), Right);
      x := SpliceOut(y, Append(q, base), s);
      GoBack(base, q, s.r, x, x.parent, z);
      GoUp(base, Plug(q, s.r), PointerTo(Plug(q, s.r)), z);
    }

    /** rb_delete of a node z with two children, of which y is the successor */
    method DeleteFull(z: Node, y: Node, ghost p: Path, ghost t: Shape)
      requires Valid() && At(p, t, z, z.parent) && Plug(p, t) == shape && t.Fork? && t.l.Fork? && t.r.Fork?
      requires y == Extreme(t.r, Left)
      modifies this`shape, Nodes(shape), root, nil
      ensures Valid() && Contents() == Without(old(Contents()), z)
    {
      ghost var q, s := SplitLeftmost(t.r);
      TransplantOk(p, t, q, s);
      ghost var r := Transplanted(p, t, q, y);
      ghost var base := Step(p, y, t.red, Right, t.l);
      DeleteFullNodes(p, t, q, s);
      var x := Detach(z, y, p, t, q, s);
      var red := y.red;
      Replace(z, y, p, Fork(t.red, t.l, z, Plug(q, s.r)));
      GoDown(p, Fork(t.red, t.l, y, Plug(q, s.r)), y, y.parent, Right);
      GoAlong(base, q, s.r, y.right, y);
      PlugStep(q, s.r);
      assert x.parent == EndOf(q, y);
      DeleteRest(x, red, r, s.r);
    }

    /** rb_delete */
    method Delete(node: Node)
      requires Valid() && node in Nodes(shape)
      modifies this`shape, Nodes(shape), root, nil
      ensures Valid() && Contents() == Without(old(Contents()), node)
    {
      ghost var p, t := FocusOn(node);
      GoDown(p, t, node, node.parent, Left);
      GoDown(p, t, node, node.parent, Right);
      if node.left == nil || node.right == nil {
        DeleteSparse(node, p, t);
      } else {
        assert allocated(PathNodes(p)) && allocated(Nodes(t)) && allocated(Nodes(shape));
        var y := Successor(node, p, t);
        DeleteFull(node, y, p, t);
      }
    }

    // ---------- rb_search ----------

    /** rb_search, with probe(n) for compare(n, key); t is the subtree found at r, and
        steps the number of comparisons. */
    method Search(probe: Node -> int) returns (r: Node?, ghost p: Path, ghost t: Shape, ghost steps: nat)
      requires Valid()
      ensures Plug(p, t) == shape && (r == null <==> t.Leaf?)
      ensures r != null ==> r in Nodes(shape) && probe(r) == 0 && r == t.n
      ensures Monotone(probe, Contents()) && r == null ==> forall x :: x in Contents() ==> probe(x) != 0
      ensures Monotone(probe, Contents()) ==> Covers(probe, shape, t)
      ensures Pow2(steps) <= (|Contents()| + 1) * (|Contents()| + 1)
    {
      var node: Node := root.left;
      p, t, steps := Top, shape, 0;
      while node != nil && probe(node) != 0
        invariant At(p, t, node, node.parent) || (t == Leaf && node == nil)
        invariant Plug(p, t) == shape && steps + Height(t) <= Height(shape)
        invariant t.Fork? ==> At(p, t, node, node.parent)
        invariant Monotone(probe, Contents()) ==> Monotone(probe, Inorder(t)) && Covers(probe, shape, t)
        decreases t
      {
        ghost var d := if probe(node) > 0 then Left else Right;
        if Monotone(probe, Inorder(t)) {
          SearchTurn(probe, t, d);
        }
        GoDown(p, t, node, node.parent, d);
        p, t, steps := Step(p, node, t.red, d, Near(t, Other(d))), Near(t, d), steps + 1;
        node := if probe(node) > 0 then node.left else node.right;
      }
      if node != nil {
        steps := steps + 1;
      }
      r := if node != nil then node else null;
      PlugNodes(p, t);
      LogarithmicHeight(shape);
      Pow2Mono(steps, Height(shape));
    }

    /** What Valid says of one node of the heap. */
    lemma NodeInvariants(n: Node)
      requires Valid() && n in Nodes(shape)
      ensures n.red ==> !n.left.red && !n.right.red
      ensures n.left != nil ==> n.left in Nodes(shape) && n.left.parent == n
      ensures n.right != nil ==> n.right in Nodes(shape) && n.right.parent == n
      ensures if n == root.left then n.parent == root && !n.red
              else n.parent in Nodes(shape) && (n == n.parent.left || n == n.parent.right)
    {
      var p, t := FocusOn(n);
      PlugNodes(p, t);
      PlugRedBlack(p, t);
      GoDown(p, t, n, n.parent, Left);
      GoDown(p, t, n, n.parent, Right);
      RootFromFocus(p, t, n, n.parent);
      if p.Step? {
        RootFromStep(p, n);
      }
    }

    /** check_tree: one more than the number of black nodes on every way down. */
    method CheckTree(node: Node, ghost p: Path, ghost t: Shape) returns (hb: nat)
      requires At(p, t, node, node.parent) || (t == Leaf && node == nil)
      ensures hb == BlackHeight(t) + 1
      ensures Balanced(t) ==> forall q :: Plug(q, Leaf) == t ==> hb == BlacksOn(q) + 1
      decreases t
    {
      if node == nil {
        WaysDown(t);
        return 1;
      }
      GoDown(p, t, node, node.parent, Left);
      hb := CheckTree(node.left, Step(p, node, t.red, Left, t.r), t.l);
      if !node.red {
        hb := hb + 1;
      }
      WaysDown(t);
    }

    lemma WaysDown(t: Shape)
      ensures Balanced(t) ==> forall q :: Plug(q, Leaf) == t ==> BlackHeight(t) == BlacksOn(q)
    {
      forall q | Balanced(t) && Plug(q, Leaf) == t ensures BlackHeight(t) == BlacksOn(q) {
        SameBlacks(q, Leaf);
      }
    }
  }
}
