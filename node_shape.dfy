/**
 * The heap side of src/BinarySearchTree.ts: the `TreeNode` objects and a ghost
 * image (`Shape`) of how their `left`/`right` links form a tree.  `Linked` says
 * the heap links are those of the shape, `Abs` reads the tree's value off the
 * nodes, and the framing lemmas below say what survives a field write.
 */
module NodeShape {
  import opened Paths
  import opened OrderedTree

  /** A node of the tree (src/BinarySearchTree.ts:17-47). */
  class TreeNode {
    var data: int
    var amount: int
    var left: TreeNode?
    var right: TreeNode?

    constructor (data: int)
      ensures this.data == data && amount == 1 && left == null && right == null
    {
      this.data := data;
      amount := 1;
      left := null;
      right := null;
    }

    /** `equals` on the native order: the data are the same value. */
    predicate Equals(obj: TreeNode)
      reads this, obj
    {
      data == obj.data
    }

    /** `greaterThan` on the native order. */
    predicate GreaterThan(obj: TreeNode)
      reads this, obj
    {
      data > obj.data
    }
  }

  /** Which nodes form the tree, and where. */
  datatype Shape = Nil | Cell(node: TreeNode, left: Shape, right: Shape)

  function RootOf(s: Shape): TreeNode?
  {
    if s.Nil? then null else s.node
  }

  ghost function NodesOf(s: Shape): set<TreeNode>
  {
    match s
    case Nil => {}
    case Cell(n, l, r) => {n} + NodesOf(l) + NodesOf(r)
  }

  /** No node occurs twice: the links form a tree, not a graph with sharing or cycles. */
  ghost predicate Distinct(s: Shape)
  {
    match s
    case Nil => true
    case Cell(n, l, r) =>
      && n !in NodesOf(l) && n !in NodesOf(r) && NodesOf(l) !! NodesOf(r)
      && Distinct(l) && Distinct(r)
  }

  /** The heap's `left` and `right` fields are the links of the shape. */
  ghost predicate Linked(s: Shape)
    reads NodesOf(s)`left, NodesOf(s)`right
  {
    match s
    case Nil => true
    case Cell(n, l, r) => n.left == RootOf(l) && n.right == RootOf(r) && Linked(l) && Linked(r)
  }

  /** The value the nodes of the shape hold. */
  ghost function Abs(s: Shape): Tree
    reads NodesOf(s)`data, NodesOf(s)`amount
  {
    match s
    case Nil => Leaf
    case Cell(n, l, r) => Branch(n.data, n.amount, Abs(l), Abs(r))
  }

  ghost function ChildShape(s: Shape, d: Dir): Shape
  {
    match s
    case Nil => Nil
    case Cell(_, l, r) => if d == Left then l else r
  }

  /** `s` with its child on side `d` replaced by `c`. */
  ghost function SetChildShape(s: Shape, d: Dir, c: Shape): Shape
  {
    match s
    case Nil => Nil
    case Cell(n, l, r) => if d == Left then Cell(n, c, r) else Cell(n, l, c)
  }

  ghost function At(s: Shape, p: Path): Shape
    decreases |p|
  {
    if p == [] then s else At(ChildShape(s, p[0]), p[1..])
  }

  /** `s` with the sub-shape at `p` replaced by `u`. */
  ghost function Put(s: Shape, p: Path, u: Shape): Shape
    decreases |p|
  {
    if p == [] then u
    else match s
      case Nil => Nil
      case Cell(n, l, r) =>
        if p[0] == Left then Cell(n, Put(l, p[1..], u), r)
        else Cell(n, l, Put(r, p[1..], u))
  }

  // ---------------------------------------------------------------------------
  // Facts about positions in a shape (no heap involved)

  lemma {:induction false} AtSnoc(s: Shape, p: Path, d: Dir)
    ensures At(s, p + [d]) == ChildShape(At(s, p), d)
    decreases |p|
  {
    if p != [] {
      assert (p + [d])[1..] == p[1..] + [d];
      AtSnoc(ChildShape(s, p[0]), p[1..], d);
    }
  }

  /** Above a node there is a node. */
  lemma AtParent(s: Shape, p: Path)
    requires p != [] && At(s, p).Cell?
    ensures At(s, p[..|p| - 1]).Cell?
  {
    assert p == p[..|p| - 1] + [p[|p| - 1]];
    AtSnoc(s, p[..|p| - 1], p[|p| - 1]);
  }

  lemma {:induction false} AtWithin(s: Shape, p: Path)
    ensures NodesOf(At(s, p)) <= NodesOf(s)
    ensures Distinct(s) ==> Distinct(At(s, p))
    decreases |p|
  {
    if p != [] {
      AtWithin(ChildShape(s, p[0]), p[1..]);
    }
  }

  /** The shape at a path has the value at that path. */
  lemma {:induction false} AbsAt(s: Shape, p: Path)
    ensures Abs(At(s, p)) == Subtree(Abs(s), p)
    decreases |p|
  {
    if p != [] {
      AbsAt(ChildShape(s, p[0]), p[1..]);
    }
  }

  lemma {:induction false} LinkedAt(s: Shape, p: Path)
    requires Linked(s)
    ensures Linked(At(s, p))
    decreases |p|
  {
    if p != [] {
      LinkedAt(ChildShape(s, p[0]), p[1..]);
    }
  }

  /** A node sits at one position only. */
  lemma {:induction false} AtUnique(s: Shape, p: Path, q: Path)
    requires Distinct(s) && At(s, p).Cell? && At(s, q).Cell?
    requires At(s, p).node == At(s, q).node
    ensures p == q
    decreases |p|
  {
    if p != [] && q != [] {
      AtWithin(ChildShape(s, p[0]), p[1..]);
      AtWithin(ChildShape(s, q[0]), q[1..]);
      AtUnique(ChildShape(s, p[0]), p[1..], q[1..]);
    } else if p != [] {
      AtWithin(ChildShape(s, p[0]), p[1..]);
    } else if q != [] {
      AtWithin(ChildShape(s, q[0]), q[1..]);
    }
  }

  /** Replacing the sub-shape at `p`: which nodes remain and whether they stay distinct. */
  lemma {:induction false} PutNodes(s: Shape, p: Path, u: Shape)
    requires Distinct(s) && At(s, p).Cell? && Distinct(u)
    requires NodesOf(u) !! (NodesOf(s) - NodesOf(At(s, p)))
    ensures NodesOf(Put(s, p, u)) == NodesOf(s) - NodesOf(At(s, p)) + NodesOf(u)
    ensures Distinct(Put(s, p, u))
    decreases |p|
  {
    if p != [] {
      var c := ChildShape(s, p[0]);
      AtWithin(c, p[1..]);
      PutNodes(c, p[1..], u);
    }
  }

  lemma {:induction false} PutRoot(s: Shape, p: Path, u: Shape)
    requires p != [] && s.Cell?
    ensures RootOf(Put(s, p, u)) == s.node
  {
  }

  lemma {:induction false} PutAt(s: Shape, p: Path, u: Shape)
    requires At(s, p).Cell?
    ensures At(Put(s, p, u), p) == u
    decreases |p|
  {
    if p != [] {
      PutAt(ChildShape(s, p[0]), p[1..], u);
    }
  }

  lemma {:induction false} PutSelf(s: Shape, p: Path)
    requires At(s, p).Cell?
    ensures Put(s, p, At(s, p)) == s
    decreases |p|
  {
    if p != [] {
      match s
      case Nil =>
        AtWithin(s, p);
      case Cell(_, _, _) =>
        PutSelf(ChildShape(s, p[0]), p[1..]);
    }
  }

  /** The value of a shape with `u` hung at `p` is the value with `Abs(u)` grafted there. */
  lemma {:induction false} AbsPut(s: Shape, p: Path, u: Shape)
    ensures Abs(Put(s, p, u)) == Graft(Abs(s), p, Abs(u))
    decreases |p|
  {
    if p != [] {
      match s
      case Nil =>
      case Cell(_, l, r) =>
        AbsPut(ChildShape(s, p[0]), p[1..], u);
    }
  }

  // ---------------------------------------------------------------------------
  // What a field write inside the sub-shape at a position leaves intact

  /** The nodes of `s` outside its sub-shape at `p`. */
  ghost function Outside(s: Shape, p: Path): set<TreeNode>
  {
    NodesOf(s) - NodesOf(At(s, p))
  }

  lemma OutsideStep(s: Shape, p: Path)
    requires Distinct(s) && p != [] && s.Cell?
    ensures s.node in Outside(s, p)
    ensures Outside(ChildShape(s, p[0]), p[1..]) <= Outside(s, p)
    ensures NodesOf(ChildShape(s, Other(p[0]))) <= Outside(s, p)
  {
    AtWithin(ChildShape(s, p[0]), p[1..]);
  }

  /**
   * The links along the way down to position `p` are those of the shape, and so
   * are all links off that way.  It reads only the nodes outside the sub-shape
   * at `p`, so writes inside that sub-shape leave it as it is.
   */
  ghost predicate LinkedAbove(s: Shape, p: Path)
    requires Distinct(s)
    reads Outside(s, p)`left, Outside(s, p)`right
    decreases |p|
  {
    if p == [] then true
    else match s
      case Nil => false
      case Cell(n, l, r) =>
        OutsideStep(s, p);
        && n.left == RootOf(l) && n.right == RootOf(r)
        && Linked(ChildShape(s, Other(p[0])))
        && LinkedAbove(ChildShape(s, p[0]), p[1..])
  }

  /**
   * The value of `s` with `t` in place of its sub-shape at `p`, read only
   * from the nodes outside that sub-shape.
   */
  ghost function AbsAround(s: Shape, p: Path, t: Tree): Tree
    requires Distinct(s)
    reads Outside(s, p)`data, Outside(s, p)`amount
    decreases |p|
  {
    if p == [] then t
    else match s
      case Nil => Leaf
      case Cell(n, l, r) =>
        OutsideStep(s, p);
        if p[0] == Left then Branch(n.data, n.amount, AbsAround(l, p[1..], t), Abs(r))
        else Branch(n.data, n.amount, Abs(l), AbsAround(r, p[1..], t))
  }

  lemma {:induction false} AbsAroundGraft(s: Shape, p: Path, t: Tree)
    requires Distinct(s)
    ensures AbsAround(s, p, t) == Graft(Abs(s), p, t)
    decreases |p|
  {
    if p != [] {
      match s
      case Nil =>
      case Cell(_, _, _) =>
        AbsAroundGraft(ChildShape(s, p[0]), p[1..], t);
    }
  }

  lemma {:induction false} LinkedIsAbove(s: Shape, p: Path)
    requires Distinct(s) && Linked(s) && At(s, p).Cell?
    ensures LinkedAbove(s, p)
    decreases |p|
  {
    if p != [] {
      match s
      case Nil =>
        AtWithin(s, p);
      case Cell(_, _, _) =>
        LinkedIsAbove(ChildShape(s, p[0]), p[1..]);
    }
  }

  /** Hanging a linked sub-shape with the same top node at `p` gives a linked shape. */
  lemma {:induction false} PutLinkedAbove(s: Shape, p: Path, u: Shape)
    requires Distinct(s) && LinkedAbove(s, p) && At(s, p).Cell?
    requires RootOf(u) == At(s, p).node
    requires Linked(u)
    ensures Linked(Put(s, p, u))
    decreases |p|
  {
    if p != [] {
      match s
      case Cell(_, l, r) =>
        PutLinkedAbove(ChildShape(s, p[0]), p[1..], u);
        if p[1..] != [] {
          PutRoot(ChildShape(s, p[0]), p[1..], u);
        }
    }
  }

  /**
   * Re-linking below position `p` in the current heap: if the links above `p`
   * are those of the shape and the new sub-shape `u` (same top node, no node
   * shared with the rest) is linked, the whole new shape is a linked tree with
   * the same root.
   */
  lemma {:induction false} PutLinked(s: Shape, p: Path, u: Shape)
    requires Distinct(s) && LinkedAbove(s, p) && At(s, p).Cell?
    requires RootOf(u) == At(s, p).node
    requires Linked(u) && Distinct(u)
    requires NodesOf(u) !! (NodesOf(s) - NodesOf(At(s, p)))
    ensures Linked(Put(s, p, u))
    ensures NodesOf(Put(s, p, u)) == NodesOf(s) - NodesOf(At(s, p)) + NodesOf(u)
    ensures Distinct(Put(s, p, u))
    ensures RootOf(Put(s, p, u)) == RootOf(s)
  {
    PutLinkedAbove(s, p, u);
    PutNodes(s, p, u);
    if p != [] {
      match s
      case Nil =>
        AtWithin(s, p);
      case Cell(_, _, _) =>
        PutRoot(s, p, u);
    }
  }

  /** Stepping back one position: the links above the parent, and the parent's other side. */
  lemma {:induction false} LinkedAboveSnoc(s: Shape, pp: Path, d: Dir)
    requires Distinct(s) && At(s, pp).Cell? && LinkedAbove(s, pp + [d])
    ensures LinkedAbove(s, pp)
    ensures var up := At(s, pp);
      && Linked(ChildShape(up, Other(d)))
      && (if d == Left then up.node.right else up.node.left) == RootOf(ChildShape(up, Other(d)))
    decreases |pp|
  {
    if pp == [] {
      assert [d][1..] == [];
    } else {
      assert (pp + [d])[1..] == pp[1..] + [d];
      match s
      case Nil =>
        AtWithin(s, pp);
      case Cell(_, _, _) =>
        OutsideStep(s, pp);
        LinkedAboveSnoc(ChildShape(s, pp[0]), pp[1..], d);
    }
  }

  lemma {:induction false} PutSnoc(s: Shape, pp: Path, d: Dir, c: Shape)
    requires At(s, pp).Cell?
    ensures Put(s, pp + [d], c) == Put(s, pp, SetChildShape(At(s, pp), d, c))
    decreases |pp|
  {
    if pp == [] {
      assert [d][1..] == [];
    } else {
      assert (pp + [d])[1..] == pp[1..] + [d];
      match s
      case Nil =>
        AtWithin(s, pp);
      case Cell(_, _, _) =>
        PutSnoc(ChildShape(s, pp[0]), pp[1..], d, c);
    }
  }

  /** The nodes outside position `pp + [d]`: those outside `pp`, the parent, and the parent's other side. */
  lemma OutsideSnoc(s: Shape, pp: Path, d: Dir)
    requires Distinct(s) && At(s, pp).Cell?
    ensures Outside(s, pp + [d]) == Outside(s, pp) + {At(s, pp).node} + NodesOf(ChildShape(At(s, pp), Other(d)))
  {
    AtSnoc(s, pp, d);
    AtWithin(s, pp);
  }

  /**
   * The write `node.left = child` or `node.right = child` on the node at
   * position `p` of the linked shape `s`, where `child` heads the linked
   * sub-shape `c`, made of the node's old child and nodes outside `s`.  The
   * result `s'` is `s` with `c` hung there, again linked and distinct.
   */
  method Relink(node: TreeNode, d: Dir, child: TreeNode?, ghost s: Shape, ghost p: Path, ghost c: Shape)
    returns (ghost s': Shape)
    requires Linked(s) && Distinct(s)
    requires At(s, p).Cell? && At(s, p).node == node
    requires child == RootOf(c) && Linked(c) && Distinct(c)
    requires NodesOf(c) !! (NodesOf(s) - NodesOf(ChildShape(At(s, p), d)))
    modifies node`left, node`right
    ensures s' == Put(s, p, SetChildShape(At(s, p), d, c))
    ensures Linked(s') && Distinct(s') && RootOf(s') == RootOf(s)
    ensures NodesOf(s') == NodesOf(s) - NodesOf(ChildShape(At(s, p), d)) + NodesOf(c)
    ensures Abs(s') == old(Abs(Put(s, p, SetChildShape(At(s, p), d, c))))
  {
    ghost var sub := At(s, p);
    ghost var other := ChildShape(sub, Other(d));
    ghost var u := SetChildShape(sub, d, c);
    assert && sub.Cell? && LinkedAbove(s, p)
           && node !in Outside(s, p) && node !in NodesOf(other) && node !in NodesOf(c)
           && Linked(other) && Distinct(u) && NodesOf(u) !! Outside(s, p)
           && u == (if d == Left then Cell(node, c, other) else Cell(node, other, c))
           && RootOf(other) == (if d == Left then node.right else node.left)
           && Outside(s, p) + NodesOf(u) == NodesOf(s) - NodesOf(ChildShape(sub, d)) + NodesOf(c)
    by {
      AtWithin(s, p);
      LinkedAt(s, p);
      LinkedIsAbove(s, p);
    }
    if d == Left {
      node.left := child;
    } else {
      node.right := child;
    }
    assert Linked(u) by {
      assert Linked(other) && Linked(c);
    }
    PutLinked(s, p, u);
    s' := Put(s, p, u);
  }

  /**
   * The write `parent.right = child` or `parent.left = child`, the side picked
   * by `greaterThan`, that hangs the linked shape `c` (headed by `child`) at
   * position `p` of `s` in place of the node `curNode` there.  Only the links
   * above `p` need to be those of `s`: the ones below may be rewired already.
   */
  method Rehang(curNode: TreeNode, parent: TreeNode, child: TreeNode?, ghost s: Shape, ghost p: Path, ghost c: Shape)
    returns (ghost s': Shape)
    requires Distinct(s) && At(s, p).Cell? && At(s, p).node == curNode && LinkedAbove(s, p)
    requires p != [] && parent == RootOf(At(s, p[..|p| - 1]))
    requires p[|p| - 1] == Right <==> curNode.data > parent.data
    requires child == RootOf(c) && Linked(c) && Distinct(c) && NodesOf(c) !! Outside(s, p)
    modifies parent`left, parent`right
    ensures s' == Put(s, p, c)
    ensures Linked(s') && Distinct(s') && RootOf(s') == RootOf(s)
    ensures NodesOf(s') == Outside(s, p) + NodesOf(c)
    ensures Abs(s') == old(Abs(Put(s, p, c)))
  {
    ghost var pp := p[..|p| - 1];
    ghost var d := p[|p| - 1];
    ghost var up := At(s, pp);
    ghost var other := ChildShape(up, Other(d));
    ghost var u := SetChildShape(up, d, c);
    assert p == pp + [d];
    assert && up.Cell? && up.node == parent && LinkedAbove(s, pp) && Linked(other)
           && RootOf(other) == (if d == Left then parent.right else parent.left)
           && parent !in NodesOf(c) && parent !in NodesOf(other) && parent !in Outside(s, pp)
           && Distinct(u) && NodesOf(u) !! Outside(s, pp)
           && u == (if d == Left then Cell(parent, c, other) else Cell(parent, other, c))
           && Outside(s, pp) + NodesOf(u) == Outside(s, p) + NodesOf(c)
    by {
      AtSnoc(s, pp, d);
      AtWithin(s, pp);
      LinkedAboveSnoc(s, pp, d);
      OutsideSnoc(s, pp, d);
    }
    if curNode.GreaterThan(parent) {
      parent.right := child;
    } else {
      parent.left := child;
    }
    assert Linked(u) by {
      assert Linked(other) && Linked(c);
    }
    PutLinked(s, pp, u);
    PutSnoc(s, pp, d, c);
    s' := Put(s, p, c);
  }
}
