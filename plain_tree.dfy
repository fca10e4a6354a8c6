/**
 * The minimal search tree of binary-search-tree/BinarySearchTree.ts.  Its
 * nodes carry no counter, so a value equal to a node's goes into that node's
 * left subtree as a node of its own: the order kept is "left subtree <= node
 * < right subtree".  The value layer comes first, then the heap of
 * `TreeNode` objects and the class.
 */
module PlainTree {
  import opened Paths

  // ---------------------------------------------------------------------------
  // Values

  datatype Tree = Leaf | Node(data: int, left: Tree, right: Tree)

  function Elems(t: Tree): multiset<int>
  {
    match t
    case Leaf => multiset{}
    case Node(d, l, r) => Elems(l) + multiset{d} + Elems(r)
  }

  /** Equal or smaller values to the left, greater values to the right. */
  predicate Ordered(t: Tree)
  {
    match t
    case Leaf => true
    case Node(d, l, r) =>
      && Ordered(l) && Ordered(r)
      && (forall k | k in Elems(l) :: k <= d)
      && (forall k | k in Elems(r) :: d < k)
  }

  /** The tree `insert` builds: go right past smaller values, left otherwise, and hang a new leaf. */
  function Inserted(t: Tree, v: int): Tree
  {
    match t
    case Leaf => Node(v, Leaf, Leaf)
    case Node(d, l, r) => if v > d then Node(d, l, Inserted(r, v)) else Node(d, Inserted(l, v), r)
  }

  /** The comparison walk of `find`: stop on an equal value, go left on a smaller one, right otherwise. */
  predicate Found(t: Tree, v: int)
  {
    match t
    case Leaf => false
    case Node(d, l, r) => v == d || (if v < d then Found(l, v) else Found(r, v))
  }

  /** Inserting adds the value once and removes nothing. */
  lemma {:induction false} InsertElems(t: Tree, v: int)
    ensures Elems(Inserted(t, v)) == Elems(t) + multiset{v}
  {
    match t
    case Leaf =>
    case Node(d, l, r) =>
      if v > d {
        InsertElems(r, v);
      } else {
        InsertElems(l, v);
      }
  }

  lemma {:induction false} InsertOrdered(t: Tree, v: int)
    requires Ordered(t)
    ensures Ordered(Inserted(t, v))
  {
    match t
    case Leaf =>
    case Node(d, l, r) =>
      if v > d {
        InsertOrdered(r, v);
        InsertElems(r, v);
      } else {
        InsertOrdered(l, v);
        InsertElems(l, v);
      }
  }

  /** In an ordered tree the walk of `find` succeeds exactly on the stored values. */
  lemma {:induction false} FoundIff(t: Tree, v: int)
    requires Ordered(t)
    ensures Found(t, v) <==> v in Elems(t)
  {
    match t
    case Leaf =>
    case Node(d, l, r) =>
      FoundIff(l, v);
      FoundIff(r, v);
  }

  /** The walk of `find` reaches a value just inserted, in any tree: both walks turn at the same nodes. */
  lemma {:induction false} FoundAfterInsert(t: Tree, v: int)
    ensures Found(Inserted(t, v), v)
  {
    match t
    case Leaf =>
    case Node(d, l, r) =>
      if v > d {
        FoundAfterInsert(r, v);
      } else if v < d {
        FoundAfterInsert(l, v);
      }
  }

  // Positions

  function Child(t: Tree, d: Dir): Tree
  {
    match t
    case Leaf => Leaf
    case Node(_, l, r) => if d == Left then l else r
  }

  function Subtree(t: Tree, p: Path): Tree
    decreases |p|
  {
    if p == [] then t else Subtree(Child(t, p[0]), p[1..])
  }

  /** `t` with the subtree at `p` replaced by `u` (no change if `p` leaves the tree). */
  function Graft(t: Tree, p: Path, u: Tree): Tree
    decreases |p|
  {
    if p == [] then u
    else match t
      case Leaf => Leaf
      case Node(d, l, r) =>
        if p[0] == Left then Node(d, Graft(l, p[1..], u), r)
        else Node(d, l, Graft(r, p[1..], u))
  }

  function SetChild(t: Tree, d: Dir, u: Tree): Tree
  {
    match t
    case Leaf => Leaf
    case Node(x, l, r) => if d == Left then Node(x, u, r) else Node(x, l, u)
  }

  /** The way `insert` walks down to the empty slot it fills. */
  function InsertPath(t: Tree, v: int): Path
  {
    match t
    case Leaf => []
    case Node(d, l, r) => if v > d then [Right] + InsertPath(r, v) else [Left] + InsertPath(l, v)
  }

  /** `insert` adds exactly one leaf, in the empty slot its walk ends at, and changes nothing else. */
  lemma {:induction false} InsertLeaf(t: Tree, v: int)
    ensures Subtree(t, InsertPath(t, v)) == Leaf
    ensures Inserted(t, v) == Graft(t, InsertPath(t, v), Node(v, Leaf, Leaf))
  {
    match t
    case Leaf =>
    case Node(d, l, r) =>
      var p := InsertPath(t, v);
      assert p[1..] == (if v > d then InsertPath(r, v) else InsertPath(l, v));
      InsertLeaf(l, v);
      InsertLeaf(r, v);
  }

  lemma {:induction false} SubtreeSnoc(t: Tree, p: Path, d: Dir)
    ensures Subtree(t, p + [d]) == Child(Subtree(t, p), d)
    decreases |p|
  {
    if p != [] {
      assert (p + [d])[1..] == p[1..] + [d];
      SubtreeSnoc(Child(t, p[0]), p[1..], d);
    }
  }

  lemma {:induction false} GraftSnoc(t: Tree, p: Path, d: Dir, u: Tree)
    requires Subtree(t, p).Node?
    ensures Graft(t, p + [d], u) == Graft(t, p, SetChild(Subtree(t, p), d, u))
    decreases |p|
  {
    if p != [] {
      assert (p + [d])[1..] == p[1..] + [d];
      GraftSnoc(Child(t, p[0]), p[1..], d, u);
    }
  }

  /** How many nodes: what the `size` counter keeps. */
  function Count(t: Tree): nat
  {
    match t
    case Leaf => 0
    case Node(_, l, r) => 1 + Count(l) + Count(r)
  }

  /** Every insertion adds a node, whether or not the value was already there. */
  lemma {:induction false} InsertCount(t: Tree, v: int)
    ensures Count(Inserted(t, v)) == Count(t) + 1
  {
    match t
    case Leaf =>
    case Node(d, l, r) =>
      if v > d {
        InsertCount(r, v);
      } else {
        InsertCount(l, v);
      }
  }

  // ---------------------------------------------------------------------------
  // The heap

  class TreeNode {
    var data: int
    var left: TreeNode?
    var right: TreeNode?

    constructor (data: int)
      ensures this.data == data && left == null && right == null
    {
      this.data := data;
      left := null;
      right := null;
    }
  }

  /** Which nodes form the tree, and where. */
  datatype Shape = Nil | Cell(node: TreeNode, left: Shape, right: Shape)

  function RootOf(s: Shape): TreeNode?
  {
    if s.Nil? then null else s.node
  }

  ghost function NodesOf(s: Shape): set<TreeNode>
  {
    match s
    case Nil => {}
    case Cell(n, l, r) => {n} + NodesOf(l) + NodesOf(r)
  }

  /** No node occurs twice. */
  ghost predicate Distinct(s: Shape)
  {
    match s
    case Nil => true
    case Cell(n, l, r) =>
      && n !in NodesOf(l) && n !in NodesOf(r) && NodesOf(l) !! NodesOf(r)
      && Distinct(l) && Distinct(r)
  }

  /** The heap's `left` and `right` fields are the links of the shape. */
  ghost predicate Linked(s: Shape)
    reads NodesOf(s)`left, NodesOf(s)`right
  {
    match s
    case Nil => true
    case Cell(n, l, r) => n.left == RootOf(l) && n.right == RootOf(r) && Linked(l) && Linked(r)
  }

  ghost function Abs(s: Shape): Tree
    reads NodesOf(s)`data
  {
    match s
    case Nil => Leaf
    case Cell(n, l, r) => Node(n.data, Abs(l), Abs(r))
  }

  ghost function ChildShape(s: Shape, d: Dir): Shape
  {
    match s
    case Nil => Nil
    case Cell(_, l, r) => if d == Left then l else r
  }

  ghost function SetChildShape(s: Shape, d: Dir, c: Shape): Shape
  {
    match s
    case Nil => Nil
    case Cell(n, l, r) => if d == Left then Cell(n, c, r) else Cell(n, l, c)
  }

  ghost function At(s: Shape, p: Path): Shape
    decreases |p|
  {
    if p == [] then s else At(ChildShape(s, p[0]), p[1..])
  }

  ghost function Put(s: Shape, p: Path, u: Shape): Shape
    decreases |p|
  {
    if p == [] then u
    else match s
      case Nil => Nil
      case Cell(n, l, r) =>
        if p[0] == Left then Cell(n, Put(l, p[1..], u), r)
        else Cell(n, l, Put(r, p[1..], u))
  }

  lemma {:induction false} AtSnoc(s: Shape, p: Path, d: Dir)
    ensures At(s, p + [d]) == ChildShape(At(s, p), d)
    decreases |p|
  {
    if p != [] {
      assert (p + [d])[1..] == p[1..] + [d];
      AtSnoc(ChildShape(s, p[0]), p[1..], d);
    }
  }

  lemma {:induction false} AtWithin(s: Shape, p: Path)
    ensures NodesOf(At(s, p)) <= NodesOf(s)
    ensures Distinct(s) ==> Distinct(At(s, p))
    decreases |p|
  {
    if p != [] {
      AtWithin(ChildShape(s, p[0]), p[1..]);
    }
  }

  lemma {:induction false} AbsAt(s: Shape, p: Path)
    ensures Abs(At(s, p)) == Subtree(Abs(s), p)
    decreases |p|
  {
    if p != [] {
      AbsAt(ChildShape(s, p[0]), p[1..]);
    }
  }

  lemma {:induction false} LinkedAt(s: Shape, p: Path)
    requires Linked(s)
    ensures Linked(At(s, p))
    decreases |p|
  {
    if p != [] {
      LinkedAt(ChildShape(s, p[0]), p[1..]);
    }
  }

  lemma {:induction false} AbsPut(s: Shape, p: Path, u: Shape)
    ensures Abs(Put(s, p, u)) == Graft(Abs(s), p, Abs(u))
    decreases |p|
  {
    if p != [] {
      match s
      case Nil =>
      case Cell(_, l, r) =>
        AbsPut(ChildShape(s, p[0]), p[1..], u);
    }
  }

  lemma {:induction false} PutNodes(s: Shape, p: Path, u: Shape)
    requires Distinct(s) && At(s, p).Cell? && Distinct(u)
    requires NodesOf(u) !! (NodesOf(s) - NodesOf(At(s, p)))
    ensures NodesOf(Put(s, p, u)) == NodesOf(s) - NodesOf(At(s, p)) + NodesOf(u)
    ensures Distinct(Put(s, p, u))
    decreases |p|
  {
    if p != [] {
      var c := ChildShape(s, p[0]);
      AtWithin(c, p[1..]);
      PutNodes(c, p[1..], u);
    }
  }

  /** The nodes of `s` outside its sub-shape at `p`. */
  ghost function Outside(s: Shape, p: Path): set<TreeNode>
  {
    NodesOf(s) - NodesOf(At(s, p))
  }

  lemma OutsideStep(s: Shape, p: Path)
    requires Distinct(s) && p != [] && s.Cell?
    ensures s.node in Outside(s, p)
    ensures Outside(ChildShape(s, p[0]), p[1..]) <= Outside(s, p)
    ensures NodesOf(ChildShape(s, Other(p[0]))) <= Outside(s, p)
  {
    AtWithin(ChildShape(s, p[0]), p[1..]);
  }

  /** The links on the way down to `p` and off it; it reads only the nodes outside the sub-shape at `p`. */
  ghost predicate LinkedAbove(s: Shape, p: Path)
    requires Distinct(s)
    reads Outside(s, p)`left, Outside(s, p)`right
    decreases |p|
  {
    if p == [] then true
    else match s
      case Nil => false
      case Cell(n, l, r) =>
        OutsideStep(s, p);
        && n.left == RootOf(l) && n.right == RootOf(r)
        && Linked(ChildShape(s, Other(p[0])))
        && LinkedAbove(ChildShape(s, p[0]), p[1..])
  }

  lemma {:induction false} LinkedIsAbove(s: Shape, p: Path)
    requires Distinct(s) && Linked(s) && At(s, p).Cell?
    ensures LinkedAbove(s, p)
    decreases |p|
  {
    if p != [] {
      match s
      case Nil =>
        AtWithin(s, p);
      case Cell(_, _, _) =>
        LinkedIsAbove(ChildShape(s, p[0]), p[1..]);
    }
  }

  /** Hanging a linked sub-shape with the same top node at `p` keeps the whole shape linked, with the same root. */
  lemma {:induction false} PutLinked(s: Shape, p: Path, u: Shape)
    requires Distinct(s) && LinkedAbove(s, p) && At(s, p).Cell?
    requires RootOf(u) == At(s, p).node && Linked(u)
    ensures Linked(Put(s, p, u))
    ensures RootOf(Put(s, p, u)) == RootOf(s)
    decreases |p|
  {
    if p != [] {
      match s
      case Cell(_, l, r) =>
        PutLinked(ChildShape(s, p[0]), p[1..], u);
    }
  }

  // ---------------------------------------------------------------------------
  // The class

  class BinarySearchTree {
    var root: TreeNode?
    var size: int
    ghost var shape: Shape
    ghost var Repr: set<TreeNode>

    /** The links form a tree whose nodes are `Repr`. */
    ghost predicate Wired()
      reads this, Repr
    {
      && Repr == NodesOf(shape)
      && root == RootOf(shape)
      && Distinct(shape)
      && Linked(shape)
    }

    ghost predicate Valid()
      reads this, Repr
    {
      && Wired()
      && Ordered(Abs(shape))
      && size == Count(Abs(shape))
    }

    ghost function Model(): Tree
      reads this`shape, NodesOf(shape)`data
    {
      Abs(shape)
    }

    constructor ()
      ensures Valid() && Model() == Leaf && root == null && size == 0
    {
      root := null;
      size := 0;
      shape := Nil;
      Repr := {};
    }

    /**
     * `insert`: walk down, right past smaller values and left otherwise, and
     * hang a new leaf in the first empty slot.  Every call adds a node and
     * counts it, equal values included.
     */
    method Insert(value: int)
      requires Valid()
      modifies this, Repr`left, Repr`right
      ensures Valid()
      ensures Model() == Inserted(old(Model()), value)
      ensures size == old(size) + 1
      ensures old(Repr) <= Repr && fresh(Repr - old(Repr))
    {
      ghost var T := Model();
      if root == null {
        root := new TreeNode(value);
        shape := Cell(root, Nil, Nil);
        Repr := {root};
      } else {
        Descend(value);
      }
      ghost var T' := Model();
      assert T' == Inserted(T, value) && Wired();
      assert Ordered(T') && Count(T') == Count(T) + 1 by {
        InsertOrdered(T, value);
        InsertCount(T, value);
      }
      size := size + 1;
      assert Model() == T';
    }

    /** The `while (true)` walk of `insert` below an existing root, ending in the write of the new leaf. */
    method Descend(value: int)
      requires Wired() && root != null
      modifies this`shape, this`Repr, Repr`left, Repr`right
      ensures Wired()
      ensures Model() == Inserted(old(Model()), value)
      ensures old(Repr) <= Repr && fresh(Repr - old(Repr))
    {
      ghost var T := Model();
      var currentNode := root;
      ghost var p: Path := [];
      while true
        invariant Wired() && T == Model() && Repr == old(Repr)
        invariant At(shape, p).Cell? && currentNode == At(shape, p).node && currentNode in Repr
        invariant Inserted(T, value) == Graft(T, p, Inserted(Subtree(T, p), value))
        decreases Count(Subtree(T, p))
      {
        var d := if value > currentNode.data then Right else Left;
        StepDown(shape, p, d);
        GraftSnoc(T, p, d, Inserted(Subtree(T, p + [d]), value));
        var next := if d == Right then currentNode.right else currentNode.left;
        if next != null {
          AtWithin(shape, p + [d]);
          currentNode := next;
          p := p + [d];
        } else {
          assert Inserted(T, value) == Graft(T, p, SetChild(Subtree(T, p), d, Node(value, Leaf, Leaf))) by {
            AbsAt(shape, p + [d]);
          }
          Attach(currentNode, d, value, p);
          return;
        }
      }
    }

    /** `currentNode.left = new TreeNode(value)` or `currentNode.right = ...` at an empty slot. */
    method Attach(parent: TreeNode, d: Dir, value: int, ghost p: Path)
      requires Wired() && At(shape, p).Cell? && At(shape, p).node == parent
      requires ChildShape(At(shape, p), d) == Nil
      modifies this`shape, this`Repr, parent`left, parent`right
      ensures Wired()
      ensures Model() == Graft(old(Model()), p, SetChild(Subtree(old(Model()), p), d, Node(value, Leaf, Leaf)))
      ensures old(Repr) <= Repr && fresh(Repr - old(Repr))
    {
      ghost var s := shape;
      ghost var T := Model();
      var n := new TreeNode(value);
      ghost var leaf := Cell(n, Nil, Nil);
      assert Abs(Put(s, p, SetChildShape(At(s, p), d, leaf))) == Graft(T, p, SetChild(Subtree(T, p), d, Abs(leaf))) by {
        AbsPut(s, p, SetChildShape(At(s, p), d, leaf));
        AbsAt(s, p);
      }
      assert Abs(leaf) == Node(value, Leaf, Leaf);
      shape := Hang(parent, d, n, s, p);
      Repr := NodesOf(shape);
    }

    /** `find`: the comparison walk, which succeeds exactly on the stored values. */
    method Find(value: int) returns (found: bool)
      requires Valid()
      ensures found == Found(Model(), value)
      ensures found <==> value in Elems(Model())
    {
      ghost var s, T := shape, Model();
      FoundIff(T, value);
      var curNode := root;
      ghost var p: Path := [];
      while curNode != null
        invariant curNode == RootOf(At(s, p))
        invariant Found(T, value) == Found(Subtree(T, p), value)
        decreases Count(Subtree(T, p))
      {
        if value == curNode.data {
          StepDown(s, p, Left);
          return true;
        } else if value < curNode.data {
          StepDown(s, p, Left);
          curNode := curNode.left;
          p := p + [Left];
        } else {
          StepDown(s, p, Right);
          curNode := curNode.right;
          p := p + [Right];
        }
      }
      AbsAt(shape, p);
      return false;
    }
  }

  /**
   * The write `parent.left = n` or `parent.right = n` at the empty slot on side
   * `d` of the node at position `p`, where `n` is a new node with no children.
   */
  method Hang(parent: TreeNode, d: Dir, n: TreeNode, ghost s: Shape, ghost p: Path) returns (ghost s': Shape)
    requires Linked(s) && Distinct(s)
    requires At(s, p).Cell? && At(s, p).node == parent && ChildShape(At(s, p), d) == Nil
    requires n !in NodesOf(s) && n.left == null && n.right == null
    modifies parent`left, parent`right
    ensures s' == Put(s, p, SetChildShape(At(s, p), d, Cell(n, Nil, Nil)))
    ensures Linked(s') && Distinct(s') && RootOf(s') == RootOf(s)
    ensures NodesOf(s') == NodesOf(s) + {n}
    ensures Abs(s') == old(Abs(Put(s, p, SetChildShape(At(s, p), d, Cell(n, Nil, Nil)))))
  {
    ghost var sub := At(s, p);
    ghost var other := ChildShape(sub, Other(d));
    ghost var leaf := Cell(n, Nil, Nil);
    ghost var u := SetChildShape(sub, d, leaf);
    HangReady(s, p, d, n);
    if d == Left {
      parent.left := n;
    } else {
      parent.right := n;
    }
    assert Linked(u) by {
      assert Linked(other) && Linked(leaf);
    }
    PutLinked(s, p, u);
    PutNodes(s, p, u);
    s' := Put(s, p, u);
  }

  /** What `Hang` needs to know about the shape before the write. */
  lemma HangReady(s: Shape, p: Path, d: Dir, n: TreeNode)
    requires Linked(s) && Distinct(s)
    requires At(s, p).Cell? && ChildShape(At(s, p), d) == Nil && n !in NodesOf(s)
    ensures var sub := At(s, p);
      var other, leaf := ChildShape(sub, Other(d)), Cell(n, Nil, Nil);
      var u := SetChildShape(sub, d, leaf);
      && LinkedAbove(s, p)
      && sub.node !in Outside(s, p) && sub.node !in NodesOf(other) && sub.node != n
      && Linked(other) && Distinct(u) && NodesOf(u) !! Outside(s, p)
      && u == (if d == Left then Cell(sub.node, leaf, other) else Cell(sub.node, other, leaf))
      && RootOf(other) == (if d == Left then sub.node.right else sub.node.left)
      && Outside(s, p) + NodesOf(u) == NodesOf(s) + {n}
  {
    AtWithin(s, p);
    LinkedAt(s, p);
    LinkedIsAbove(s, p);
  }

  /** One step down from a node of a well-linked shape: the link followed, and the subtree it leads to. */
  lemma StepDown(s: Shape, p: Path, d: Dir)
    requires Distinct(s) && Linked(s) && At(s, p).Cell?
    ensures At(s, p + [d]) == ChildShape(At(s, p), d)
    ensures RootOf(At(s, p + [d])) == if d == Left then At(s, p).node.left else At(s, p).node.right
    ensures Subtree(Abs(s), p).Node? && Subtree(Abs(s), p).data == At(s, p).node.data
    ensures Subtree(Abs(s), p + [d]) == Child(Subtree(Abs(s), p), d)
    ensures Count(Subtree(Abs(s), p + [d])) < Count(Subtree(Abs(s), p))
  {
    AtSnoc(s, p, d);
    LinkedAt(s, p);
    AbsAt(s, p);
    SubtreeSnoc(Abs(s), p, d);
  }
}
