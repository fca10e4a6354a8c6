/**
 * The `BinarySearchTree` class of src/BinarySearchTree.ts over its heap of
 * `TreeNode` objects.  `Valid()` ties the fields to the ghost `shape`, and
 * every operation is stated against the value `Model()` the nodes hold,
 * using the specification functions of OrderedTree.
 */
module SearchTree {
  import opened Wrappers
  import opened Paths
  import opened OrderedTree
  import opened NodeShape
  import Morris

  class BinarySearchTree {
    var root: TreeNode?
    var size: int
    const repeated: bool
    /** Which nodes form the tree, and where. */
    ghost var shape: Shape
    /** The nodes of `shape`, kept in a field so that they are known to be allocated. */
    ghost var Repr: set<TreeNode>

    ghost predicate Valid()
      reads this, Repr
    {
      && Repr == NodesOf(shape)
      && root == RootOf(shape)
      && Distinct(shape)
      && Linked(shape)
      && Ordered(Abs(shape))
      && Positive(Abs(shape))
      && size == Size(Abs(shape))
    }

    /** The value the tree holds. */
    ghost function Model(): Tree
      reads this`shape, NodesOf(shape)`data, NodesOf(shape)`amount
    {
      Abs(shape)
    }

    /** An empty tree that accepts repeated values exactly when `repeated` is set. */
    constructor (repeated: bool)
      ensures Valid() && Model() == Leaf
      ensures this.repeated == repeated
    {
      root := null;
      size := 0;
      this.repeated := repeated;
      shape := Nil;
      Repr := {};
    }

    /** The counter is the number of stored values, repeats included. */
    method GetSize() returns (n: int)
      requires Valid()
      ensures n == Size(Model())
      ensures n == |Inorder(Model())|
    {
      InorderLength(Model());
      n := size;
    }

    method Clear()
      requires Valid()
      modifies this
      ensures Valid() && Model() == Leaf
    {
      root := null;
      size := 0;
      shape := Nil;
      Repr := {};
    }

    /**
     * The comparison walk towards `value`: the node holding it and that node's
     * parent, or two nulls when it is not stored.  The ghost `p` is the way walked.
     */
    method FindRef(value: int) returns (node: TreeNode?, parent: TreeNode?, ghost p: Path)
      requires Valid()
      ensures SearchPath(Model(), p, value)
      ensures node == null <==> value !in Keys(Model())
      ensures node == null ==> parent == null
      ensures node != null ==> && At(shape, p).Cell? && At(shape, p).node == node
                               && node.data == value && node.amount == CountOf(Model(), value)
                               && parent == (if p == [] then null else RootOf(At(shape, p[..|p| - 1])))
    {
      var seekedValue := new TreeNode(value);
      var curNode := root;
      var curParent: TreeNode? := null;
      ghost var sub := shape;
      p := [];
      while curNode != null
        invariant seekedValue.data == value
        invariant sub == At(shape, p) && curNode == RootOf(sub)
        invariant NodesOf(sub) <= NodesOf(shape) && Linked(sub)
        invariant Abs(sub) == Subtree(Model(), p)
        invariant SearchPath(Model(), p, value)
        invariant curParent == (if p == [] then null else RootOf(At(shape, p[..|p| - 1])))
        invariant value !in Keys(Abs(sub)) ==> value !in Keys(Model())
        decreases sub
      {
        assert sub.Cell? && Abs(sub).data == curNode.data && Abs(sub).amount == curNode.amount;
        SearchPathKeeps(Model(), p, value);
        if seekedValue.Equals(curNode) {
          SearchStep(Abs(sub), value);
          return curNode, curParent, p;
        } else {
          curParent := curNode;
          var d := if seekedValue.GreaterThan(curNode) then Right else Left;
          SearchStep(Abs(sub), value);
          SearchPathSnoc(Model(), p, value);
          SubtreeSnoc(Model(), p, d);
          AtSnoc(shape, p, d);
          assert (p + [d])[..|p|] == p;
          curNode := if d == Right then curNode.right else curNode.left;
          sub := ChildShape(sub, d);
          p := p + [d];
        }
      }
      SearchPathKeeps(Model(), p, value);
      return null, null, p;
    }

    /** The links of the nodes form the tree `shape`, whatever the values. */
    ghost predicate Wired()
      reads this, Repr
    {
      Repr == NodesOf(shape) && root == RootOf(shape) && Distinct(shape) && Linked(shape)
    }

    /** The same write, seen on the value: `Abs(c)` replaces the child's value at `p`. */
    method Link(node: TreeNode, d: Dir, child: TreeNode?, ghost p: Path, ghost c: Shape)
      requires Wired()
      requires At(shape, p).Cell? && At(shape, p).node == node
      requires child == RootOf(c) && Linked(c) && Distinct(c)
      requires NodesOf(c) !! (NodesOf(shape) - NodesOf(ChildShape(At(shape, p), d)))
      modifies this`shape, this`Repr, node`left, node`right
      ensures Wired()
      ensures Model() == Graft(old(Model()), p, SetChild(Subtree(old(Model()), p), d, old(Abs(c))))
      ensures Repr <= old(Repr) + NodesOf(c)
    {
      ghost var s0 := shape;
      ghost var T := Model();
      assert Abs(Put(s0, p, SetChildShape(At(s0, p), d, c))) == Graft(T, p, SetChild(Subtree(T, p), d, Abs(c))) by {
        AbsPut(s0, p, SetChildShape(At(s0, p), d, c));
        AbsAt(s0, p);
      }
      ghost var s': Shape;
      s' := Relink(node, d, child, shape, p, c);
      shape := s';
      Repr := NodesOf(shape);
    }

    /** The write `node.amount += delta` on the node at position `p`. */
    method AddAmount(node: TreeNode, delta: int, ghost p: Path)
      requires Wired()
      requires At(shape, p).Cell? && At(shape, p).node == node
      modifies node`amount
      ensures Wired()
      ensures Model() == Graft(old(Model()), p, AmountBy(Subtree(old(Model()), p), delta))
    {
      ghost var sub := At(shape, p);
      ghost var T := Model();
      ghost var t := AmountBy(Subtree(T, p), delta);
      assert && node !in Outside(shape, p) && AbsAround(shape, p, t) == Graft(T, p, t)
             && t == Branch(node.data, node.amount + delta, Abs(sub.left), Abs(sub.right))
             && sub.Cell? && node !in NodesOf(sub.left) && node !in NodesOf(sub.right)
      by {
        AtWithin(shape, p);
        AbsAt(shape, p);
        AbsAroundGraft(shape, p, t);
      }
      node.amount := node.amount + delta;
      assert Abs(sub) == t;
      AbsAroundGraft(shape, p, t);
      AbsPut(shape, p, sub);
      PutSelf(shape, p);
    }

    /**
     * `insert`: with repeats off, a value already stored is refused and nothing
     * changes; otherwise the tree becomes the functional insertion of the value
     * and the counter grows by one.
     */
    method Insert(value: int) returns (ok: bool)
      requires Valid()
      modifies this, Repr
      ensures Valid()
      ensures ok <==> repeated || value !in Keys(old(Model()))
      ensures ok ==> OrderedTree.Insert(old(Model()), value, repeated) == Some(Model())
      ensures !ok ==> Model() == old(Model())
      ensures fresh(Repr - old(Repr))
    {
      ghost var T := Model();
      var newNode := new TreeNode(value);
      assert Wired() && Model() == T && newNode !in Repr;
      InsertRefused(T, value, repeated);
      if root == null {
        assert T == Leaf;
        root := newNode;
        shape := Cell(newNode, Nil, Nil);
        Repr := {newNode};
      } else {
        var placed := Place(newNode);
        if !placed {
          return false;
        }
      }
      ghost var M := Model();
      assert Ordered(M) && Positive(M) && Size(M) == size + 1 by {
        InsertKeepsOrder(T, value, repeated);
        InsertCounts(T, value, repeated);
      }
      size := size + 1;
      assert Wired() && Model() == M;
      return true;
    }

    /**
     * The `while (true)` walk of `insert` below a non-empty root: it links the
     * new node where the walk falls off the tree, bumps the amount of the equal
     * node, or gives up on an equal node when repeats are off.
     */
    method Place(newNode: TreeNode) returns (placed: bool)
      requires Wired() && root != null
      requires newNode !in Repr && newNode.amount == 1 && newNode.left == null && newNode.right == null
      modifies this, Repr
      ensures Wired() && root == old(root) && size == old(size)
      ensures placed ==> OrderedTree.Insert(old(Model()), newNode.data, repeated) == Some(Model())
      ensures !placed ==> OrderedTree.Insert(old(Model()), newNode.data, repeated) == None && Model() == old(Model())
      ensures Repr <= old(Repr) + {newNode}
    {
      ghost var T := Model();
      ghost var value := newNode.data;
      ghost var R := OrderedTree.Insert(T, value, repeated);
      var currentNode := root;
      ghost var p: Path := [];
      ghost var sub := shape;
      while true
        invariant Wired() && Model() == T && Repr == old(Repr) && root == old(root) && size == old(size)
        invariant newNode.data == value && newNode.amount == 1 && newNode.left == null && newNode.right == null
        invariant sub == At(shape, p) && sub.Cell? && sub.node == currentNode
        invariant R == Lift(T, p, OrderedTree.Insert(Subtree(T, p), value, repeated))
        decreases sub
      {
        ghost var here := Subtree(T, p);
        assert && NodesOf(sub) <= Repr && Linked(sub) && Abs(sub) == here
               && currentNode.data == here.data
               && (currentNode.right == null <==> here.right == Leaf)
               && (currentNode.left == null <==> here.left == Leaf)
        by {
          AtWithin(shape, p);
          LinkedAt(shape, p);
          AbsAt(shape, p);
        }
        if newNode.GreaterThan(currentNode) {
          if currentNode.right != null {
            InsertDescend(T, p, value, repeated);
            AtSnoc(shape, p, Right);
            currentNode := currentNode.right;
            p := p + [Right];
            sub := sub.right;
          } else {
            InsertArrives(T, p, value, repeated);
            Link(currentNode, Right, newNode, p, Cell(newNode, Nil, Nil));
            return true;
          }
        } else if newNode.Equals(currentNode) && repeated {
          InsertArrives(T, p, value, repeated);
          AddAmount(currentNode, 1, p);
          return true;
        } else if newNode.Equals(currentNode) && !repeated {
          InsertArrives(T, p, value, repeated);
          return false;
        } else {
          if currentNode.left != null {
            InsertDescend(T, p, value, repeated);
            AtSnoc(shape, p, Left);
            currentNode := currentNode.left;
            p := p + [Left];
            sub := sub.left;
          } else {
            InsertArrives(T, p, value, repeated);
            Link(currentNode, Left, newNode, p, Cell(newNode, Nil, Nil));
            return true;
          }
        }
      }
    }

    /**
     * `remove`: a value not stored is refused and nothing changes; otherwise
     * the tree becomes the functional removal of one copy of the value, and
     * the counter drops by one.  No node is gained.
     */
    method Remove(value: int) returns (ok: bool)
      requires Valid()
      modifies this, Repr
      ensures Valid()
      ensures ok <==> value in Keys(old(Model()))
      ensures ok ==> OrderedTree.Delete(old(Model()), value) == Some(Model())
      ensures !ok ==> Model() == old(Model())
      ensures Repr <= old(Repr)
    {
      ghost var T := Model();
      var curNode, parent, p := FindRef(value);
      DeleteFinds(T, value);
      if curNode == null && parent == null {
        return false;
      }
      ghost var sub := At(shape, p);
      assert && Subtree(T, p) == Abs(sub) && sub.Cell? && Ordered(Subtree(T, p)) && curNode in Repr
             && (parent != null ==> p != [] && (p[|p| - 1] == Right <==> curNode.data > parent.data))
      by {
        AtWithin(shape, p);
        AbsAt(shape, p);
        SearchPathKeeps(T, p, value);
        if p != [] {
          SearchPathLast(T, p, value);
          AbsAt(shape, p[..|p| - 1]);
        }
      }
      DeleteAlong(T, p, value);
      if curNode.amount > 1 {
        AddAmount(curNode, -1, p);
      } else {
        Unlink(curNode, parent, p);
      }
      ghost var M := Model();
      assert Ordered(M) && Positive(M) && Size(M) == size - 1 by {
        DeleteKeepsOrder(T, value);
        DeleteCounts(T, value);
      }
      size := size - 1;
      assert Wired() && Model() == M;
      return true;
    }

    /**
     * The node at `p`, holding a single copy, taken out of the tree: a leaf is
     * cut off, a node with one child is replaced by that child, and a node
     * with two children by its in-order predecessor.
     */
    method Unlink(curNode: TreeNode, parent: TreeNode?, ghost p: Path)
      requires Wired() && Subtree(Model(), p).Branch? && Ordered(Subtree(Model(), p))
      requires At(shape, p).Cell? && At(shape, p).node == curNode
      requires parent == (if p == [] then null else RootOf(At(shape, p[..|p| - 1])))
      requires parent != null ==> p != [] && (p[|p| - 1] == Right <==> curNode.data > parent.data)
      modifies this`root, this`shape, this`Repr, Repr`left, Repr`right
      ensures Wired()
      ensures Model() == Graft(old(Model()), p, RemoveTop(Subtree(old(Model()), p)))
      ensures Repr == old(Repr) - {curNode}
    {
      ghost var sub := At(shape, p);
      ghost var T := Model();
      assert && NodesOf(sub) <= Repr && Linked(sub) && Distinct(sub) && Abs(sub) == Subtree(T, p)
             && LinkedAbove(shape, p) && Outside(shape, p) == Repr - NodesOf(sub)
             && (curNode.left == null <==> sub.left == Nil) && (curNode.right == null <==> sub.right == Nil)
             && curNode !in NodesOf(sub.left) + NodesOf(sub.right)
      by {
        AtWithin(shape, p);
        LinkedAt(shape, p);
        AbsAt(shape, p);
        LinkedIsAbove(shape, p);
      }
      if curNode.right == null && curNode.left == null {
        Replace(curNode, parent, null, p, Nil);
      } else if curNode.left == null || curNode.right == null {
        var child := if curNode.left != null then curNode.left else curNode.right;
        ghost var c := if curNode.left != null then sub.left else sub.right;
        assert Abs(c) == RemoveTop(Abs(sub));
        assert Outside(shape, p) + NodesOf(c) == Repr - {curNode};
        Replace(curNode, parent, child, p, c);
      } else {
        var candidate;
        ghost var c: Shape;
        candidate, c := Predecessor(curNode, sub);
        Replace(curNode, parent, candidate, p, c);
      }
    }

    /**
     * The write that hangs `child`, the head of the linked shape `c`, where
     * `curNode` was: on the side of `parent` that `greaterThan` picks, or at
     * the root.  The links below `curNode` may already be rewired.
     */
    method Replace(curNode: TreeNode, parent: TreeNode?, child: TreeNode?, ghost p: Path, ghost c: Shape)
      requires Repr == NodesOf(shape) && root == RootOf(shape) && Distinct(shape)
      requires At(shape, p).Cell? && At(shape, p).node == curNode && LinkedAbove(shape, p)
      requires parent == (if p == [] then null else RootOf(At(shape, p[..|p| - 1])))
      requires parent != null ==> p != [] && (p[|p| - 1] == Right <==> curNode.data > parent.data)
      requires child == RootOf(c) && Linked(c) && Distinct(c) && NodesOf(c) <= NodesOf(At(shape, p)) - {curNode}
      modifies this`root, this`shape, this`Repr, Repr`left, Repr`right
      ensures Wired()
      ensures Model() == Graft(old(Model()), p, old(Abs(c)))
      ensures Repr == old(Outside(shape, p)) + NodesOf(c)
    {
      ghost var s := shape;
      ghost var V := Graft(Model(), p, Abs(c));
      assert && Abs(Put(s, p, c)) == V && NodesOf(c) !! Outside(s, p)
             && (parent != null <==> p != []) && (parent != null ==> parent in Repr)
      by {
        AbsPut(s, p, c);
        if p != [] {
          AtParent(s, p);
          AtWithin(s, p[..|p| - 1]);
        }
      }
      if parent != null {
        ghost var s': Shape;
        s' := Rehang(curNode, parent, child, s, p, c);
        assert Abs(s') == V;
        shape := s';
      } else {
        root := child;
        shape := c;
      }
      Repr := NodesOf(shape);
    }

    /** `find`: whether the value is stored, that is, whether `valuesList` would contain it. */
    method Find(value: int) returns (found: bool)
      requires Valid()
      ensures found <==> value in Keys(Model())
      ensures found <==> value in Inorder(Model())
    {
      var node, _, _ := FindRef(value);
      InorderKeys(Model());
      found := node != null;
    }

    /** `count`: how many copies of the value are stored, as many as `valuesList` would list. */
    method Count(value: int) returns (c: int)
      requires Valid()
      ensures c == CountOf(Model(), value)
      ensures c == multiset(Inorder(Model()))[value]
    {
      var node, _, _ := FindRef(value);
      InorderCounts(Model(), value);
      if node != null {
        c := node.amount;
      } else {
        CountAbsent(Model(), value);
        c := 0;
      }
    }

    /**
     * valuesList: the Morris in-order walk.  It threads each predecessor's
     * `right` link back to its ancestor on the way down and clears it on the
     * second visit, so the links are as before when it returns.
     */
    method ValuesList() returns (values: seq<int>)
      requires Valid()
      modifies Repr`right
      ensures Valid() && shape == old(shape) && Model() == old(Model())
      ensures values == Inorder(Model())
    {
      values := [];
      var curNode := root;
      ghost var t := Model();
      ghost var x: Path := [];
      ghost var second := false;
      Morris.LinkedIffThreaded(shape);
      while curNode != null
        invariant Repr == NodesOf(shape) && Distinct(shape) && t == Model()
        invariant Morris.Threaded(shape, if second then x + [Left] else x)
        invariant curNode == RootOf(At(shape, x))
        invariant At(shape, x).Nil? ==> !second && x == Morris.Rights(|x|)
        invariant second ==> At(shape, x).Cell? && At(shape, x + [Left]).Cell?
        invariant values + Morris.Pending(t, x, second) == Inorder(t)
        decreases Morris.Work(t, x, second)
      {
        curNode, values, x, second := Morris.Visit(curNode, values, t, shape, x, second);
      }
      AbsAt(shape, x);
      Morris.PendingDone(t, |x|);
      Morris.ThreadedRights(shape, [], |x|);
      assert [] + Morris.Rights(|x|) == x;
      Morris.LinkedIffThreaded(shape);
    }
  }

  /**
   * The `while (candidate.right)` walk of `remove` below a node with two
   * children, on its linked sub-shape `sub`: `candidate` ends on the rightmost
   * node of the left subtree (the in-order predecessor) at position `q`, and
   * `candidateParent` on the node above it, at `cq`.
   */
  method FindPredecessor(curNode: TreeNode, ghost sub: Shape)
    returns (candidateParent: TreeNode, candidate: TreeNode, ghost cq: Path, ghost q: Path)
    requires sub.Cell? && sub.node == curNode && Linked(sub) && Distinct(sub)
    requires curNode.left != null
    ensures q == cq + [if cq == [] then Left else Right] && q[0] == Left
    ensures At(sub, cq).Cell? && At(sub, cq).node == candidateParent
    ensures At(sub, q).Cell? && At(sub, q).node == candidate && candidate.right == null
    ensures candidateParent == curNode <==> cq == []
    ensures Abs(sub).left.Branch? && Rightmost(Abs(sub).left) == Subtree(Abs(sub), q)
    ensures Graft(Abs(sub), [Left], RemoveRightmost(Abs(sub).left)) == Graft(Abs(sub), q, Subtree(Abs(sub), q).left)
  {
    ghost var t := Abs(sub);
    candidateParent := curNode;
    candidate := curNode.left;
    cq, q := [], [Left];
    ghost var here := sub.left;
    assert sub.left.Cell? && Subtree(t, q) == t.left && t.left == Abs(sub.left);
    assert t.left.Branch? && Graft(t, [Left], RemoveRightmost(t.left)) == Graft(t, q, RemoveRightmost(Subtree(t, q)));
    while candidate.right != null
      invariant Linked(sub) && Abs(sub) == t
      invariant q == cq + [if cq == [] then Left else Right] && q[0] == Left
      invariant At(sub, cq).Cell? && At(sub, cq).node == candidateParent
      invariant here == At(sub, q) && here.Cell? && here.node == candidate
      invariant candidateParent == curNode <==> cq == []
      invariant Subtree(t, q).Branch?
      invariant Rightmost(t.left) == Rightmost(Subtree(t, q))
      invariant Graft(t, [Left], RemoveRightmost(t.left)) == Graft(t, q, RemoveRightmost(Subtree(t, q)))
      decreases here
    {
      ghost var S := Subtree(t, q);
      assert S.right.Branch? && candidate != curNode && candidate.right == RootOf(here.right) by {
        LinkedAt(sub, q);
        AbsAt(sub, q);
        if candidate == curNode {
          AtUnique(sub, q, []);
        }
      }
      AtSnoc(sub, q, Right);
      SubtreeSnoc(t, q, Right);
      GraftSnoc(t, q, Right, RemoveRightmost(S.right));
      assert (q + [Right])[0] == Left;
      candidateParent := candidate;
      candidate := candidate.right;
      cq, q := q, q + [Right];
      here := here.right;
    }
    assert Subtree(t, q).right == Leaf by {
      LinkedAt(sub, q);
      AbsAt(sub, q);
    }
  }

  /**
   * The two-children branch of `remove` below `curNode`, with the evidently
   * intended write in the deep case (see `DeepRemovalAsWritten`): the
   * predecessor is spliced out of its place, taking over the removed node's
   * two subtrees.  The result `c`, headed by `candidate`, is linked and
   * acyclic, holds every node of `sub` but the removed one, and has the value
   * `RemoveTop` gives.
   */
  method Predecessor(curNode: TreeNode, ghost sub: Shape) returns (candidate: TreeNode, ghost c: Shape)
    requires sub.Cell? && sub.node == curNode && Linked(sub) && Distinct(sub)
    requires Ordered(Abs(sub)) && curNode.left != null && curNode.right != null
    requires forall n | n in NodesOf(sub) :: allocated(n)
    modifies NodesOf(sub)`left, NodesOf(sub)`right
    ensures candidate == RootOf(c) && Linked(c) && Distinct(c)
    ensures NodesOf(c) == NodesOf(sub) - {curNode}
    ensures Abs(c) == RemoveTop(old(Abs(sub)))
  {
    ghost var t := Abs(sub);
    var candidateParent: TreeNode;
    ghost var cq: Path, q: Path;
    candidateParent, candidate, cq, q := FindPredecessor(curNode, sub);
    ghost var m := Rightmost(t.left);
    ghost var top := RemoveTop(t);
    assert && sub.right.Cell? && top == Branch(m.data, m.amount, RemoveRightmost(t.left), t.right)
           && m.data == candidate.data && m.amount == candidate.amount && candidateParent in NodesOf(sub)
    by {
      AtWithin(sub, cq);
      AtWithin(sub.left, q[1..]);
      AbsAt(sub, q);
    }
    ghost var l1 := SpliceOut(curNode, candidateParent, candidate, sub, cq, q);
    c := Adopt(curNode, candidate, l1, sub.right);
  }

  /**
   * The predecessor `candidate`, found at position `q` below its parent at
   * `cq`, is cut out of its place: the parent's link that held it now holds
   * the predecessor's left subtree.  Directly below the removed node that
   * link is `left`, and the write is skipped when that subtree is empty, as
   * the source does; deeper down it is `right`, where the source writes
   * `left`.  `l1` is what then hangs on the removed node's left: its left
   * subtree without the predecessor.
   */
  method SpliceOut(curNode: TreeNode, candidateParent: TreeNode, candidate: TreeNode, ghost sub: Shape, ghost cq: Path, ghost q: Path)
    returns (ghost l1: Shape)
    requires sub.Cell? && sub.node == curNode && Linked(sub) && Distinct(sub)
    requires Ordered(Abs(sub)) && curNode.right != null
    requires forall n | n in NodesOf(sub) :: allocated(n)
    requires q == cq + [if cq == [] then Left else Right] && q[0] == Left
    requires At(sub, cq).Cell? && At(sub, cq).node == candidateParent
    requires At(sub, q).Cell? && At(sub, q).node == candidate && candidate.right == null
    requires candidateParent == curNode <==> cq == []
    requires Abs(sub).left.Branch? && Rightmost(Abs(sub).left) == Subtree(Abs(sub), q)
    requires Graft(Abs(sub), [Left], RemoveRightmost(Abs(sub).left)) == Graft(Abs(sub), q, Subtree(Abs(sub), q).left)
    modifies candidateParent`left, candidateParent`right
    ensures Linked(l1) && Distinct(l1) && Linked(sub.right) && Distinct(sub.right)
    ensures candidate !in NodesOf(l1) && candidate !in NodesOf(sub.right) && NodesOf(l1) !! NodesOf(sub.right)
    ensures curNode.left != null && curNode.right == RootOf(sub.right)
    ensures || (curNode.left == candidate && l1 == Nil && candidate.left == null)
            || (curNode.left == RootOf(l1) && curNode.left.data != candidate.data)
    ensures Abs(l1) == RemoveRightmost(old(Abs(sub)).left) && Abs(sub.right) == old(Abs(sub)).right
    ensures {candidate} + NodesOf(l1) + NodesOf(sub.right) == NodesOf(sub) - {curNode}
  {
    ghost var t := Abs(sub);
    ghost var here := At(sub, q);
    ghost var a := here.left;
    ghost var d := if cq == [] then Left else Right;
    assert && here == Cell(candidate, a, Nil) && Linked(a) && Distinct(a) && candidate !in NodesOf(a)
           && ChildShape(At(sub, cq), d) == here
           && curNode !in NodesOf(here) && NodesOf(here) <= NodesOf(sub.left)
           && Rightmost(t.left) == Abs(here) && Abs(a) == Rightmost(t.left).left
           && Rightmost(t.left).data == candidate.data
           && candidate.left == RootOf(a) && candidateParent in NodesOf(sub) && candidate in NodesOf(sub)
    by {
      AtSnoc(sub, cq, d);
      AtWithin(sub, cq);
      AtWithin(sub.left, q[1..]);
      LinkedAt(sub, q);
      AbsAt(sub, q);
    }
    ghost var keep := candidateParent == curNode && candidate.left == null;
    ghost var s1 := sub;
    ghost var put := Put(sub, cq, SetChildShape(At(sub, cq), d, a));
    assert !keep ==> && Abs(put) == Branch(t.data, t.amount, RemoveRightmost(t.left), t.right)
                     && put == Cell(curNode, put.left, sub.right)
                     && (put.left.Cell? ==> put.left.node.data != candidate.data)
    by {
      if !keep {
        PutSnoc(sub, cq, d, a);
        AbsPut(sub, q, a);
        assert put == Cell(curNode, Put(sub.left, q[1..], a), sub.right);
        if put.left.Cell? {
          assert Abs(put.left).data == put.left.node.data;
          RemoveRightmostBelow(t.left);
        }
      }
    }
    if candidateParent == curNode {
      if candidate.left != null {
        s1 := Relink(candidateParent, Left, candidate.left, sub, cq, a);
      }
    } else {
      s1 := Relink(candidateParent, Right, candidate.left, sub, cq, a);
    }
    l1 := if keep then Nil else s1.left;
    if keep {
      assert cq == [] && q == [Left] && a == Nil;
    } else {
      assert NodesOf(s1) == {curNode} + NodesOf(l1) + NodesOf(sub.right);
      assert NodesOf(s1) == NodesOf(sub) - {candidate};
    }
  }

  /**
   * The last writes of the two-children branch: `candidate` takes over the
   * removed node's current left subtree `l` (unless, found by `equals`, that
   * subtree starts at `candidate` itself) and its right subtree `r`.
   */
  method Adopt(curNode: TreeNode, candidate: TreeNode, ghost l: Shape, ghost r: Shape) returns (ghost c: Shape)
    requires Linked(l) && Distinct(l) && Linked(r) && Distinct(r)
    requires candidate !in NodesOf(l) && candidate !in NodesOf(r) && NodesOf(l) !! NodesOf(r)
    requires curNode.left != null && curNode.right == RootOf(r)
    requires || (curNode.left == candidate && l == Nil && candidate.left == null)
             || (curNode.left == RootOf(l) && curNode.left.data != candidate.data)
    modifies candidate`left, candidate`right
    ensures c == Cell(candidate, l, r) && Linked(c) && Distinct(c)
    ensures Abs(c) == Branch(candidate.data, candidate.amount, old(Abs(l)), old(Abs(r)))
  {
    if !curNode.left.Equals(candidate) {
      candidate.left := curNode.left;
    }
    candidate.right := curNode.right;
    c := Cell(candidate, l, r);
  }

  /**
   * The two-children branch of `remove` exactly as src/BinarySearchTree.ts:236-251
   * writes it, on the tree that inserting 5, 2, 8, 1, 4, 3 builds, asked to
   * remove the root 5.  The predecessor 4 hangs on the right of 2, but its
   * left subtree 3 is written into `2.left`, `2.right` still leads to 4, and
   * 4's new left link leads back to 2, so the links from the new root run in
   * a cycle.  The links from the new root reach only 4, 2, 3 and 8: the node
   * holding 1 is lost.
   */
  method DeepRemovalAsWritten() returns (newRoot: TreeNode)
    ensures newRoot.data == 4 && newRoot.left != null && newRoot.left.data == 2
    ensures newRoot.left.right == newRoot
    ensures newRoot.left.left != null && newRoot.left.left.data == 3
    ensures newRoot.left.left.left == null && newRoot.left.left.right == null
    ensures newRoot.right != null && newRoot.right.data == 8
    ensures newRoot.right.left == null && newRoot.right.right == null
  {
    var curNode := new TreeNode(5);
    var n2 := new TreeNode(2);
    var n8 := new TreeNode(8);
    var n1 := new TreeNode(1);
    var n4 := new TreeNode(4);
    var n3 := new TreeNode(3);
    curNode.left, curNode.right := n2, n8;
    n2.left, n2.right := n1, n4;
    n4.left := n3;
    var candidateParent := curNode;
    var candidate := curNode.left;
    while candidate.right != null
      invariant (candidate == n2 && candidateParent == curNode) || (candidate == n4 && candidateParent == n2)
      decreases if candidate == n2 then 1 else 0
    {
      candidateParent := candidate;
      candidate := candidate.right;
    }
    if candidate.left != null {
      candidateParent.left := candidate.left;
    }
    if !curNode.left.Equals(candidate) {
      candidate.left := curNode.left;
    }
    candidate.right := curNode.right;
    newRoot := candidate;
  }
}
