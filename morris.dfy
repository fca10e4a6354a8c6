/**
 * The threads of `valuesList`, a Morris in-order traversal
 * (src/BinarySearchTree.ts:112-138).
 *
 * While the walk stands at position `x`, each left-ancestor `z` of `x` (a
 * prefix of `x` followed by a Left step) has had the `right` link of its
 * in-order predecessor pointed back at it; every other link is the shape's
 * own. `Threaded(s, x)` says exactly that of the heap, and `Pending(t, x,
 * second)` is the output still to come, so that the values pushed so far
 * followed by `Pending` are always the in-order sequence of the tree.
 */
module Morris {
  import opened Wrappers
  import opened Paths
  import opened OrderedTree
  import opened NodeShape

  function Rights(k: nat): Path
  {
    seq(k, _ => Right)
  }

  lemma RightsSnoc(k: nat)
    ensures Rights(k) + [Right] == Rights(k + 1)
  {
    assert forall i :: 0 <= i < k + 1 ==> (Rights(k) + [Right])[i] == Rights(k + 1)[i];
  }

  // ---------------------------------------------------------------------------
  // The output still to come (values only)

  lemma Regroup(a: seq<int>, b: seq<int>, c: seq<int>)
    ensures (a + b) + c == a + (b + c)
  {
  }

  /** What each left-ancestor on `x` still owes once its left subtree is done: its own copies, then its right subtree. */
  function Cont(t: Tree, x: Path): seq<int>
    decreases |x|
  {
    if x == [] then []
    else
      var z := x[..|x| - 1];
      var u := Subtree(t, z);
      (if x[|x| - 1] == Left && u.Branch? then Repeat(u.data, u.amount) + Inorder(u.right) else []) + Cont(t, z)
  }

  /**
   * The output still to come when the walk is at `x`; `second` says the node
   * at `x` is reached again through its thread, its left subtree already done.
   */
  function Pending(t: Tree, x: Path, second: bool): seq<int>
  {
    var u := Subtree(t, x);
    (if second && u.Branch? then Repeat(u.data, u.amount) + Inorder(u.right) else Inorder(u)) + Cont(t, x)
  }

  /** Visits still to come: two per unvisited node, one per node waiting for its second visit. */
  function ContWork(t: Tree, x: Path): nat
    decreases |x|
  {
    if x == [] then 0
    else
      var z := x[..|x| - 1];
      var u := Subtree(t, z);
      (if x[|x| - 1] == Left && u.Branch? then 1 + 2 * NodeCount(u.right) else 0) + ContWork(t, z)
  }

  function Work(t: Tree, x: Path, second: bool): nat
  {
    var u := Subtree(t, x);
    (if second && u.Branch? then 1 + 2 * NodeCount(u.right) else 2 * NodeCount(u)) + ContWork(t, x)
  }

  /** First visit of a node with a left subtree: going left leaves the output still to come unchanged. */
  lemma PendingLeft(t: Tree, x: Path)
    requires Subtree(t, x).Branch?
    ensures Pending(t, x + [Left], false) == Pending(t, x, false)
    ensures Work(t, x + [Left], false) < Work(t, x, false)
  {
    SubtreeSnoc(t, x, Left);
    ContLeft(t, x);
    var u := Subtree(t, x);
    var l, here, r := Inorder(u.left), Repeat(u.data, u.amount), Inorder(u.right);
    Regroup(l, here + r, Cont(t, x));
    Regroup(l, here, r);
  }

  /** A Left step below `x` owes the node at `x` and its right subtree. */
  lemma ContLeft(t: Tree, x: Path)
    requires Subtree(t, x).Branch?
    ensures var u := Subtree(t, x);
      && Cont(t, x + [Left]) == (Repeat(u.data, u.amount) + Inorder(u.right)) + Cont(t, x)
      && ContWork(t, x + [Left]) == 1 + 2 * NodeCount(u.right) + ContWork(t, x)
  {
    var y := x + [Left];
    assert y[..|y| - 1] == x;
  }

  /** A node with no left subtree, or reached through its thread, emits its copies and the walk goes right. */
  lemma PendingRight(t: Tree, x: Path, second: bool)
    requires Subtree(t, x).Branch?
    requires second || Subtree(t, x).left == Leaf
    ensures Pending(t, x, second) == Repeat(Subtree(t, x).data, Subtree(t, x).amount) + Pending(t, x + [Right], false)
  {
    var u := Subtree(t, x);
    PendingOwes(t, x, second);
    PendingRightChild(t, x);
  }

  lemma PendingOwes(t: Tree, x: Path, second: bool)
    requires Subtree(t, x).Branch?
    requires second || Subtree(t, x).left == Leaf
    ensures var u := Subtree(t, x);
      Pending(t, x, second) == (Repeat(u.data, u.amount) + Inorder(u.right)) + Cont(t, x)
  {
    var u := Subtree(t, x);
    if !second {
      assert Inorder(u) == Inorder(u.left) + Repeat(u.data, u.amount) + Inorder(u.right);
      assert Inorder(u.left) == [];
    }
  }

  lemma PendingRightChild(t: Tree, x: Path)
    requires Subtree(t, x).Branch?
    ensures Pending(t, x + [Right], false) == Inorder(Subtree(t, x).right) + Cont(t, x)
  {
    SubtreeSnoc(t, x, Right);
    ContRight(t, x);
  }

  /** A Right step owes nothing. */
  lemma ContRight(t: Tree, x: Path)
    ensures Cont(t, x + [Right]) == Cont(t, x)
    ensures ContWork(t, x + [Right]) == ContWork(t, x)
  {
    var y := x + [Right];
    assert y[..|y| - 1] == x && y[|y| - 1] == Right;
    assert Cont(t, y) == [] + Cont(t, x);
  }

  lemma WorkRight(t: Tree, x: Path, second: bool)
    requires Subtree(t, x).Branch?
    requires second || Subtree(t, x).left == Leaf
    ensures Work(t, x + [Right], false) < Work(t, x, second)
  {
    SubtreeSnoc(t, x, Right);
    ContRight(t, x);
  }

  /** Right steps owe nothing. */
  lemma {:induction false} ContRights(t: Tree, z: Path, k: nat)
    ensures Cont(t, z + Rights(k)) == Cont(t, z)
    ensures ContWork(t, z + Rights(k)) == ContWork(t, z)
  {
    if k == 0 {
      assert z + Rights(k) == z;
    } else {
      var x := z + Rights(k);
      RightsSnoc(k - 1);
      assert x == z + Rights(k - 1) + [Right];
      assert x[..|x| - 1] == z + Rights(k - 1);
      ContRights(t, z, k - 1);
    }
  }

  /** Falling off the right spine of `y`'s left subtree: what remains is the second visit of `y`. */
  lemma PendingPop(t: Tree, y: Path, k: nat)
    requires Subtree(t, y).Branch?
    requires Subtree(t, y + [Left] + Rights(k)) == Leaf
    ensures Pending(t, y + [Left] + Rights(k), false) == Pending(t, y, true)
    ensures Work(t, y + [Left] + Rights(k), false) == Work(t, y, true)
  {
    ContRights(t, y + [Left], k);
    ContLeft(t, y);
    EmptyHere(t, y + [Left] + Rights(k));
  }

  /** At an empty position the output and the visits still to come are what the ancestors owe. */
  lemma EmptyHere(t: Tree, w: Path)
    requires Subtree(t, w) == Leaf
    ensures Pending(t, w, false) == Cont(t, w)
    ensures Work(t, w, false) == ContWork(t, w)
  {
    assert Pending(t, w, false) == [] + Cont(t, w);
  }

  /** Falling off the right spine of the whole tree: nothing remains. */
  lemma PendingDone(t: Tree, k: nat)
    requires Subtree(t, Rights(k)) == Leaf
    ensures Pending(t, Rights(k), false) == []
  {
    ContRights(t, [], k);
    assert [] + Rights(k) == Rights(k);
  }

  // ---------------------------------------------------------------------------
  // Positions along right spines

  lemma {:induction false} AtAppend(s: Shape, p: Path, q: Path)
    ensures At(s, p + q) == At(At(s, p), q)
    decreases |p|
  {
    if p != [] {
      assert (p + q)[0] == p[0] && (p + q)[1..] == p[1..] + q;
      AtAppend(ChildShape(s, p[0]), p[1..], q);
    } else {
      assert p + q == q;
    }
  }

  lemma {:induction false} AtNil(q: Path)
    ensures At(Nil, q) == Nil
    decreases |q|
  {
    if q != [] {
      AtNil(q[1..]);
    }
  }

  lemma AtPrefix(s: Shape, p: Path, q: Path)
    requires At(s, p + q).Cell?
    ensures At(s, p).Cell?
  {
    AtAppend(s, p, q);
    if At(s, p).Nil? {
      AtNil(q);
    }
  }

  /** How many Right steps lead from the top of `u` to its rightmost node. */
  ghost function RightDepth(u: Shape): nat
  {
    match u
    case Nil => 0
    case Cell(_, _, r) => if r.Nil? then 0 else 1 + RightDepth(r)
  }

  /** Every node down the right spine exists, and only the last has no right child. */
  lemma {:induction false} Spine(u: Shape, j: nat)
    requires u.Cell? && j <= RightDepth(u)
    ensures At(u, Rights(j)).Cell?
    ensures At(u, Rights(j)).right.Nil? <==> j == RightDepth(u)
  {
    if j > 0 {
      assert Rights(j)[0] == Right && Rights(j)[1..] == Rights(j - 1);
      Spine(u.right, j - 1);
    }
  }

  /** The node down the right spine without a right child is the rightmost one. */
  lemma {:induction false} SpineEnd(u: Shape, k: nat)
    requires At(u, Rights(k)).Cell? && At(u, Rights(k)).right.Nil?
    ensures k == RightDepth(u)
  {
    if k > 0 {
      assert Rights(k)[0] == Right && Rights(k)[1..] == Rights(k - 1);
      if u.Nil? {
        AtNil(Rights(k - 1));
      } else {
        if u.right.Nil? {
          AtNil(Rights(k - 1));
        }
        SpineEnd(u.right, k - 1);
      }
    }
  }

  /** The last Left step of `x`, if any: `x` is then `y + [Left]` followed by Right steps only. */
  ghost function LastLeft(x: Path): Option<Path>
    decreases |x|
  {
    if x == [] then None
    else if x[|x| - 1] == Left then Some(x[..|x| - 1])
    else LastLeft(x[..|x| - 1])
  }

  lemma {:induction false} LastLeftSplit(x: Path)
    ensures LastLeft(x).None? ==> x == Rights(|x|)
    ensures LastLeft(x).Some? ==>
      var y := LastLeft(x).value;
      |y| < |x| && x == y + [Left] + Rights(|x| - |y| - 1)
    decreases |x|
  {
    if x != [] {
      var z := x[..|x| - 1];
      assert x == z + [x[|x| - 1]];
      if x[|x| - 1] == Left {
        assert x == z + [Left] + Rights(0);
      } else {
        LastLeftSplit(z);
        if LastLeft(z).None? {
          RightsSnoc(|z|);
        } else {
          var y := LastLeft(z).value;
          RightsSnoc(|z| - |y| - 1);
        }
      }
    }
  }

  // ---------------------------------------------------------------------------
  // Where the threads are

  /** Position of the in-order predecessor of the node at `z`: the rightmost node of its left subtree. */
  ghost function PredPos(s: Shape, z: Path): Path
  {
    z + [Left] + Rights(RightDepth(At(s, z + [Left])))
  }

  /** `Some(z)` when the `right` link at `w` is the thread of the left-ancestor `z` of `x`. */
  ghost function TargetOf(s: Shape, x: Path, w: Path): Option<Path>
    decreases |x|
  {
    if x == [] then None
    else
      var z := x[..|x| - 1];
      if x[|x| - 1] == Left && w == PredPos(s, z) then Some(z) else TargetOf(s, z, w)
  }

  /** What the `right` link at `w` holds during the walk at `x`: a thread, or the shape's own right child. */
  ghost function ThreadedRight(s: Shape, x: Path, w: Path): TreeNode?
  {
    match TargetOf(s, x, w)
    case Some(z) => RootOf(At(s, z))
    case None => RootOf(At(s, w + [Right]))
  }

  /** The heap during the walk at `x`: left links as in the shape, right links as `ThreadedRight`. */
  ghost predicate Threaded(s: Shape, x: Path)
    reads NodesOf(s)`left, NodesOf(s)`right
  {
    forall w {:trigger At(s, w)} | At(s, w).Cell? && At(s, w).node in NodesOf(s) ::
      && At(s, w).node.left == RootOf(At(s, w + [Left]))
      && At(s, w).node.right == ThreadedRight(s, x, w)
  }

  /** The links at one position during the walk. */
  lemma ThreadedAt(s: Shape, x: Path, w: Path)
    requires Threaded(s, x) && At(s, w).Cell?
    ensures At(s, w).node.left == RootOf(At(s, w + [Left]))
    ensures At(s, w).node.right == ThreadedRight(s, x, w)
  {
    AtWithin(s, w);
  }

  /** A thread belongs to a left-ancestor of `x` and sits at that ancestor's predecessor. */
  lemma {:induction false} TargetSome(s: Shape, x: Path, w: Path)
    ensures TargetOf(s, x, w).Some? ==>
      var z := TargetOf(s, x, w).value;
      |z| < |x| && x[..|z|] == z && x[|z|] == Left && w == PredPos(s, z)
    decreases |x|
  {
    if x != [] {
      var z := x[..|x| - 1];
      if !(x[|x| - 1] == Left && w == PredPos(s, z)) {
        TargetSome(s, z, w);
        if TargetOf(s, z, w).Some? {
          var y := TargetOf(s, z, w).value;
          assert x[..|y|] == z[..|y|];
        }
      }
    }
  }

  /** Nodes below the left child of `x` carry no thread of `x`'s ancestors. */
  lemma TargetBelow(s: Shape, x: Path, w: Path)
    requires |x| < |w| && w[..|x|] == x && w[|x|] == Left
    ensures TargetOf(s, x, w) == None
  {
    TargetSome(s, x, w);
  }

  /** Right steps add no thread. */
  lemma {:induction false} TargetRights(s: Shape, z: Path, k: nat, w: Path)
    ensures TargetOf(s, z + Rights(k), w) == TargetOf(s, z, w)
  {
    if k == 0 {
      assert z + Rights(k) == z;
    } else {
      var x := z + Rights(k);
      RightsSnoc(k - 1);
      assert x == z + Rights(k - 1) + [Right];
      assert x[..|x| - 1] == z + Rights(k - 1);
      TargetRights(s, z, k - 1, w);
    }
  }

  lemma ThreadedRights(s: Shape, z: Path, k: nat)
    ensures Threaded(s, z + Rights(k)) <==> Threaded(s, z)
  {
    forall w {
      TargetRights(s, z, k, w);
    }
  }

  /** With no thread set, the heap is exactly the linked shape, and conversely. */
  lemma {:induction false} LinkedIffThreaded(s: Shape)
    ensures Linked(s) <==> Threaded(s, [])
    decreases s
  {
    if Linked(s) {
      forall w | At(s, w).Cell? && At(s, w).node in NodesOf(s)
        ensures At(s, w).node.left == RootOf(At(s, w + [Left]))
        ensures At(s, w).node.right == ThreadedRight(s, [], w)
      {
        LinkedAt(s, w);
        AtSnoc(s, w, Left);
        AtSnoc(s, w, Right);
      }
    }
    if Threaded(s, []) && s.Cell? {
      ThreadedAt(s, [], []);
      assert [] + [Left] == [Left] && [] + [Right] == [Right];
      assert At(s, [Left]) == At(s.left, []);
      assert At(s, [Right]) == At(s.right, []);
      forall d: Dir
        ensures Linked(ChildShape(s, d))
      {
        var c := ChildShape(s, d);
        forall w' | At(c, w').Cell? && At(c, w').node in NodesOf(c)
          ensures At(c, w').node.left == RootOf(At(c, w' + [Left]))
          ensures At(c, w').node.right == ThreadedRight(c, [], w')
        {
          var w := [d] + w';
          assert w[0] == d && w[1..] == w';
          assert (w + [Left])[0] == d && (w + [Left])[1..] == w' + [Left];
          assert (w + [Right])[0] == d && (w + [Right])[1..] == w' + [Right];
          assert At(s, w) == At(c, w');
          ThreadedAt(s, [], w);
        }
        assert Threaded(c, []);
        LinkedIffThreaded(c);
      }
      assert ChildShape(s, Left) == s.left;
      assert ChildShape(s, Right) == s.right;
    }
  }

  /** Where `curNode = curNode.right` leads from `x`: the right child, or the thread back to the last left-ancestor. */
  lemma TargetAt(s: Shape, x: Path)
    requires At(s, x).Cell?
    ensures TargetOf(s, x, x) == if At(s, x + [Right]).Cell? then None else LastLeft(x)
  {
    AtSnoc(s, x, Right);
    LastLeftSplit(x);
    if At(s, x + [Right]).Cell? {
      TargetSome(s, x, x);
      if TargetOf(s, x, x).Some? {
        var z := TargetOf(s, x, x).value;
        var u := At(s, z + [Left]);
        AtAppend(s, z + [Left], Rights(RightDepth(u)));
        if u.Nil? {
          AtNil(Rights(RightDepth(u)));
        }
        Spine(u, RightDepth(u));
      }
    } else if LastLeft(x).None? {
      TargetRights(s, [], |x|, x);
      assert [] + Rights(|x|) == Rights(|x|);
    } else {
      var y := LastLeft(x).value;
      var k := |x| - |y| - 1;
      TargetRights(s, y + [Left], k, x);
      var u := At(s, y + [Left]);
      AtAppend(s, y + [Left], Rights(k));
      SpineEnd(u, k);
      assert (y + [Left])[..|y|] == y;
    }
  }

  /** The right spine of the left child of `x`, as the inner loop of `valuesList` sees it. */
  lemma SpineThread(s: Shape, x: Path, j: nat, second: bool)
    requires Distinct(s) && At(s, x).Cell? && At(s, x + [Left]).Cell?
    requires j <= RightDepth(At(s, x + [Left]))
    ensures At(s, x + [Left] + Rights(j)).Cell?
    ensures var w := x + [Left] + Rights(j);
      ThreadedRight(s, if second then x + [Left] else x, w) ==
        if j < RightDepth(At(s, x + [Left])) then RootOf(At(s, x + [Left] + Rights(j + 1)))
        else if second then At(s, x).node
        else null
    ensures j < RightDepth(At(s, x + [Left])) ==>
      At(s, x + [Left] + Rights(j + 1)).Cell? && At(s, x + [Left] + Rights(j + 1)).node != At(s, x).node
  {
    var u := At(s, x + [Left]);
    var w := x + [Left] + Rights(j);
    AtAppend(s, x + [Left], Rights(j));
    Spine(u, j);
    assert w[..|x|] == x && w[|x|] == Left;
    TargetBelow(s, x, w);
    assert (x + [Left])[..|x|] == x;
    RightsSnoc(j);
    assert w + [Right] == x + [Left] + Rights(j + 1);
    AtSnoc(s, w, Right);
    if j < RightDepth(u) {
      AtAppend(s, x + [Left], Rights(j + 1));
      Spine(u, j + 1);
      if At(s, w + [Right]).node == At(s, x).node {
        AtUnique(s, w + [Right], x);
      }
    }
  }

  // ---------------------------------------------------------------------------
  // The steps of the walk that touch the heap

  /** `for (let i = 0; i < amount; ++i) values.push(data)`. */
  method Emit(values: seq<int>, data: int, amount: int) returns (r: seq<int>)
    ensures r == values + Repeat(data, amount)
  {
    r := values;
    var i := 0;
    while i < amount
      invariant 0 <= i && (i <= amount || i == 0)
      invariant r == values + Repeat(data, i)
    {
      r := r + [data];
      i := i + 1;
    }
  }

  /** The inner loop `while (pre.right && pre.right !== curNode) pre = pre.right`. */
  method WalkToPredecessor(curNode: TreeNode, ghost s: Shape, ghost x: Path, ghost second: bool) returns (pre: TreeNode)
    requires Distinct(s) && Threaded(s, if second then x + [Left] else x)
    requires At(s, x).Cell? && At(s, x).node == curNode && curNode.left != null
    ensures At(s, x + [Left]).Cell? && At(s, PredPos(s, x)).Cell? && pre == At(s, PredPos(s, x)).node
    ensures pre.right == if second then curNode else null
  {
    ghost var xs := if second then x + [Left] else x;
    ThreadedAt(s, xs, x);
    AtSnoc(s, x, Left);
    ghost var u := At(s, x + [Left]);
    pre := curNode.left;
    ghost var j: nat := 0;
    assert x + [Left] + Rights(0) == x + [Left];
    while pre.right != null && pre.right != curNode
      invariant Threaded(s, xs) && u == At(s, x + [Left])
      invariant j <= RightDepth(u)
      invariant At(s, x + [Left] + Rights(j)).Cell? && pre == At(s, x + [Left] + Rights(j)).node
      decreases RightDepth(u) - j
    {
      SpineThread(s, x, j, second);
      ThreadedAt(s, xs, x + [Left] + Rights(j));
      pre := pre.right;
      j := j + 1;
    }
    SpineThread(s, x, j, second);
    ThreadedAt(s, xs, x + [Left] + Rights(j));
  }

  /** `pre.right = curNode` (`on`) or `pre.right = undefined` at the predecessor of the node at `x`. */
  method SetThread(pre: TreeNode, v: TreeNode?, ghost s: Shape, ghost x: Path, ghost on: bool)
    requires Distinct(s) && At(s, x).Cell? && At(s, x + [Left]).Cell?
    requires Threaded(s, if on then x else x + [Left])
    requires At(s, PredPos(s, x)).Cell? && pre == At(s, PredPos(s, x)).node
    requires v == if on then At(s, x).node else null
    modifies pre`right
    ensures Threaded(s, if on then x + [Left] else x)
  {
    ghost var wp := PredPos(s, x);
    ghost var u := At(s, x + [Left]);
    Spine(u, RightDepth(u));
    AtAppend(s, x + [Left], Rights(RightDepth(u)));
    AtSnoc(s, wp, Right);
    assert wp[..|x|] == x && wp[|x|] == Left;
    TargetBelow(s, x, wp);
    assert (x + [Left])[..|x|] == x;
    pre.right := v;
    forall w | At(s, w).Cell? && At(s, w).node in NodesOf(s)
      ensures At(s, w).node.left == RootOf(At(s, w + [Left]))
      ensures At(s, w).node.right == ThreadedRight(s, if on then x + [Left] else x, w)
    {
      if w != wp && At(s, w).node == pre {
        AtUnique(s, w, wp);
      }
    }
  }

  /** `curNode = curNode.right`: to the right child, or along a thread back to the ancestor it stands for. */
  method Advance(curNode: TreeNode, ghost t: Tree, ghost s: Shape, ghost x: Path)
      returns (next: TreeNode?, ghost x': Path, ghost second': bool)
    requires Distinct(s) && Threaded(s, x) && At(s, x).Cell? && At(s, x).node == curNode && t == Abs(s)
    ensures next == RootOf(At(s, x'))
    ensures Threaded(s, if second' then x' + [Left] else x')
    ensures At(s, x').Nil? ==> !second' && x' == Rights(|x'|)
    ensures second' ==> At(s, x').Cell? && At(s, x' + [Left]).Cell?
    ensures Pending(t, x', second') == Pending(t, x + [Right], false)
    ensures Work(t, x', second') == Work(t, x + [Right], false)
  {
    AtWithin(s, x);
    TargetAt(s, x);
    LastLeftSplit(x);
    next := curNode.right;
    if At(s, x + [Right]).Cell? || LastLeft(x).None? {
      x', second' := x + [Right], false;
      ThreadedRights(s, x, 1);
      assert x + Rights(1) == x + [Right];
      if LastLeft(x).None? {
        RightsSnoc(|x|);
      }
    } else {
      var y := LastLeft(x).value;
      var k := |x| - |y| - 1;
      x', second' := y, true;
      ThreadedRights(s, y + [Left], k);
      RightsSnoc(k);
      assert x + [Right] == y + [Left] + Rights(k + 1);
      AtPrefix(s, y + [Left], Rights(k));
      assert y + ([Left] + Rights(k)) == x;
      AtPrefix(s, y, [Left] + Rights(k));
      AbsAt(s, y);
      AbsAt(s, x + [Right]);
      PendingPop(t, y, k + 1);
    }
  }

  /** One turn of the outer `while (curNode)` loop of valuesList, at the node at `x` of the shape `s`. */
  method Visit(curNode: TreeNode, values: seq<int>, ghost t: Tree, ghost s: Shape, ghost x: Path, ghost second: bool)
      returns (next: TreeNode?, values': seq<int>, ghost x': Path, ghost second': bool)
    requires Distinct(s) && t == Abs(s) && forall n | n in NodesOf(s) :: allocated(n)
    requires Threaded(s, if second then x + [Left] else x)
    requires At(s, x).Cell? && curNode == At(s, x).node
    requires second ==> At(s, x + [Left]).Cell?
    modifies NodesOf(s)`right
    ensures Threaded(s, if second' then x' + [Left] else x')
    ensures next == RootOf(At(s, x'))
    ensures At(s, x').Nil? ==> !second' && x' == Rights(|x'|)
    ensures second' ==> At(s, x').Cell? && At(s, x' + [Left]).Cell?
    ensures values' + Pending(t, x', second') == values + Pending(t, x, second)
    ensures Work(t, x', second') < Work(t, x, second)
  {
    AbsAt(s, x);
    if curNode.left == null {
      ThreadedAt(s, if second then x + [Left] else x, x);
      AtSnoc(s, x, Left);
      PendingRight(t, x, false);
      WorkRight(t, x, false);
      values' := Emit(values, curNode.data, curNode.amount);
      Regroup(values, Repeat(curNode.data, curNode.amount), Pending(t, x + [Right], false));
      next, x', second' := Advance(curNode, t, s, x);
    } else {
      next, values', x', second' := VisitLeft(curNode, values, t, s, x, second);
    }
  }

  /**
   * The turn of valuesList at a node with a left subtree: find the in-order
   * predecessor; on the second visit clear its thread, emit the node and go
   * right, on the first set the thread and go left.
   */
  method VisitLeft(curNode: TreeNode, values: seq<int>, ghost t: Tree, ghost s: Shape, ghost x: Path, ghost second: bool)
      returns (next: TreeNode?, values': seq<int>, ghost x': Path, ghost second': bool)
    requires Distinct(s) && t == Abs(s) && forall n | n in NodesOf(s) :: allocated(n)
    requires Threaded(s, if second then x + [Left] else x)
    requires At(s, x).Cell? && curNode == At(s, x).node && curNode.left != null
    requires second ==> At(s, x + [Left]).Cell?
    modifies NodesOf(s)`right
    ensures Threaded(s, if second' then x' + [Left] else x')
    ensures next == RootOf(At(s, x'))
    ensures At(s, x').Nil? ==> !second' && x' == Rights(|x'|)
    ensures second' ==> At(s, x').Cell? && At(s, x' + [Left]).Cell?
    ensures values' + Pending(t, x', second') == values + Pending(t, x, second)
    ensures Work(t, x', second') < Work(t, x, second)
  {
    AbsAt(s, x);
    var pre := WalkToPredecessor(curNode, s, x, second);
    AtWithin(s, PredPos(s, x));
    if pre.right == curNode {
      next, values', x', second' := Revisit(curNode, pre, values, t, s, x);
    } else {
      assert !second;
      SetThread(pre, curNode, s, x, true);
      PendingLeft(t, x);
      ThreadedAt(s, x + [Left], x);
      next := curNode.left;
      values', x', second' := values, x + [Left], false;
    }
  }

  /** The second visit of a node with a left subtree: clear the thread, emit the node and go right. */
  method Revisit(curNode: TreeNode, pre: TreeNode, values: seq<int>, ghost t: Tree, ghost s: Shape, ghost x: Path)
      returns (next: TreeNode?, values': seq<int>, ghost x': Path, ghost second': bool)
    requires Distinct(s) && t == Abs(s) && forall n | n in NodesOf(s) :: allocated(n)
    requires Threaded(s, x + [Left])
    requires At(s, x).Cell? && curNode == At(s, x).node && At(s, x + [Left]).Cell?
    requires At(s, PredPos(s, x)).Cell? && pre == At(s, PredPos(s, x)).node
    modifies pre`right
    ensures Threaded(s, if second' then x' + [Left] else x')
    ensures next == RootOf(At(s, x'))
    ensures At(s, x').Nil? ==> !second' && x' == Rights(|x'|)
    ensures second' ==> At(s, x').Cell? && At(s, x' + [Left]).Cell?
    ensures values' + Pending(t, x', second') == values + Pending(t, x, true)
    ensures Work(t, x', second') < Work(t, x, true)
  {
    AbsAt(s, x);
    PendingRight(t, x, true);
    WorkRight(t, x, true);
    values' := Emit(values, curNode.data, curNode.amount);
    Regroup(values, Repeat(curNode.data, curNode.amount), Pending(t, x + [Right], false));
    SetThread(pre, null, s, x, false);
    next, x', second' := Advance(curNode, t, s, x);
  }
}
