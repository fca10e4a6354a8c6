/**
 * The value held by the multiplicity-aware binary search tree of
 * src/BinarySearchTree.ts: every node carries its data and `amount`, the number
 * of equal values collapsed into it.  The operations of that class are specified
 * here as functions on this value; the class in search_tree.dfy is proved to
 * follow them.
 */
module OrderedTree {
  import opened Wrappers
  import opened Paths

  datatype Tree = Leaf | Branch(data: int, amount: int, left: Tree, right: Tree)

  /** `n` copies of `v`: what the `for (i < amount) values.push(data)` loops append. */
  function Repeat(v: int, n: int): (r: seq<int>)
    ensures |r| == if n < 0 then 0 else n
    ensures forall i :: 0 <= i < |r| ==> r[i] == v
    decreases n
  {
    if n <= 0 then [] else Repeat(v, n - 1) + [v]
  }

  /** The in-order walk of `valuesGen`: left subtree, `amount` copies of the data, right subtree. */
  function Inorder(t: Tree): seq<int>
  {
    match t
    case Leaf => []
    case Branch(d, a, l, r) => Inorder(l) + Repeat(d, a) + Inorder(r)
  }

  function Keys(t: Tree): set<int>
  {
    match t
    case Leaf => {}
    case Branch(d, _, l, r) => Keys(l) + {d} + Keys(r)
  }

  /** Search-tree order: smaller values to the left, greater values to the right. */
  predicate Ordered(t: Tree)
  {
    match t
    case Leaf => true
    case Branch(d, _, l, r) =>
      && Ordered(l) && Ordered(r)
      && (forall k :: k in Keys(l) ==> k < d)
      && (forall k :: k in Keys(r) ==> d < k)
  }

  /** Every node stands for at least one value. */
  predicate Positive(t: Tree)
  {
    match t
    case Leaf => true
    case Branch(_, a, l, r) => a >= 1 && Positive(l) && Positive(r)
  }

  /** The sum of the amounts: what the `size` counter keeps. */
  function Size(t: Tree): int
  {
    match t
    case Leaf => 0
    case Branch(_, a, l, r) => a + Size(l) + Size(r)
  }

  function NodeCount(t: Tree): nat
  {
    match t
    case Leaf => 0
    case Branch(_, _, l, r) => 1 + NodeCount(l) + NodeCount(r)
  }

  /** How many stored values equal `v`, summed over the whole tree. */
  function CountOf(t: Tree, v: int): int
  {
    match t
    case Leaf => 0
    case Branch(d, a, l, r) => (if d == v then a else 0) + CountOf(l, v) + CountOf(r, v)
  }

  // ---------------------------------------------------------------------------
  // Paths into a tree: the position a `currentNode` pointer has reached.

  function Child(t: Tree, d: Dir): Tree
  {
    match t
    case Leaf => Leaf
    case Branch(_, _, l, r) => if d == Left then l else r
  }

  function Subtree(t: Tree, p: Path): Tree
    decreases |p|
  {
    if p == [] then t else Subtree(Child(t, p[0]), p[1..])
  }

  /** `t` with the subtree at `p` replaced by `u` (no change if `p` leaves the tree). */
  function Graft(t: Tree, p: Path, u: Tree): Tree
    decreases |p|
  {
    if p == [] then u
    else match t
      case Leaf => Leaf
      case Branch(d, a, l, r) =>
        if p[0] == Left then Branch(d, a, Graft(l, p[1..], u), r)
        else Branch(d, a, l, Graft(r, p[1..], u))
  }

  function SetChild(t: Tree, d: Dir, u: Tree): Tree
  {
    match t
    case Leaf => Leaf
    case Branch(x, a, l, r) => if d == Left then Branch(x, a, u, r) else Branch(x, a, l, u)
  }

  /** The top node's amount changed by `delta`. */
  function AmountBy(t: Tree, delta: int): Tree
  {
    match t
    case Leaf => Leaf
    case Branch(x, a, l, r) => Branch(x, a + delta, l, r)
  }

  lemma {:induction false} SubtreeSnoc(t: Tree, p: Path, d: Dir)
    ensures Subtree(t, p + [d]) == Child(Subtree(t, p), d)
    decreases |p|
  {
    if p != [] {
      assert (p + [d])[1..] == p[1..] + [d];
      SubtreeSnoc(Child(t, p[0]), p[1..], d);
    }
  }

  lemma {:induction false} GraftSnoc(t: Tree, p: Path, d: Dir, u: Tree)
    requires Subtree(t, p).Branch?
    ensures Graft(t, p + [d], u) == Graft(t, p, SetChild(Subtree(t, p), d, u))
    decreases |p|
  {
    if p != [] {
      assert (p + [d])[1..] == p[1..] + [d];
      GraftSnoc(Child(t, p[0]), p[1..], d, u);
    }
  }

  // ---------------------------------------------------------------------------
  // insert (src/BinarySearchTree.ts:144-176)

  /**
   * Descend by comparison; on an equal value either bump `amount` (repeats
   * allowed) or refuse; attach a fresh leaf with amount 1 at the empty slot.
   * None is the `return false` of a refused insertion.
   */
  function Insert(t: Tree, v: int, repeated: bool): Option<Tree>
  {
    match t
    case Leaf => Some(Branch(v, 1, Leaf, Leaf))
    case Branch(d, a, l, r) =>
      if v > d then
        match Insert(r, v, repeated)
        case None => None
        case Some(r') => Some(Branch(d, a, l, r'))
      else if v == d && repeated then Some(Branch(d, a + 1, l, r))
      else if v == d then None
      else
        match Insert(l, v, repeated)
        case None => None
        case Some(l') => Some(Branch(d, a, l', r))
  }

  /** An insertion is refused exactly when repeats are off and the value is already stored. */
  lemma {:induction false} InsertRefused(t: Tree, v: int, repeated: bool)
    requires Ordered(t)
    ensures Insert(t, v, repeated).None? <==> !repeated && v in Keys(t)
  {
    match t
    case Leaf =>
    case Branch(d, a, l, r) =>
      if v > d {
        InsertRefused(r, v, repeated);
      } else if v < d {
        InsertRefused(l, v, repeated);
      }
  }

  /** An accepted insertion keeps the order and adds `v` to the stored values. */
  lemma {:induction false} InsertKeepsOrder(t: Tree, v: int, repeated: bool)
    requires Ordered(t) && Positive(t)
    requires Insert(t, v, repeated).Some?
    ensures Ordered(Insert(t, v, repeated).value)
    ensures Positive(Insert(t, v, repeated).value)
    ensures Keys(Insert(t, v, repeated).value) == Keys(t) + {v}
  {
    match t
    case Leaf =>
    case Branch(d, a, l, r) =>
      if v > d {
        InsertKeepsOrder(r, v, repeated);
      } else if v < d {
        InsertKeepsOrder(l, v, repeated);
      }
  }

  /**
   * An accepted insertion counts `v` once more and nothing else: the size grows
   * by one, and a new node appears only when `v` was not stored before.
   */
  lemma {:induction false} InsertCounts(t: Tree, v: int, repeated: bool)
    requires Ordered(t)
    requires Insert(t, v, repeated).Some?
    ensures forall w :: CountOf(Insert(t, v, repeated).value, w) == CountOf(t, w) + (if w == v then 1 else 0)
    ensures Size(Insert(t, v, repeated).value) == Size(t) + 1
    ensures NodeCount(Insert(t, v, repeated).value) == NodeCount(t) + (if v in Keys(t) then 0 else 1)
  {
    match t
    case Leaf =>
    case Branch(d, a, l, r) =>
      if v > d {
        InsertCounts(r, v, repeated);
      } else if v < d {
        InsertCounts(l, v, repeated);
      }
  }

  function Lift(t: Tree, p: Path, o: Option<Tree>): Option<Tree>
  {
    match o
    case None => None
    case Some(u) => Some(Graft(t, p, u))
  }

  /**
   * The insertion loop stops at the node at `p`: the pending insertion is the
   * new leaf linked on the empty side, the amount bumped, or the refusal.
   */
  lemma InsertArrives(t: Tree, p: Path, v: int, repeated: bool)
    requires Subtree(t, p).Branch?
    ensures var s := Subtree(t, p);
      && (v > s.data && s.right == Leaf ==>
            Lift(t, p, Insert(s, v, repeated)) == Some(Graft(t, p, SetChild(s, Right, Branch(v, 1, Leaf, Leaf)))))
      && (v < s.data && s.left == Leaf ==>
            Lift(t, p, Insert(s, v, repeated)) == Some(Graft(t, p, SetChild(s, Left, Branch(v, 1, Leaf, Leaf)))))
      && (v == s.data && repeated ==> Lift(t, p, Insert(s, v, repeated)) == Some(Graft(t, p, AmountBy(s, 1))))
      && (v == s.data && !repeated ==> Lift(t, p, Insert(s, v, repeated)) == None)
  {
  }

  /** One step of the insertion loop: descending to a child keeps the pending insertion the same. */
  lemma InsertDescend(t: Tree, p: Path, v: int, repeated: bool)
    requires Subtree(t, p).Branch?
    requires v != Subtree(t, p).data
    ensures var d := if v > Subtree(t, p).data then Right else Left;
      Lift(t, p, Insert(Subtree(t, p), v, repeated))
        == Lift(t, p + [d], Insert(Subtree(t, p + [d]), v, repeated))
  {
    var d := if v > Subtree(t, p).data then Right else Left;
    SubtreeSnoc(t, p, d);
    match Insert(Subtree(t, p + [d]), v, repeated)
    case None =>
    case Some(u) => GraftSnoc(t, p, d, u);
  }

  // ---------------------------------------------------------------------------
  // valuesGen (src/BinarySearchTree.ts:97-107)

  lemma {:induction false} InorderKeys(t: Tree)
    requires Positive(t)
    ensures forall x :: x in Inorder(t) <==> x in Keys(t)
  {
    match t
    case Leaf =>
    case Branch(d, a, l, r) =>
      InorderKeys(l);
      InorderKeys(r);
      assert Repeat(d, a)[0] == d;
  }

  lemma {:induction false} InorderWithinKeys(t: Tree)
    ensures forall x :: x in Inorder(t) ==> x in Keys(t)
  {
    match t
    case Leaf =>
    case Branch(d, a, l, r) =>
      InorderWithinKeys(l);
      InorderWithinKeys(r);
  }

  /** `valuesGen` yields the stored values in non-decreasing order. */
  lemma {:induction false} InorderSorted(t: Tree)
    requires Ordered(t)
    ensures forall i, j :: 0 <= i < j < |Inorder(t)| ==> Inorder(t)[i] <= Inorder(t)[j]
  {
    match t
    case Leaf =>
    case Branch(d, a, l, r) =>
      InorderSorted(l);
      InorderSorted(r);
      InorderWithinKeys(l);
      InorderWithinKeys(r);
      var s := Inorder(t);
      var nl, nm := |Inorder(l)|, |Repeat(d, a)|;
      forall i, j | 0 <= i < j < |s| ensures s[i] <= s[j] {
        if j < nl {
          assert s[i] == Inorder(l)[i] && s[j] == Inorder(l)[j];
        } else if i >= nl + nm {
          assert s[i] == Inorder(r)[i - nl - nm] && s[j] == Inorder(r)[j - nl - nm];
        } else {
          assert s[i] <= d by {
            if i < nl {
              assert s[i] == Inorder(l)[i];
              assert s[i] in Inorder(l);
            } else {
              assert s[i] == Repeat(d, a)[i - nl];
            }
          }
          assert d <= s[j] by {
            if j < nl + nm {
              assert s[j] == Repeat(d, a)[j - nl];
            } else {
              assert s[j] == Inorder(r)[j - nl - nm];
              assert s[j] in Inorder(r);
            }
          }
        }
      }
  }

  /** `valuesGen` yields exactly `size` values. */
  lemma {:induction false} InorderLength(t: Tree)
    requires Positive(t)
    ensures |Inorder(t)| == Size(t)
  {
    match t
    case Leaf =>
    case Branch(d, a, l, r) =>
      InorderLength(l);
      InorderLength(r);
  }

  /** `valuesGen` yields each value as often as `count` reports it. */
  lemma {:induction false} InorderCounts(t: Tree, w: int)
    requires Positive(t)
    ensures multiset(Inorder(t))[w] == CountOf(t, w)
  {
    match t
    case Leaf =>
    case Branch(d, a, l, r) =>
      InorderCounts(l, w);
      InorderCounts(r, w);
      RepeatMultiset(d, a, w);
  }

  lemma {:induction false} RepeatMultiset(v: int, n: int, w: int)
    requires n >= 0
    ensures multiset(Repeat(v, n))[w] == if w == v then n else 0
    decreases n
  {
    if n > 0 {
      RepeatMultiset(v, n - 1, w);
    }
  }

  // ---------------------------------------------------------------------------
  // findRef / find / count (src/BinarySearchTree.ts:85-92, 178-205)

  lemma {:induction false} CountAbsent(t: Tree, v: int)
    requires v !in Keys(t)
    ensures CountOf(t, v) == 0
  {
    match t
    case Leaf =>
    case Branch(d, a, l, r) =>
      CountAbsent(l, v);
      CountAbsent(r, v);
  }

  /**
   * One step of the read-only descent: in an ordered tree `v` can only be in
   * the subtree the comparison selects, and an equal node holds all of its count.
   */
  lemma SearchStep(t: Tree, v: int)
    requires Ordered(t) && t.Branch?
    ensures v == t.data ==> CountOf(t, v) == t.amount
    ensures v > t.data ==> (v in Keys(t) <==> v in Keys(t.right)) && CountOf(t, v) == CountOf(t.right, v)
    ensures v < t.data ==> (v in Keys(t) <==> v in Keys(t.left)) && CountOf(t, v) == CountOf(t.left, v)
  {
    if v >= t.data {
      CountAbsent(t.left, v);
    }
    if v <= t.data {
      CountAbsent(t.right, v);
    }
  }

  lemma {:induction false} CountPresent(t: Tree, v: int)
    requires Positive(t)
    ensures v in Keys(t) <==> CountOf(t, v) >= 1
  {
    match t
    case Leaf =>
    case Branch(d, a, l, r) =>
      CountPresent(l, v);
      CountPresent(r, v);
      CountNonNegative(l, v);
      CountNonNegative(r, v);
  }

  lemma {:induction false} CountNonNegative(t: Tree, v: int)
    requires Positive(t)
    ensures CountOf(t, v) >= 0
  {
    match t
    case Leaf =>
    case Branch(d, a, l, r) =>
      CountNonNegative(l, v);
      CountNonNegative(r, v);
  }

  /**
   * `p` is the way the comparison loop of `findRef` walks towards `v`: every
   * node passed on the way differs from `v`, and the walk turns right exactly
   * at the nodes `v` is greater than.
   */
  predicate SearchPath(t: Tree, p: Path, v: int)
    decreases |p|
  {
    p == [] || (t.Branch? && v != t.data && p[0] == (if v > t.data then Right else Left) && SearchPath(Child(t, p[0]), p[1..], v))
  }

  lemma {:induction false} SearchPathSnoc(t: Tree, p: Path, v: int)
    requires SearchPath(t, p, v) && Subtree(t, p).Branch? && v != Subtree(t, p).data
    ensures SearchPath(t, p + [if v > Subtree(t, p).data then Right else Left], v)
    decreases |p|
  {
    if p != [] {
      var d := if v > Subtree(t, p).data then Right else Left;
      assert (p + [d])[1..] == p[1..] + [d];
      SearchPathSnoc(Child(t, p[0]), p[1..], v);
    }
  }

  /** The last step of a search path turns towards `v` at the node it leaves. */
  lemma {:induction false} SearchPathLast(t: Tree, p: Path, v: int)
    requires SearchPath(t, p, v) && p != []
    ensures var parent := Subtree(t, p[..|p| - 1]);
      parent.Branch? && p[|p| - 1] == (if v > parent.data then Right else Left)
    decreases |p|
  {
    if |p| > 1 {
      assert p[1..][..|p| - 2] == p[..|p| - 1][1..];
      SearchPathLast(Child(t, p[0]), p[1..], v);
    }
  }

  /** Along the search path for `v` the count and presence of `v` are those of the subtree reached. */
  lemma {:induction false} SearchPathKeeps(t: Tree, p: Path, v: int)
    requires Ordered(t) && SearchPath(t, p, v)
    ensures Ordered(Subtree(t, p))
    ensures v in Keys(t) <==> v in Keys(Subtree(t, p))
    ensures CountOf(t, v) == CountOf(Subtree(t, p), v)
    decreases |p|
  {
    if p != [] {
      SearchStep(t, v);
      SearchPathKeeps(Child(t, p[0]), p[1..], v);
    }
  }

  /**
   * Removing `v` from the whole tree is removing it from the subtree the
   * search path reaches.
   */
  lemma {:induction false} DeleteAlong(t: Tree, p: Path, v: int)
    requires SearchPath(t, p, v)
    ensures Delete(t, v) == Lift(t, p, Delete(Subtree(t, p), v))
    decreases |p|
  {
    if p != [] {
      DeleteAlong(Child(t, p[0]), p[1..], v);
    }
  }

  // ---------------------------------------------------------------------------
  // remove (src/BinarySearchTree.ts:211-262), as its authors evidently meant it

  /** The rightmost node of a non-empty tree: the in-order predecessor candidate. */
  function Rightmost(t: Tree): (m: Tree)
    requires t.Branch?
    ensures m.Branch?
  {
    if t.right.Leaf? then t else Rightmost(t.right)
  }

  /** A non-empty tree with its rightmost node spliced out (replaced by that node's left subtree). */
  function RemoveRightmost(t: Tree): Tree
    requires t.Branch?
  {
    if t.right.Leaf? then t.left else Branch(t.data, t.amount, t.left, RemoveRightmost(t.right))
  }

  /**
   * The node on top of `t` taken out of the tree: without a left child it is
   * replaced by its right subtree, without a right child by its left subtree,
   * and with two children by its in-order predecessor, which keeps its own
   * amount and leaves its old place to its left subtree.
   */
  function RemoveTop(t: Tree): Tree
    requires t.Branch?
  {
    if t.left.Leaf? then t.right
    else if t.right.Leaf? then t.left
    else
      var m := Rightmost(t.left);
      Branch(m.data, m.amount, RemoveRightmost(t.left), t.right)
  }

  /**
   * Removal: an absent value is None; an amount above 1 is decremented; a node
   * with at most one child is replaced by that child; a node with two children
   * is replaced by its in-order predecessor, which keeps its own amount.
   */
  function Delete(t: Tree, v: int): Option<Tree>
  {
    match t
    case Leaf => None
    case Branch(d, a, l, r) =>
      if v == d then
        if a > 1 then Some(AmountBy(t, -1)) else Some(RemoveTop(t))
      else if v > d then
        match Delete(r, v)
        case None => None
        case Some(r') => Some(Branch(d, a, l, r'))
      else
        match Delete(l, v)
        case None => None
        case Some(l') => Some(Branch(d, a, l', r))
  }

  lemma {:induction false} RightmostIsMax(t: Tree)
    requires t.Branch? && Ordered(t)
    ensures Rightmost(t).data in Keys(t)
    ensures forall k :: k in Keys(t) ==> k <= Rightmost(t).data
    ensures Ordered(RemoveRightmost(t))
    ensures Keys(RemoveRightmost(t)) == Keys(t) - {Rightmost(t).data}
    ensures forall w :: CountOf(RemoveRightmost(t), w) + (if w == Rightmost(t).data then Rightmost(t).amount else 0) == CountOf(t, w)
    ensures Size(RemoveRightmost(t)) + Rightmost(t).amount == Size(t)
    ensures Positive(t) ==> Positive(RemoveRightmost(t)) && Rightmost(t).amount >= 1
  {
    if t.right.Leaf? {
      forall w ensures CountOf(RemoveRightmost(t), w) + (if w == t.data then t.amount else 0) == CountOf(t, w) {
        if w >= t.data { CountAbsent(t.left, w); }
      }
    } else {
      RightmostIsMax(t.right);
      var m := Rightmost(t.right);
      forall w ensures CountOf(RemoveRightmost(t), w) + (if w == m.data then m.amount else 0) == CountOf(t, w) {
        assert CountOf(RemoveRightmost(t.right), w) + (if w == m.data then m.amount else 0) == CountOf(t.right, w);
      }
    }
  }

  /** What stays of a tree once its rightmost node is spliced out lies below that node. */
  lemma RemoveRightmostBelow(t: Tree)
    requires t.Branch? && Ordered(t) && RemoveRightmost(t).Branch?
    ensures RemoveRightmost(t).data < Rightmost(t).data
  {
    RightmostIsMax(t);
  }

  /** A removal succeeds exactly when the value is stored. */
  lemma {:induction false} DeleteFinds(t: Tree, v: int)
    requires Ordered(t)
    ensures Delete(t, v).Some? <==> v in Keys(t)
  {
    match t
    case Leaf =>
    case Branch(d, a, l, r) =>
      if v > d {
        DeleteFinds(r, v);
      } else if v < d {
        DeleteFinds(l, v);
      }
  }

  /**
   * A successful removal keeps the order; the value stays stored exactly when
   * more than one copy of it was stored.
   */
  lemma {:induction false} DeleteKeepsOrder(t: Tree, v: int)
    requires Ordered(t) && Positive(t)
    requires Delete(t, v).Some?
    ensures Ordered(Delete(t, v).value) && Positive(Delete(t, v).value)
    ensures Keys(Delete(t, v).value) == if CountOf(t, v) > 1 then Keys(t) else Keys(t) - {v}
  {
    match t
    case Leaf =>
    case Branch(d, a, l, r) =>
      if v > d {
        DeleteKeepsOrder(r, v);
        SearchStep(t, v);
      } else if v < d {
        DeleteKeepsOrder(l, v);
        SearchStep(t, v);
      } else {
        SearchStep(t, v);
        if a <= 1 && l.Branch? && r.Branch? {
          RightmostIsMax(l);
        }
      }
  }

  /** A successful removal takes away one copy of `v` and nothing else. */
  lemma {:induction false} DeleteCounts(t: Tree, v: int)
    requires Ordered(t) && Positive(t)
    requires Delete(t, v).Some?
    ensures forall w :: CountOf(Delete(t, v).value, w) == CountOf(t, w) - (if w == v then 1 else 0)
    ensures Size(Delete(t, v).value) == Size(t) - 1
  {
    match t
    case Leaf =>
    case Branch(d, a, l, r) =>
      if v > d {
        DeleteCounts(r, v);
      } else if v < d {
        DeleteCounts(l, v);
      } else if a <= 1 {
        forall w | w == v ensures CountOf(l, w) == 0 && CountOf(r, w) == 0 {
          CountAbsent(l, w);
          CountAbsent(r, w);
        }
        if l.Branch? && r.Branch? {
          RightmostIsMax(l);
        }
      }
  }
}
