/**
 * The trie of src/Trie.ts on the heap: nodes with a fixed-size `children`
 * array, a `ret` value and a `childrenNum` counter.  A ghost map from index
 * paths to nodes says which node sits where; `State()` reads the trie back as
 * a `TrieView.View`, against which every operation is specified.
 */
module Tries {
  import opened Wrappers
  import opened TrieView

  class TrieNode<R> {
    /** One slot per possible index; the array is never replaced, only written. */
    const children: array<TrieNode?<R>>
    var ret: Option<R>
    var childrenNum: int

    constructor (possibilities: nat, ret: Option<R>)
      ensures children.Length == possibilities && fresh(children)
      ensures forall i | 0 <= i < possibilities :: children[i] == null
      ensures this.ret == ret && childrenNum == 0
    {
      var slots := new TrieNode?<R>[possibilities];
      for i := 0 to possibilities
        invariant forall j | 0 <= j < i :: slots[j] == null
      {
        slots[i] := null;
      }
      children := slots;
      this.ret := ret;
      childrenNum := 0;
    }
  }

  class Trie<T, R> {
    const options: nat
    var size: int
    const root: TrieNode<R>
    const mapFunction: T -> int

    /** The node at the end of each path that exists. */
    ghost var nodes: map<Key, TrieNode<R>>
    ghost var Repr: set<object>
    /** For each node and each `children` array, the path where it sits. */
    ghost var back: map<object, Key>

    ghost predicate Valid()
      reads this`nodes, this`Repr, this`back, set p | p in nodes :: nodes[p].children
    {
      && this !in Repr && Within(nodes, Repr)
      && [] in nodes && nodes[[]] == root
      && Closed(nodes, options)
      && Indexed(nodes, back)
      && Linked(nodes, options)
    }

    /** Each node's `ret` and `childrenNum`, by path. */
    ghost function State(): View<R>
      reads this`nodes, nodes.Values
    {
      Snapshot(nodes)
    }

    /** The path of child indices that `mapFunction` gives for an object sequence. */
    function KeyOf(obj: seq<T>): (key: Key)
      ensures |key| == |obj| && forall i | 0 <= i < |obj| :: key[i] == mapFunction(obj[i])
    {
      seq(|obj|, i requires 0 <= i < |obj| => mapFunction(obj[i]))
    }

    constructor (options: nat, func: T -> int)
      ensures Valid() && State() == map[[] := Cell(None, 0)] && size == 0
      ensures this.options == options && mapFunction == func
    {
      this.options := options;
      size := 0;
      var r := new TrieNode(options, None);
      root := r;
      mapFunction := func;
      nodes := map[[] := r];
      Repr := {r, r.children};
      back := map[r := [], r.children := []];
    }

    /** `getIndex`: the mapped index when it is a slot index, -1 otherwise. */
    function GetIndex(obj: T): (r: int)
      ensures r == -1 || 0 <= r < options
      ensures 0 <= r ==> r == mapFunction(obj)
      ensures r == -1 <==> !(0 <= mapFunction(obj) < options)
    {
      var index := mapFunction(obj);
      if index < 0 || index >= options then -1 else index
    }

    function GetSize(): int
      reads this
    {
      size
    }

    /**
     * `insert`: walk the key's path creating the nodes that are missing, then
     * give the last node the value and bump its counter and the trie's size,
     * whether or not the key was already stored.
     */
    method Insert(obj: seq<T>, ret: R)
      requires Valid() && InRange(KeyOf(obj), options)
      modifies this, Repr
      ensures Valid()
      ensures State() == Inserted(old(State()), KeyOf(obj), ret)
      ensures size == old(size) + 1
    {
      var curNode := Walk(obj);
      MarkNode(curNode, ret, KeyOf(obj));
    }

    /** The loop of `insert`: follow the key's path, creating each missing node on the way. */
    method Walk(obj: seq<T>) returns (curNode: TrieNode<R>)
      requires Valid() && InRange(KeyOf(obj), options)
      modifies this`nodes, this`Repr, this`back, Repr
      ensures Valid() && KeyOf(obj) in nodes && curNode == nodes[KeyOf(obj)]
      ensures State() == Extend(old(State()), KeyOf(obj))
      ensures curNode in old(Repr) || fresh(curNode)
    {
      ghost var key := KeyOf(obj);
      ghost var v0, m0 := State(), nodes;
      assert Within(m0, old(Repr));
      ExtendNone(v0, key);
      curNode := root;
      for k := 0 to |obj|
        invariant Valid()
        invariant key[..k] in nodes && curNode == nodes[key[..k]]
        invariant State() == Extend(v0, key[..k])
        invariant forall p | p in m0 :: p in nodes && nodes[p] == m0[p]
        invariant forall p | p in nodes && p !in m0 :: |p| <= k
        invariant key[..k] in m0 || (fresh(curNode) && fresh(curNode.children))
      {
        var index := GetIndex(obj[k]);
        assert key[..k + 1] == key[..k] + [index];
        ExtendStep(v0, key, k);
        assert key[..k] in m0 ==> curNode in old(Repr) && curNode.children in old(Repr);
        curNode := Descend(curNode, index, key[..k]);
      }
      assert key[..|obj|] == key;
      assert key in m0 ==> curNode in old(Repr);
    }

    /** One step of the walk of `insert`: into slot `index`, creating the child if the slot is empty. */
    method Descend(curNode: TrieNode<R>, index: int, ghost p: Key) returns (next: TrieNode<R>)
      requires Valid() && p in nodes && nodes[p] == curNode && 0 <= index < options
      modifies this`nodes, this`Repr, this`back, curNode.children
      ensures Valid() && p + [index] in nodes && next == nodes[p + [index]]
      ensures State() == old(State())[p + [index] := if p + [index] in old(State()) then old(State())[p + [index]] else Cell(None, 0)]
      ensures forall q :: q in nodes <==> q in old(nodes) || q == p + [index]
      ensures forall q | q in old(nodes) :: nodes[q] == old(nodes)[q]
      ensures p + [index] !in old(nodes) ==> fresh(next) && fresh(next.children)
    {
      if curNode.children[index] == null {
        AddChild(curNode, index, p);
      } else {
        assert State()[p + [index] := State()[p + [index]]] == State();
      }
      next := curNode.children[index];
    }

    /** `curNode.children[index] = new TrieNode(this.options)` at an empty slot of the node at `p`. */
    method AddChild(parent: TrieNode<R>, index: int, ghost p: Key)
      requires Valid() && p in nodes && nodes[p] == parent
      requires 0 <= index < options && parent.children[index] == null
      modifies this`nodes, this`Repr, this`back, parent.children
      ensures Valid()
      ensures p + [index] in nodes && nodes[p + [index]] == parent.children[index]
      ensures nodes == old(nodes)[p + [index] := nodes[p + [index]]]
      ensures State() == old(State())[p + [index] := Cell(None, 0)]
      ensures fresh(nodes[p + [index]]) && fresh(nodes[p + [index]].children)
    {
      ghost var m0 := nodes;
      ghost var v0 := State();
      ghost var c := p + [index];
      assert c !in m0;
      var n := new TrieNode(options, None);
      parent.children[index] := n;
      nodes := m0[c := n];
      Repr := Repr + {n, n.children};
      ClosedAdd(m0, p, index, n, options);
      back := back[n := c][n.children := c];
      IndexedAdd(m0, old(back), c, n, old(Repr));
      forall q | q in m0 && q != p
        ensures unchanged(m0[q].children)
      {
        assert m0[q].children != parent.children;
      }
      LinkedAdd(m0, p, index, n, options);
      SnapshotIs(nodes, v0[c := Cell(None, 0)]);
    }

    /** The end of `insert`: `curNode.ret = ret; ++curNode.childrenNum; ++this.size` for the node at `key`. */
    method MarkNode(curNode: TrieNode<R>, ret: R, ghost key: Key)
      requires Valid() && key in nodes && nodes[key] == curNode
      modifies this`size, curNode`ret, curNode`childrenNum
      ensures Valid()
      ensures State() == Mark(old(State()), key, ret)
      ensures size == old(size) + 1
    {
      ghost var v := Mark(State(), key, ret);
      curNode.ret := Some(ret);
      curNode.childrenNum := curNode.childrenNum + 1;
      size := size + 1;
      forall p | p in nodes
        ensures v[p] == Cell(nodes[p].ret, nodes[p].childrenNum)
      {
        if p != key {
          assert back[nodes[p]] != back[curNode];
        }
      }
      SnapshotIs(nodes, v);
    }

    /** `find`: follow the key's path; nothing found as soon as a slot is empty, else the last node's `ret`. */
    method Find(obj: seq<T>) returns (r: Option<R>)
      requires Valid()
      ensures r == Lookup(State(), KeyOf(obj))
    {
      ghost var key := KeyOf(obj);
      var curNode := root;
      for k := 0 to |obj|
        invariant key[..k] in nodes && curNode == nodes[key[..k]]
      {
        var index := GetIndex(obj[k]);
        assert key[..k + 1] == key[..k] + [key[k]];
        if 0 <= index && curNode.children[index] != null {
          curNode := curNode.children[index];
        } else {
          assert key[..k + 1] !in nodes;
          if key in nodes {
            PrefixIn(nodes, key, k + 1);
          }
          return None;
        }
      }
      assert key[..|obj|] == key;
      return curNode.ret;
    }

    /**
     * `remove` for a non-empty key: walk the path recording (parent, child,
     * index) triples, answering false at the first empty slot.  A last node
     * with a positive counter only loses its value, and `size` drops by one.
     * Otherwise the last node is unlinked, and so are its ancestors, bottom up,
     * until one has a positive counter or a value; `size` stays as it is.
     */
    method Remove(obj: seq<T>) returns (removed: bool)
      requires Valid() && obj != []
      modifies this, Repr
      ensures Valid()
      ensures removed == Removed(old(State()), KeyOf(obj), options).removed
      ensures State() == Removed(old(State()), KeyOf(obj), options).view
      ensures size == old(size) - if Removed(old(State()), KeyOf(obj), options).counted then 1 else 0
    {
      var pairs, found := Trace(obj);
      if !found {
        return false;
      }
      Detach(pairs, KeyOf(obj));
      return true;
    }

    /**
     * The part of `remove` after the path was found: a last node with a
     * positive counter loses its value, otherwise it is unlinked and the
     * nodes above it are pruned.
     */
    method Detach(pairs: seq<(TrieNode<R>, TrieNode<R>, int)>, ghost key: Key)
      requires Valid() && key != [] && Along(pairs, key, nodes) && |pairs| == |key|
      modifies this`nodes, this`size, Repr
      ensures Valid()
      ensures State() == Removed(old(State()), key, options).view
      ensures size == old(size) - if Removed(old(State()), key, options).counted then 1 else 0
    {
      ghost var v0, m0 := State(), nodes;
      var parent := pairs[|pairs| - 1].0;
      var child := pairs[|pairs| - 1].1;
      var index := pairs[|pairs| - 1].2;
      assert key[..|pairs|] == key;
      if child.childrenNum > 0 {
        ClearNode(child, key);
        return;
      }
      Unlink(parent, index, key);
      TakeStep(key, |pairs| - 1);
      Prune(pairs, key, m0);
    }

    /**
     * The second loop of `remove`, from the next-to-last triple up: stop at the
     * first node with a positive counter or a value, otherwise unlink it.
     */
    method Prune(pairs: seq<(TrieNode<R>, TrieNode<R>, int)>, ghost key: Key, ghost m0: map<Key, TrieNode<R>>)
      requires Valid() && 0 < |pairs| && Along(pairs, key, m0)
      requires key[..|pairs| - 1] in nodes
      requires forall p | p in nodes :: p in m0 && nodes[p] == m0[p]
      modifies this`nodes, Repr
      ensures Valid() && size == old(size)
      ensures State() == Cascade(old(State()), key[..|pairs| - 1], options)
    {
      var i := |pairs| - 2;
      while i >= 0
        invariant -1 <= i <= |pairs| - 2
        invariant Valid()
        invariant key[..i + 1] in nodes
        invariant forall p | p in nodes :: p in m0 && nodes[p] == m0[p]
        invariant Cascade(State(), key[..i + 1], options) == Cascade(old(State()), key[..|pairs| - 1], options)
      {
        var parent := pairs[i].0;
        var child := pairs[i].1;
        var index := pairs[i].2;
        if child.childrenNum > 0 || child.ret.Some? {
          return;
        }
        TakeStep(key, i);
        Unlink(parent, index, key[..i + 1]);
        i := i - 1;
      }
    }

    /**
     * The first loop of `remove`: the (parent, child, index) triples along the
     * key's path, stopping with `found` false at the first empty slot.
     */
    method Trace(obj: seq<T>) returns (pairs: seq<(TrieNode<R>, TrieNode<R>, int)>, found: bool)
      requires Valid()
      ensures Along(pairs, KeyOf(obj), nodes)
      ensures found <==> KeyOf(obj) in nodes
      ensures found ==> |pairs| == |obj|
    {
      ghost var key := KeyOf(obj);
      pairs := [];
      var parent := root;
      for k := 0 to |obj|
        invariant key[..k] in nodes && parent == nodes[key[..k]] && |pairs| == k
        invariant Along(pairs, key, nodes)
      {
        var index := mapFunction(obj[k]);
        assert key[..k + 1] == key[..k] + [index];
        if !(0 <= index < parent.children.Length) || parent.children[index] == null {
          assert key[..k + 1] !in nodes;
          if key in nodes {
            PrefixIn(nodes, key, k + 1);
          }
          return pairs, false;
        }
        var child := parent.children[index];
        assert key[..k + 1] in nodes && child == nodes[key[..k + 1]];
        AlongSnoc(pairs, key, nodes, (parent, child, index));
        pairs := pairs + [(parent, child, index)];
        parent := child;
      }
      assert key[..|obj|] == key;
      return pairs, true;
    }

    /** The end of `remove` when the last node has a positive counter: `child.ret = undefined; --this.size`. */
    method ClearNode(child: TrieNode<R>, ghost key: Key)
      requires Valid() && key in nodes && nodes[key] == child
      modifies this`size, child`ret
      ensures Valid()
      ensures State() == old(State())[key := Cell(None, old(State())[key].num)]
      ensures size == old(size) - 1
    {
      ghost var v := State()[key := Cell(None, State()[key].num)];
      child.ret := None;
      size := size - 1;
      forall p | p in nodes
        ensures v[p] == Cell(nodes[p].ret, nodes[p].childrenNum)
      {
        if p != key {
          assert back[nodes[p]] != back[child];
        }
      }
      SnapshotIs(nodes, v);
    }

    /** `parent.children[index] = undefined; --parent.childrenNum`, dropping the node at `a` and all below it. */
    method Unlink(parent: TrieNode<R>, index: int, ghost a: Key)
      requires Valid() && a in nodes && a != [] && Parent(a) in nodes
      requires nodes[Parent(a)] == parent && index == a[|a| - 1]
      modifies this`nodes, parent`childrenNum, parent.children
      ensures Valid()
      ensures State() == Cut(old(State()), a, options)
      ensures forall p :: p in nodes <==> p in old(nodes) && !(a <= p)
      ensures forall p | p in old(nodes) && |p| < |a| :: p in nodes
      ensures forall p | p in nodes :: nodes[p] == old(nodes)[p]
    {
      ghost var m0, q0 := nodes, Parent(a);
      assert a == q0 + [index];
      parent.children[index] := null;
      parent.childrenNum := parent.childrenNum - 1;
      nodes := Below(m0, a);
      forall q | q in m0 && q != q0
        ensures m0[q] != parent && m0[q].children != parent.children
      {
      }
      assert !(a <= []);
      ClosedBelow(m0, a, options);
      LinkedCut(m0, q0, index, options);
      CutSnapshot(m0, a, options);
    }
  }

  /** Every path in the map hangs from a path in it, one slot index further down. */
  ghost predicate Closed<X>(m: map<Key, X>, options: int)
  {
    forall p, i {:trigger p + [i] in m} | p + [i] in m :: p in m && 0 <= i < options
  }

  /**
   * `back` gives back the path of every node and of its `children` array, so
   * distinct paths hold distinct nodes with distinct arrays.
   */
  ghost predicate Indexed<R>(m: map<Key, TrieNode<R>>, back: map<object, Key>)
  {
    forall p | p in m ::
      && m[p] in back && back[m[p]] == p
      && m[p].children in back && back[m[p].children] == p
  }

  /** Every node of the map and its `children` array belong to `repr`. */
  ghost predicate Within<R>(m: map<Key, TrieNode<R>>, repr: set<object>)
  {
    forall p | p in m :: m[p] in repr && m[p].children in repr
  }

  ghost function Snapshot<R>(m: map<Key, TrieNode<R>>): View<R>
    reads m.Values
  {
    map p | p in m :: Cell(m[p].ret, m[p].childrenNum)
  }

  lemma SnapshotIs<R>(m: map<Key, TrieNode<R>>, v: View<R>)
    requires v.Keys == m.Keys
    requires forall p | p in m :: v[p] == Cell(m[p].ret, m[p].childrenNum)
    ensures Snapshot(m) == v
  {
  }

  lemma ClosedAdd<X>(m: map<Key, X>, p: Key, i: int, x: X, options: int)
    requires Closed(m, options) && p in m && 0 <= i < options
    ensures Closed(m[p + [i] := x], options)
  {
    forall q, j | q + [j] in m[p + [i] := x]
      ensures q in m && 0 <= j < options
    {
      if q + [j] == p + [i] {
        assert q == (p + [i])[..|q|] == p && j == (p + [i])[|q|] == i;
      }
    }
  }

  lemma IndexedAdd<R>(m: map<Key, TrieNode<R>>, back: map<object, Key>, c: Key, n: TrieNode<R>, repr: set<object>)
    requires Indexed(m, back) && Within(m, repr) && n !in repr && n.children !in repr
    ensures Indexed(m[c := n], back[n := c][n.children := c])
    ensures Within(m[c := n], repr + {n, n.children})
  {
  }

  /** Each node has one slot per index, holding the node one index further down, or null. */
  ghost predicate Linked<R>(m: map<Key, TrieNode<R>>, options: int)
    reads set p | p in m :: m[p].children
  {
    && (forall p | p in m :: m[p].children.Length == options)
    && (forall p, i {:trigger m[p].children[i]} | p in m && 0 <= i < options ::
          m[p].children[i] == if p + [i] in m then m[p + [i]] else null)
  }

  /** Hanging a fresh empty node `n` in the empty slot `i` of the node at `p`. */
  twostate lemma LinkedAdd<R>(m: map<Key, TrieNode<R>>, new p: Key, new i: int, new n: TrieNode<R>, new options: int)
    requires old(Linked(m, options)) && Closed(m, options)
    requires p in m && p + [i] !in m && 0 <= i < options
    requires n.children.Length == options && forall j | 0 <= j < options :: n.children[j] == null
    requires forall q | q in m && q != p :: unchanged(m[q].children)
    requires forall j | 0 <= j < options :: m[p].children[j] == if j == i then n else old(m[p].children[j])
    ensures Linked(m[p + [i] := n], options)
  {
    var c := p + [i];
    var m' := m[c := n];
    forall q, j | q in m' && 0 <= j < options
      ensures m'[q].children[j] == if q + [j] in m' then m'[q + [j]] else null
    {
      if q == c {
        assert |q + [j]| != |c|;
        assert q + [j] !in m;
      } else {
        assert q + [j] == c ==> q == c[..|q|] == p && j == c[|q|] == i;
      }
    }
  }

  /** The map without the paths that start with `a`. */
  ghost function Below<X>(m: map<Key, X>, a: Key): (r: map<Key, X>)
    ensures forall p :: p in r <==> p in m && !(a <= p)
    ensures forall p | p in r :: r[p] == m[p]
  {
    map p | p in m && !(a <= p) :: m[p]
  }

  lemma ClosedBelow<X>(m: map<Key, X>, a: Key, options: int)
    requires Closed(m, options)
    ensures Closed(Below(m, a), options)
  {
    forall q, j | q + [j] in Below(m, a)
      ensures q in Below(m, a)
    {
      assert q <= q + [j];
    }
  }

  /** Emptying slot `i` of the node at `p` leaves linked exactly the paths that do not start with `p + [i]`. */
  twostate lemma LinkedCut<R>(m: map<Key, TrieNode<R>>, new p: Key, new i: int, new options: int)
    requires old(Linked(m, options)) && Closed(m, options)
    requires p in m && 0 <= i < options
    requires forall q | q in m && q != p :: unchanged(m[q].children)
    requires forall j | 0 <= j < options :: m[p].children[j] == if j == i then null else old(m[p].children[j])
    ensures Linked(Below(m, p + [i]), options)
  {
    var a, r := p + [i], Below(m, p + [i]);
    forall q, j | q in r && 0 <= j < options
      ensures r[q].children[j] == if q + [j] in r then r[q + [j]] else null
    {
      assert q <= q + [j];
      if q == p && j == i {
        assert q + [j] == a;
      } else if q == p {
        assert a[|q|] == i && (q + [j])[|q|] == j;
      }
    }
  }

  /** Taking one off the counter of the parent of `a` and dropping the paths that start with `a` is `Cut`. */
  twostate lemma CutSnapshot<R>(m: map<Key, TrieNode<R>>, new a: Key, new options: int)
    requires old(WellFormed(Snapshot(m), options)) && a in m && a != [] && Parent(a) in m
    requires forall p | p in m && p != Parent(a) :: unchanged(m[p])
    requires m[Parent(a)].ret == old(m[Parent(a)].ret)
    requires m[Parent(a)].childrenNum == old(m[Parent(a)].childrenNum) - 1
    ensures Snapshot(Below(m, a)) == Cut(old(Snapshot(m)), a, options)
  {
    var w := Cut(old(Snapshot(m)), a, options);
    SnapshotIs(Below(m, a), w);
  }

  /** `pairs[j]` holds the nodes at the first `j` and `j + 1` steps of `key`, and the step between them. */
  ghost predicate Along<R>(pairs: seq<(TrieNode<R>, TrieNode<R>, int)>, key: Key, m: map<Key, TrieNode<R>>)
  {
    && |pairs| <= |key|
    && forall j {:trigger pairs[j]} {:trigger key[..j]} | 0 <= j < |pairs| ::
         key[..j] in m && key[..j + 1] in m && pairs[j] == (m[key[..j]], m[key[..j + 1]], key[j])
  }

  lemma AlongSnoc<R>(pairs: seq<(TrieNode<R>, TrieNode<R>, int)>, key: Key, m: map<Key, TrieNode<R>>,
                     x: (TrieNode<R>, TrieNode<R>, int))
    requires Along(pairs, key, m) && |pairs| < |key|
    requires key[..|pairs|] in m && key[..|pairs| + 1] in m
    requires x == (m[key[..|pairs|]], m[key[..|pairs| + 1]], key[|pairs|])
    ensures Along(pairs + [x], key, m)
  {
    var q := pairs + [x];
    forall j {:trigger key[..j]} | 0 <= j < |q|
      ensures key[..j] in m && key[..j + 1] in m && q[j] == (m[key[..j]], m[key[..j + 1]], key[j])
    {
      if j < |pairs| {
        assert q[j] == pairs[j];
      }
    }
  }

  /** Every prefix of a path in a well-formed path map is in it too. */
  lemma {:induction false} PrefixIn<X>(m: map<Key, X>, p: Key, j: nat)
    requires forall q, i | q + [i] in m :: q in m
    requires p in m && j <= |p|
    ensures p[..j] in m
    decreases |p| - j
  {
    if j < |p| {
      assert p == Parent(p) + [p[|p| - 1]];
      PrefixIn(m, Parent(p), j);
      assert Parent(p)[..j] == p[..j];
    } else {
      assert p[..j] == p;
    }
  }
}
