/**
 * The state of the fixed-fanout trie of src/Trie.ts seen as a value: for
 * every path of child indices that leads to a node, that node's `ret` and its
 * `childrenNum` counter.  The counter is kept as the code keeps it, which is
 * not the number of children: `insert` bumps it on the node where a key ends,
 * and pruning in `remove` takes one off the parent of the node cut away.
 */
module TrieView {
  import opened Wrappers

  /** The child indices along a path from the root. */
  type Key = seq<int>

  datatype Cell<R> = Cell(ret: Option<R>, num: int)

  type View<R> = map<Key, Cell<R>>

  function Parent(p: Key): Key
    requires p != []
  {
    p[..|p| - 1]
  }

  /** The root is there, each step is a slot index, and every node hangs from a node that is there. */
  ghost predicate WellFormed<R>(v: View<R>, options: int)
  {
    && [] in v
    && forall p, i | p + [i] in v :: p in v && 0 <= i < options
  }

  predicate InRange(key: Key, options: int)
  {
    forall i | 0 <= i < |key| :: 0 <= key[i] < options
  }

  /** What `find` returns: the `ret` of the node the path leads to, if there is one. */
  function Lookup<R>(v: View<R>, key: Key): Option<R>
  {
    if key in v then v[key].ret else None
  }

  function Prefixes(key: Key): set<Key>
  {
    set i | 0 <= i <= |key| :: key[..i]
  }

  // ---------------------------------------------------------------------------
  // insert (src/Trie.ts:104-115)

  /** The walk of `insert`: every missing node on the key's path is created empty. */
  function Extend<R>(v: View<R>, key: Key): (r: View<R>)
    ensures r.Keys == v.Keys + Prefixes(key)
    ensures forall p | p in v :: r[p] == v[p]
  {
    map p | p in v.Keys + Prefixes(key) :: if p in v then v[p] else Cell(None, 0)
  }

  /** The end of `insert`: the last node gets the value and one more on its counter. */
  function Mark<R>(v: View<R>, key: Key, ret: R): View<R>
    requires key in v
  {
    v[key := Cell(Some(ret), v[key].num + 1)]
  }

  function Inserted<R>(v: View<R>, key: Key, ret: R): View<R>
  {
    assert key == key[..|key|];
    Mark(Extend(v, key), key, ret)
  }

  lemma ExtendNone<R>(v: View<R>, key: Key)
    requires [] in v
    ensures Extend(v, key[..0]) == v
  {
    assert key[..0] == [];
    var e: Key := [];
    assert e[..0] == e;
    assert Prefixes(e) == {e};
  }

  /** One more step of the walk adds the node one step further down, empty, unless it is there already. */
  lemma ExtendStep<R>(v: View<R>, key: Key, k: nat)
    requires k < |key|
    ensures var w, c := Extend(v, key[..k]), key[..k + 1];
      Extend(v, key[..k + 1]) == w[c := if c in w then w[c] else Cell(None, 0)]
  {
    forall i | 0 <= i <= k
      ensures key[..k][..i] != key[..k + 1]
    {
      assert |key[..k][..i]| == i;
    }
    var longer, shorter := Prefixes(key[..k + 1]), Prefixes(key[..k]) + {key[..k + 1]};
    forall x | x in longer
      ensures x in shorter
    {
      var i :| 0 <= i <= k + 1 && x == key[..k + 1][..i];
      if i <= k {
        assert x == key[..k][..i];
      } else {
        assert x == key[..k + 1];
      }
    }
    forall x | x in shorter
      ensures x in longer
    {
      if x != key[..k + 1] {
        var i :| 0 <= i <= k && x == key[..k][..i];
        assert x == key[..k + 1][..i];
      } else {
        assert x == key[..k + 1][..k + 1];
      }
    }
    assert Prefixes(key[..k + 1]) == Prefixes(key[..k]) + {key[..k + 1]};
  }

  lemma ExtendWellFormed<R>(v: View<R>, key: Key, options: int)
    requires WellFormed(v, options) && InRange(key, options)
    ensures WellFormed(Extend(v, key), options)
  {
    var r := Extend(v, key);
    assert key[..0] == [];
    forall p, i | p + [i] in r
      ensures p in r && 0 <= i < options
    {
      if p + [i] !in v {
        var j :| 0 <= j <= |key| && p + [i] == key[..j];
        assert p == key[..j - 1] && i == key[j - 1];
      }
    }
  }

  /** After `insert` the key finds its value; every other key finds what it found before. */
  lemma InsertedLookup<R>(v: View<R>, key: Key, ret: R, other: Key)
    ensures Lookup(Inserted(v, key, ret), key) == Some(ret)
    ensures other != key ==> Lookup(Inserted(v, key, ret), other) == Lookup(v, other)
  {
  }

  /**
   * `insert` changes no counter but the last node's, which goes up by one even
   * when the key was already stored, and the nodes it creates start empty.
   */
  lemma InsertedCounters<R>(v: View<R>, key: Key, ret: R, p: Key)
    requires p in Inserted(v, key, ret)
    ensures p == key ==> Inserted(v, key, ret)[p].num == (if key in v then v[key].num else 0) + 1
    ensures p != key && p in v ==> Inserted(v, key, ret)[p] == v[p]
    ensures p !in v ==> p in Prefixes(key) && (p != key ==> Inserted(v, key, ret)[p] == Cell(None, 0))
  {
    assert key[..|key|] == key;
    assert p in Extend(v, key);
  }

  lemma InsertedWellFormed<R>(v: View<R>, key: Key, ret: R, options: int)
    requires WellFormed(v, options) && InRange(key, options)
    ensures WellFormed(Inserted(v, key, ret), options)
  {
    ExtendWellFormed(v, key, options);
    assert key[..|key|] == key;
    assert Inserted(v, key, ret).Keys == Extend(v, key).Keys;
  }

  // ---------------------------------------------------------------------------
  // remove (src/Trie.ts:138-182)

  /**
   * Unlinking the node at `a` from its parent (`parent.children[index] =
   * undefined; --parent.childrenNum`): the node and everything below it are
   * gone, and the parent's counter drops by one.
   */
  function Cut<R>(v: View<R>, a: Key, options: int): (r: View<R>)
    requires WellFormed(v, options) && a in v && a != []
    ensures WellFormed(r, options)
    ensures forall p :: p in r <==> p in v && !(a <= p)
    ensures Parent(a) in r && r[Parent(a)] == Cell(v[Parent(a)].ret, v[Parent(a)].num - 1)
    ensures forall p | p in r && p != Parent(a) :: r[p] == v[p]
  {
    var w := map p | p in v && !(a <= p) :: v[p];
    var q := Parent(a);
    ParentIn(v, a, options);
    assert !(a <= q);
    assert q in w;
    var r := w[q := Cell(w[q].ret, w[q].num - 1)];
    assert [] in r by {
      assert !(a <= []);
    }
    forall p, i | p + [i] in r
      ensures p in r
    {
      assert p <= p + [i];
    }
    r
  }

  /** The first `k + 1` steps of a key are its first `k` steps and one more. */
  lemma TakeStep(key: Key, k: nat)
    requires k < |key|
    ensures key[..k + 1] == key[..k] + [key[k]] && Parent(key[..k + 1]) == key[..k]
  {
  }

  lemma ParentIn<R>(v: View<R>, a: Key, options: int)
    requires WellFormed(v, options) && a in v && a != []
    ensures Parent(a) in v
  {
    var q, x := Parent(a), a[|a| - 1];
    assert q + [x] == a;
    assert q + [x] in v;
  }

  /**
   * The upward loop of `remove`: from the node at `a` towards the root, cut
   * away every node that has a zero counter and no value, and stop at the
   * first node that has either.  The root itself is never cut.
   */
  function Cascade<R>(v: View<R>, a: Key, options: int): (r: View<R>)
    requires WellFormed(v, options) && a in v
    ensures WellFormed(r, options)
    ensures r.Keys <= v.Keys
    decreases |a|
  {
    if a == [] then v
    else if v[a].num > 0 || v[a].ret.Some? then v
    else Cascade(Cut(v, a, options), Parent(a), options)
  }

  datatype Removal<R> = Removal(removed: bool, view: View<R>, counted: bool)

  /**
   * What `remove` does to the trie, given a non-empty key: `removed` is its
   * answer and `counted` whether it takes one off `size`.
   */
  function Removed<R>(v: View<R>, key: Key, options: int): Removal<R>
    requires WellFormed(v, options) && key != []
  {
    if key !in v then Removal(false, v, false)
    else if v[key].num > 0 then Removal(true, v[key := Cell(None, v[key].num)], true)
    else
      var c := Cut(v, key, options);
      Removal(true, Cascade(c, Parent(key), options), false)
  }

  /** `remove` keeps the shape of a trie, and answers true exactly when the key's path exists. */
  lemma {:induction false} RemovedWellFormed<R>(v: View<R>, key: Key, options: int)
    requires WellFormed(v, options) && key != []
    ensures WellFormed(Removed(v, key, options).view, options)
    ensures Removed(v, key, options).removed <==> key in v
    ensures !Removed(v, key, options).removed ==> Removed(v, key, options).view == v
  {
    if key in v && v[key].num > 0 {
      var r := v[key := Cell(None, v[key].num)];
      assert r.Keys == v.Keys;
    }
  }

  /** After a `remove` that answers true, the key finds nothing. */
  lemma RemovedLookup<R>(v: View<R>, key: Key, options: int)
    requires WellFormed(v, options) && key != []
    ensures Lookup(Removed(v, key, options).view, key) == None
  {
  }

  /**
   * Removing a path whose node has a zero counter takes away every node below
   * it as well, including nodes whose keys were stored: `remove` checks the
   * counter, not what lies underneath.
   */
  lemma RemovedBelow<R>(v: View<R>, key: Key, options: int, p: Key)
    requires WellFormed(v, options) && key != [] && key in v && v[key].num == 0
    requires key <= p
    ensures p !in Removed(v, key, options).view
  {
  }
}
