# Verified model of three in-memory index structures

This project models three structures written in TypeScript and proves what they do.

- **src/BinarySearchTree.ts** is a multiplicity-aware binary search tree.
  - Each node holds a value and an `amount`, the number of equal values collapsed into it.
  - A `repeated` flag decides whether an equal value bumps `amount` or is refused.
  - `size` counts the stored values, repeats included.
  - `valuesList` walks the tree in order with Morris threading: it temporarily points each in-order predecessor's `right` link back at its ancestor, then clears it.
- **src/Trie.ts** is a fixed-fanout trie.
  - Every node has `options` child slots, a `ret` value and a `childrenNum` counter.
  - Keys are sequences that a user function `mapFunction` turns into slot indices.
  - `remove` records the path and prunes empty nodes upward.
- **binary-search-tree/BinarySearchTree.ts** is a minimal search tree.
  - Nodes have no counter, so an equal value goes into the left subtree as a node of its own.

Each structure is modelled twice.

- **A value layer** of datatypes and functions states what the operations mean. These are `OrderedTree.Insert`, `OrderedTree.Delete` and `OrderedTree.Inorder`, `PlainTree.Inserted` and `PlainTree.Found`, and `TrieView.Inserted` and `TrieView.Removed`. Lemmas prove their properties.
- **A heap layer** of classes mirrors the source's objects and loops.
  - The search trees keep `TreeNode` objects whose `left` and `right` fields are written in place. A ghost `Shape` records which node sits where, and `Abs` reads the nodes back as a value.
  - The trie keeps `TrieNode` objects whose `children` array is written in place. A ghost map from index paths to nodes plays the same role.
  - Every method is proved against the value layer.

The trie's counters are modelled as the code keeps them:

- `insert` bumps `childrenNum` only on the node where the key ends. The nodes it creates start at 0, and their parent's counter does not change.
- `insert` bumps `size` even when the key is already stored.
- Pruning takes one off the parent's counter.
- `remove` takes one off `size` only when the key's node has a positive counter, whether or not a value was stored there.

A consequence is proved in `TrieView.RemovedBelow`. Removing a key whose node has a zero counter also removes every stored key below it. For example, after inserting `ab`, removing `a` removes `ab` as well.

| file | module | contents |
|---|---|---|
| wrappers.dfy | `Wrappers` | `Option` |
| paths.dfy | `Paths` | `Dir` |
| ordered_tree.dfy | `OrderedTree` | value tree with amounts; insertion, removal and in-order walk as functions |
| node_shape.dfy | `NodeShape` | `TreeNode` with `amount`; shapes; link-writing helpers |
| morris.dfy | `Morris` | thread invariant, pending output and the loop body of `valuesList` |
| search_tree.dfy | `SearchTree` | the class of src/BinarySearchTree.ts |
| plain_tree.dfy | `PlainTree` | binary-search-tree/BinarySearchTree.ts, value and heap layers |
| trie_view.dfy | `TrieView` | the trie as a map from paths to `(ret, childrenNum)` |
| trie.dfy | `Tries` | the classes of src/Trie.ts |

## Model

| member | source | states |
|---|---|---|
| OrderedTree.Repeat | src/BinarySearchTree.ts:101-102 | the copies pushed for one node: exactly `amount` of them (none for a non-positive amount), each equal to the node's value |
| OrderedTree.InsertRefused | src/BinarySearchTree.ts:159-163 | an insertion is refused exactly when repeats are off and the value is already stored |
| OrderedTree.InsertKeepsOrder | src/BinarySearchTree.ts:144-176 | an accepted insertion keeps the search order and positive amounts, and the set of stored values gains exactly the inserted value |
| OrderedTree.InsertCounts | src/BinarySearchTree.ts:145-175 | an accepted insertion adds one copy of the value and changes no other count; the size grows by one; a node is added exactly when the value was not stored before |
| OrderedTree.InorderKeys | src/BinarySearchTree.ts:97-107 | the in-order walk yields exactly the stored values |
| OrderedTree.InorderSorted | src/BinarySearchTree.ts:97-107 | in an ordered tree the in-order walk is non-decreasing |
| OrderedTree.InorderLength | src/BinarySearchTree.ts:97-107 | the in-order walk has as many elements as the sum of the amounts, which is what `size` keeps |
| OrderedTree.InorderCounts | src/BinarySearchTree.ts:97-107 | each value occurs in the in-order walk as often as `count` reports it |
| OrderedTree.CountAbsent | src/BinarySearchTree.ts:85-92 | a value that is not stored has count 0 |
| OrderedTree.CountPresent | src/BinarySearchTree.ts:85-92 | with positive amounts, a value is stored exactly when its count is at least 1 |
| OrderedTree.SearchStep | src/BinarySearchTree.ts:184-193 | one comparison step of `findRef`: an equal node holds the whole count, and otherwise the value can only be on the side the comparison picks |
| OrderedTree.SearchPathKeeps | src/BinarySearchTree.ts:184-194 | along the comparison walk, whether the value is stored and how often do not change, and the subtree reached is ordered |
| OrderedTree.RightmostIsMax | src/BinarySearchTree.ts:236-245 | the rightmost node of a subtree is its largest value; cutting it out, leaving its left subtree in its place, keeps the order and takes away exactly that node's copies |
| OrderedTree.DeleteFinds | src/BinarySearchTree.ts:211-217 | a removal succeeds exactly when the value is stored |
| OrderedTree.DeleteKeepsOrder | src/BinarySearchTree.ts:219-257 | a successful removal keeps the order and positive amounts; the value stays stored exactly when more than one copy was stored |
| OrderedTree.DeleteCounts | src/BinarySearchTree.ts:219-259 | a successful removal takes away one copy of the value and nothing else, and the size drops by one |
| NodeShape.TreeNode.constructor | src/BinarySearchTree.ts:23-28 | a new node holds the value with amount 1 and no children |
| NodeShape.Relink | src/BinarySearchTree.ts:156-168 | writing a child link replaces that child's subtree with the new one; the rest of the tree and its values are unchanged, and the links still form a tree |
| NodeShape.Rehang | src/BinarySearchTree.ts:253-256 | pointing the parent's link (or the root) at a replacement puts the replacement where the removed node was, and nothing else changes |
| SearchTree.BinarySearchTree.constructor | src/BinarySearchTree.ts:60-64 | a new tree is empty, with size 0, and remembers the `repeated` flag |
| SearchTree.BinarySearchTree.GetSize | src/BinarySearchTree.ts:69-71 | the counter equals the number of stored values and the length of the in-order walk |
| SearchTree.BinarySearchTree.Clear | src/BinarySearchTree.ts:76-79 | after `clear` the tree is empty and valid, with size 0 |
| SearchTree.BinarySearchTree.FindRef | src/BinarySearchTree.ts:178-196 | the walk follows the comparison path; it returns a null node exactly when the value is not stored (and then a null parent); otherwise it returns the node holding the value and the node above it |
| SearchTree.BinarySearchTree.Count | src/BinarySearchTree.ts:85-92 | `count` returns the value's count, which is its multiplicity in the in-order walk |
| SearchTree.BinarySearchTree.Find | src/BinarySearchTree.ts:202-205 | `find` is true exactly when the value is stored, that is, when the in-order walk contains it |
| SearchTree.BinarySearchTree.Insert | src/BinarySearchTree.ts:144-176 | `insert` returns true exactly when repeats are allowed or the value is new; on true the tree becomes the specified insertion, and on false nothing changes; validity, including `size`, is kept |
| SearchTree.BinarySearchTree.Place | src/BinarySearchTree.ts:150-172 | the descent loop ends in the specified insertion (new leaf or bumped amount) or in the refusal that leaves the tree unchanged |
| SearchTree.BinarySearchTree.Link | src/BinarySearchTree.ts:156-168 | linking a node as a child grafts its subtree into that slot of the model |
| SearchTree.BinarySearchTree.AddAmount | src/BinarySearchTree.ts:160 | bumping a node's amount changes exactly that node's amount in the model |
| SearchTree.BinarySearchTree.Remove | src/BinarySearchTree.ts:211-262 | `remove` returns true exactly when the value is stored; on true the tree becomes the specified removal, and on false nothing changes; no node is added |
| SearchTree.BinarySearchTree.Unlink | src/BinarySearchTree.ts:222-257 | taking out the node found: a node with at most one child is replaced by that child; a node with two children is replaced by its in-order predecessor (corrected splice, see Findings); exactly that node leaves the tree |
| SearchTree.BinarySearchTree.Replace | src/BinarySearchTree.ts:222-256 | the parent's link, chosen by `greaterThan`, or the root now holds the replacement, and exactly the nodes outside the old subtree plus the replacement's remain |
| SearchTree.BinarySearchTree.ValuesList | src/BinarySearchTree.ts:113-138 | the Morris walk returns exactly the in-order sequence, and afterwards every link and value is as before |
| SearchTree.FindPredecessor | src/BinarySearchTree.ts:236-242 | the `candidate.right` walk stops at the rightmost node of the left subtree, with `candidateParent` directly above it |
| SearchTree.Predecessor | src/BinarySearchTree.ts:235-251 | (corrected splice, see Findings) the two-children splice builds a linked subtree, rooted at the predecessor, whose value is the specified top removal and whose nodes are the old ones minus the removed node |
| SearchTree.SpliceOut | src/BinarySearchTree.ts:244-245 | cutting the predecessor out of its place leaves the left subtree without it, in order, with the right subtree untouched |
| SearchTree.Adopt | src/BinarySearchTree.ts:247-251 | the predecessor takes over the removed node's left and right subtrees |
| SearchTree.DeepRemovalAsWritten | src/BinarySearchTree.ts:236-251 | the code as written, on the tree built by inserting 5, 2, 8, 1, 4, 3 and asked to remove 5, yields links 4 -> 2 -> 4 that run in a cycle; the links from the new root reach only the nodes holding 4, 2, 3 and 8, so node 1 is lost |
| Morris.Emit | src/BinarySearchTree.ts:119-120 | the push loop appends exactly the node's copies |
| Morris.WalkToPredecessor | src/BinarySearchTree.ts:123-125 | the inner walk stops at the in-order predecessor; its right link is the thread back to the current node on the second visit, and null on the first |
| Morris.SetThread | src/BinarySearchTree.ts:129-132 | setting or clearing the predecessor's right link moves the thread invariant to the new position |
| Morris.Advance | src/BinarySearchTree.ts:121-130 | following a right link, either a real child or a thread, reaches the next position without changing the output still owed |
| Morris.Visit | src/BinarySearchTree.ts:117-135 | one loop iteration keeps "output so far + output still owed == in-order walk" and the thread invariant, and the work left strictly decreases |
| Morris.VisitLeft | src/BinarySearchTree.ts:122-135 | the same for a node that has a left child |
| Morris.Revisit | src/BinarySearchTree.ts:126-130 | the same for the second visit, which emits the node and removes its thread |
| Morris.PendingLeft | src/BinarySearchTree.ts:131-134 | threading and going left leaves the owed output unchanged and decreases the work |
| Morris.PendingRight | src/BinarySearchTree.ts:118-121 | at a node without a left subtree, or on its second visit, the owed output is its copies followed by what is owed after going right |
| Morris.WorkRight | src/BinarySearchTree.ts:121 | going right decreases the work |
| Morris.PendingPop | src/BinarySearchTree.ts:126-130 | reaching an empty slot at the end of a left subtree's right spine owes exactly what the second visit of the ancestor owes |
| Morris.PendingDone | src/BinarySearchTree.ts:117 | when the loop ends on the empty slot after the rightmost node, nothing more is owed |
| Morris.LinkedIffThreaded | src/BinarySearchTree.ts:115-137 | with no threads pending, the thread invariant is exactly "the links form the tree", so it holds on entry and gives the restored links on exit |
| PlainTree.InsertElems | binary-search-tree/BinarySearchTree.ts:22-46 | insertion adds the value once and removes nothing |
| PlainTree.InsertOrdered | binary-search-tree/BinarySearchTree.ts:28-42 | insertion keeps "left subtree <= node < right subtree" |
| PlainTree.FoundIff | binary-search-tree/BinarySearchTree.ts:48-61 | in an ordered tree, `find` succeeds exactly on the stored values |
| PlainTree.FoundAfterInsert | binary-search-tree/BinarySearchTree.ts:22-61 | after inserting a value, `find` finds it in any tree |
| PlainTree.InsertLeaf | binary-search-tree/BinarySearchTree.ts:27-43 | the insertion walk ends at an empty slot, and the new tree is the old one with a new leaf there |
| PlainTree.InsertCount | binary-search-tree/BinarySearchTree.ts:45 | every insertion, duplicates included, adds exactly one node |
| PlainTree.TreeNode.constructor | binary-search-tree/BinarySearchTree.ts:6-10 | a new node holds the value and has no children |
| PlainTree.BinarySearchTree.constructor | binary-search-tree/BinarySearchTree.ts:17-20 | a new tree has no root and size 0 |
| PlainTree.BinarySearchTree.Insert | binary-search-tree/BinarySearchTree.ts:22-46 | the tree becomes the specified insertion and `size` grows by one; only fresh nodes are added |
| PlainTree.BinarySearchTree.Descend | binary-search-tree/BinarySearchTree.ts:26-43 | the `while (true)` loop below a non-empty root ends in the specified insertion |
| PlainTree.BinarySearchTree.Attach | binary-search-tree/BinarySearchTree.ts:32-39 | hanging a new node on an empty side grafts a leaf into that slot of the model |
| PlainTree.BinarySearchTree.Find | binary-search-tree/BinarySearchTree.ts:48-61 | `find` returns the comparison walk's answer, which is true exactly when the value is stored |
| PlainTree.Hang | binary-search-tree/BinarySearchTree.ts:32-39 | the link write adds exactly the new node at that slot and keeps the links a tree |
| Tries.TrieNode.constructor | src/Trie.ts:23-29 | a new node has `possibilities` empty slots, the given `ret`, and counter 0 |
| Tries.Trie.KeyOf | src/Trie.ts:106-107 | the index path has one index per element, the one `mapFunction` gives |
| Tries.Trie.constructor | src/Trie.ts:64-69 | a new trie is only an empty root, with size 0 |
| Tries.Trie.GetIndex | src/Trie.ts:86-91 | `getIndex` returns the mapped index when it is in range, and -1 exactly when it is not |
| Tries.Trie.Insert | src/Trie.ts:104-115 | the trie becomes the specified insertion and `size` grows by one, even for a key already stored |
| Tries.Trie.Walk | src/Trie.ts:105-111 | the walk creates exactly the missing nodes on the key's path, each empty, and ends on the key's node |
| Tries.Trie.Descend | src/Trie.ts:107-110 | one step adds the child node, empty, only when the slot was empty, and changes nothing else |
| Tries.Trie.AddChild | src/Trie.ts:108-109 | a fresh empty node fills the slot; the parent's counter is not touched |
| Tries.Trie.MarkNode | src/Trie.ts:112-114 | the key's node gets the value and one more on its counter, and `size` grows by one |
| Tries.Trie.Find | src/Trie.ts:122-132 | `find` returns the `ret` of the key's node when its path exists, and nothing otherwise; the trie is not changed |
| Tries.Trie.Remove | src/Trie.ts:138-182 | `remove` returns true exactly when the key's path exists; the trie becomes the specified removal; `size` drops by one only on the positive-counter branch |
| Tries.Trie.Trace | src/Trie.ts:139-152 | the path stack holds the (parent, child, index) triples along the key, and the walk completes exactly when the key's path exists |
| Tries.Trie.Detach | src/Trie.ts:153-181 | from the last triple: clear the value if the counter is positive, otherwise unlink the node and prune upward, as the specified removal says |
| Tries.Trie.Prune | src/Trie.ts:168-181 | the upward loop leaves the trie as the specified cascade from the parent of the cut node, and `size` unchanged |
| Tries.Trie.ClearNode | src/Trie.ts:157-161 | only the node's `ret` is cleared; its counter stays; `size` drops by one |
| Tries.Trie.Unlink | src/Trie.ts:164-165 | emptying the parent's slot removes the node and everything below it, takes one off the parent's counter, and changes no other node |
| TrieView.Extend | src/Trie.ts:106-111 | the walk adds exactly the missing prefixes of the key, empty, and keeps every existing node |
| TrieView.ExtendStep | src/Trie.ts:106-111 | one more step of the walk adds the next prefix, empty, unless it is there already |
| TrieView.ExtendWellFormed | src/Trie.ts:104-111 | with in-range indices, the walk keeps the trie's shape: a root, and every node hanging from a node at an in-range slot |
| TrieView.InsertedLookup | src/Trie.ts:104-132 | after `insert` the key finds its value, and every other key finds what it found before |
| TrieView.InsertedCounters | src/Trie.ts:109-114 | `insert` changes no counter but the key node's, which goes up by one even when the key was stored; created nodes start empty |
| TrieView.InsertedWellFormed | src/Trie.ts:104-115 | `insert` with in-range indices keeps the trie's shape |
| TrieView.Cut | src/Trie.ts:164-165 | unlinking a node removes exactly it and everything below it, and only the parent's counter changes (down by one) |
| TrieView.Cascade | src/Trie.ts:168-180 | the upward pruning keeps the trie's shape and only removes nodes |
| TrieView.RemovedWellFormed | src/Trie.ts:138-182 | `remove` keeps the trie's shape; it answers true exactly when the key's path exists, and otherwise changes nothing |
| TrieView.RemovedLookup | src/Trie.ts:138-182 | after `remove` the key finds nothing |
| TrieView.RemovedBelow | src/Trie.ts:157-166 | when the key's node has a zero counter, every node below it is removed too, stored keys included |

## Left out

- `PlainTree` keeps its own `Tree` datatype, without amounts, and its own copies of the path and shape lemmas (`SubtreeSnoc`, `AtSnoc`, `AtWithin`, `AbsAt`, `LinkedAt`, `AbsPut`, `PutNodes`, `LinkedIsAbove`). Its `TreeNode` has no `amount` field, so the lemmas are stated over different datatypes and classes. The two trees are separate programs in the repository.
- Values are `int`. The `equals`/`greaterThan` probing on the stored data (src/BinarySearchTree.ts:32-46, src/NodeData.ts) and JavaScript's cross-type `>`/`===` coercion are not modelled. `NodeShape.TreeNode.Equals` and `GreaterThan` compare integers.
- The `if (curNode.greaterThan)` guards in `remove` test whether a method exists, which is always true for a `TreeNode`. They are modelled as always taken.
- The unreachable `return false` at the end of `remove` (src/BinarySearchTree.ts:261) has no counterpart.
- `valuesGen` is a lazy generator. It is modelled as the function `OrderedTree.Inorder`, the sequence it yields.
- SearchTree.BinarySearchTree.ValuesList: does not itself state that the output is sorted or has `size` elements. Those facts follow from its `values == Inorder(Model())` through `OrderedTree.InorderSorted` and `OrderedTree.InorderLength`.
- SearchTree.BinarySearchTree.Unlink: in the two-children case with a predecessor deeper than the left child, it follows the corrected splice `SearchTree.SpliceOut`, not the link writes of src/BinarySearchTree.ts:244-245 (see Findings).
- SearchTree.Predecessor: builds the corrected top removal through `SearchTree.SpliceOut`, not the link writes of src/BinarySearchTree.ts:244-245, which leave a cycle when the predecessor is deeper than the left child (see Findings).
- SearchTree.BinarySearchTree.Remove: in the two-children case with a predecessor deeper than the left child, it models the evidently intended link writes, not the code as written (see Findings).
- Tries.Trie.Insert: requires every mapped index to be in `[0, options)`. With an out-of-range index the source writes to `children[-1]`, a JavaScript array property outside the slots.
- Tries.Trie.Insert: does not state that the objects it adds to the trie's footprint are fresh.
- Tries.Trie.Remove: requires a non-empty key. `remove([])` reads `pairs[-1]` and fails in the source.
- Tries.Trie.Remove: an out-of-range index is modelled as a missing slot (answer false). In JavaScript such an index finds nothing unless an earlier out-of-range `insert` created that array property.
- `ret` truthiness (src/Trie.ts:174) is modelled as "a value is present". A falsy stored value such as `0` or `""` would count as absent in the source.
- `options` is a natural number. A negative or fractional `options` is not modelled.
- `mapFunction` is a given total function from elements to integers.
- Tries.Trie.GetSize: returns the `size` counter and has no contract of its own. The counter's behaviour is stated on `Insert`, `MarkNode`, `Remove`, `ClearNode` and `Prune`.
- `getRoot` in src/Trie.ts only exposes the root object and is not modelled.
- src/RBTree.ts, n-tree/NTree.ts, the demos and the build files are not part of this model. RBTree has no insertion or rotation, and NTree is an unfinished stub.

## Findings

| source | as written | input that shows it | evidently intended | confidence | as-written member | corrected member |
|---|---|---|---|---|---|---|
| src/BinarySearchTree.ts:244-245 | in the two-children `remove`, when the in-order predecessor is not the removed node's left child, its left subtree is written to `candidateParent.left`, and `candidateParent.right` keeps pointing at the predecessor | insert 5, 2, 8, 1, 4, 3, then remove 5: node 2's left becomes 3, so 1 is lost, and 2's right still leads to 4, whose new left leads back to 2, a cycle | `candidateParent.right = candidate.left`, also when that subtree is empty | not executed | SearchTree.DeepRemovalAsWritten | SearchTree.SpliceOut |
