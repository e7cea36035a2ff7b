# Binary search tree (src/BinarySearchTree.js) in Dafny

A model of the `BinarySearchTree` class of src/BinarySearchTree.js, with
proofs about it. It is a mutable, unbalanced binary search tree. Each object
is one node with `key`, `value`, `parent`, `left` and `right`. A node whose
key is `null` stands for the empty tree.

The project has three files:

- `wrappers.dfy`: module `Wrappers`, the `Option` type.
- `bst_spec.dfy`: module `BstSpec`, the pure specification.
  - `Tree` is the abstract value of a tree.
  - `Keys` is its key multiset and `Ordered` its ordering invariant.
  - `Insert`, `Lookup`, `Min`, `RemoveMin` and `Delete` follow the search paths of the JavaScript methods, branch for branch.
  - Lemmas state what these operations promise: the key multiset changes by one occurrence, the ordering invariant is kept, and lookup is sound and complete.
- `binary_search_tree.dfy`: module `Bst`, the class `BinarySearchTree<V>` itself.
  - It has the same five fields, updated in place, and the same recursive methods.
  - A JavaScript `null` key becomes `None`.
  - The ghost field `Repr` over-approximates a node's subtree.
  - `Abs()` maps the heap to a `Tree`.
  - Each method is proved against the matching `BstSpec` function:
    - `Insert` leaves `Abs() == BstSpec.Insert(old(Abs()), k, v)`.
    - `Find` returns `Lookup(Abs(), k)`.
    - `Remove` leaves behind the `Delete` of the old abstract value.
  - The facts about `Keys` and `Ordered` are then proved once, on the specification functions.

Conventions:

- Keys are unbounded integers; values have any type `V`.
- The thrown `Error("Key Not Found")` of `find` and `remove` is a failure outcome: `None` from `Find`, `false` from `Remove`.
- `Insert` and `Remove` are split into one Dafny method per branch of the JavaScript method, together doing what the one JavaScript method does. The two-child branch of `remove` is split once more, into `RemoveWithSuccessor` and `TakeSuccessor`. The shared postconditions are the two-state predicates `Inserted` and `Removed`.

## Model

| member | source | states |
|---|---|---|
| Bst.BinarySearchTree.constructor | src/BinarySearchTree.js:10-16 | The new node has the given key, value and parent and no children. With a key it is a one-entry tree; without one it is the empty sentinel. |
| Bst.BinarySearchTree.Insert | src/BinarySearchTree.js:22-48 | The subtree's abstract value becomes `BstSpec.Insert` of the old one, and it stays well formed and linked. The empty sentinel takes the entry in place and allocates nothing. Otherwise the node keeps its entry and exactly one fresh leaf is added. That leaf holds `(k, v)`, has no children, and hangs from an existing node that points to it. |
| Bst.BinarySearchTree.InsertLeft | src/BinarySearchTree.js:28-39 | Takes a key smaller than the node's: a free left slot gets a new leaf whose parent is this node; otherwise the left child inserts. Same guarantee as `Insert`. |
| Bst.BinarySearchTree.InsertRight | src/BinarySearchTree.js:41-47 | Takes any other key, equal ones included, on the right-hand side. Same guarantee as `Insert`. |
| Bst.BinarySearchTree.Find | src/BinarySearchTree.js:52-72 | Returns `BstSpec.Lookup` of the abstract value: `None` ("Key Not Found") exactly when the search path misses `k`. It has no `modifies` clause, so it changes nothing. |
| Bst.BinarySearchTree.Remove | src/BinarySearchTree.js:95-118 | Reports `found` exactly when `BstSpec.Delete` succeeds. On failure nothing in the subtree or its parent has changed. On success the tree in the parent's slot, or at the root, represents the deletion. The parent keeps its entry, its own parent and its other child. The root stays linked, except after a one-child splice whose child had children, described under "Left out". |
| Bst.BinarySearchTree.RemoveLeft | src/BinarySearchTree.js:112-113 | The recursive removal in the left child for a smaller key, with the same guarantee as `Remove`. |
| Bst.BinarySearchTree.RemoveRight | src/BinarySearchTree.js:114-115 | The recursive removal in the right child for a larger key, with the same guarantee as `Remove`. |
| Bst.BinarySearchTree.RemoveHere | src/BinarySearchTree.js:96-111 | At the node holding the key: two children use the successor; one child or none is spliced in through `ReplaceWith`. The removal always succeeds and meets `Remove`'s guarantee. |
| Bst.BinarySearchTree.RemoveWithSuccessor | src/BinarySearchTree.js:97-101 | Two children: the node takes the entry of the leftmost node of its right subtree, and the result is the abstract deletion of the key. |
| Bst.BinarySearchTree.TakeSuccessor | src/BinarySearchTree.js:99-101 | After the entry is copied, `successor.remove(successor.key)` leaves the right subtree as `RemoveMin` of the old one. The node keeps its left subtree, its parent and its links. |
| Bst.BinarySearchTree.ReplaceWith | src/BinarySearchTree.js:128-152 | Below the root, only the parent's slot that held this node changes (to `node`), and `node.parent` changes when `node` is non-null. At the root, the root takes `node`'s key, value and children and `node` is unchanged; with `null` the root becomes the empty sentinel. |
| Bst.BinarySearchTree.FindMin | src/BinarySearchTree.js:158-163 | Returns the end of the left spine, a node without a left child. On a non-empty subtree its entry is `BstSpec.Min` of the abstract value. It changes nothing. |
| Bst.BinarySearchTree.Leftmost | src/BinarySearchTree.js:158-163 | The reference definition of what `_findMin` reaches: a node on the left spine with no left child. |
| Bst.BinarySearchTree.SpliceLeftmost | src/BinarySearchTree.js:99-101 | Suppose the leftmost node of a subtree is spliced out by its parent's slot taking its right subtree. Then the subtree represents `RemoveMin` of its old value. This is why the successor's own removal matches at once and touches one node. |
| Bst.BinarySearchTree.RootCopied | src/BinarySearchTree.js:140-144 | A root that copied its only child's fields represents that child's old subtree. Its new children still point at the copied child. |
| Bst.BinarySearchTree.ParentMoved | src/BinarySearchTree.js:136-138 | Repointing `node.parent` leaves the subtree below `node` as it was. |
| BstSpec.Insert | src/BinarySearchTree.js:22-48 | The reference definition of insertion: the sentinel takes the entry, a smaller key descends left, any other key right, and a new leaf hangs at the end of the path. |
| BstSpec.Lookup | src/BinarySearchTree.js:52-72 | The reference definition of find: the first key on the search path equal to `k` gives its value; running off the path is `None`. |
| BstSpec.Min | src/BinarySearchTree.js:158-163 | The reference definition of the entry `_findMin` reaches: the entry of the leftmost node. |
| BstSpec.RemoveMin | src/BinarySearchTree.js:99-101 | The tree without its leftmost node, whose place takes its right subtree. |
| BstSpec.Delete | src/BinarySearchTree.js:95-118 | The reference definition of remove: the same search path as find; at the match, two children take the successor's entry and lose the successor, one child replaces the node, no children leave an empty tree; `None` is "Key Not Found". |
| BstSpec.InsertKeys | src/BinarySearchTree.js:22-48 | Insertion adds exactly one occurrence of the key to the key multiset. |
| BstSpec.InsertOrdered | src/BinarySearchTree.js:28-47 | Insertion keeps the ordering invariant (smaller keys left, equal or larger right). |
| BstSpec.LookupInsertSame | src/BinarySearchTree.js:22-72 | After insertion the key is found, with the new value when the key was not there before. |
| BstSpec.LookupInsertOther | src/BinarySearchTree.js:22-72 | Insertion does not change the lookup of any other key. |
| BstSpec.LookupSound | src/BinarySearchTree.js:52-72 | A successful lookup returns the value of a node that holds the key. |
| BstSpec.LookupComplete | src/BinarySearchTree.js:52-72 | On an ordered tree, lookup fails exactly when the key is absent, the empty tree included. |
| BstSpec.MinIsEntry | src/BinarySearchTree.js:158-163 | The leftmost entry is an entry of the tree. |
| BstSpec.MinIsLeast | src/BinarySearchTree.js:158-163 | On an ordered tree, the leftmost key is at most every key. |
| BstSpec.RemoveMinKeys | src/BinarySearchTree.js:97-101 | Splicing out the leftmost node removes exactly one occurrence of its key. |
| BstSpec.RemoveMinOrdered | src/BinarySearchTree.js:97-101 | Splicing out the leftmost node keeps the tree ordered. |
| BstSpec.SuccessorOrdered | src/BinarySearchTree.js:97-101 | Replacing a two-child node's entry by the successor's keeps the tree ordered. |
| BstSpec.DeleteMinIsRemoveMin | src/BinarySearchTree.js:97-101 | On an ordered tree, removing the least key is splicing out the leftmost node. |
| BstSpec.DeleteFailsLikeLookup | src/BinarySearchTree.js:95-118 | Removal fails exactly when lookup fails; on an ordered tree, exactly when the key is absent (the "Key Not Found" case). |
| BstSpec.DeleteHereKeys | src/BinarySearchTree.js:96-111 | At the node holding the key, removal succeeds and takes away exactly one occurrence of it. |
| BstSpec.DeleteKeys | src/BinarySearchTree.js:95-118 | A successful removal takes away exactly one occurrence of the key from the key multiset. |
| BstSpec.DeleteOrdered | src/BinarySearchTree.js:95-118 | Removal keeps the ordering invariant. |
| BstSpec.DeleteThenLookup | src/BinarySearchTree.js:52-118 | After the only occurrence of a key is removed, its lookup fails. |

## Left out

- The JavaScript coercions. Keys are integers, and the empty tree is an explicit `None` key rather than `null`. So `==` between `null` and a number and `<` against `null` (which coerces to 0) are not modelled. On the empty sentinel, `find` and `remove` fail just as the JavaScript does, because its `left` and `right` are both `null`.
- The error string and the exception as control flow. "Key Not Found" is only a failure outcome, and the model does not say that the error propagates through the recursive calls.
- Root re-parenting. At the root, `_replaceWith` copies `node.left` and `node.right` without updating their `parent` fields (src/BinarySearchTree.js:140-144). The copied children's `parent` fields therefore still name the detached node, so below the root the parent links are no longer consistent. The model follows the code.
  - Suppose a root with exactly one child is removed, and that child had children of its own. Then the new children of the root still point at the detached child: `Remove` and `RootCopied` state exactly that, and the tree is shaped but not fully linked. When the copied child was a leaf, the root copies two `null` children, so it is linked again and `Remove` applies again.
  - `Bst.BinarySearchTree.Remove`: requires a fully linked subtree. The model therefore says nothing about a further removal on a tree in that state. In the JavaScript such a removal can rewire the detached node instead of the root: insert 5, 3, 1, then remove 5, then remove 1. That second removal reports success, yet the root still reaches node 1. A further remove of 3 then copies the still reachable node 1 into the root, so the tree holds key 1 although every inserted key was removed.
  - `Insert` and `Find` need only the shape, so they still apply.
- `Bst.BinarySearchTree.Insert`: does not state, node by node, that no existing node's key or value changes. The equality of the abstract value with `BstSpec.Insert` of the old one, together with the single fresh leaf, pins down what the tree holds.
- `Bst.BinarySearchTree.Find`: states only the connection to `BstSpec.Lookup`. That lookup returns a stored value and fails exactly on absent keys; both are stated by `BstSpec.LookupSound` and `BstSpec.LookupComplete`.
- `Bst.BinarySearchTree.FindMin`: states the connection to `BstSpec.Min`. That the key is the least in the subtree is `BstSpec.MinIsLeast`.
- Traversals, height and the other tree utilities of the repository are not in src/BinarySearchTree.js and are not part of this model.
- `Bst.BinarySearchTree.constructor`: has no default arguments, so every caller passes key, value and parent. A keyed node whose JavaScript value is `null` is written with `Some(v)`: the call `(Some(5), None, null)`, which stands for `new BinarySearchTree(5)`, gets no `Valid()` from the contract. Only a node whose key and value are both present or both absent is a tree in the model.
- The `parent` argument of the constructor is any node or `null`. The model does not require it to be a node that points back, since the constructor itself does not.
