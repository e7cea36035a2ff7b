/**
 * The mutable, unbalanced binary search tree of src/BinarySearchTree.js.
 * Every object is one node; a node whose key is `None` is the empty tree, and
 * the node with no parent is the root. The operations mirror the JavaScript
 * methods (recursion included) and are specified through the abstraction
 * `Abs()` into the `Tree` value of module BstSpec.
 */
module Bst {
  import opened Wrappers
  import opened BstSpec

  class BinarySearchTree<V> {
    var key: Option<int>
    var value: Option<V>
    var parent: BinarySearchTree?<V>
    var left: BinarySearchTree?<V>
    var right: BinarySearchTree?<V>

    /**
     * The nodes this subtree may use. It contains every node reachable from
     * here and is never shrunk: a node spliced out by a removal may stay in it.
     */
    ghost var Repr: set<BinarySearchTree<V>>

    /**
     * The subtree is a finite tree of disjoint subtrees, the empty-tree
     * sentinel has no children, and every node below the children of this node
     * points back at its own parent. The children's `parent` fields are not
     * constrained here: see `Linked`.
     */
    ghost predicate Shaped()
      reads this, Repr
      decreases Repr
    {
      && this in Repr
      && key.Some? == value.Some?
      && (key.None? ==> left == null && right == null)
      && (left != null ==>
            && left in Repr && left.Repr <= Repr && this !in left.Repr
            && left.key.Some? && left.Shaped() && left.Linked())
      && (right != null ==>
            && right in Repr && right.Repr <= Repr && this !in right.Repr
            && right.key.Some? && right.Shaped() && right.Linked())
      && (left != null && right != null ==> left.Repr !! right.Repr)
    }

    /** Both children of this node point back at it. */
    ghost predicate Linked()
      reads this, left, right
    {
      && (left != null ==> left.parent == this)
      && (right != null ==> right.parent == this)
    }

    /** A well-formed subtree whose parent links are all consistent. */
    ghost predicate Valid()
      reads this, Repr
    {
      Shaped() && Linked()
    }

    /** The abstract value of the subtree. */
    ghost function Abs(): (t: Tree<V>)
      reads this, Repr
      requires Shaped()
      ensures t == Leaf <==> key.None?
      decreases Repr
    {
      if key.None? then Leaf
      else Node(if left == null then Leaf else left.Abs(), key.value, value.value,
                if right == null then Leaf else right.Abs())
    }

    /** `m` is reached from this node by following left children only. */
    ghost predicate OnLeftSpine(m: BinarySearchTree<V>)
      reads this, Repr
      requires Shaped()
      ensures OnLeftSpine(m) ==> m in Repr && m.Repr <= Repr
      decreases Repr
    {
      m == this || (left != null && m in left.Repr && m.Repr <= left.Repr && left.OnLeftSpine(m))
    }

    /** The node reached from this one by following left children to the end. */
    ghost function Leftmost(): (m: BinarySearchTree<V>)
      reads this, Repr
      requires Shaped()
      ensures OnLeftSpine(m) && m.left == null
      decreases Repr
    {
      if left == null then this else left.Leftmost()
    }

    /** A node with the given key, value and parent and no children. */
    constructor (key: Option<int>, value: Option<V>, parent: BinarySearchTree?<V>)
      ensures this.key == key && this.value == value && this.parent == parent
      ensures left == null && right == null && Repr == {this}
      ensures key.Some? == value.Some? ==>
        Valid() && Abs() == (if key.None? then Leaf else Node(Leaf, key.value, value.value, Leaf))
    {
      this.key := key;
      this.value := value;
      this.parent := parent;
      left := null;
      right := null;
      Repr := {this};
    }

    /**
     * What inserting `k` with `v` did to this subtree: it is shaped, its
     * abstract value took the insertion, and this node kept its parent. The
     * empty sentinel took the entry in place; otherwise this node kept its
     * entry and exactly one new leaf holding the entry hangs from a node that
     * was already there.
     */
    twostate predicate Inserted(k: int, v: V, new leaf: BinarySearchTree?<V>)
      requires old(Shaped())
      reads *
    {
      && Shaped()
      && (old(Linked()) ==> Linked())
      && parent == old(parent)
      && Abs() == BstSpec.Insert(old(Abs()), k, v)
      && (old(key).None? ==> leaf == null && Repr == old(Repr))
      && (old(key).Some? ==>
            && key == old(key) && value == old(value)
            && leaf != null && fresh(leaf) && Repr == old(Repr) + {leaf}
            && leaf.key == Some(k) && leaf.value == Some(v) && leaf.left == null && leaf.right == null
            && leaf.parent != null && leaf.parent in old(Repr)
            && (leaf.parent.left == leaf || leaf.parent.right == leaf))
    }

    /**
     * insert(key, value): the empty sentinel takes the entry in place;
     * otherwise a smaller key goes to the left-hand branch and any other key
     * to the right-hand one.
     */
    method Insert(k: int, v: V) returns (ghost leaf: BinarySearchTree?<V>)
      requires Shaped()
      modifies Repr
      decreases Repr, 1
      ensures Inserted(k, v, leaf)
    {
      if key.None? {
        key := Some(k);
        value := Some(v);
        leaf := null;
      } else if k < key.value {
        leaf := InsertLeft(k, v);
      } else {
        leaf := InsertRight(k, v);
      }
    }

    /**
     * The left-hand branch of insert(key, value): a new leaf whose parent is
     * this node fills a free left slot; otherwise the left child inserts.
     */
    method InsertLeft(k: int, v: V) returns (ghost leaf: BinarySearchTree?<V>)
      requires Shaped() && key.Some? && k < key.value
      modifies Repr
      decreases Repr, 0
      ensures Inserted(k, v, leaf)
    {
      if left == null {
        left := new BinarySearchTree(Some(k), Some(v), this);
        leaf := left;
        Repr := Repr + {left};
      } else {
        leaf := left.Insert(k, v);
        Repr := Repr + left.Repr;
      }
      LeftChanged(this);
    }

    /** The right-hand branch of insert(key, value), taken by keys not smaller than this node's. */
    method InsertRight(k: int, v: V) returns (ghost leaf: BinarySearchTree?<V>)
      requires Shaped() && key.Some? && key.value <= k
      modifies Repr
      decreases Repr, 0
      ensures Inserted(k, v, leaf)
    {
      if right == null {
        right := new BinarySearchTree(Some(k), Some(v), this);
        leaf := right;
        Repr := Repr + {right};
      } else {
        leaf := right.Insert(k, v);
        Repr := Repr + right.Repr;
      }
      RightChanged(this);
    }

    /**
     * find(key): the value of the first node on the search path whose key
     * equals `k`; `None` stands for the thrown "Key Not Found".
     */
    method Find(k: int) returns (r: Option<V>)
      requires Shaped()
      decreases Repr
      ensures r == Lookup(Abs(), k)
    {
      if key == Some(k) {
        r := value;
      } else if left != null && k < key.value {
        r := left.Find(k);
      } else if right != null && k > key.value {
        r := right.Find(k);
      } else {
        r := None;
      }
    }

    /** _findMin(): follow left children down to a node without one. */
    method FindMin() returns (m: BinarySearchTree<V>)
      requires Shaped()
      decreases Repr
      ensures m == Leftmost()
      ensures m == this || m.Valid()
      ensures key.Some? ==> m.key.Some? && m.value.Some? && (m.key.value, m.value.value) == Min(Abs())
    {
      if left == null {
        m := this;
      } else {
        m := left.FindMin();
      }
    }

    /** What the parent's slot that held this node holds now; the node itself at the root. */
    ghost function Slot(wasLeft: bool): BinarySearchTree?<V>
      reads this, parent
    {
      if parent == null then this else if wasLeft then parent.left else parent.right
    }

    /**
     * What remove(k) did to this subtree, reporting `found`. When `k` is not
     * in the tree nothing has changed. Otherwise the tree left behind, read
     * from the parent's slot that held this node (or from this node at the
     * root), is the abstract deletion of `k`; the parent kept its entry, its
     * own parent and its other child.
     *
     * At the root the node stays in place; when it had exactly one child its
     * new children still point at that (now detached) child, and otherwise
     * the root is linked again.
     */
    twostate predicate Removed(k: int, found: bool)
      requires old(Valid())
      reads *
    {
      && parent == old(parent) && Repr == old(Repr)
      && found == Delete(old(Abs()), k).Some?
      && (!found ==> unchanged(Repr) && (parent != null ==> unchanged(parent)))
      && (found ==>
            var s := Slot(old(parent != null && parent.left == this));
            && (s == null ==> Delete(old(Abs()), k) == Some(Leaf))
            && (s != null ==> s.Shaped() && s.Repr <= old(Repr) && Delete(old(Abs()), k) == Some(s.Abs())))
      && (found && parent != null ==>
            var s := Slot(old(parent.left == this));
            && (s != null ==> s.key.Some? && s.Linked() && s.parent == parent)
            && parent.key == old(parent.key) && parent.value == old(parent.value)
            && parent.parent == old(parent.parent) && parent.Repr == old(parent.Repr)
            && (if old(parent.left) == this then parent.right == old(parent.right) else parent.left == old(parent.left)))
      && (found && parent == null && !(old(key) == Some(k) && (old(left) == null) != (old(right) == null)) ==>
            Linked())
      && (parent == null && old(key) == Some(k) && (old(left) == null) != (old(right) == null) ==>
            var c := if old(left) != null then old(left) else old(right);
            && left == old(c.left) && right == old(c.right)
            && (left != null ==> left.parent == c) && (right != null ==> right.parent == c))
    }

    /**
     * remove(key): `false` stands for the thrown "Key Not Found", raised
     * before anything is changed. The node holding `k` is the first one on
     * the search path whose key equals it.
     */
    method Remove(k: int) returns (found: bool)
      requires Valid()
      requires parent != null ==> parent !in Repr && (parent.left == this || parent.right == this)
      modifies Repr, parent
      decreases Repr, 3
      ensures Removed(k, found)
    {
      if key == Some(k) {
        RemoveHere(k);
        found := true;
      } else if left != null && k < key.value {
        found := RemoveLeft(k);
      } else if right != null && k > key.value {
        found := RemoveRight(k);
      } else {
        found := false;
      }
    }

    /** The left-hand search branch of remove(key). */
    method RemoveLeft(k: int) returns (found: bool)
      requires Valid() && key.Some? && k < key.value && left != null
      requires parent != null ==> parent !in Repr && (parent.left == this || parent.right == this)
      modifies Repr, parent
      decreases Repr, 0
      ensures Removed(k, found)
    {
      found := left.Remove(k);
      if found {
        LeftChanged(this);
      }
    }

    /** The right-hand search branch of remove(key). */
    method RemoveRight(k: int) returns (found: bool)
      requires Valid() && key.Some? && k > key.value && right != null
      requires parent != null ==> parent !in Repr && (parent.left == this || parent.right == this)
      modifies Repr, parent
      decreases Repr, 0
      ensures Removed(k, found)
    {
      found := right.Remove(k);
      if found {
        RightChanged(this);
      }
    }

    /**
     * The three scenarios of remove(key) at the node holding the key: two
     * children, exactly one child, no children.
     */
    method RemoveHere(k: int)
      requires Valid() && key == Some(k)
      requires parent != null ==> parent !in Repr && (parent.left == this || parent.right == this)
      modifies Repr, parent
      decreases Repr, 2
      ensures Removed(k, true)
    {
      if left != null && right != null {
        RemoveWithSuccessor(k);
      } else if left != null {
        ghost var c := left;
        ReplaceWith(left);
        if parent == null {
          RootCopied(this);
        } else {
          ParentMoved(c);
        }
      } else if right != null {
        ghost var c := right;
        ReplaceWith(right);
        if parent == null {
          RootCopied(this);
        } else {
          ParentMoved(c);
        }
      } else {
        ReplaceWith(null);
      }
    }

    /**
     * Scenario 3 of remove(key): this node takes the key and value of the
     * leftmost node of its right subtree, and that node is removed in turn.
     */
    method RemoveWithSuccessor(k: int)
      requires Valid() && key == Some(k) && left != null && right != null
      requires parent != null ==> parent !in Repr && (parent.left == this || parent.right == this)
      modifies Repr, parent
      decreases Repr, 1
      ensures Removed(k, true)
    {
      var successor := right.FindMin();
      TakeSuccessor(successor);
      SuccessorTaken(this);
    }

    /**
     * The steps of scenario 3 after the search: this node takes the key and
     * value of `successor`, the leftmost node of the right subtree, which then
     * removes its own key. The right subtree is left without its least entry;
     * this node keeps its left subtree and its place.
     */
    method TakeSuccessor(successor: BinarySearchTree<V>)
      requires Valid() && key.Some? && left != null && right != null
      requires successor == right.Leftmost() && successor.Valid() && successor.key.Some?
      modifies Repr
      decreases Repr, 0
      ensures key == old(successor.key) && value == old(successor.value) && left == old(left)
      ensures parent == old(parent) && Repr == old(Repr)
      ensures Valid()
      ensures Abs() == Node(old(left.Abs()), key.value, value.value, RemoveMin(old(right.Abs())))
    {
      ghost var r := right;
      SpineParent(right, successor);
      key := successor.key;
      value := successor.value;
      var _ := successor.Remove(successor.key.value);
      if successor != r {
        SpliceLeftmost(r);
      }
      RightChanged(this);
    }

    /**
     * _replaceWith(node): below the root, the parent's slot that held this
     * node now holds `node`, and `node` points back at that parent. At the
     * root, `node`'s key, value and children are copied into the root, or the
     * root is reset to the empty sentinel when `node` is null; the copied
     * children keep their old `parent`.
     */
    method ReplaceWith(node: BinarySearchTree?<V>)
      requires parent != this && node != this && (node != null ==> node != parent)
      modifies this, parent, node
      ensures parent == old(parent) && Repr == old(Repr)
      ensures old(parent) != null ==>
        && key == old(key) && value == old(value) && left == old(left) && right == old(right)
        && parent.left == (if old(parent.left) == this then node else old(parent.left))
        && parent.right == (if old(parent.left) != this && old(parent.right) == this then node
                            else old(parent.right))
        && parent.key == old(parent.key) && parent.value == old(parent.value)
        && parent.parent == old(parent.parent) && parent.Repr == old(parent.Repr)
      ensures old(parent) != null && node != null ==>
        && node.parent == old(parent)
        && node.key == old(node.key) && node.value == old(node.value)
        && node.left == old(node.left) && node.right == old(node.right) && node.Repr == old(node.Repr)
      ensures old(parent) == null && node != null ==>
        && key == old(node.key) && value == old(node.value)
        && left == old(node.left) && right == old(node.right) && unchanged(node)
      ensures old(parent) == null && node == null ==>
        key.None? && value.None? && left == null && right == null
    {
      if parent != null {
        if this == parent.left {
          parent.left := node;
        } else if this == parent.right {
          parent.right := node;
        }
        if node != null {
          node.parent := parent;
        }
      } else {
        if node != null {
          key := node.key;
          value := node.value;
          left := node.left;
          right := node.right;
        } else {
          key := None;
          value := None;
          left := null;
          right := null;
        }
      }
    }

    /**
     * The left subtree of `n` changed in place (within its old nodes and fresh
     * ones) or was replaced by a part of it, and nothing else of `n`'s old
     * subtree changed, except perhaps `n`'s own entry. Then `n` is shaped again
     * and its abstract value has the new left subtree.
     */
    static twostate lemma LeftChanged(n: BinarySearchTree<V>)
      requires old(n.Shaped()) && old(n.key).Some?
      requires n.key.Some? && n.value.Some? && n.right == old(n.right)
      requires old(n.Repr) <= n.Repr
      requires n.left != null ==>
        && n.left.Shaped() && n.left.Linked() && n.left.key.Some? && n.left.Repr <= n.Repr
        && fresh(n.left.Repr - old(if n.left == null then {} else n.left.Repr))
      requires forall o :: o in old(n.Repr) && o != n && o !in old(if n.left == null then {} else n.left.Repr) ==> unchanged(o)
      ensures n.Shaped()
      ensures n.Linked() <==> (n.left != null ==> n.left.parent == n) && (n.right != null ==> old(n.right.parent) == n)
      ensures n.Abs() == Node(if n.left == null then Leaf else n.left.Abs(), n.key.value, n.value.value,
                              old(if n.right == null then Leaf else n.right.Abs()))
    {
    }

    /** The mirror image of `LeftChanged`. */
    static twostate lemma RightChanged(n: BinarySearchTree<V>)
      requires old(n.Shaped()) && old(n.key).Some?
      requires n.key.Some? && n.value.Some? && n.left == old(n.left)
      requires old(n.Repr) <= n.Repr
      requires n.right != null ==>
        && n.right.Shaped() && n.right.Linked() && n.right.key.Some? && n.right.Repr <= n.Repr
        && fresh(n.right.Repr - old(if n.right == null then {} else n.right.Repr))
      requires forall o :: o in old(n.Repr) && o != n && o !in old(if n.right == null then {} else n.right.Repr) ==> unchanged(o)
      ensures n.Shaped()
      ensures n.Linked() <==> (n.left != null ==> old(n.left.parent) == n) && (n.right != null ==> n.right.parent == n)
      ensures n.Abs() == Node(old(if n.left == null then Leaf else n.left.Abs()), n.key.value, n.value.value,
                              if n.right == null then Leaf else n.right.Abs())
    {
    }

    /**
     * A node with two children that took the least entry of its right
     * subtree, kept its place, its parent and its left subtree, and whose
     * right subtree lost that entry has done what remove(key) promises.
     */
    static twostate lemma SuccessorTaken(n: BinarySearchTree<V>)
      requires old(n.Valid()) && old(n.key).Some? && old(n.left) != null && old(n.right) != null
      requires n.parent == old(n.parent) && n.Repr == old(n.Repr) && n.Valid() && n.key.Some?
      requires n.parent != null ==> unchanged(n.parent) && (n.parent.left == n || n.parent.right == n)
      requires (n.key.value, n.value.value) == Min(old(n.right.Abs()))
      requires n.Abs() == Node(old(n.left.Abs()), n.key.value, n.value.value, RemoveMin(old(n.right.Abs())))
      ensures n.Removed(old(n.key).value, true)
    { }

    /** Only the `parent` field of `n` changed: its subtree is as it was. */
    static twostate lemma ParentMoved(n: BinarySearchTree<V>)
      requires old(n.Shaped() && n.Linked())
      requires n.key == old(n.key) && n.value == old(n.value) && n.left == old(n.left) && n.right == old(n.right)
      requires n.Repr == old(n.Repr)
      requires forall o :: o in old(n.Repr) && o != n ==> unchanged(o)
      ensures n.Shaped() && n.Linked() && n.Abs() == old(n.Abs())
    {
    }

    /**
     * The root `n` took over the fields of its only child: it now represents
     * that child's old subtree, whose top nodes still point at the child.
     */
    static twostate lemma RootCopied(n: BinarySearchTree<V>)
      requires old(n.Shaped()) && (old(n.left) == null) != (old(n.right) == null)
      requires var c := old(if n.left != null then n.left else n.right);
        n.key == old(c.key) && n.value == old(c.value) && n.left == old(c.left) && n.right == old(c.right)
      requires n.Repr == old(n.Repr)
      requires forall o :: o in old(n.Repr) && o != n ==> unchanged(o)
      ensures var c := old(if n.left != null then n.left else n.right);
        && n.Shaped() && n.Abs() == old(c.Abs())
        && (n.left != null ==> n.left.parent == c) && (n.right != null ==> n.right.parent == c)
    {
    }

    /** A node below `n` on its left spine is the left child of a node on that spine. */
    static lemma {:induction false} SpineParent(n: BinarySearchTree<V>, m: BinarySearchTree<V>)
      requires n.Shaped() && n.Linked() && n.OnLeftSpine(m)
      decreases n.Repr
      ensures m != n ==> m.parent != null && n.OnLeftSpine(m.parent) && m.parent.left == m && m.parent !in m.Repr
    {
      if m != n && n.left != m {
        SpineParent(n.left, m);
      }
    }

    /**
     * The leftmost node below `n` was spliced out: the left slot of its
     * parent now holds a subtree representing its old right subtree, and
     * nothing else of `n`'s old subtree outside that node's changed. Then `n`
     * represents its old value without its leftmost entry.
     */
    static twostate lemma {:induction false} SpliceLeftmost(n: BinarySearchTree<V>)
      requires old(n.Shaped() && n.Linked()) && old(n.left) != null
      requires var m := old(n.Leftmost());
        && old(m.parent) != null && old(n.OnLeftSpine(m.parent)) && old(m.parent.left) == m
        && old(m.Shaped())
      requires var m := old(n.Leftmost()); var p := old(m.parent);
        && p.right == old(p.right) && p.key == old(p.key) && p.value == old(p.value)
        && p.parent == old(p.parent) && p.Repr == old(p.Repr)
        && (p.left != null ==>
              p.left.Shaped() && p.left.Linked() && p.left.key.Some? && p.left.Repr <= old(m.Repr) && p.left.parent == p)
        && (if p.left == null then Leaf else p.left.Abs()) == old(if m.right == null then Leaf else m.right.Abs())
      requires var m := old(n.Leftmost()); var p := old(m.parent);
        forall o :: o in old(n.Repr) && o != p && o !in old(m.Repr) ==> unchanged(o)
      decreases old(n.Repr)
      ensures n.Shaped() && n.Linked() && n.Abs() == RemoveMin(old(n.Abs()))
      ensures n.key == old(n.key) && n.parent == old(n.parent) && n.Repr == old(n.Repr)
    {
      if old(n.left.left) != null {
        SpliceLeftmost(n.left);
      }
      LeftChanged(n);
    }
  }
}
