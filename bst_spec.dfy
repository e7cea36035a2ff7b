/**
 * The abstract value of a binary search tree and the specification of the
 * operations on it. `Insert`, `Lookup` and `Delete` follow the search path of
 * the node methods in binary_search_tree.dfy branch for branch; the lemmas
 * state what those operations promise on ordered trees.
 */
module BstSpec {
  import opened Wrappers

  /** A node holds a key and a value; duplicate keys are allowed. */
  datatype Tree<V> = Leaf | Node(left: Tree<V>, key: int, value: V, right: Tree<V>)

  /** The multiset of keys stored in a tree. */
  function Keys<V>(t: Tree<V>): multiset<int>
  {
    match t
    case Leaf => multiset{}
    case Node(l, k, _, r) => Keys(l) + multiset{k} + Keys(r)
  }

  /**
   * The ordering invariant: every key in a left subtree is smaller than the
   * node's key, every key in a right subtree is at least the node's key
   * (insertion sends equal keys to the right).
   */
  ghost predicate Ordered<V>(t: Tree<V>)
  {
    match t
    case Leaf => true
    case Node(l, k, _, r) =>
      && (forall x :: x in Keys(l) ==> x < k)
      && (forall x :: x in Keys(r) ==> k <= x)
      && Ordered(l) && Ordered(r)
  }

  /** Some node of `t` holds key `k` with value `v`. */
  ghost predicate HasEntry<V>(t: Tree<V>, k: int, v: V)
  {
    match t
    case Leaf => false
    case Node(l, x, y, r) => (x == k && y == v) || HasEntry(l, k, v) || HasEntry(r, k, v)
  }

  /** Insertion: descend left on a smaller key, right otherwise, and hang a new leaf. */
  function Insert<V>(t: Tree<V>, k: int, v: V): Tree<V>
  {
    match t
    case Leaf => Node(Leaf, k, v, Leaf)
    case Node(l, x, y, rt) =>
      if k < x then Node(Insert(l, k, v), x, y, rt) else Node(l, x, y, Insert(rt, k, v))
  }

  /** Lookup along the search path; `None` is the "Key Not Found" failure. */
  function Lookup<V>(t: Tree<V>, k: int): Option<V>
  {
    match t
    case Leaf => None
    case Node(l, x, y, r) =>
      if x == k then Some(y) else if k < x then Lookup(l, k) else Lookup(r, k)
  }

  /** The entry of the leftmost node: the in-order successor source of a removal. */
  function Min<V>(t: Tree<V>): (int, V)
    requires t.Node?
  {
    if t.left == Leaf then (t.key, t.value) else Min(t.left)
  }

  /** The tree without its leftmost node, which is replaced by its right subtree. */
  function RemoveMin<V>(t: Tree<V>): Tree<V>
    requires t.Node?
  {
    if t.left == Leaf then t.right else Node(RemoveMin(t.left), t.key, t.value, t.right)
  }

  /**
   * Removal along the search path; `None` is the "Key Not Found" failure.
   * A matching node with two children takes the entry of the leftmost node of
   * its right subtree, and that node is spliced out; a matching node with at
   * most one child is replaced by that child.
   */
  function Delete<V>(t: Tree<V>, k: int): Option<Tree<V>>
  {
    match t
    case Leaf => None
    case Node(l, x, y, rt) =>
      if x == k then
        if l.Node? && rt.Node? then
          Some(Node(l, Min(rt).0, Min(rt).1, RemoveMin(rt)))
        else if l.Node? then Some(l)
        else if rt.Node? then Some(rt)
        else Some(Leaf)
      else if k < x then
        match Delete(l, k)
        case None => None
        case Some(l') => Some(Node(l', x, y, rt))
      else
        match Delete(rt, k)
        case None => None
        case Some(r') => Some(Node(l, x, y, r'))
  }

  /** Insertion adds exactly one occurrence of the key. */
  lemma {:induction false} InsertKeys<V>(t: Tree<V>, k: int, v: V)
    ensures Keys(Insert(t, k, v)) == Keys(t) + multiset{k}
  {
    match t
    case Leaf =>
    case Node(l, x, y, r) =>
      if k < x {
        InsertKeys(l, k, v);
        assert Insert(t, k, v) == Node(Insert(l, k, v), x, y, r);
      } else {
        InsertKeys(r, k, v);
        assert Insert(t, k, v) == Node(l, x, y, Insert(r, k, v));
      }
  }

  /** The leftmost entry is an entry of the tree. */
  lemma {:induction false} MinIsEntry<V>(t: Tree<V>)
    requires t.Node?
    ensures Min(t).0 in Keys(t) && HasEntry(t, Min(t).0, Min(t).1)
  {
    if t.left != Leaf {
      MinIsEntry(t.left);
    }
  }

  /** Splicing out the leftmost node removes exactly the leftmost key. */
  lemma {:induction false} RemoveMinKeys<V>(t: Tree<V>)
    requires t.Node?
    ensures Keys(RemoveMin(t)) + multiset{Min(t).0} == Keys(t)
  {
    if t.left != Leaf {
      RemoveMinKeys(t.left);
    }
  }

  /**
   * Removal fails exactly when lookup fails: both follow the same search path.
   * On an ordered tree that is exactly when the key is absent.
   */
  lemma {:induction false} DeleteFailsLikeLookup<V>(t: Tree<V>, k: int)
    ensures Delete(t, k).Some? <==> Lookup(t, k).Some?
    ensures Ordered(t) ==> (Delete(t, k).Some? <==> k in Keys(t))
  {
    match t
    case Leaf =>
    case Node(l, x, y, r) =>
      if x != k {
        if k < x { DeleteFailsLikeLookup(l, k); } else { DeleteFailsLikeLookup(r, k); }
      }
    if Ordered(t) {
      LookupComplete(t, k);
    }
  }

  /** Removal at the node holding the key takes away exactly one occurrence of it. */
  lemma DeleteHereKeys<V>(l: Tree<V>, x: int, y: V, r: Tree<V>)
    ensures Delete(Node(l, x, y, r), x).Some?
    ensures Keys(Node(l, x, y, r)) == Keys(Delete(Node(l, x, y, r), x).value) + multiset{x}
  {
    if l.Node? && r.Node? {
      RemoveMinKeys(r);
    }
  }

  /** A successful removal takes away exactly one occurrence of the key. */
  lemma {:induction false} DeleteKeys<V>(t: Tree<V>, k: int)
    requires Delete(t, k).Some?
    ensures Keys(t) == Keys(Delete(t, k).value) + multiset{k}
  {
    match t
    case Node(l, x, y, r) =>
      if x == k {
        DeleteHereKeys(l, x, y, r);
      } else if k < x {
        DeleteKeys(l, k);
      } else {
        DeleteKeys(r, k);
      }
  }

  /** Insertion preserves the ordering invariant. */
  lemma {:induction false} InsertOrdered<V>(t: Tree<V>, k: int, v: V)
    requires Ordered(t)
    ensures Ordered(Insert(t, k, v))
  {
    match t
    case Leaf =>
    case Node(l, x, y, r) =>
      if k < x {
        var l' := Insert(l, k, v);
        InsertOrdered(l, k, v);
        InsertKeys(l, k, v);
        assert forall z :: z in Keys(l') ==> z < x;
        assert Insert(t, k, v) == Node(l', x, y, r);
      } else {
        var r' := Insert(r, k, v);
        InsertOrdered(r, k, v);
        InsertKeys(r, k, v);
        assert forall z :: z in Keys(r') ==> x <= z;
        assert Insert(t, k, v) == Node(l, x, y, r');
      }
  }

  /** Lookup after insertion finds the inserted key, with the inserted value when the key was new. */
  lemma {:induction false} LookupInsertSame<V>(t: Tree<V>, k: int, v: V)
    ensures Lookup(Insert(t, k, v), k).Some?
    ensures k !in Keys(t) ==> Lookup(Insert(t, k, v), k) == Some(v)
  {
    match t
    case Leaf =>
    case Node(l, x, y, r) =>
      if k < x { LookupInsertSame(l, k, v); } else if k != x { LookupInsertSame(r, k, v); }
  }

  /** Insertion does not change the lookup of any other key. */
  lemma {:induction false} LookupInsertOther<V>(t: Tree<V>, k: int, v: V, k': int)
    requires k' != k
    ensures Lookup(Insert(t, k, v), k') == Lookup(t, k')
  {
    match t
    case Leaf =>
    case Node(l, x, y, r) =>
      if k < x { LookupInsertOther(l, k, v, k'); } else { LookupInsertOther(r, k, v, k'); }
  }

  /** A successful lookup returns the value of some node holding the key. */
  lemma {:induction false} LookupSound<V>(t: Tree<V>, k: int)
    requires Lookup(t, k).Some?
    ensures HasEntry(t, k, Lookup(t, k).value)
  {
    match t
    case Node(l, x, y, r) =>
      if x != k {
        if k < x { LookupSound(l, k); } else { LookupSound(r, k); }
      }
  }

  /** On an ordered tree the search path fails exactly when the key is absent. */
  lemma {:induction false} LookupComplete<V>(t: Tree<V>, k: int)
    requires Ordered(t)
    ensures Lookup(t, k).Some? <==> k in Keys(t)
  {
    match t
    case Leaf =>
    case Node(l, x, y, r) =>
      if k < x {
        LookupComplete(l, k);
        assert k in Keys(r) ==> x <= k;
      } else if k > x {
        LookupComplete(r, k);
        assert k in Keys(l) ==> k < x;
      }
  }

  /** The leftmost key is the least key of an ordered tree. */
  lemma {:induction false} MinIsLeast<V>(t: Tree<V>)
    requires t.Node? && Ordered(t)
    ensures forall x :: x in Keys(t) ==> Min(t).0 <= x
  {
    if t.left != Leaf {
      MinIsLeast(t.left);
      MinIsEntry(t.left);
    }
  }

  /** Splicing out the leftmost node keeps a tree ordered. */
  lemma {:induction false} RemoveMinOrdered<V>(t: Tree<V>)
    requires t.Node? && Ordered(t)
    ensures Ordered(RemoveMin(t))
  {
    if t.left != Leaf {
      var l' := RemoveMin(t.left);
      RemoveMinOrdered(t.left);
      RemoveMinKeys(t.left);
      forall z | z in Keys(l') ensures z < t.key {
        assert z in Keys(t.left);
      }
      assert RemoveMin(t) == Node(l', t.key, t.value, t.right);
    }
  }

  /** Replacing a two-child node's entry by its successor's keeps the tree ordered. */
  lemma SuccessorOrdered<V>(l: Tree<V>, x: int, y: V, r: Tree<V>)
    requires r.Node? && Ordered(Node(l, x, y, r))
    ensures Ordered(Node(l, Min(r).0, Min(r).1, RemoveMin(r)))
  {
    var m := Min(r).0;
    var r' := RemoveMin(r);
    MinIsLeast(r);
    MinIsEntry(r);
    RemoveMinOrdered(r);
    RemoveMinKeys(r);
    assert x <= m;
    forall z | z in Keys(l) ensures z < m {
    }
    forall z | z in Keys(r') ensures m <= z {
      assert z in Keys(r);
    }
  }

  /** Removal keeps a tree ordered. */
  lemma {:induction false} DeleteOrdered<V>(t: Tree<V>, k: int)
    requires Ordered(t) && Delete(t, k).Some?
    ensures Ordered(Delete(t, k).value)
  {
    match t
    case Node(l, x, y, r) =>
      if x == k {
        if l.Node? && r.Node? {
          SuccessorOrdered(l, x, y, r);
        }
      } else if k < x {
        var l' := Delete(l, k).value;
        DeleteOrdered(l, k);
        DeleteKeys(l, k);
        forall z | z in Keys(l') ensures z < x {
          assert z in Keys(l);
        }
        assert Delete(t, k).value == Node(l', x, y, r);
      } else {
        var r' := Delete(r, k).value;
        DeleteOrdered(r, k);
        DeleteKeys(r, k);
        forall z | z in Keys(r') ensures x <= z {
          assert z in Keys(r);
        }
        assert Delete(t, k).value == Node(l, x, y, r');
      }
  }

  /**
   * Removing the least key from an ordered tree stops at the leftmost node:
   * the search for the successor's key meets the successor first.
   */
  lemma {:induction false} DeleteMinIsRemoveMin<V>(t: Tree<V>)
    requires t.Node? && Ordered(t)
    ensures Delete(t, Min(t).0) == Some(RemoveMin(t))
  {
    if t.left != Leaf {
      DeleteMinIsRemoveMin(t.left);
      MinIsEntry(t.left);
      assert Min(t.left).0 < t.key;
    }
  }

  /** Once the only occurrence of a key is removed, lookup of that key fails. */
  lemma DeleteThenLookup<V>(t: Tree<V>, k: int)
    requires Ordered(t) && Delete(t, k).Some? && Keys(t)[k] == 1
    ensures Lookup(Delete(t, k).value, k) == None
  {
    DeleteOrdered(t, k);
    DeleteKeys(t, k);
    LookupComplete(Delete(t, k).value, k);
  }
}
