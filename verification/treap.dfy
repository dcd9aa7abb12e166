/**
 * The nodes of a treap: a binary search tree on `key` (an equal key goes
 * right) that is max-heap ordered on `priority`, kept so by rotations. Nodes
 * are modelled as values; an operation returns the new subtree root, as the
 * recursive helpers of the Java, Python and JavaScript ports do.
 */
module Treaps {

  datatype Tree = Nil | Node(key: int, priority: int, left: Tree, right: Tree)

  function Size(t: Tree): nat
  {
    if t.Nil? then 0 else 1 + Size(t.left) + Size(t.right)
  }

  /** The keys stored in t, with repetitions. */
  function Keys(t: Tree): multiset<int>
  {
    if t.Nil? then multiset{} else multiset{t.key} + Keys(t.left) + Keys(t.right)
  }

  /** Every key of t is at most b. */
  predicate KeysAtMost(t: Tree, b: int)
  {
    t.Nil? || (t.key <= b && KeysAtMost(t.left, b) && KeysAtMost(t.right, b))
  }

  /** Every key of t is below b. */
  predicate KeysBelow(t: Tree, b: int)
  {
    t.Nil? || (t.key < b && KeysBelow(t.left, b) && KeysBelow(t.right, b))
  }

  /** Every key of t is at least b. */
  predicate KeysAtLeast(t: Tree, b: int)
  {
    t.Nil? || (b <= t.key && KeysAtLeast(t.left, b) && KeysAtLeast(t.right, b))
  }

  /** Every priority of t is at most b. */
  predicate PriosAtMost(t: Tree, b: int)
  {
    t.Nil? || (t.priority <= b && PriosAtMost(t.left, b) && PriosAtMost(t.right, b))
  }

  /** Search-tree order: keys on the left are at most the node's key, keys on the right at least. */
  predicate Ordered(t: Tree)
  {
    t.Nil? ||
    (Ordered(t.left) && Ordered(t.right) && KeysAtMost(t.left, t.key) && KeysAtLeast(t.right, t.key))
  }

  /** Max-heap order on priorities: no node has a priority above its parent's. */
  predicate Heap(t: Tree)
  {
    t.Nil? ||
    (Heap(t.left) && Heap(t.right) && PriosAtMost(t.left, t.priority) && PriosAtMost(t.right, t.priority))
  }

  predicate IsTreap(t: Tree)
  {
    Ordered(t) && Heap(t)
  }

  /** The keys left-root-right. */
  function InOrder(t: Tree): seq<int>
  {
    if t.Nil? then [] else InOrder(t.left) + [t.key] + InOrder(t.right)
  }

  /** The keys root-left-right. */
  function PreOrder(t: Tree): seq<int>
  {
    if t.Nil? then [] else [t.key] + PreOrder(t.left) + PreOrder(t.right)
  }

  /** The keys left-right-root. */
  function PostOrder(t: Tree): seq<int>
  {
    if t.Nil? then [] else PostOrder(t.left) + PostOrder(t.right) + [t.key]
  }

  predicate Sorted(s: seq<int>)
  {
    forall i, j :: 0 <= i < j < |s| ==> s[i] <= s[j]
  }

  /** The bounds say what they promise about every stored key. */
  lemma {:induction false} BoundsMean(t: Tree, b: int, x: int)
    requires x in Keys(t)
    ensures KeysAtMost(t, b) ==> x <= b
    ensures KeysBelow(t, b) ==> x < b
    ensures KeysAtLeast(t, b) ==> b <= x
  {
    if x != t.key {
      if x in Keys(t.left) {
        BoundsMean(t.left, b, x);
      } else {
        BoundsMean(t.right, b, x);
      }
    }
  }

  /** A bound met by a tree is met by every weaker bound. */
  lemma {:induction false} BoundsWeaken(t: Tree, a: int, b: int)
    requires a <= b
    ensures KeysAtMost(t, a) ==> KeysAtMost(t, b)
    ensures KeysAtLeast(t, b) ==> KeysAtLeast(t, a)
    ensures PriosAtMost(t, a) ==> PriosAtMost(t, b)
    ensures a < b && KeysAtMost(t, a) ==> KeysBelow(t, b)
  {
    if t.Node? {
      BoundsWeaken(t.left, a, b);
      BoundsWeaken(t.right, a, b);
    }
  }

  /**
   * search(key): follows the search path and stops at the first node holding
   * key, or at the empty subtree (null, or False in the Python port).
   */
  function Search(t: Tree, key: int): (r: Tree)
    ensures r.Node? ==> r.key == key && Keys(r) <= Keys(t)
    ensures key !in Keys(t) ==> r.Nil?
  {
    if t.Nil? || t.key == key then t
    else if key < t.key then Search(t.left, key)
    else Search(t.right, key)
  }

  /** On an ordered tree the search path finds every stored key. */
  lemma {:induction false} SearchFinds(t: Tree, key: int)
    requires Ordered(t)
    ensures Search(t, key).Nil? <==> key !in Keys(t)
  {
    if t.Node? && t.key != key {
      if key < t.key {
        SearchFinds(t.left, key);
        if key in Keys(t.right) {
          BoundsMean(t.right, t.key, key);
        }
      } else {
        SearchFinds(t.right, key);
        if key in Keys(t.left) {
          BoundsMean(t.left, t.key, key);
        }
      }
    }
  }

  /** lrotate: the right child becomes the root, the old root its left child. */
  function LRotate(t: Tree): Tree
    requires t.Node? && t.right.Node?
  {
    var rc := t.right;
    Node(rc.key, rc.priority, Node(t.key, t.priority, t.left, rc.left), rc.right)
  }

  /** rrotate: the left child becomes the root, the old root its right child. */
  function RRotate(t: Tree): Tree
    requires t.Node? && t.left.Node?
  {
    var lc := t.left;
    Node(lc.key, lc.priority, lc.left, Node(t.key, t.priority, lc.right, t.right))
  }

  /** After either rotation, the subtree that holds the old root is smaller than the whole. */
  lemma RotatedSmaller(t: Tree)
    requires t.Node? && t.left.Node? && t.right.Node?
    ensures Size(LRotate(t).left) < Size(t) && Size(RRotate(t).right) < Size(t)
  {
  }

  /** lrotate keeps the in-order sequence. */
  lemma LRotateInOrder(t: Tree)
    requires t.Node? && t.right.Node?
    ensures InOrder(LRotate(t)) == InOrder(t)
  {
    var rc := t.right;
    assert InOrder(rc) == InOrder(rc.left) + [rc.key] + InOrder(rc.right);
  }

  /** rrotate keeps the in-order sequence. */
  lemma RRotateInOrder(t: Tree)
    requires t.Node? && t.left.Node?
    ensures InOrder(RRotate(t)) == InOrder(t)
  {
    var lc := t.left;
    assert InOrder(lc) == InOrder(lc.left) + [lc.key] + InOrder(lc.right);
  }

  /** lrotate keeps the stored keys. */
  lemma LRotateKeys(t: Tree)
    requires t.Node? && t.right.Node?
    ensures Keys(LRotate(t)) == Keys(t)
  {
  }

  /** rrotate keeps the stored keys. */
  lemma RRotateKeys(t: Tree)
    requires t.Node? && t.left.Node?
    ensures Keys(RRotate(t)) == Keys(t)
  {
  }

  /** lrotate keeps search-tree order. */
  lemma LRotateOrdered(t: Tree)
    requires t.Node? && t.right.Node? && Ordered(t)
    ensures Ordered(LRotate(t))
  {
    BoundsWeaken(t.left, t.key, t.right.key);
  }

  /** rrotate keeps search-tree order. */
  lemma RRotateOrdered(t: Tree)
    requires t.Node? && t.left.Node? && Ordered(t)
    ensures Ordered(RRotate(t))
  {
    BoundsWeaken(t.right, t.left.key, t.key);
  }

  /**
   * insert(key, priority): a new leaf where search order puts it (an equal key
   * goes right), then on the way back up a child whose priority exceeds its
   * parent's is rotated above it, the left child checked first.
   */
  function Insert(t: Tree, key: int, priority: int): (r: Tree)
    ensures r.Node?
  {
    if t.Nil? then Node(key, priority, Nil, Nil)
    else if key < t.key then
      Restore(Node(t.key, t.priority, Insert(t.left, key, priority), t.right))
    else
      Restore(Node(t.key, t.priority, t.left, Insert(t.right, key, priority)))
  }

  /** The check after a recursive insert: a child that outranks the node is rotated above it, the left child first. */
  function Restore(t: Tree): (r: Tree)
    requires t.Node?
    ensures r.Node?
  {
    if t.left.Node? && t.left.priority > t.priority then RRotate(t)
    else if t.right.Node? && t.right.priority > t.priority then LRotate(t)
    else t
  }

  /** The check after an insert keeps every bound the node meets. */
  lemma RestoreBounds(t: Tree, b: int)
    requires t.Node?
    ensures KeysAtMost(Restore(t), b) == KeysAtMost(t, b)
    ensures KeysBelow(Restore(t), b) == KeysBelow(t, b)
    ensures KeysAtLeast(Restore(t), b) == KeysAtLeast(t, b)
    ensures PriosAtMost(Restore(t), b) == PriosAtMost(t, b)
  {
  }

  /** The check after an insert keeps the stored keys. */
  lemma RestoreKeys(t: Tree)
    requires t.Node?
    ensures Keys(Restore(t)) == Keys(t)
  {
    if t.left.Node? && t.left.priority > t.priority {
      RRotateKeys(t);
    } else if t.right.Node? && t.right.priority > t.priority {
      LRotateKeys(t);
    }
  }

  /** Insert adds exactly one occurrence of the key. */
  lemma {:induction false} InsertKeys(t: Tree, key: int, priority: int)
    ensures Keys(Insert(t, key, priority)) == Keys(t) + multiset{key}
  {
    if t.Node? {
      if key < t.key {
        InsertKeys(t.left, key, priority);
        RestoreKeys(Node(t.key, t.priority, Insert(t.left, key, priority), t.right));
      } else {
        InsertKeys(t.right, key, priority);
        RestoreKeys(Node(t.key, t.priority, t.left, Insert(t.right, key, priority)));
      }
    }
  }

  /** The check after an insert keeps search-tree order. */
  lemma RestoreOrdered(t: Tree)
    requires t.Node? && Ordered(t)
    ensures Ordered(Restore(t))
  {
    if t.left.Node? && t.left.priority > t.priority {
      RRotateOrdered(t);
    } else if t.right.Node? && t.right.priority > t.priority {
      LRotateOrdered(t);
    }
  }

  /** The tree after insert meets a bound exactly when the old tree and the new key (or priority) do. */
  lemma {:induction false} InsertBounds(t: Tree, key: int, priority: int, b: int)
    ensures KeysAtMost(Insert(t, key, priority), b) == (KeysAtMost(t, b) && key <= b)
    ensures KeysBelow(Insert(t, key, priority), b) == (KeysBelow(t, b) && key < b)
    ensures KeysAtLeast(Insert(t, key, priority), b) == (KeysAtLeast(t, b) && b <= key)
    ensures PriosAtMost(Insert(t, key, priority), b) == (PriosAtMost(t, b) && priority <= b)
  {
    if t.Node? {
      if key < t.key {
        InsertBounds(t.left, key, priority, b);
        RestoreBounds(Node(t.key, t.priority, Insert(t.left, key, priority), t.right), b);
      } else {
        InsertBounds(t.right, key, priority, b);
        RestoreBounds(Node(t.key, t.priority, t.left, Insert(t.right, key, priority)), b);
      }
    }
  }

  /** Insertion keeps search-tree order. */
  lemma {:induction false} InsertOrdered(t: Tree, key: int, priority: int)
    requires Ordered(t)
    ensures Ordered(Insert(t, key, priority))
  {
    if t.Node? {
      if key < t.key {
        InsertOrdered(t.left, key, priority);
        InsertBounds(t.left, key, priority, t.key);
        RestoreOrdered(Node(t.key, t.priority, Insert(t.left, key, priority), t.right));
      } else {
        InsertOrdered(t.right, key, priority);
        InsertBounds(t.right, key, priority, t.key);
        RestoreOrdered(Node(t.key, t.priority, t.left, Insert(t.right, key, priority)));
      }
    }
  }

  /**
   * A priority above every priority of a heap ends at the root after insert,
   * and everything below it keeps the old bound.
   */
  lemma {:induction false} InsertOutranks(t: Tree, key: int, priority: int, b: int)
    requires Heap(t) && PriosAtMost(t, b) && b < priority
    ensures
      var c := Insert(t, key, priority);
      c.priority == priority && PriosAtMost(c.left, b) && PriosAtMost(c.right, b)
  {
    if t.Node? {
      if key < t.key {
        var c := Insert(t.left, key, priority);
        InsertOutranks(t.left, key, priority, t.priority);
        BoundsWeaken(c.left, t.priority, b);
        BoundsWeaken(c.right, t.priority, b);
        BoundsWeaken(t.right, t.priority, b);
      } else {
        var c := Insert(t.right, key, priority);
        InsertOutranks(t.right, key, priority, t.priority);
        BoundsWeaken(c.left, t.priority, b);
        BoundsWeaken(c.right, t.priority, b);
        BoundsWeaken(t.left, t.priority, b);
      }
    }
  }

  /** Insertion keeps heap order: only the child on the insertion path can outrank its parent. */
  lemma {:induction false} InsertHeap(t: Tree, key: int, priority: int)
    requires Heap(t)
    ensures Heap(Insert(t, key, priority))
  {
    if t.Node? {
      if key < t.key {
        var c := Insert(t.left, key, priority);
        InsertHeap(t.left, key, priority);
        if priority <= t.priority {
          InsertBounds(t.left, key, priority, t.priority);
        } else {
          InsertOutranks(t.left, key, priority, t.priority);
          BoundsWeaken(t.right, t.priority, c.priority);
          var down := Node(t.key, t.priority, c.right, t.right);
          assert Heap(down) && PriosAtMost(down, c.priority);
          assert Insert(t, key, priority) == Node(c.key, c.priority, c.left, down);
        }
      } else {
        var c := Insert(t.right, key, priority);
        InsertHeap(t.right, key, priority);
        if priority <= t.priority {
          InsertBounds(t.right, key, priority, t.priority);
        } else {
          InsertOutranks(t.right, key, priority, t.priority);
          BoundsWeaken(t.left, t.priority, c.priority);
          var down := Node(t.key, t.priority, t.left, c.left);
          assert Heap(down) && PriosAtMost(down, c.priority);
          assert Insert(t, key, priority) == Node(c.key, c.priority, down, c.right);
        }
      }
    }
  }

  /** Insert adds the key and keeps a treap a treap. */
  lemma InsertTreap(t: Tree, key: int, priority: int)
    ensures Keys(Insert(t, key, priority)) == Keys(t) + multiset{key}
    ensures IsTreap(t) ==> IsTreap(Insert(t, key, priority))
  {
    InsertKeys(t, key, priority);
    if IsTreap(t) {
      InsertOrdered(t, key, priority);
      InsertHeap(t, key, priority);
    }
  }

  /**
   * delete(key): walks the search path; at the node holding key, a node with
   * at most one child is replaced by that child, and otherwise the child of
   * higher priority is rotated up (the left one on a tie: lrotate only when
   * left < right) and the deletion continues below it.
   */
  function Delete(t: Tree, key: int): Tree
    decreases Size(t)
  {
    if t.Nil? then Nil
    else if key < t.key then t.(left := Delete(t.left, key))
    else if key > t.key then t.(right := Delete(t.right, key))
    else if t.left.Nil? && t.right.Nil? then Nil
    else if t.left.Nil? then t.right
    else if t.right.Nil? then t.left
    else if t.left.priority < t.right.priority then
      var n := LRotate(t);
      RotatedSmaller(t);
      n.(left := Delete(n.left, key))
    else
      var n := RRotate(t);
      RotatedSmaller(t);
      n.(right := Delete(n.right, key))
  }

  /** Deleting a key that is not stored leaves the tree as it is. */
  lemma {:induction false} DeleteAbsent(t: Tree, key: int)
    requires key !in Keys(t)
    ensures Delete(t, key) == t
    decreases Size(t)
  {
    if t.Node? {
      if key < t.key {
        DeleteAbsent(t.left, key);
      } else if key > t.key {
        DeleteAbsent(t.right, key);
      }
    }
  }

  /** On an ordered tree holding the key, delete removes exactly one occurrence of it. */
  lemma {:induction false} DeleteKeys(t: Tree, key: int)
    requires Ordered(t) && key in Keys(t)
    ensures Keys(Delete(t, key)) + multiset{key} == Keys(t)
    decreases Size(t)
  {
    if key < t.key {
      if key in Keys(t.right) {
        BoundsMean(t.right, t.key, key);
      }
      DeleteKeys(t.left, key);
      DescendDeleteKeys(t, key);
    } else if key > t.key {
      if key in Keys(t.left) {
        BoundsMean(t.left, t.key, key);
      }
      DeleteKeys(t.right, key);
      DescendDeleteKeys(t, key);
    } else if t.left.Nil? || t.right.Nil? {
      assert Keys(t) == multiset{key} + Keys(t.left) + Keys(t.right);
    } else {
      RotatedSmaller(t);
      if t.left.priority < t.right.priority {
        LRotateOrdered(t);
        DeleteKeys(LRotate(t).left, key);
        LRotateDeleteKeys(t, key);
      } else {
        RRotateOrdered(t);
        DeleteKeys(RRotate(t).right, key);
        RRotateDeleteKeys(t, key);
      }
    }
  }

  /** The step of DeleteKeys where the key lies below the node, on the side search order puts it. */
  lemma DescendDeleteKeys(t: Tree, key: int)
    requires t.Node? && key != t.key
    requires key < t.key ==> Keys(Delete(t.left, key)) + multiset{key} == Keys(t.left)
    requires key > t.key ==> Keys(Delete(t.right, key)) + multiset{key} == Keys(t.right)
    ensures Keys(Delete(t, key)) + multiset{key} == Keys(t)
  {
  }

  /** The step of DeleteKeys where lrotate lifts the right child above the node being deleted. */
  lemma LRotateDeleteKeys(t: Tree, key: int)
    requires t.Node? && t.key == key && t.left.Node? && t.right.Node? && t.left.priority < t.right.priority
    requires Keys(Delete(LRotate(t).left, key)) + multiset{key} == Keys(LRotate(t).left)
    ensures Keys(Delete(t, key)) + multiset{key} == Keys(t)
  {
    var n := LRotate(t);
    LRotateKeys(t);
    var d := Delete(n.left, key);
    assert Delete(t, key) == n.(left := d);
  }

  /** The step of DeleteKeys where rrotate lifts the left child above the node being deleted. */
  lemma RRotateDeleteKeys(t: Tree, key: int)
    requires t.Node? && t.key == key && t.left.Node? && t.right.Node? && !(t.left.priority < t.right.priority)
    requires Keys(Delete(RRotate(t).right, key)) + multiset{key} == Keys(RRotate(t).right)
    ensures Keys(Delete(t, key)) + multiset{key} == Keys(t)
  {
    var n := RRotate(t);
    RRotateKeys(t);
    var d := Delete(n.right, key);
    assert Delete(t, key) == n.(right := d);
  }

  /** Both rotations keep every bound the tree meets. */
  lemma RotateBounds(t: Tree, b: int)
    requires t.Node? && t.left.Node? && t.right.Node?
    ensures KeysAtMost(LRotate(t), b) == KeysAtMost(t, b) == KeysAtMost(RRotate(t), b)
    ensures KeysAtLeast(LRotate(t), b) == KeysAtLeast(t, b) == KeysAtLeast(RRotate(t), b)
    ensures PriosAtMost(LRotate(t), b) == PriosAtMost(t, b) == PriosAtMost(RRotate(t), b)
  {
  }

  /** Deletion keeps every bound the tree meets. */
  lemma {:induction false} DeleteBounds(t: Tree, key: int, b: int)
    ensures KeysAtMost(t, b) ==> KeysAtMost(Delete(t, key), b)
    ensures KeysAtLeast(t, b) ==> KeysAtLeast(Delete(t, key), b)
    ensures PriosAtMost(t, b) ==> PriosAtMost(Delete(t, key), b)
    decreases Size(t)
  {
    if t.Nil? {
    } else if key < t.key {
      DeleteBounds(t.left, key, b);
    } else if key > t.key {
      DeleteBounds(t.right, key, b);
    } else if t.left.Node? && t.right.Node? {
      RotatedSmaller(t);
      RotateBounds(t, b);
      if t.left.priority < t.right.priority {
        DeleteBounds(LRotate(t).left, key, b);
      } else {
        DeleteBounds(RRotate(t).right, key, b);
      }
    }
  }

  /** Deletion keeps search-tree order. */
  lemma {:induction false} DeleteOrdered(t: Tree, key: int)
    requires Ordered(t)
    ensures Ordered(Delete(t, key))
    decreases Size(t)
  {
    if t.Nil? {
    } else if key < t.key {
      DeleteOrdered(t.left, key);
      DeleteBounds(t.left, key, t.key);
    } else if key > t.key {
      DeleteOrdered(t.right, key);
      DeleteBounds(t.right, key, t.key);
    } else if t.left.Node? && t.right.Node? {
      RotatedSmaller(t);
      if t.left.priority < t.right.priority {
        var n := LRotate(t);
        LRotateOrdered(t);
        DeleteOrdered(n.left, key);
        DeleteBounds(n.left, key, n.key);
      } else {
        var n := RRotate(t);
        RRotateOrdered(t);
        DeleteOrdered(n.right, key);
        DeleteBounds(n.right, key, n.key);
      }
    }
  }

  /**
   * Deleting the key held at the root: when both children meet a priority
   * bound, so does the result, since the root node itself is gone.
   */
  lemma {:induction false} DeleteRootBounds(t: Tree, key: int, b: int)
    requires t.Node? && t.key == key
    requires PriosAtMost(t.left, b) && PriosAtMost(t.right, b)
    ensures PriosAtMost(Delete(t, key), b)
    decreases Size(t)
  {
    if t.left.Node? && t.right.Node? {
      RotatedSmaller(t);
      if t.left.priority < t.right.priority {
        DeleteRootBounds(LRotate(t).left, key, b);
      } else {
        DeleteRootBounds(RRotate(t).right, key, b);
      }
    }
  }

  /** Deletion keeps heap order: the child rotated up outranks everything left below it. */
  lemma {:induction false} DeleteHeap(t: Tree, key: int)
    requires Heap(t)
    ensures Heap(Delete(t, key))
    decreases Size(t)
  {
    if t.Nil? {
    } else if key < t.key {
      DeleteHeap(t.left, key);
      DeleteBounds(t.left, key, t.priority);
    } else if key > t.key {
      DeleteHeap(t.right, key);
      DeleteBounds(t.right, key, t.priority);
    } else if t.left.Node? && t.right.Node? {
      var l, r := t.left, t.right;
      RotatedSmaller(t);
      if l.priority < r.priority {
        var n := LRotate(t);
        BoundsWeaken(r.left, r.priority, t.priority);
        DeleteHeap(n.left, key);
        BoundsWeaken(l, l.priority, r.priority);
        DeleteRootBounds(n.left, key, r.priority);
      } else {
        var n := RRotate(t);
        BoundsWeaken(l.right, l.priority, t.priority);
        DeleteHeap(n.right, key);
        BoundsWeaken(r, r.priority, l.priority);
        DeleteRootBounds(n.right, key, l.priority);
      }
    }
  }

  /** Delete removes one occurrence of the key, if there is one, and keeps a treap a treap. */
  lemma DeleteTreap(t: Tree, key: int)
    requires IsTreap(t)
    ensures Keys(Delete(t, key)) == Keys(t) - multiset{key}
    ensures IsTreap(Delete(t, key))
  {
    if key in Keys(t) {
      DeleteKeys(t, key);
    } else {
      DeleteAbsent(t, key);
    }
    DeleteOrdered(t, key);
    DeleteHeap(t, key);
  }

  /** A non-decreasing list, a middle key, and a non-decreasing list above it make a non-decreasing list. */
  lemma SortedJoin(l: seq<int>, k: int, r: seq<int>)
    requires Sorted(l) && Sorted(r)
    requires forall i | 0 <= i < |l| :: l[i] <= k
    requires forall i | 0 <= i < |r| :: k <= r[i]
    ensures Sorted(l + [k] + r)
  {
  }

  /** The in-order list holds every key once per occurrence. */
  lemma {:induction false} InOrderKeys(t: Tree)
    ensures multiset(InOrder(t)) == Keys(t)
  {
    if t.Node? {
      InOrderKeys(t.left);
      InOrderKeys(t.right);
      assert InOrder(t) == InOrder(t.left) + [t.key] + InOrder(t.right);
    }
  }

  /** The pre-order list holds every key once per occurrence. */
  lemma {:induction false} PreOrderKeys(t: Tree)
    ensures multiset(PreOrder(t)) == Keys(t)
  {
    if t.Node? {
      PreOrderKeys(t.left);
      PreOrderKeys(t.right);
      assert PreOrder(t) == [t.key] + PreOrder(t.left) + PreOrder(t.right);
    }
  }

  /** The post-order list holds every key once per occurrence. */
  lemma {:induction false} PostOrderKeys(t: Tree)
    ensures multiset(PostOrder(t)) == Keys(t)
  {
    if t.Node? {
      PostOrderKeys(t.left);
      PostOrderKeys(t.right);
      assert PostOrder(t) == PostOrder(t.left) + PostOrder(t.right) + [t.key];
    }
  }

  /** An ordered tree lists its keys in non-decreasing order. */
  lemma {:induction false} InOrderSorted(t: Tree)
    requires Ordered(t)
    ensures Sorted(InOrder(t))
  {
    if t.Node? {
      InOrderSorted(t.left);
      InOrderSorted(t.right);
      InOrderKeys(t.left);
      InOrderKeys(t.right);
      var l, r := InOrder(t.left), InOrder(t.right);
      forall i | 0 <= i < |l| ensures l[i] <= t.key {
        assert l[i] in multiset(l);
        BoundsMean(t.left, t.key, l[i]);
      }
      forall i | 0 <= i < |r| ensures t.key <= r[i] {
        assert r[i] in multiset(r);
        BoundsMean(t.right, t.key, r[i]);
      }
      SortedJoin(l, t.key, r);
    }
  }
}
