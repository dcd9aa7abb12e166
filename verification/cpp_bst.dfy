/**
 * The nodes of the C++ binary search tree as values: data greater than a
 * node's go right, all others (equal ones included) go left, so a datum may
 * be held more than once.
 */
module CppTree {
  import opened Wrappers

  datatype Tree = Nil | Node(data: int, left: Tree, right: Tree)

  /** The data held in the tree, with their repetitions. */
  function Elems(t: Tree): multiset<int>
  {
    if t.Nil? then multiset{} else multiset{t.data} + Elems(t.left) + Elems(t.right)
  }

  /** Every datum of t is at most b. */
  predicate AtMost(t: Tree, b: int)
  {
    t.Nil? || (t.data <= b && AtMost(t.left, b) && AtMost(t.right, b))
  }

  /** Every datum of t is above b. */
  predicate Above(t: Tree, b: int)
  {
    t.Nil? || (b < t.data && Above(t.left, b) && Above(t.right, b))
  }

  /** The order insert keeps: left of a node at most its datum, right of it above. */
  predicate Ordered(t: Tree)
  {
    t.Nil? || (Ordered(t.left) && Ordered(t.right) && AtMost(t.left, t.data) && Above(t.right, t.data))
  }

  /** Every datum of t is at least b. */
  predicate AtLeast(t: Tree, b: int)
  {
    t.Nil? || (b <= t.data && AtLeast(t.left, b) && AtLeast(t.right, b))
  }

  /**
   * The order a remove that copies a successor's datum up keeps: left of a
   * node at most its datum, right of it at least its datum. When a datum is
   * held twice, the copy can leave an equal datum on the right.
   */
  predicate LooseOrdered(t: Tree)
  {
    t.Nil? || (LooseOrdered(t.left) && LooseOrdered(t.right) && AtMost(t.left, t.data) && AtLeast(t.right, t.data))
  }

  /** What the bounds say about each datum. */
  lemma {:induction false} BoundsMean(t: Tree, b: int, x: int)
    requires x in Elems(t)
    ensures AtMost(t, b) ==> x <= b
    ensures Above(t, b) ==> b < x
    ensures AtLeast(t, b) ==> b <= x
  {
    if x != t.data {
      if x in Elems(t.left) {
        BoundsMean(t.left, b, x);
      } else {
        BoundsMean(t.right, b, x);
      }
    }
  }

  /** A bound that holds keeps holding when it is relaxed. */
  lemma {:induction false} BoundsWeaken(t: Tree, b: int, c: int)
    ensures AtMost(t, b) && b <= c ==> AtMost(t, c)
    ensures AtLeast(t, c) && b <= c ==> AtLeast(t, b)
    ensures Above(t, b) ==> AtLeast(t, b)
  {
    if t.Node? {
      BoundsWeaken(t.left, b, c);
      BoundsWeaken(t.right, b, c);
    }
  }

  /** The order insert keeps is a loose order. */
  lemma {:induction false} OrderedLoose(t: Tree)
    requires Ordered(t)
    ensures LooseOrdered(t)
  {
    if t.Node? {
      OrderedLoose(t.left);
      OrderedLoose(t.right);
      BoundsWeaken(t.right, t.data, t.data);
    }
  }

  /**
   * The private insert(new_node, curr): an empty subtree becomes the new
   * node; otherwise the datum goes right when greater, left when not, and
   * the subtree keeps its root.
   */
  function Insert(t: Tree, data: int): (r: Tree)
    ensures r.Node?
    ensures t.Node? ==> r.data == t.data
  {
    if t.Nil? then Node(data, Nil, Nil)
    else if data > t.data then Node(t.data, t.left, Insert(t.right, data))
    else Node(t.data, Insert(t.left, data), t.right)
  }

  /** insert always adds exactly one node holding the datum, present or not. */
  lemma {:induction false} InsertElems(t: Tree, data: int)
    ensures Elems(Insert(t, data)) == Elems(t) + multiset{data}
  {
    if t.Node? {
      if data > t.data {
        InsertElems(t.right, data);
        assert Insert(t, data) == Node(t.data, t.left, Insert(t.right, data));
      } else {
        InsertElems(t.left, data);
        assert Insert(t, data) == Node(t.data, Insert(t.left, data), t.right);
      }
    }
  }

  /** Inserting a datum within a bound keeps the bound. */
  lemma {:induction false} InsertBounds(t: Tree, data: int, b: int)
    ensures AtMost(t, b) && data <= b ==> AtMost(Insert(t, data), b)
    ensures Above(t, b) && b < data ==> Above(Insert(t, data), b)
  {
    if t.Node? {
      if data > t.data {
        InsertBounds(t.right, data, b);
      } else {
        InsertBounds(t.left, data, b);
      }
    }
  }

  /** insert keeps the tree ordered. */
  lemma {:induction false} InsertOrdered(t: Tree, data: int)
    requires Ordered(t)
    ensures Ordered(Insert(t, data))
  {
    if t.Node? {
      if data > t.data {
        InsertOrdered(t.right, data);
        InsertBounds(t.right, data, t.data);
      } else {
        InsertOrdered(t.left, data);
        InsertBounds(t.left, data, t.data);
      }
    }
  }

  /** Inserting a datum at least a bound keeps that bound. */
  lemma {:induction false} InsertAtLeast(t: Tree, data: int, b: int)
    requires AtLeast(t, b) && b <= data
    ensures AtLeast(Insert(t, data), b)
  {
    if t.Node? {
      if data > t.data {
        InsertAtLeast(t.right, data, b);
      } else {
        InsertAtLeast(t.left, data, b);
      }
    }
  }

  /** insert keeps the loose order too, so the tree stays searchable after a remove. */
  lemma {:induction false} InsertLooseOrdered(t: Tree, data: int)
    requires LooseOrdered(t)
    ensures LooseOrdered(Insert(t, data))
  {
    if t.Node? {
      if data > t.data {
        InsertLooseOrdered(t.right, data);
        InsertAtLeast(t.right, data, t.data);
      } else {
        InsertLooseOrdered(t.left, data);
        InsertBounds(t.left, data, t.data);
      }
    }
  }

  /**
   * The private search(root, data): the whole tree is scanned, the node
   * itself first, then the left subtree, then the right one, without using
   * the order. It finds a node exactly when the datum is held anywhere.
   */
  function Search(t: Tree, data: int): (r: Tree)
    ensures r.Node? ==> r.data == data && Elems(r) <= Elems(t)
    ensures r.Nil? <==> data !in Elems(t)
  {
    if t.Nil? then Nil
    else if t.data == data then t
    else
      var fromLeft := Search(t.left, data);
      if fromLeft.Node? then fromLeft else Search(t.right, data)
  }

  /** The node reached by always going left: a node of the tree with no left child. */
  function Leftmost(t: Tree): (r: Tree)
    requires t.Node?
    ensures r.Node? && r.left.Nil? && r.data in Elems(t)
  {
    if t.left.Nil? then t else Leftmost(t.left)
  }

  /** In a loosely ordered tree every datum is at least the leftmost one. */
  lemma {:induction false} LeftmostAtLeast(t: Tree)
    requires t.Node? && LooseOrdered(t)
    ensures AtLeast(t, Leftmost(t).data)
  {
    var m := Leftmost(t).data;
    if t.left.Node? {
      LeftmostAtLeast(t.left);
      BoundsMean(t.left, t.data, m);
    }
    BoundsWeaken(t.right, m, t.data);
  }

  /** In a loosely ordered tree the leftmost node holds the least datum. */
  lemma LeftmostLeast(t: Tree, x: int)
    requires t.Node? && LooseOrdered(t) && x in Elems(t)
    ensures Leftmost(t).data <= x
  {
    LeftmostAtLeast(t);
    BoundsMean(t, Leftmost(t).data, x);
  }

  /**
   * successor(root): from the right child, follow left children to the end.
   * The node reached holds the least datum of the right subtree.
   */
  method Successor(t: Tree) returns (r: Tree)
    requires t.Node? && t.right.Node?
    ensures r == Leftmost(t.right) && r.data in Elems(t.right)
    ensures LooseOrdered(t) ==> forall x :: x in Elems(t.right) ==> r.data <= x
  {
    var curr := t.right;
    while curr.left.Node?
      invariant curr.Node? && Leftmost(curr) == Leftmost(t.right)
      decreases curr
    {
      curr := curr.left;
    }
    r := curr;
    if LooseOrdered(t) {
      forall x | x in Elems(t.right)
        ensures r.data <= x
      {
        LeftmostLeast(t.right, x);
      }
    }
  }

  /**
   * The private remove(root, data) as written, with its effect on the nodes:
   * the first tree is the subtree at root afterwards, the second the subtree
   * whose root pointer is returned. A node holding the datum with a missing
   * child returns its other child and changes nothing. A node with two
   * children takes its successor's datum in place and returns what removing
   * that datum from its right subtree returns, so the node itself and its left
   * subtree are not part of the returned tree. None stands for behaviour the
   * language leaves undefined: when a node the call reaches holds a datum
   * other than the one being removed, the function ends after the recursive
   * call into a child without returning a value. The two-children branch is
   * therefore defined only when removing the successor's datum from the right
   * subtree is, as when the right child has no left child.
   */
  function RemoveInPlace(t: Tree, data: int): (r: Option<(Tree, Tree)>)
    ensures t.Nil? ==> r == Some((Nil, Nil))
    ensures r.Some? && t.Node? ==> t.data == data && Elems(r.value.1) + multiset{data} <= Elems(t)
    ensures r.Some? && t.Node? && (t.left.Nil? || t.right.Nil?) ==>
      r.value.0 == t && Elems(r.value.1) + multiset{data} == Elems(t) && (Ordered(t) ==> Ordered(r.value.1))
    ensures r.Some? && t.Node? && t.left.Node? && t.right.Node? ==>
      r.value.0.Node? && r.value.0.data == Leftmost(t.right).data && r.value.0.left == t.left &&
      Elems(r.value.1) + multiset{data} + Elems(t.left) <= Elems(t)
  {
    if t.Nil? then Some((Nil, Nil))
    else if t.data != data then None
    else if t.left.Nil? then Some((t, t.right))
    else if t.right.Nil? then Some((t, t.left))
    else
      var s := Leftmost(t.right).data;
      match RemoveInPlace(t.right, s)
      case None => None
      case Some((after, ret)) => Some((Node(s, t.left, after), ret))
  }

  /**
   * The tree 2 with children 1 and 3: removing 2 as written overwrites the
   * root's datum with 3 and returns the empty tree, losing 1 and the root,
   * while the intended remove keeps both; removing 3 takes an undefined branch.
   * On 2 with children 1 and 5 over 4, removing 2 copies 4 up and then
   * removing 4 from 5 over 4 runs off the end: undefined as well.
   */
  method TwoChildrenLost() returns (asWritten: Option<(Tree, Tree)>, intended: Tree, descent: Option<(Tree, Tree)>,
                                    deeper: Option<(Tree, Tree)>)
    ensures asWritten == Some((Node(3, Node(1, Nil, Nil), Node(3, Nil, Nil)), Nil))
    ensures intended == Node(3, Node(1, Nil, Nil), Nil)
    ensures descent.None? && deeper.None?
  {
    deeper := RemoveInPlace(Node(2, Node(1, Nil, Nil), Node(5, Node(4, Nil, Nil), Nil)), 2);
    var t := Node(2, Node(1, Nil, Nil), Node(3, Nil, Nil));
    asWritten := RemoveInPlace(t, 2);
    intended := RemoveIntended(t, 2);
    descent := RemoveInPlace(t, 3);
  }

  /**
   * remove as evidently intended: every branch returns the subtree's new
   * root, the descent reattaches the child it changed, and a node with two
   * children takes its successor's datum while that datum is removed from the
   * right subtree.
   */
  function RemoveIntended(t: Tree, data: int): Tree
  {
    if t.Nil? then Nil
    else if t.data > data then Node(t.data, RemoveIntended(t.left, data), t.right)
    else if t.data < data then Node(t.data, t.left, RemoveIntended(t.right, data))
    else if t.left.Nil? then t.right
    else if t.right.Nil? then t.left
    else
      var s := Leftmost(t.right).data;
      Node(s, t.left, RemoveIntended(t.right, s))
  }

  /** The intended remove keeps every bound the tree meets. */
  lemma {:induction false} RemoveIntendedBounds(t: Tree, data: int, b: int)
    ensures AtMost(t, b) ==> AtMost(RemoveIntended(t, data), b)
    ensures AtLeast(t, b) ==> AtLeast(RemoveIntended(t, data), b)
  {
    if t.Node? {
      if t.data > data {
        RemoveIntendedBounds(t.left, data, b);
      } else if t.data < data {
        RemoveIntendedBounds(t.right, data, b);
      } else if t.left.Node? && t.right.Node? {
        var s := Leftmost(t.right).data;
        RemoveIntendedBounds(t.right, s, b);
        BoundsMean(t.right, b, s);
      }
    }
  }

  /** Taking a datum out of a node's multiset when only one part holds it. */
  lemma TakeFromPart(d: int, l: multiset<int>, r: multiset<int>, x: int)
    requires d != x && x !in r
    ensures multiset{d} + (l - multiset{x}) + r == multiset{d} + l + r - multiset{x}
    ensures multiset{d} + r + (l - multiset{x}) == multiset{d} + r + l - multiset{x}
  {
  }

  /** On a loosely ordered tree the intended remove takes out one occurrence of the datum, if there is one. */
  lemma {:induction false} RemoveIntendedElems(t: Tree, data: int)
    requires LooseOrdered(t)
    ensures Elems(RemoveIntended(t, data)) == Elems(t) - multiset{data}
  {
    if t.Nil? {
    } else if t.data > data {
      RemoveIntendedElems(t.left, data);
      if data in Elems(t.right) {
        BoundsMean(t.right, t.data, data);
      }
      TakeFromPart(t.data, Elems(t.left), Elems(t.right), data);
    } else if t.data < data {
      RemoveIntendedElems(t.right, data);
      if data in Elems(t.left) {
        BoundsMean(t.left, t.data, data);
      }
      TakeFromPart(t.data, Elems(t.right), Elems(t.left), data);
    } else if t.left.Nil? || t.right.Nil? {
    } else {
      var s := Leftmost(t.right).data;
      RemoveIntendedElems(t.right, s);
      RemoveSuccessorElems(t.left, Elems(t.right), t.data, s);
    }
  }

  /** The successor's datum replaces the node's and leaves the right subtree. */
  lemma RemoveSuccessorElems(l: Tree, r: multiset<int>, d: int, s: int)
    requires s in r
    ensures multiset{s} + Elems(l) + (r - multiset{s}) == multiset{d} + Elems(l) + r - multiset{d}
  {
  }

  /** The intended remove keeps the loose order. */
  lemma {:induction false} RemoveIntendedOrdered(t: Tree, data: int)
    requires LooseOrdered(t)
    ensures LooseOrdered(RemoveIntended(t, data))
  {
    if t.Node? {
      if t.data > data {
        RemoveIntendedOrdered(t.left, data);
        RemoveIntendedBounds(t.left, data, t.data);
      } else if t.data < data {
        RemoveIntendedOrdered(t.right, data);
        RemoveIntendedBounds(t.right, data, t.data);
      } else if t.left.Node? && t.right.Node? {
        var s := Leftmost(t.right).data;
        RemoveIntendedOrdered(t.right, s);
        LeftmostAtLeast(t.right);
        RemoveIntendedBounds(t.right, s, s);
        BoundsMean(t.right, t.data, s);
        BoundsWeaken(t.left, t.data, s);
      }
    }
  }

}

/** The BST object of the C++ program: it holds the root, empty at first. */
module CppBst {
  import opened Wrappers
  import opened CppTree

  class Bst {
    var root: Tree

    /** BST(): an empty tree. */
    constructor()
      ensures root == Nil
    {
      root := Nil;
    }

    /**
     * insert(data): the datum goes in once more, the root stays the same node
     * unless the tree was empty, and the order is kept, strict or loose.
     */
    method Insert(data: int)
      modifies this
      ensures root == CppTree.Insert(old(root), data)
      ensures Elems(root) == old(Elems(root)) + multiset{data}
      ensures old(root).Node? ==> root.data == old(root).data
      ensures Ordered(old(root)) ==> Ordered(root)
      ensures LooseOrdered(old(root)) ==> LooseOrdered(root)
    {
      InsertElems(root, data);
      if Ordered(root) {
        InsertOrdered(root, data);
      }
      if LooseOrdered(root) {
        InsertLooseOrdered(root, data);
      }
      root := CppTree.Insert(root, data);
    }

    /** search(data): a node holding the datum, or null when none does. */
    method Search(data: int) returns (r: Tree)
      ensures r.Node? ==> r.data == data
      ensures r.Nil? <==> data !in Elems(root)
    {
      r := CppTree.Search(root, data);
    }

    /**
     * remove(data) as written: the private remove runs and the subtree root it
     * returns is dropped, so the root node stays in the tree. What remains is
     * what the private remove changed in place: nothing when the root misses a
     * child, the root's datum overwritten by its successor's when it has two.
     * Defined only where the private remove is.
     */
    method Remove(data: int)
      requires RemoveInPlace(root, data).Some?
      modifies this
      ensures root == RemoveInPlace(old(root), data).value.0
      ensures old(root).Nil? || old(root).left.Nil? || old(root).right.Nil? ==> root == old(root)
      ensures old(root).Node? && old(root).left.Node? && old(root).right.Node? ==>
        root == Node(Leftmost(old(root).right).data, old(root).left, root.right)
    {
      root := RemoveInPlace(root, data).value.0;
    }

    /**
     * remove(data) as evidently intended: the new subtree root becomes the
     * root, one occurrence of the datum goes, and the loose order is kept.
     */
    method RemoveChecked(data: int)
      modifies this
      ensures root == RemoveIntended(old(root), data)
      ensures LooseOrdered(old(root)) ==> Elems(root) == old(Elems(root)) - multiset{data} && LooseOrdered(root)
      ensures Ordered(old(root)) ==> Elems(root) == old(Elems(root)) - multiset{data} && LooseOrdered(root)
    {
      if Ordered(root) {
        OrderedLoose(root);
      }
      if LooseOrdered(root) {
        RemoveIntendedElems(root, data);
        RemoveIntendedOrdered(root, data);
      }
      root := RemoveIntended(root, data);
    }
  }

  /**
   * A tree holding only 2: removing 2 is defined (the root has no left
   * child), yet remove as written leaves 2 in the tree, while the intended
   * remove empties it.
   */
  method RemoveKeepsRoot() returns (kept: bool, removed: bool)
    ensures kept && !removed
  {
    var asWritten := new Bst();
    asWritten.Insert(2);
    asWritten.Remove(2);
    var r := asWritten.Search(2);
    kept := r.Node?;

    var intended := new Bst();
    intended.Insert(2);
    intended.RemoveChecked(2);
    r := intended.Search(2);
    removed := r.Node?;
  }

  /**
   * The program's main with remove as intended: 2, 1 and 3 go in, 3 is
   * removed and 4 goes in, leaving the tree its closing comment draws, 2 with
   * children 1 and 4. With remove as written, remove(3) takes a branch whose
   * behaviour is undefined.
   */
  method Driver() returns (final: Tree, asWrittenDefined: bool)
    ensures final == Node(2, Node(1, Nil, Nil), Node(4, Nil, Nil))
    ensures !asWrittenDefined
  {
    var tree := new Bst();
    tree.Insert(2);
    tree.Insert(1);
    tree.Insert(3);
    asWrittenDefined := RemoveInPlace(tree.root, 3).Some?;
    tree.RemoveChecked(3);
    tree.Insert(4);
    final := tree.root;
  }
}
