/**
 * The Treap object of the three ports: a handle on a root node whose
 * public methods replace the root with the result of the node operations.
 */
module TreapObject {
  import opened Treaps
  import opened TreapOps

  class Treap {
    var root: Tree

    /** A new treap is empty. */
    constructor()
      ensures root == Nil
    {
      root := Nil;
    }

    /**
     * search(key): the node holding key, or the empty tree (null, or False
     * in the Python port) when the search path does not meet it.
     */
    method Search(key: int) returns (r: Tree)
      ensures r.Node? ==> r.key == key
      ensures IsTreap(root) ==> (r.Nil? <==> key !in Keys(root))
    {
      if IsTreap(root) {
        SearchFinds(root, key);
      }
      r := Treaps.Search(root, key);
    }

    /** insert(key, priority): the key goes in once more and the treap stays a treap. */
    method Insert(key: int, priority: int)
      modifies this
      ensures root == Treaps.Insert(old(root), key, priority)
      ensures Keys(root) == old(Keys(root)) + multiset{key}
      ensures IsTreap(old(root)) ==> IsTreap(root)
    {
      InsertTreap(root, key, priority);
      root := Treaps.Insert(root, key, priority);
    }

    /** delete(key): one occurrence of key goes, if there is one, and the treap stays a treap. */
    method Delete(key: int)
      modifies this
      ensures root == Treaps.Delete(old(root), key)
      ensures IsTreap(old(root)) ==> IsTreap(root) && Keys(root) == old(Keys(root)) - multiset{key}
    {
      if IsTreap(root) {
        DeleteTreap(root, key);
      }
      root := Treaps.Delete(root, key);
    }

    /**
     * split(key): this treap keeps the part that holds its root and a new
     * treap receives the other part; the pair is labelled as the program
     * does, which swaps the parts when every key is below `key`.
     */
    method Split(key: int) returns (left: Treap, right: Treap)
      modifies this
      ensures
        var (lo, hi) := SplitParts(old(root), key);
        if old(root).Node? && old(root).key < key && hi.Nil? then left.root == Nil && right.root == lo
        else left.root == lo && right.root == hi
      ensures (left == this && fresh(right)) || (right == this && fresh(left))
    {
      var l, r, keptLeft := SplitTree(root, key);
      var other := new Treap();
      if keptLeft {
        root := l;
        other.root := r;
        left, right := this, other;
      } else {
        root := r;
        other.root := l;
        left, right := other, this;
      }
    }

    /**
     * merge(other): every key of `other`, in in-order, is inserted here;
     * key i receives prios[i], the priority the program draws at random.
     */
    method Merge(other: Treap, prios: seq<int>)
      requires |prios| == |Treaps.InOrder(other.root)|
      modifies this
      ensures root == InsertAll(old(root), Treaps.InOrder(old(other.root)), prios)
      ensures Keys(root) == old(Keys(root)) + old(Keys(other.root))
      ensures IsTreap(old(root)) ==> IsTreap(root)
    {
      var keys := other.InOrder();
      InsertAllKeys(root, keys, prios);
      if IsTreap(root) {
        InsertAllTreap(root, keys, prios);
      }
      root := MergeKeys(root, keys, prios);
    }

    /** inOrder(): the keys left-root-right, non-decreasing in a treap. */
    method InOrder() returns (keys: seq<int>)
      ensures keys == Treaps.InOrder(root)
      ensures multiset(keys) == Keys(root)
      ensures IsTreap(root) ==> Sorted(keys)
    {
      InOrderKeys(root);
      if IsTreap(root) {
        InOrderSorted(root);
      }
      keys := InOrderInto(root, []);
    }

    /** preOrder(): the keys root-left-right. */
    method PreOrder() returns (keys: seq<int>)
      ensures keys == Treaps.PreOrder(root)
      ensures multiset(keys) == Keys(root)
    {
      PreOrderKeys(root);
      keys := PreOrderInto(root, []);
    }

    /** postOrder(): the keys left-right-root. */
    method PostOrder() returns (keys: seq<int>)
      ensures keys == Treaps.PostOrder(root)
      ensures multiset(keys) == Keys(root)
    {
      PostOrderKeys(root);
      keys := PostOrderInto(root, []);
    }
  }
}
