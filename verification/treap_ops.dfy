/**
 * The whole-treap operations of the three ports: split by a key, merge by
 * re-inserting the in-order keys of another treap, and the traversals that
 * collect keys into a list.
 */
module TreapOps {
  import opened Treaps

  /**
   * What split is meant to produce: the keys below `key` in the first part,
   * the keys at least `key` in the second. The node on the search path goes
   * to the second part exactly when key <= its key, as in the program's loop.
   */
  function SplitParts(t: Tree, key: int): (Tree, Tree)
  {
    if t.Nil? then (Nil, Nil)
    else if key <= t.key then
      var (a, b) := SplitParts(t.left, key);
      (a, Node(t.key, t.priority, b, t.right))
    else
      var (a, b) := SplitParts(t.right, key);
      (Node(t.key, t.priority, t.left, a), b)
  }

  /** The two parts hold exactly the keys of the tree. */
  lemma {:induction false} SplitPartsKeys(t: Tree, key: int)
    ensures Keys(SplitParts(t, key).0) + Keys(SplitParts(t, key).1) == Keys(t)
  {
    if t.Node? {
      if key <= t.key {
        SplitPartsKeys(t.left, key);
      } else {
        SplitPartsKeys(t.right, key);
      }
    }
  }

  /** The root of the first part is below `key`; the root of the second part is at least `key`. */
  lemma {:induction false} SplitPartsRoots(t: Tree, key: int)
    ensures SplitParts(t, key).0.Node? ==> SplitParts(t, key).0.key < key
    ensures SplitParts(t, key).1.Node? ==> key <= SplitParts(t, key).1.key
  {
    if t.Node? {
      if key <= t.key {
        SplitPartsRoots(t.left, key);
      } else {
        SplitPartsRoots(t.right, key);
      }
    }
  }

  /** In an ordered tree, every key of the first part is below `key` and every key of the second part at least `key`. */
  lemma {:induction false} SplitPartsSides(t: Tree, key: int)
    requires Ordered(t)
    ensures KeysBelow(SplitParts(t, key).0, key) && KeysAtLeast(SplitParts(t, key).1, key)
  {
    if t.Node? {
      if key <= t.key {
        SplitPartsSides(t.left, key);
        BoundsWeaken(t.right, key, t.key);
      } else {
        SplitPartsSides(t.right, key);
        BoundsWeaken(t.left, t.key, key);
      }
    }
  }

  /** A bound the tree meets is met by both parts. */
  lemma {:induction false} SplitPartsBounds(t: Tree, key: int, b: int)
    ensures KeysAtMost(t, b) ==> KeysAtMost(SplitParts(t, key).0, b) && KeysAtMost(SplitParts(t, key).1, b)
    ensures KeysAtLeast(t, b) ==> KeysAtLeast(SplitParts(t, key).0, b) && KeysAtLeast(SplitParts(t, key).1, b)
    ensures PriosAtMost(t, b) ==> PriosAtMost(SplitParts(t, key).0, b) && PriosAtMost(SplitParts(t, key).1, b)
  {
    if t.Node? {
      if key <= t.key {
        SplitPartsBounds(t.left, key, b);
      } else {
        SplitPartsBounds(t.right, key, b);
      }
    }
  }

  /** Splitting a treap gives two treaps. */
  lemma {:induction false} SplitPartsTreap(t: Tree, key: int)
    requires IsTreap(t)
    ensures IsTreap(SplitParts(t, key).0) && IsTreap(SplitParts(t, key).1)
  {
    if t.Node? {
      if key <= t.key {
        SplitPartsTreap(t.left, key);
        SplitPartsBounds(t.left, key, t.key);
        SplitPartsBounds(t.left, key, t.priority);
      } else {
        SplitPartsTreap(t.right, key);
        SplitPartsBounds(t.right, key, t.key);
        SplitPartsBounds(t.right, key, t.priority);
      }
    }
  }

  /**
   * A node cut off the search path during split, with the subtree it keeps:
   * a node of the second part keeps its right subtree, a node of the first
   * part its left subtree.
   */
  datatype Frame = Frame(key: int, priority: int, kept: Tree)

  /** The second part rebuilt from its path: each node's left child is the next node on the path. */
  function FillLeft(path: seq<Frame>, bottom: Tree): Tree
  {
    if |path| == 0 then bottom
    else
      var f := path[|path| - 1];
      FillLeft(path[..|path| - 1], Node(f.key, f.priority, bottom, f.kept))
  }

  /** The first part rebuilt from its path: each node's right child is the next node on the path. */
  function FillRight(path: seq<Frame>, bottom: Tree): Tree
  {
    if |path| == 0 then bottom
    else
      var f := path[|path| - 1];
      FillRight(path[..|path| - 1], Node(f.key, f.priority, f.kept, bottom))
  }

  /**
   * split(key) as written: the loop walks one search path from the root,
   * following the current direction while it agrees with (key <= node.key),
   * cutting the edge and switching direction when it does not. The part that
   * keeps the original root and the part rooted at the first node past the
   * first turn (root2) are then labelled: the original treap is the left one
   * only when root2 exists and its key is above the root's. When no turn
   * happens (root2 stays empty) the original treap is labelled right, so a
   * treap whose keys are all below `key` comes back as the right part.
   * keptLeft tells whether the original treap is the left part.
   */
  method SplitTree(t: Tree, key: int) returns (left: Tree, right: Tree, keptLeft: bool)
    ensures
      var (lo, hi) := SplitParts(t, key);
      if t.Node? && t.key < key && hi.Nil? then left == Nil && right == lo
      else left == lo && right == hi
    ensures keptLeft == (t.Node? && t.key < key && SplitParts(t, key).1.Node?)
  {
    var node := t;
    var toLeft := t.Node? && key <= t.key;
    var geq: seq<Frame> := [];
    var less: seq<Frame> := [];
    while node.Node?
      invariant node.Node? ==> (key <= node.key) == toLeft
      invariant SplitParts(t, key) == (FillRight(less, SplitParts(node, key).0), FillLeft(geq, SplitParts(node, key).1))
      decreases Size(node)
    {
      ghost var start := node;
      while node.Node? && (key <= node.key) == toLeft
        invariant node == start || Size(node) < Size(start)
        invariant SplitParts(t, key) == (FillRight(less, SplitParts(node, key).0), FillLeft(geq, SplitParts(node, key).1))
        decreases Size(node)
      {
        if toLeft {
          assert (geq + [Frame(node.key, node.priority, node.right)])[..|geq|] == geq;
          geq := geq + [Frame(node.key, node.priority, node.right)];
          node := node.left;
        } else {
          assert (less + [Frame(node.key, node.priority, node.left)])[..|less|] == less;
          less := less + [Frame(node.key, node.priority, node.left)];
          node := node.right;
        }
      }
      toLeft := !toLeft;
    }
    var lo, hi := FillRight(less, Nil), FillLeft(geq, Nil);
    var kept, root2 := lo, hi;
    if t.Node? && key <= t.key {
      kept, root2 := hi, lo;
    }
    SplitPartsRoots(t, key);
    keptLeft := root2.Node? && t.key < root2.key;
    if keptLeft {
      left, right := kept, root2;
    } else {
      left, right := root2, kept;
    }
  }

  /**
   * split as evidently intended: the first part holds the keys below `key`,
   * the second the keys at least `key`, together they hold every key, and a
   * treap splits into two treaps.
   */
  function SplitChecked(t: Tree, key: int): (r: (Tree, Tree))
    ensures Keys(r.0) + Keys(r.1) == Keys(t)
    ensures IsTreap(t) ==> KeysBelow(r.0, key) && KeysAtLeast(r.1, key)
    ensures IsTreap(t) ==> IsTreap(r.0) && IsTreap(r.1)
  {
    SplitPartsKeys(t, key);
    if IsTreap(t) then
      SplitPartsSides(t, key);
      SplitPartsTreap(t, key);
      SplitParts(t, key)
    else SplitParts(t, key)
  }

  /**
   * A treap holding only the key 1 split at 2: the key belongs below the
   * split point, but split as written returns it as the right part.
   */
  method SplitAllBelow() returns (left: Tree, right: Tree)
    ensures left == Nil && right == Node(1, 50, Nil, Nil)
  {
    assert SplitParts(Nil, 2) == (Nil, Nil);
    var keptLeft;
    left, right, keptLeft := SplitTree(Node(1, 50, Nil, Nil), 2);
  }

  /** The treap after inserting keys[i] with priority prios[i], in order. */
  function InsertAll(t: Tree, keys: seq<int>, prios: seq<int>): Tree
    requires |prios| == |keys|
  {
    if |keys| == 0 then t
    else Insert(InsertAll(t, keys[..|keys| - 1], prios[..|keys| - 1]), keys[|keys| - 1], prios[|keys| - 1])
  }

  /** Inserting a list of keys adds each of them once. */
  lemma {:induction false} InsertAllKeys(t: Tree, keys: seq<int>, prios: seq<int>)
    requires |prios| == |keys|
    ensures Keys(InsertAll(t, keys, prios)) == Keys(t) + multiset(keys)
  {
    if |keys| > 0 {
      var n := |keys| - 1;
      var before := InsertAll(t, keys[..n], prios[..n]);
      InsertAllKeys(t, keys[..n], prios[..n]);
      InsertKeys(before, keys[n], prios[n]);
      LastStep(keys);
    }
  }

  /** Inserting a list of keys into a treap gives a treap. */
  lemma {:induction false} InsertAllTreap(t: Tree, keys: seq<int>, prios: seq<int>)
    requires |prios| == |keys| && IsTreap(t)
    ensures IsTreap(InsertAll(t, keys, prios))
  {
    if |keys| > 0 {
      var n := |keys| - 1;
      var before := InsertAll(t, keys[..n], prios[..n]);
      InsertAllTreap(t, keys[..n], prios[..n]);
      InsertOrdered(before, keys[n], prios[n]);
      InsertHeap(before, keys[n], prios[n]);
    }
  }

  /**
   * merge(other): every key of `other`, in in-order, is inserted into this
   * treap; keys[i] receives priority prios[i] (drawn at random by the program).
   */
  method MergeKeys(t: Tree, keys: seq<int>, prios: seq<int>) returns (r: Tree)
    requires |prios| == |keys|
    ensures r == InsertAll(t, keys, prios)
  {
    r := t;
    for i := 0 to |keys|
      invariant r == InsertAll(t, keys[..i], prios[..i])
    {
      assert keys[..i + 1][..i] == keys[..i] && prios[..i + 1][..i] == prios[..i];
      r := Insert(r, keys[i], prios[i]);
    }
    assert keys[..|keys|] == keys && prios[..|keys|] == prios;
  }

  /** A list holds the elements of its prefix and its last element. */
  lemma LastStep(s: seq<int>)
    requires |s| > 0
    ensures multiset(s) == multiset(s[..|s| - 1]) + multiset{s[|s| - 1]}
  {
    assert s == s[..|s| - 1] + [s[|s| - 1]];
  }

  /** The in-order helper: appends the keys of t, left-root-right, to the list. */
  method InOrderInto(t: Tree, acc: seq<int>) returns (out: seq<int>)
    ensures out == acc + InOrder(t)
  {
    if t.Nil? {
      out := acc;
    } else {
      out := InOrderInto(t.left, acc);
      out := out + [t.key];
      out := InOrderInto(t.right, out);
    }
  }

  /** The pre-order helper: appends the keys of t, root-left-right, to the list. */
  method PreOrderInto(t: Tree, acc: seq<int>) returns (out: seq<int>)
    ensures out == acc + PreOrder(t)
  {
    if t.Nil? {
      out := acc;
    } else {
      out := acc + [t.key];
      out := PreOrderInto(t.left, out);
      out := PreOrderInto(t.right, out);
    }
  }

  /** The post-order helper: appends the keys of t, left-right-root, to the list. */
  method PostOrderInto(t: Tree, acc: seq<int>) returns (out: seq<int>)
    ensures out == acc + PostOrder(t)
  {
    if t.Nil? {
      out := acc;
    } else {
      out := PostOrderInto(t.left, acc);
      out := PostOrderInto(t.right, out);
      out := out + [t.key];
    }
  }
}
