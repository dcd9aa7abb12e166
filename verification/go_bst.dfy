/**
 * The Go binary search tree as a value: every node holds distinct data,
 * smaller data to the left and larger to the right. The read-only methods of
 * a node (search and the traversals) are functions of the tree the node roots.
 */
module GoBst {
  datatype Tree = Nil | Node(data: int, left: Tree, right: Tree)

  function Size(t: Tree): nat
  {
    if t.Nil? then 0 else 1 + Size(t.left) + Size(t.right)
  }

  /** The data held in the tree. */
  function Elems(t: Tree): multiset<int>
  {
    if t.Nil? then multiset{} else multiset{t.data} + Elems(t.left) + Elems(t.right)
  }

  /** Every datum of t is below b. */
  predicate Below(t: Tree, b: int)
  {
    t.Nil? || (t.data < b && Below(t.left, b) && Below(t.right, b))
  }

  /** Every datum of t is above b. */
  predicate Above(t: Tree, b: int)
  {
    t.Nil? || (b < t.data && Above(t.left, b) && Above(t.right, b))
  }

  /** Search-tree order with no repeated datum: smaller data left of a node, larger right. */
  predicate Ordered(t: Tree)
  {
    t.Nil? || (Ordered(t.left) && Ordered(t.right) && Below(t.left, t.data) && Above(t.right, t.data))
  }

  /** What the bounds say about each datum. */
  lemma {:induction false} BoundsMean(t: Tree, b: int, x: int)
    requires x in Elems(t)
    ensures Below(t, b) ==> x < b
    ensures Above(t, b) ==> b < x
  {
    if x != t.data {
      if x in Elems(t.left) {
        BoundsMean(t.left, b, x);
      } else {
        BoundsMean(t.right, b, x);
      }
    }
  }

  /**
   * search(data) on a node: go left while data is smaller and a left child
   * exists, right while data is larger and a right child exists; answer the
   * node on equality and nil otherwise.
   */
  function Search(t: Tree, data: int): (r: Tree)
    requires t.Node?
    ensures r.Node? ==> r.data == data && Elems(r) <= Elems(t)
  {
    if t.left.Node? && t.data > data then Search(t.left, data)
    else if t.right.Node? && t.data < data then Search(t.right, data)
    else if t.data == data then t
    else Nil
  }

  /** In an ordered tree, search finds a node exactly when the datum is held. */
  lemma {:induction false} SearchFinds(t: Tree, data: int)
    requires t.Node? && Ordered(t)
    ensures Search(t, data).Node? <==> data in Elems(t)
  {
    if data < t.data {
      if data in Elems(t.right) {
        BoundsMean(t.right, t.data, data);
      }
      if t.left.Node? {
        SearchFinds(t.left, data);
      }
    } else if data > t.data {
      if data in Elems(t.left) {
        BoundsMean(t.left, t.data, data);
      }
      if t.right.Node? {
        SearchFinds(t.right, data);
      }
    }
  }

  /**
   * insert(data): a smaller datum goes left and a larger one right, into a
   * new leaf where the child is missing; an equal datum changes nothing. The
   * node the call starts from stays the root.
   */
  function Insert(t: Tree, data: int): (r: Tree)
    ensures r.Node?
    ensures t.Node? ==> r.data == t.data
  {
    if t.Nil? then Node(data, Nil, Nil)
    else if t.data > data then Node(t.data, Insert(t.left, data), t.right)
    else if t.data < data then Node(t.data, t.left, Insert(t.right, data))
    else t
  }

  /** In an ordered tree, inserting a datum already held changes nothing. */
  lemma {:induction false} InsertPresent(t: Tree, data: int)
    requires Ordered(t) && data in Elems(t)
    ensures Insert(t, data) == t
  {
    if t.data > data {
      if data in Elems(t.right) {
        BoundsMean(t.right, t.data, data);
      }
      InsertPresent(t.left, data);
    } else if t.data < data {
      if data in Elems(t.left) {
        BoundsMean(t.left, t.data, data);
      }
      InsertPresent(t.right, data);
    }
  }

  /** Inserting a datum not held adds exactly that datum. */
  lemma {:induction false} InsertAbsent(t: Tree, data: int)
    requires data !in Elems(t)
    ensures Elems(Insert(t, data)) == Elems(t) + multiset{data}
  {
    if t.Node? {
      assert data != t.data;
      if t.data > data {
        InsertAbsent(t.left, data);
        assert Insert(t, data) == Node(t.data, Insert(t.left, data), t.right);
      } else {
        InsertAbsent(t.right, data);
        assert Insert(t, data) == Node(t.data, t.left, Insert(t.right, data));
      }
    }
  }

  /** Inserting a datum within a bound keeps the bound. */
  lemma {:induction false} InsertBounds(t: Tree, data: int, b: int)
    ensures Below(t, b) && data < b ==> Below(Insert(t, data), b)
    ensures Above(t, b) && b < data ==> Above(Insert(t, data), b)
  {
    if t.Node? {
      if t.data > data {
        InsertBounds(t.left, data, b);
      } else if t.data < data {
        InsertBounds(t.right, data, b);
      }
    }
  }

  /** insert keeps search-tree order. */
  lemma {:induction false} InsertOrdered(t: Tree, data: int)
    requires Ordered(t)
    ensures Ordered(Insert(t, data))
  {
    if t.Node? {
      if t.data > data {
        InsertOrdered(t.left, data);
        InsertBounds(t.left, data, t.data);
      } else if t.data < data {
        InsertOrdered(t.right, data);
        InsertBounds(t.right, data, t.data);
      }
    }
  }

  /** The tree built from a first datum by inserting the rest in order. */
  function AddAll(t: Tree, s: seq<int>): Tree
    decreases |s|
  {
    if |s| == 0 then t else AddAll(Insert(t, s[0]), s[1..])
  }

  /** Inserting two lists one after the other is inserting their concatenation. */
  lemma {:induction false} AddAllConcat(t: Tree, a: seq<int>, b: seq<int>)
    ensures AddAll(t, a + b) == AddAll(AddAll(t, a), b)
    decreases |a|
  {
    if |a| > 0 {
      assert (a + b)[0] == a[0] && (a + b)[1..] == a[1..] + b;
      AddAllConcat(Insert(t, a[0]), a[1..], b);
      assert AddAll(t, a + b) == AddAll(Insert(t, a[0]), a[1..] + b);
      assert AddAll(t, a) == AddAll(Insert(t, a[0]), a[1..]);
    } else {
      assert a + b == b;
    }
  }

  /** Data all smaller than the root all go into the left subtree. */
  lemma {:induction false} AddAllLeft(d: int, l: Tree, r: Tree, s: seq<int>)
    requires forall i :: 0 <= i < |s| ==> s[i] < d
    ensures AddAll(Node(d, l, r), s) == Node(d, AddAll(l, s), r)
    decreases |s|
  {
    if |s| > 0 {
      AddAllLeft(d, Insert(l, s[0]), r, s[1..]);
    }
  }

  /** Data all larger than the root all go into the right subtree. */
  lemma {:induction false} AddAllRight(d: int, l: Tree, r: Tree, s: seq<int>)
    requires forall i :: 0 <= i < |s| ==> d < s[i]
    ensures AddAll(Node(d, l, r), s) == Node(d, l, AddAll(r, s))
    decreases |s|
  {
    if |s| > 0 {
      AddAllRight(d, l, Insert(r, s[0]), s[1..]);
    }
  }

  /** inorder: left subtree, the node, right subtree. */
  function InOrder(t: Tree): seq<int>
  {
    if t.Nil? then [] else InOrder(t.left) + [t.data] + InOrder(t.right)
  }

  /** Pre-order: the node, then its left subtree, then its right subtree, each in pre-order. */
  function PreOrder(t: Tree): seq<int>
  {
    if t.Nil? then [] else [t.data] + PreOrder(t.left) + PreOrder(t.right)
  }

  /** Post-order: the left subtree, then the right subtree, each in post-order, then the node. */
  function PostOrder(t: Tree): seq<int>
  {
    if t.Nil? then [] else PostOrder(t.left) + PostOrder(t.right) + [t.data]
  }

  /** preorder as written: the node, then the children's data in in-order. */
  function PreOrderAsWritten(t: Tree): seq<int>
    requires t.Node?
  {
    [t.data] + InOrder(t.left) + InOrder(t.right)
  }

  /** postorder as written: the children's data in in-order, then the node. */
  function PostOrderAsWritten(t: Tree): seq<int>
    requires t.Node?
  {
    InOrder(t.left) + InOrder(t.right) + [t.data]
  }

  function Reverse(s: seq<int>): seq<int>
  {
    if |s| == 0 then [] else Reverse(s[1..]) + [s[0]]
  }

  predicate Increasing(s: seq<int>)
  {
    forall i, j :: 0 <= i < j < |s| ==> s[i] < s[j]
  }

  /** inorder lists every datum of the tree once. */
  lemma {:induction false} InOrderElems(t: Tree)
    ensures multiset(InOrder(t)) == Elems(t)
  {
    if t.Node? {
      InOrderElems(t.left);
      InOrderElems(t.right);
    }
  }

  /** Pre-order lists every datum of the tree once. */
  lemma {:induction false} PreOrderElems(t: Tree)
    ensures multiset(PreOrder(t)) == Elems(t)
  {
    if t.Node? {
      PreOrderElems(t.left);
      PreOrderElems(t.right);
    }
  }

  /** Post-order lists every datum of the tree once. */
  lemma {:induction false} PostOrderElems(t: Tree)
    ensures multiset(PostOrder(t)) == Elems(t)
  {
    if t.Node? {
      PostOrderElems(t.left);
      PostOrderElems(t.right);
    }
  }

  /** Every entry of a list of t's data meets the bounds t meets. */
  lemma ListBounds(t: Tree, s: seq<int>, b: int)
    requires multiset(s) == Elems(t)
    ensures Below(t, b) ==> forall i :: 0 <= i < |s| ==> s[i] < b
    ensures Above(t, b) ==> forall i :: 0 <= i < |s| ==> b < s[i]
  {
    forall i | 0 <= i < |s|
      ensures Below(t, b) ==> s[i] < b
      ensures Above(t, b) ==> b < s[i]
    {
      assert s[i] in multiset(s);
      BoundsMean(t, b, s[i]);
    }
  }

  /** inorder lists the data of an ordered tree in strictly increasing order. */
  lemma {:induction false} InOrderIncreasing(t: Tree)
    requires Ordered(t)
    ensures Increasing(InOrder(t))
  {
    if t.Node? {
      var a, b := InOrder(t.left), InOrder(t.right);
      InOrderIncreasing(t.left);
      InOrderIncreasing(t.right);
      InOrderElems(t.left);
      InOrderElems(t.right);
      ListBounds(t.left, a, t.data);
      ListBounds(t.right, b, t.data);
      var s := a + [t.data] + b;
      forall i, j | 0 <= i < j < |s|
        ensures s[i] < s[j]
      {
        if j < |a| {
          assert s[i] == a[i] && s[j] == a[j];
        } else if i > |a| {
          assert s[i] == b[i - |a| - 1] && s[j] == b[j - |a| - 1];
        } else if i == |a| {
          assert s[j] == b[j - |a| - 1];
        } else if j == |a| {
          assert s[i] == a[i];
        } else {
          assert s[i] == a[i] && s[j] == b[j - |a| - 1];
        }
      }
    }
  }

  /**
   * A root followed by lists that rebuild its two subtrees, the left list
   * all smaller than the root and the right list all larger, rebuilds the
   * tree, whichever list comes first.
   */
  lemma RebuildNode(d: int, l: Tree, r: Tree, a: seq<int>, b: seq<int>)
    requires forall i :: 0 <= i < |a| ==> a[i] < d
    requires forall i :: 0 <= i < |b| ==> d < b[i]
    requires AddAll(Nil, a) == l && AddAll(Nil, b) == r
    ensures AddAll(Nil, [d] + a + b) == Node(d, l, r)
  {
    var leaf := Node(d, Nil, Nil);
    assert ([d] + a + b)[0] == d && ([d] + a + b)[1..] == a + b;
    AddAllConcat(leaf, a, b);
    AddAllLeft(d, Nil, Nil, a);
    AddAllRight(d, l, Nil, b);
  }

  /** The same with the right list first. */
  lemma RebuildNodeRightFirst(d: int, l: Tree, r: Tree, a: seq<int>, b: seq<int>)
    requires forall i :: 0 <= i < |a| ==> a[i] < d
    requires forall i :: 0 <= i < |b| ==> d < b[i]
    requires AddAll(Nil, a) == l && AddAll(Nil, b) == r
    ensures AddAll(Nil, [d] + b + a) == Node(d, l, r)
  {
    var leaf := Node(d, Nil, Nil);
    assert ([d] + b + a)[0] == d && ([d] + b + a)[1..] == b + a;
    AddAllConcat(leaf, b, a);
    AddAllRight(d, Nil, Nil, b);
    AddAllLeft(d, Nil, r, a);
  }

  /** Inserting the pre-order list of an ordered tree into an empty tree rebuilds that tree. */
  lemma {:induction false} PreOrderRebuilds(t: Tree)
    requires Ordered(t)
    ensures AddAll(Nil, PreOrder(t)) == t
  {
    if t.Node? {
      var a, b := PreOrder(t.left), PreOrder(t.right);
      PreOrderRebuilds(t.left);
      PreOrderRebuilds(t.right);
      PreOrderElems(t.left);
      PreOrderElems(t.right);
      ListBounds(t.left, a, t.data);
      ListBounds(t.right, b, t.data);
      RebuildNode(t.data, t.left, t.right, a, b);
    }
  }

  lemma {:induction false} ReverseConcat(a: seq<int>, b: seq<int>)
    ensures Reverse(a + b) == Reverse(b) + Reverse(a)
  {
    if |a| == 0 {
      assert a + b == b;
    } else {
      assert (a + b)[1..] == a[1..] + b;
      ReverseConcat(a[1..], b);
    }
  }

  lemma {:induction false} ReverseElems(s: seq<int>)
    ensures multiset(Reverse(s)) == multiset(s)
  {
    if |s| > 0 {
      ReverseElems(s[1..]);
      assert s == [s[0]] + s[1..];
    }
  }

  /** Post-order read backwards: the node, then the right subtree, then the left, each read backwards. */
  lemma PostOrderReversed(t: Tree)
    requires t.Node?
    ensures Reverse(PostOrder(t)) == [t.data] + Reverse(PostOrder(t.right)) + Reverse(PostOrder(t.left))
  {
    var a, b := PostOrder(t.left), PostOrder(t.right);
    ReverseConcat(a + b, [t.data]);
    ReverseConcat(a, b);
    assert Reverse([t.data]) == [t.data];
  }

  /**
   * Inserting the post-order list of an ordered tree, from its last entry to
   * its first, into an empty tree rebuilds that tree.
   */
  lemma {:induction false} PostOrderRebuilds(t: Tree)
    requires Ordered(t)
    ensures AddAll(Nil, Reverse(PostOrder(t))) == t
  {
    if t.Node? {
      var a, b := Reverse(PostOrder(t.left)), Reverse(PostOrder(t.right));
      PostOrderRebuilds(t.left);
      PostOrderRebuilds(t.right);
      PostOrderElems(t.left);
      PostOrderElems(t.right);
      ReverseElems(PostOrder(t.left));
      ReverseElems(PostOrder(t.right));
      ListBounds(t.left, a, t.data);
      ListBounds(t.right, b, t.data);
      PostOrderReversed(t);
      RebuildNodeRightFirst(t.data, t.left, t.right, a, b);
    }
  }

  /** An ordered tree whose right child has two children of its own. */
  function Sample(): Tree
  {
    Node(1, Nil, Node(3, Node(2, Nil, Nil), Node(4, Nil, Nil)))
  }

  /**
   * preorder as written lists the right child's data in in-order, so the
   * list does not rebuild the tree it came from: 1, 2, 3, 4 builds a chain.
   */
  lemma PreOrderAsWrittenLoses()
    ensures Ordered(Sample())
    ensures PreOrderAsWritten(Sample()) == [1, 2, 3, 4] != PreOrder(Sample())
    ensures AddAll(Nil, PreOrderAsWritten(Sample())) != Sample()
  {
    var s := [1, 2, 3, 4];
    assert PreOrder(Sample()) == [1, 3, 2, 4];
    assert AddAll(Nil, s) == AddAll(Node(1, Nil, Nil), s[1..]);
    AddAllRight(1, Nil, Nil, s[1..]);
  }

  /**
   * postorder as written lists the right child's data in in-order, so the
   * list read backwards, 1, 4, 3, 2, does not rebuild the tree it came from.
   */
  lemma PostOrderAsWrittenLoses()
    ensures Ordered(Sample())
    ensures PostOrderAsWritten(Sample()) == [2, 3, 4, 1] != PostOrder(Sample())
    ensures AddAll(Nil, Reverse(PostOrderAsWritten(Sample()))) != Sample()
  {
    var s := [2, 3, 4, 1];
    assert PostOrder(Sample()) == [2, 4, 3, 1];
    assert Reverse(s) == [1, 4, 3, 2] by {
      assert s[1..][1..][1..] == [1];
    }
    var r := [1, 4, 3, 2];
    assert AddAll(Nil, r) == AddAll(Node(1, Nil, Nil), r[1..]);
    AddAllRight(1, Nil, Nil, r[1..]);
    assert AddAll(Nil, r[1..]).data == 4;
  }

  /** The number of nodes in a list of trees. */
  function SizeSum(q: seq<Tree>): nat
  {
    if |q| == 0 then 0 else Size(q[0]) + SizeSum(q[1..])
  }

  /** The data held in a list of trees. */
  function ForestElems(q: seq<Tree>): multiset<int>
  {
    if |q| == 0 then multiset{} else Elems(q[0]) + ForestElems(q[1..])
  }

  /** The data at the roots of a list of trees, left to right. */
  function Roots(q: seq<Tree>): seq<int>
  {
    if |q| == 0 then []
    else if q[0].Nil? then Roots(q[1..])
    else [q[0].data] + Roots(q[1..])
  }

  /** The children of the roots of a list of trees, left to right, empty ones kept. */
  function Children(q: seq<Tree>): seq<Tree>
  {
    if |q| == 0 then []
    else if q[0].Nil? then Children(q[1..])
    else [q[0].left, q[0].right] + Children(q[1..])
  }

  lemma {:induction false} SizeSumConcat(a: seq<Tree>, b: seq<Tree>)
    ensures SizeSum(a + b) == SizeSum(a) + SizeSum(b)
    ensures ForestElems(a + b) == ForestElems(a) + ForestElems(b)
  {
    if |a| == 0 {
      assert a + b == b;
    } else {
      assert (a + b)[1..] == a[1..] + b;
      SizeSumConcat(a[1..], b);
    }
  }

  /** Going one level down loses exactly the roots. */
  lemma {:induction false} ChildrenSmaller(q: seq<Tree>)
    ensures SizeSum(Children(q)) + |Roots(q)| == SizeSum(q)
    ensures SizeSum(q) > 0 ==> |Roots(q)| > 0
  {
    if |q| > 0 {
      ChildrenSmaller(q[1..]);
      if q[0].Node? {
        var kids := [q[0].left, q[0].right];
        SizeSumConcat(kids, Children(q[1..]));
        assert kids[1..] == [q[0].right] && [q[0].right][1..] == [];
        assert SizeSum(kids) == Size(q[0].left) + Size(q[0].right);
      }
    }
  }

  /** The data of a list of trees are those at its roots and those in their children. */
  lemma {:induction false} ChildrenElems(q: seq<Tree>)
    ensures ForestElems(Children(q)) + multiset(Roots(q)) == ForestElems(q)
  {
    if |q| > 0 && q[0].Node? {
      var rest := q[1..];
      var kids := [q[0].left, q[0].right];
      calc {
        ForestElems(Children(q)) + multiset(Roots(q));
        ForestElems(kids + Children(rest)) + multiset([q[0].data] + Roots(rest));
        { SizeSumConcat(kids, Children(rest)); }
        ForestElems(kids) + ForestElems(Children(rest)) + multiset{q[0].data} + multiset(Roots(rest));
        { PairElems(q[0].left, q[0].right); ChildrenElems(rest); }
        Elems(q[0]) + ForestElems(rest);
      }
    } else if |q| > 0 {
      ChildrenElems(q[1..]);
    }
  }

  lemma PairElems(a: Tree, b: Tree)
    ensures ForestElems([a, b]) == Elems(a) + Elems(b)
  {
    assert [a, b][1..] == [b] && [b][1..] == [];
    assert ForestElems([b]) == Elems(b) + ForestElems([]);
  }

  /**
   * Breadth-first order, level by level: the roots of the list left to right,
   * then the same for the list of their children.
   */
  function Levels(q: seq<Tree>): seq<int>
    decreases SizeSum(q)
  {
    if SizeSum(q) == 0 then []
    else
      ChildrenSmaller(q);
      Roots(q) + Levels(Children(q))
  }

  /** What the queue loop of levelOrder produces from a queue holding q. */
  function Queue(q: seq<Tree>): seq<int>
    decreases SizeSum(q), |q|
  {
    if |q| == 0 then []
    else if q[0].Nil? then Queue(q[1..])
    else
      SizeSumConcat(q[1..], [q[0].left, q[0].right]);
      SizeSumConcat([q[0].left], [q[0].right]);
      [q[0].data] + Queue(q[1..] + [q[0].left, q[0].right])
  }

  /** One turn of the queue loop on a node at the front: its datum comes out and its children join the back. */
  lemma QueueNode(q: seq<Tree>)
    requires |q| > 0 && q[0].Node?
    ensures Queue(q) == [q[0].data] + Queue(q[1..] + [q[0].left, q[0].right])
    ensures SizeSum(q[1..] + [q[0].left, q[0].right]) < SizeSum(q)
  {
    SizeSumConcat(q[1..], [q[0].left, q[0].right]);
    SizeSumConcat([q[0].left], [q[0].right]);
    assert [q[0].left] + [q[0].right] == [q[0].left, q[0].right];
  }

  /** The queue takes the roots of its front part first and queues their children behind the rest. */
  lemma {:induction false} QueueSplit(q: seq<Tree>, r: seq<Tree>)
    ensures Queue(q + r) == Roots(q) + Queue(r + Children(q))
    decreases |q|
  {
    if |q| == 0 {
      assert q + r == r && r + Children(q) == r;
    } else {
      assert (q + r)[0] == q[0] && (q + r)[1..] == q[1..] + r;
      if q[0].Nil? {
        QueueSplit(q[1..], r);
      } else {
        var kids := [q[0].left, q[0].right];
        assert q[1..] + r + kids == q[1..] + (r + kids);
        QueueSplit(q[1..], r + kids);
        assert r + kids + Children(q[1..]) == r + Children(q);
      }
    }
  }

  /** A list of empty trees yields nothing. */
  lemma {:induction false} QueueEmpty(q: seq<Tree>)
    requires SizeSum(q) == 0
    ensures Queue(q) == []
  {
    if |q| > 0 {
      QueueEmpty(q[1..]);
    }
  }

  /** The queue loop produces breadth-first order. */
  lemma {:induction false} QueueLevels(q: seq<Tree>)
    ensures Queue(q) == Levels(q)
    decreases SizeSum(q)
  {
    if SizeSum(q) == 0 {
      QueueEmpty(q);
    } else {
      QueueSplit(q, []);
      assert q + [] == q && [] + Children(q) == Children(q);
      ChildrenSmaller(q);
      QueueLevels(Children(q));
    }
  }

  /** Breadth-first order lists every datum of the trees once. */
  lemma {:induction false} LevelsElems(q: seq<Tree>)
    ensures multiset(Levels(q)) == ForestElems(q)
    decreases SizeSum(q)
  {
    ChildrenSmaller(q);
    ChildrenElems(q);
    if SizeSum(q) == 0 {
      EmptyForest(q);
    } else {
      LevelsElems(Children(q));
    }
  }

  lemma {:induction false} EmptyForest(q: seq<Tree>)
    requires SizeSum(q) == 0
    ensures ForestElems(q) == multiset{}
  {
    if |q| > 0 {
      EmptyForest(q[1..]);
    }
  }
}
