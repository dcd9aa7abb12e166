/**
 * The Go tree node as an object: insert links a new leaf in place and
 * levelOrder walks the nodes with a queue. Each node's ghost Model is the
 * value tree it roots, so the read-only queries of GoBst apply to it.
 */
module GoBstNodes {
  import opened GoBst

  class BstNode {
    var data: int
    var left: BstNode?
    var right: BstNode?
    ghost var Model: Tree
    ghost var Repr: set<object>

    /** The nodes below are distinct objects, the two subtrees share none, and Model mirrors the links. */
    ghost predicate Valid()
      reads this, Repr
      decreases Repr
    {
      this in Repr &&
      (left != null ==>
        left in Repr && left.Repr <= Repr && this !in left.Repr && left.Valid()) &&
      (right != null ==>
        right in Repr && right.Repr <= Repr && this !in right.Repr && right.Valid()) &&
      (left != null && right != null ==> left.Repr !! right.Repr) &&
      Model == Node(data, ModelOf(left), ModelOf(right))
    }

    /** The tree a possibly missing child roots. */
    static ghost function ModelOf(n: BstNode?): Tree
      reads n
    {
      if n == null then Nil else n.Model
    }

    /** A possibly missing node roots the tree m. */
    static ghost predicate Tracks(n: BstNode?, m: Tree)
      reads n, if n == null then {} else n.Repr
    {
      if n == null then m == Nil else n.Valid() && n.Model == m
    }

    /** Dropping the front of a tracked queue and pushing two tracked nodes keeps it tracked. */
    static lemma TracksPush(queue: seq<BstNode?>, trees: seq<Tree>, a: BstNode?, b: BstNode?, ta: Tree, tb: Tree)
      requires |queue| == |trees|
      requires forall i :: 0 <= i < |queue| ==> Tracks(queue[i], trees[i])
      requires Tracks(a, ta) && Tracks(b, tb)
      ensures forall i :: 0 <= i < |queue| + 2 ==> Tracks((queue + [a, b])[i], (trees + [ta, tb])[i])
    {
      forall i | 0 <= i < |queue| + 2
        ensures Tracks((queue + [a, b])[i], (trees + [ta, tb])[i])
      {
        if i < |queue| {
          assert (queue + [a, b])[i] == queue[i] && (trees + [ta, tb])[i] == trees[i];
        } else if i == |queue| {
          assert (queue + [a, b])[i] == a && (trees + [ta, tb])[i] == ta;
        } else {
          assert (queue + [a, b])[i] == b && (trees + [ta, tb])[i] == tb;
        }
      }
    }

    /** BSTNode{Data: d}: a leaf. */
    constructor (d: int)
      ensures Valid() && fresh(Repr)
      ensures Model == Node(d, Nil, Nil)
    {
      data := d;
      left := null;
      right := null;
      Model := Node(d, Nil, Nil);
      Repr := {this};
    }

    /**
     * insert(d): walks down by comparison, links a new leaf where the child
     * it needs is missing, and ignores a datum equal to a node's.
     */
    method Insert(d: int)
      requires Valid()
      modifies Repr
      ensures Valid() && fresh(Repr - old(Repr))
      ensures Model == GoBst.Insert(old(Model), d)
      decreases Repr
    {
      if data > d {
        if left == null {
          left := new BstNode(d);
        } else {
          left.Insert(d);
        }
        Repr := Repr + left.Repr;
        Model := Node(data, left.Model, ModelOf(right));
      } else if data < d {
        if right == null {
          right := new BstNode(d);
        } else {
          right.Insert(d);
        }
        Repr := Repr + right.Repr;
        Model := Node(data, ModelOf(left), right.Model);
      }
    }

    /**
     * levelOrder: a queue starts with this node; each turn takes the front,
     * and a present node gives its datum and queues its two children.
     * The result is breadth-first order and lists each node's datum once.
     */
    method LevelOrder() returns (s: seq<int>)
      requires Valid()
      ensures s == Levels([Model])
      ensures multiset(s) == Elems(Model)
    {
      var queue: seq<BstNode?> := [this];
      ghost var trees: seq<Tree> := [Model];
      s := [];
      while |queue| > 0
        invariant |trees| == |queue|
        invariant forall i :: 0 <= i < |queue| ==> Tracks(queue[i], trees[i])
        invariant s + Queue(trees) == Queue([Model])
        decreases SizeSum(trees), |trees|
      {
        var curr := queue[0];
        assert Tracks(curr, trees[0]);
        if curr != null {
          assert Tracks(curr.left, trees[0].left) && Tracks(curr.right, trees[0].right);
          QueueNode(trees);
          assert s + ([curr.data] + Queue(trees[1..] + [trees[0].left, trees[0].right]))
            == s + [curr.data] + Queue(trees[1..] + [trees[0].left, trees[0].right]);
          s := s + [curr.data];
          TracksPush(queue[1..], trees[1..], curr.left, curr.right, trees[0].left, trees[0].right);
          queue, trees := queue[1..] + [curr.left, curr.right], trees[1..] + [trees[0].left, trees[0].right];
        } else {
          queue, trees := queue[1..], trees[1..];
        }
      }
      QueueLevels([Model]);
      LevelsElems([Model]);
      assert [Model][1..] == [];
    }
  }
}
