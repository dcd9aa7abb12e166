/**
 * Construction, insert and delete of the van Emde Boas tree of
 * JavaScript/van_emde_boas.js, on the node values of module VanEmdeBoas: each
 * operation returns the node the program's method leaves behind.
 */
module VebUpdates {
  import opened Wrappers
  import opened VebArith
  import opened VebLayout
  import opened VanEmdeBoas

  /** Replacing cluster slot c by a node replaces entry c of the view by that node's set. */
  lemma ViewUpdate(t: Tree, r: Tree, c: nat, cl: Tree)
    requires c < |t.clusters| && r.clusters == t.clusters[c := Some(cl)]
    ensures View(r) == View(t)[c := Contents(cl)]
  {
    assert forall i :: 0 <= i < |View(r)| ==> View(r)[i] == View(t)[c := Contents(cl)][i];
  }

  /** Every filled slot holds a valid node of universe size w. */
  ghost predicate ValidSlots(slots: seq<Option<Tree>>, w: nat)
  {
    forall i :: 0 <= i < |slots| && slots[i].Some? ==> Valid(slots[i].value) && slots[i].value.u == w
  }

  /** The cluster slots of a valid node above the smallest universe hold valid nodes one level down. */
  lemma SlotsOf(t: Tree)
    requires Valid(t) && t.u > 2
    ensures ValidSlots(t.clusters, |t.clusters|)
  {
    forall i | 0 <= i < |t.clusters| && t.clusters[i].Some?
      ensures Valid(t.clusters[i].value) && t.clusters[i].value.u == |t.clusters|
    {
      ClusterValid(t, i);
    }
  }

  /** Filling one slot with a valid node of the same size keeps the slots valid. */
  lemma SlotsUpdate(slots: seq<Option<Tree>>, w: nat, c: nat, cl: Tree)
    requires ValidSlots(slots, w) && c < |slots| && Valid(cl) && cl.u == w
    ensures ValidSlots(slots[c := Some(cl)], w)
  {
    var slots' := slots[c := Some(cl)];
    forall i | 0 <= i < |slots'| && slots'[i].Some?
      ensures Valid(slots'[i].value) && slots'[i].value.u == w
    {
      if i != c {
        assert slots'[i] == slots[i];
      }
    }
  }

  /**
   * A node of level k > 0 is valid, and stands for s, when its children are
   * valid one level down, its min and max are the extremes of s and its slots
   * lay s out.
   */
  lemma BuildValid(r: Tree, k: nat, s: set<nat>)
    requires k > 0 && r.u == Universe(k) && |r.clusters| == Universe(k - 1)
    requires r.summary.Some? ==> Valid(r.summary.value) && r.summary.value.u == Universe(k - 1)
    requires ValidSlots(r.clusters, Universe(k - 1))
    requires Layout(k, r.min, s, View(r), SummarySet(r))
    requires Extremes(r.min, r.max, s) && Below(s, r.u)
    ensures Valid(r) && Contents(r) == s
  {
    BuildContents(r, k, s);
    LevelOfUniverse(k);
    ChildrenAt(r, k);
    assert ValidAt(r, k);
  }

  lemma BuildContents(r: Tree, k: nat, s: set<nat>)
    requires k > 0 && r.u == Universe(k) && |r.clusters| == Universe(k - 1)
    requires Layout(k, r.min, s, View(r), SummarySet(r))
    requires Extremes(r.min, r.max, s)
    ensures Contents(r) == s
  {
    UniverseLeaf(k);
    LayoutKeys(k, r.min, s, View(r), SummarySet(r));
    assert Contents(r) == OptSet(r.min) + Keys(r.u, View(r));
    if r.min.Some? {
      assert OptSet(r.min) + (s - {r.min.value}) == s;
    }
  }

  /** Valid children of universe Universe(k - 1) are valid at level k - 1. */
  lemma ChildrenAt(r: Tree, k: nat)
    requires k > 0
    requires r.summary.Some? ==> Valid(r.summary.value) && r.summary.value.u == Universe(k - 1)
    requires ValidSlots(r.clusters, Universe(k - 1))
    ensures r.summary.Some? ==> ValidAt(r.summary.value, k - 1)
    ensures forall i :: 0 <= i < |r.clusters| && r.clusters[i].Some? ==> ValidAt(r.clusters[i].value, k - 1)
  {
    if r.summary.Some? {
      LevelValid(r.summary.value, k - 1);
    }
    forall i | 0 <= i < |r.clusters| && r.clusters[i].Some?
      ensures ValidAt(r.clusters[i].value, k - 1)
    {
      LevelValid(r.clusters[i].value, k - 1);
    }
  }

  /**
   * The node new VanEmdeBoas(requested) builds for requested >= 0: universe
   * size RoundUp(requested), nothing stored, no summary, and when requested
   * exceeds 2, high(u) empty cluster slots.
   */
  function EmptyTree(requested: nat): Tree
  {
    var u := RoundUp(requested);
    Tree(u, None, None, None, if requested > 2 then seq(High(u, u), _ => None) else [])
  }

  /**
   * The new tree is valid and empty, and its universe size is the least of
   * the family 2, 4, 16, 256, ... that holds the requested size.
   */
  lemma EmptyTreeValid(requested: nat)
    ensures Valid(EmptyTree(requested)) && Contents(EmptyTree(requested)) == {}
    ensures requested <= EmptyTree(requested).u
    ensures forall j :: requested <= Universe(j) ==> EmptyTree(requested).u <= Universe(j)
  {
    var t := EmptyTree(requested);
    var k := RoundUpLevel(requested);
    LevelOfUniverse(k);
    forall j | requested <= Universe(j)
      ensures t.u <= Universe(j)
    {
      if j < k {
        if j < k - 1 {
          UniverseMonotone(j, k - 1);
        }
      } else if j > k {
        UniverseMonotone(k, j);
      }
    }
    if k == 0 {
      assert ValidAt(t, 0);
    } else {
      HighOfUniverse(k);
      EmptySlotsLayout(k, View(t));
      BuildValid(t, k, {});
    }
  }

  /**
   * The constructor's two loops: square the universe size from 2 until it
   * reaches the requested size, then, when the request exceeds 2, append
   * high(u) empty cluster slots.
   */
  method NewTree(requested: nat) returns (t: Tree)
    ensures t == EmptyTree(requested)
    ensures Valid(t) && Contents(t) == {} && requested <= t.u
  {
    var u := 2;
    while u < requested
      invariant u >= 2 && Grow(u, requested) == RoundUp(requested)
      decreases requested - u
    {
      MulLeft(2, u, u);
      u := u * u;
    }
    var clusters: seq<Option<Tree>> := [];
    if requested > 2 {
      var i := 0;
      while i < High(u, u)
        invariant i <= High(u, u) && clusters == seq(i, _ => None)
      {
        clusters := clusters + [None];
        i := i + 1;
      }
    }
    t := Tree(u, None, None, None, clusters);
    EmptyTreeValid(requested);
  }

  /** new VanEmdeBoas(u): a negative size is refused with the program's message. */
  method Create(requested: int) returns (r: Result<Tree, string>)
    ensures requested < 0 <==> r.Failure?
    ensures r.Failure? ==> r.error == "u should be greater then 0"
    ensures r.Success? ==> r.value == EmptyTree(requested) && Valid(r.value) && Contents(r.value) == {}
  {
    if requested < 0 {
      return Failure("u should be greater then 0");
    }
    var t := NewTree(requested);
    return Success(t);
  }

  /** emptyVEBInsert(x): the first element of an empty node becomes its min and its max. */
  function EmptyInsert(t: Tree, x: nat): (r: Tree)
    requires Valid(t) && Contents(t) == {} && x < t.u
    ensures Valid(r) && r.u == t.u && Contents(r) == {x}
    ensures r.min == Some(x) && r.max == Some(x)
  {
    var r := t.(min := Some(x), max := Some(x));
    EmptyInsertValid(t, x, r);
    r
  }

  lemma EmptyInsertValid(t: Tree, x: nat, r: Tree)
    requires Valid(t) && Contents(t) == {} && x < t.u
    requires r == t.(min := Some(x), max := Some(x))
    ensures Valid(r) && Contents(r) == {x}
  {
    NodeFacts(t);
    var k := LevelOf(t.u);
    if k == 0 {
      assert ValidAt(r, 0);
    } else {
      EmptyInsertLayout(k, View(t), SummarySet(t), x);
      assert View(r) == View(t);
      SlotsOf(t);
      if t.summary.Some? {
        SummaryValid(t);
      }
      BuildValid(r, k, {x});
    }
  }

  /**
   * insert(x): an empty node takes x as min and max; otherwise the smaller of
   * x and the min stays the min, and the other one, v, goes (above the
   * smallest universe) into its cluster, and, when that cluster was empty,
   * its number into the summary; the max is raised to v if v exceeds it.
   * For a key not yet present the result is valid and holds one more key.
   * The program has no membership check: a key already present is not
   * ignored (see DuplicateInsert).
   */
  function Insert(t: Tree, x: nat): (r: Tree)
    requires Valid(t) && x < t.u
    ensures r.u == t.u
    ensures x !in Contents(t) ==> Valid(r) && Contents(r) == Contents(t) + {x}
    decreases t.u, 2
  {
    NodeFacts(t);
    if t.min.None? then
      EmptyInsert(t, x)
    else if t.u <= 2 then
      var m := t.min.value;
      var v := if x < m then m else x;
      var r := t.(min := Some(if x < m then x else m), max := if v > t.max.value then Some(v) else t.max);
      LeafInsertValid(t, x, r);
      r
    else
      InsertAbove(t, x)
  }

  /** In the smallest universe, inserting a key not yet present keeps the node valid. */
  lemma LeafInsertValid(t: Tree, x: nat, r: Tree)
    requires Valid(t) && t.u <= 2 && t.min.Some? && x < t.u
    requires
      var m := t.min.value;
      var v := if x < m then m else x;
      r == t.(min := Some(if x < m then x else m), max := if v > t.max.value then Some(v) else t.max)
    ensures x !in Contents(t) ==> Valid(r) && Contents(r) == Contents(t) + {x}
  {
    NodeFacts(t);
    if x !in Contents(t) {
      assert ValidAt(r, 0);
    }
  }

  /**
   * insert(x) into a non-empty node above the smallest universe: after the
   * swap with the min, v goes to offset low(v) of cluster high(v). Missing
   * cluster and summary nodes are created first. An empty cluster takes v by
   * emptyVEBInsert and its number enters the summary; a non-empty one takes v
   * by a recursive insert.
   */
  function InsertAbove(t: Tree, x: nat): (r: Tree)
    requires Valid(t) && t.u > 2 && t.min.Some? && x < t.u
    ensures r.u == t.u
    ensures x !in Contents(t) ==> Valid(r) && Contents(r) == Contents(t) + {x}
    decreases t.u, 1
  {
    MinMaxHeld(t);
    var m := t.min.value;
    var newMin := if x < m then x else m;
    var v := if x < m then m else x;
    MinInRange(t);
    SplitInRange(t, v);
    var c, lo := High(t.u, v), Low(t.u, v);
    var cl' := ClusterInsert(t, c, lo);
    var sm' := SummaryInsert(t, c);
    var r := Tree(t.u, Some(newMin), if v > t.max.value then Some(v) else t.max, Some(sm'), t.clusters[c := Some(cl')]);
    InsertAboveValid(t, x, newMin, v, r, cl', sm');
    r
  }

  /**
   * Offset lo enters cluster c, which does not hold it yet (a missing cluster
   * node is created first): an empty cluster takes lo by emptyVEBInsert, a
   * non-empty one by a recursive insert.
   */
  function ClusterInsert(t: Tree, c: nat, lo: nat): (r: Tree)
    requires Valid(t) && t.u > 2 && c < |t.clusters| && lo < |t.clusters|
    ensures r.u == |t.clusters|
    ensures lo !in View(t)[c] ==> Valid(r) && Contents(r) == View(t)[c] + {lo}
    decreases t.u, 0
  {
    SlotSummary(t, c);
    var cl := Slot(t, c);
    NoMinEmpty(cl);
    if cl.min.None? then EmptyInsert(cl, lo) else Insert(cl, lo)
  }

  /**
   * The summary after lo enters cluster c (a missing summary node is created
   * first): when the cluster was empty, its number c is inserted; otherwise
   * the summary already holds c and is left as it is.
   */
  function SummaryInsert(t: Tree, c: nat): (r: Tree)
    requires Valid(t) && t.u > 2 && c < |t.clusters|
    ensures Valid(r) && r.u == |t.clusters| && Contents(r) == SummarySet(t) + {c}
    decreases t.u, 0
  {
    SlotSummary(t, c);
    var sm := SummaryNode(t);
    var cl := Slot(t, c);
    NoMinEmpty(cl);
    if cl.min.None? then Insert(sm, c) else sm
  }

  /** A valid node has no min exactly when it is empty. */
  lemma NoMinEmpty(t: Tree)
    requires Valid(t)
    ensures t.min.None? <==> Contents(t) == {}
  {
    NodeFacts(t);
  }

  /**
   * A cluster is empty exactly when the summary lacks its number, and the
   * cluster count is the universe size of the level below.
   */
  lemma SlotSummary(t: Tree, c: nat)
    requires Valid(t) && t.u > 2 && c < |t.clusters|
    ensures View(t)[c] == {} <==> c !in SummarySet(t)
    ensures c in SummarySet(t) ==> SummarySet(t) + {c} == SummarySet(t)
    ensures |t.clusters| < t.u
  {
    SummaryLayout(t);
  }

  /** Cluster slot c, or the node new VanEmdeBoas(high(u)) that insert creates for an empty slot. */
  function Slot(t: Tree, c: nat): (cl: Tree)
    requires Valid(t) && t.u > 2 && c < |t.clusters|
    ensures Valid(cl) && cl.u == |t.clusters| && Contents(cl) == View(t)[c]
  {
    if t.clusters[c].Some? then
      PresentCluster(t, c);
      t.clusters[c].value
    else
      MissingSlot(t, c);
      EmptyTree(High(t.u, t.u))
  }

  lemma MissingSlot(t: Tree, c: nat)
    requires Valid(t) && t.u > 2 && c < |t.clusters| && t.clusters[c].None?
    ensures Valid(EmptyTree(High(t.u, t.u))) && EmptyTree(High(t.u, t.u)).u == |t.clusters|
    ensures View(t)[c] == {} && Contents(EmptyTree(High(t.u, t.u))) == {}
  {
    Shape(t);
    ClusterValid(t, c);
    FreshChild(t.u, LevelOf(t.u));
  }

  /** The summary, or the node new VanEmdeBoas(high(u)) that insert creates when it is missing. */
  function SummaryNode(t: Tree): (sm: Tree)
    requires Valid(t) && t.u > 2
    ensures Valid(sm) && sm.u == |t.clusters| && Contents(sm) == SummarySet(t)
  {
    Shape(t);
    if t.summary.Some? then
      SummaryValid(t);
      t.summary.value
    else
      FreshChild(t.u, LevelOf(t.u));
      EmptyTree(High(t.u, t.u))
  }

  /** new VanEmdeBoas(high(u)) at level k is a valid empty node of universe size Universe(k - 1). */
  lemma FreshChild(u: nat, k: nat)
    requires k > 0 && u == Universe(k)
    ensures Valid(EmptyTree(High(u, u))) && Contents(EmptyTree(High(u, u))) == {}
    ensures EmptyTree(High(u, u)).u == Universe(k - 1)
  {
    var w := Universe(k - 1);
    HighOfUniverse(k);
    EmptyTreeValid(w);
    assert EmptyTree(w).u <= w;
  }

  /** The node insert leaves behind above the smallest universe is valid and holds one more key. */
  lemma InsertAboveValid(t: Tree, x: nat, newMin: nat, v: nat, r: Tree, cl': Tree, sm': Tree)
    requires Valid(t) && t.u > 2 && t.min.Some? && x < t.u
    requires if x < t.min.value then newMin == x && v == t.min.value else newMin == t.min.value && v == x
    requires High(t.u, v) < |t.clusters|
    requires r == Tree(t.u, Some(newMin), if v > t.max.value then Some(v) else t.max, Some(sm'),
                       t.clusters[High(t.u, v) := Some(cl')])
    requires cl'.u == |t.clusters|
    requires Low(t.u, v) !in View(t)[High(t.u, v)] ==>
               Valid(cl') && Contents(cl') == View(t)[High(t.u, v)] + {Low(t.u, v)}
    requires Valid(sm') && sm'.u == |t.clusters|
    requires Contents(sm') == SummarySet(t) + {High(t.u, v)}
    ensures x !in Contents(t) ==> Valid(r) && Contents(r) == Contents(t) + {x}
  {
    if x !in Contents(t) {
      NodeFacts(t);
      var k := LevelOf(t.u);
      var s := Contents(t);
      var c, lo := High(t.u, v), Low(t.u, v);
      InsertLayout(k, t.min.value, s, View(t), SummarySet(t), x, newMin, v, c, lo);
      InsertExtremes(t.min.value, t.max.value, s, x, newMin, v);
      ViewUpdate(t, r, c, cl');
      SlotsOf(t);
      SlotsUpdate(t.clusters, |t.clusters|, c, cl');
      BuildValid(r, k, s + {x});
    }
  }

  /** After the swap, the new min and the raised max are the extremes of the enlarged set. */
  lemma InsertExtremes(m: nat, M: nat, s: set<nat>, x: nat, newMin: nat, v: nat)
    requires Extremes(Some(m), Some(M), s) && x !in s
    requires if x < m then newMin == x && v == m else newMin == m && v == x
    ensures Extremes(Some(newMin), if v > M then Some(v) else Some(M), s + {x})
  {
  }
}
