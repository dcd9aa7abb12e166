/**
 * The van Emde Boas tree of JavaScript/van_emde_boas.js: an ordered set of
 * non-negative integers below a universe size u taken from the family
 * 2, 4, 16, 256, 65536, ... (u == Universe(k) for the level k).
 *
 * A node caches the least and greatest element in min and max. Above the
 * smallest universe it also has Universe(k - 1) cluster slots, each empty
 * (the program's null) or a node of the next level down holding the offsets
 * of the keys with that cluster number, and an optional summary node holding
 * the numbers of the non-empty clusters. The min is never stored in a
 * cluster. Clusters and the summary are created when first needed and never
 * removed.
 *
 * Nodes are values here: an operation that updates a node in place returns
 * the updated node.
 */
module VanEmdeBoas {
  import opened Wrappers
  import opened VebArith
  import opened VebLayout

  datatype Tree = Tree(u: nat, min: Option<nat>, max: Option<nat>, summary: Option<Tree>, clusters: seq<Option<Tree>>)

  /** The element an optional min or max holds, as a set. */
  ghost function OptSet(o: Option<nat>): set<nat>
  {
    if o.Some? then {o.value} else {}
  }

  /**
   * The set a node stands for: its min, and either its max (smallest universe)
   * or the keys its clusters stand for.
   */
  ghost function Contents(t: Tree): set<nat>
    decreases t, 1
  {
    OptSet(t.min) + if t.u <= 2 then OptSet(t.max) else Keys(t.u, View(t))
  }

  /** The sets held by the cluster slots; an empty slot holds nothing. */
  ghost function View(t: Tree): seq<set<nat>>
    decreases t, 0
  {
    seq(|t.clusters|, i requires 0 <= i < |t.clusters| =>
      if t.clusters[i].Some? then Contents(t.clusters[i].value) else {})
  }

  /** The set the summary holds; a missing summary holds nothing. */
  ghost function SummarySet(t: Tree): set<nat>
  {
    if t.summary.Some? then Contents(t.summary.value) else {}
  }

  /**
   * The invariant of a node of level k: the universe size, min and max as the
   * extremes of its set, every key in range, and above level 0 the cluster
   * count, valid children one level down and the layout of clusters and
   * summary (the min in no cluster, the summary holding exactly the numbers
   * of the non-empty clusters).
   */
  ghost predicate ValidAt(t: Tree, k: nat)
    decreases t
  {
    var ok :=
    && t.u == Universe(k)
    && Extremes(t.min, t.max, Contents(t))
    && Below(Contents(t), t.u)
    && (k == 0 ==> t.summary.None? && t.clusters == [])
    && (k > 0 ==>
          && |t.clusters| == Universe(k - 1)
          && (t.summary.Some? ==> ValidAt(t.summary.value, k - 1))
          && (forall i :: 0 <= i < |t.clusters| && t.clusters[i].Some? ==> ValidAt(t.clusters[i].value, k - 1))
          && Layout(k, t.min, Contents(t), View(t), SummarySet(t)));
    ok
  }

  /** A valid tree: valid at the level its universe size has. */
  ghost predicate Valid(t: Tree)
  {
    ValidAt(t, LevelOf(t.u))
  }

  /** A node valid at level k is a valid tree. */
  lemma ValidAtLevel(t: Tree, k: nat)
    requires ValidAt(t, k)
    ensures Valid(t) && LevelOf(t.u) == k
  {
    LevelOfUniverse(k);
  }

  /** Conversely, a valid tree of universe Universe(k) is valid at level k. */
  lemma LevelValid(t: Tree, k: nat)
    requires Valid(t) && t.u == Universe(k)
    ensures ValidAt(t, k)
  {
    LevelOfUniverse(k);
  }

  /** The facts of Valid about a node itself. */
  lemma NodeFacts(t: Tree)
    requires Valid(t)
    ensures t.u == Universe(LevelOf(t.u)) && Extremes(t.min, t.max, Contents(t)) && Below(Contents(t), t.u)
    ensures LevelOf(t.u) == 0 <==> t.u <= 2
    ensures t.u <= 2 ==> t.u == 2 && Contents(t) == OptSet(t.min) + OptSet(t.max)
    ensures t.u > 2 ==>
      && |t.clusters| == |View(t)| == Universe(LevelOf(t.u) - 1)
      && Layout(LevelOf(t.u), t.min, Contents(t), View(t), SummarySet(t))
  {
    UniverseLeaf(LevelOf(t.u));
  }

  /** The sizes of a valid node above the smallest universe: Universe(k) and Universe(k - 1) cluster slots. */
  lemma Shape(t: Tree)
    requires Valid(t) && t.u > 2
    ensures LevelOf(t.u) > 0 && t.u == Universe(LevelOf(t.u)) && |t.clusters| == Universe(LevelOf(t.u) - 1)
  {
    NodeFacts(t);
  }

  /** The summary of a valid node holds exactly the numbers of its non-empty clusters. */
  lemma SummaryLayout(t: Tree)
    requires Valid(t) && t.u > 2
    ensures |View(t)| == |t.clusters| < t.u && Summarizes(View(t), SummarySet(t))
  {
    var k := LevelOf(t.u);
    UniverseLeaf(k);
    assert ValidAt(t, k);
    assert Layout(k, t.min, Contents(t), View(t), SummarySet(t));
    UniverseMonotone(k - 1, k);
  }

  /** What Valid says of cluster slot i: nothing held when empty, otherwise a valid node one level down. */
  lemma ClusterValid(t: Tree, i: nat)
    requires Valid(t) && t.u > 2 && i < |t.clusters|
    ensures t.clusters[i].None? ==> View(t)[i] == {}
    ensures t.clusters[i].Some? ==>
      && Valid(t.clusters[i].value) && LevelOf(t.clusters[i].value.u) == LevelOf(t.u) - 1
      && View(t)[i] == Contents(t.clusters[i].value)
      && t.clusters[i].value.u == Universe(LevelOf(t.u) - 1)
  {
    var k := LevelOf(t.u);
    UniverseLeaf(k);
    if t.clusters[i].Some? {
      var ch := t.clusters[i].value;
      assert ValidAt(ch, k - 1);
      ValidAtLevel(ch, k - 1);
    } else {
      assert View(t)[i] == {};
    }
  }

  /** The min and the max of a valid node are among its keys. */
  lemma MinMaxHeld(t: Tree)
    requires Valid(t)
    ensures t.min.Some? ==> t.min.value in Contents(t)
    ensures t.max.Some? ==> t.max.value in Contents(t)
  {
    NodeFacts(t);
  }

  /** The min of a valid node is in range. */
  lemma MinInRange(t: Tree)
    requires Valid(t)
    ensures t.min.Some? ==> t.min.value < t.u
  {
    NodeFacts(t);
  }

  /** An in-range key splits into a cluster number and an offset that are both below the cluster count. */
  lemma SplitInRange(t: Tree, x: nat)
    requires Valid(t) && t.u > 2 && x < t.u
    ensures High(t.u, x) < |t.clusters| == |View(t)| && Low(t.u, x) < |t.clusters|
  {
    Shape(t);
    SplitRoundTrip(LevelOf(t.u), x);
  }

  /** A present cluster node is valid, one level down, and holds exactly its slot of the view. */
  lemma PresentCluster(t: Tree, c: nat)
    requires Valid(t) && t.u > 2 && c < |t.clusters| && t.clusters[c].Some?
    ensures Valid(t.clusters[c].value) && t.clusters[c].value.u == |t.clusters|
    ensures Contents(t.clusters[c].value) == View(t)[c]
  {
    Shape(t);
    ClusterValid(t, c);
  }

  /** Without a cluster max above offset lo, no offset of cluster h lies above lo. */
  lemma NothingAboveInCluster(t: Tree, h: nat, lo: nat)
    requires Valid(t) && t.u > 2 && h < |t.clusters|
    requires !(t.clusters[h].Some? && t.clusters[h].value.max.Some? && lo < t.clusters[h].value.max.value)
    ensures h < |View(t)| && forall l :: l in View(t)[h] ==> l <= lo
  {
    ClusterValid(t, h);
    if t.clusters[h].Some? {
      NodeFacts(t.clusters[h].value);
    }
  }

  /** Without a cluster min below offset lo, no offset of cluster h lies below lo. */
  lemma NothingBelowInCluster(t: Tree, h: nat, lo: nat)
    requires Valid(t) && t.u > 2 && h < |t.clusters|
    requires !(t.clusters[h].Some? && t.clusters[h].value.min.Some? && t.clusters[h].value.min.value < lo)
    ensures h < |View(t)| && forall l :: l in View(t)[h] ==> lo <= l
  {
    ClusterValid(t, h);
    if t.clusters[h].Some? {
      NodeFacts(t.clusters[h].value);
    }
  }

  /** A successor of low(x) inside cluster high(x) gives the successor of x (x is not below the min). */
  lemma SuccessorFromCluster(t: Tree, x: nat, off: nat)
    requires Valid(t) && t.u > 2 && x < t.u && (t.min.Some? ==> t.min.value <= x)
    requires High(t.u, x) < |t.clusters| && t.clusters[High(t.u, x)].Some?
    requires IsSuccessor(Contents(t.clusters[High(t.u, x)].value), Low(t.u, x), Some(off))
    ensures IsSuccessor(Contents(t), x, Some(Index(t.u, High(t.u, x), off)))
  {
    NodeFacts(t);
    ClusterValid(t, High(t.u, x));
    SuccessorInCluster(LevelOf(t.u), t.min, Contents(t), View(t), SummarySet(t), x, off);
  }

  /** A predecessor of low(x) inside cluster high(x) gives the predecessor of x. */
  lemma PredecessorFromCluster(t: Tree, x: nat, off: nat)
    requires Valid(t) && t.u > 2 && x < t.u
    requires High(t.u, x) < |t.clusters| && t.clusters[High(t.u, x)].Some?
    requires IsPredecessor(Contents(t.clusters[High(t.u, x)].value), Low(t.u, x), Some(off))
    ensures IsPredecessor(Contents(t), x, Some(Index(t.u, High(t.u, x), off)))
  {
    NodeFacts(t);
    ClusterValid(t, High(t.u, x));
    PredecessorInCluster(LevelOf(t.u), t.min, Contents(t), View(t), SummarySet(t), x, off);
  }

  /** What Valid says of a present summary. */
  lemma SummaryValid(t: Tree)
    requires Valid(t) && t.u > 2 && t.summary.Some?
    ensures Valid(t.summary.value) && LevelOf(t.summary.value.u) == LevelOf(t.u) - 1
    ensures SummarySet(t) == Contents(t.summary.value)
    ensures t.summary.value.u == Universe(LevelOf(t.u) - 1)
  {
    var k := LevelOf(t.u);
    UniverseLeaf(k);
    assert ValidAt(t.summary.value, k - 1);
    ValidAtLevel(t.summary.value, k - 1);
  }

  /** A cluster number held by the summary names a filled, non-empty cluster. */
  lemma SummaryEntry(t: Tree, c: nat)
    requires Valid(t) && t.u > 2 && c in SummarySet(t)
    ensures c < |t.clusters| && t.clusters[c].Some? && View(t)[c] != {}
    ensures Valid(t.clusters[c].value) && View(t)[c] == Contents(t.clusters[c].value)
    ensures Extremes(t.clusters[c].value.min, t.clusters[c].value.max, View(t)[c])
  {
    NodeFacts(t);
    assert Summarizes(View(t), SummarySet(t));
    ClusterValid(t, c);
  }

  /** getMin(): the least element, or None when the tree is empty. */
  function GetMin(t: Tree): (r: Option<nat>)
    requires Valid(t)
    ensures r.None? <==> Contents(t) == {}
    ensures r.Some? ==> r.value in Contents(t) && forall y :: y in Contents(t) ==> r.value <= y
  {
    t.min
  }

  /** getMax(): the greatest element, or None when the tree is empty. */
  function GetMax(t: Tree): (r: Option<nat>)
    requires Valid(t)
    ensures r.None? <==> Contents(t) == {}
    ensures r.Some? ==> r.value in Contents(t) && forall y :: y in Contents(t) ==> y <= r.value
  {
    t.max
  }

  /**
   * isMember(x): x is the min or the max, or, above the smallest universe, its
   * low half is a member of the cluster of its high half. A key whose cluster
   * number has no slot (x >= u) is no member.
   */
  function IsMember(t: Tree, x: nat): (r: bool)
    ensures t.min == Some(x) || t.max == Some(x) ==> r
    decreases t
  {
    if t.min == Some(x) || t.max == Some(x) then true
    else if t.u <= 2 then false
    else
      var h := High(t.u, x);
      if h >= |t.clusters| || t.clusters[h].None? then false
      else IsMember(t.clusters[h].value, Low(t.u, x))
  }

  /** On a valid tree, isMember answers exactly whether x is stored. */
  lemma {:induction false} IsMemberCorrect(t: Tree, x: nat)
    requires Valid(t)
    ensures IsMember(t, x) <==> x in Contents(t)
    decreases t
  {
    NodeFacts(t);
    if t.min == Some(x) || t.max == Some(x) {
    } else if t.u <= 2 {
    } else {
      MembershipInCluster(t, x);
      var h := High(t.u, x);
      if h < |t.clusters| && t.clusters[h].Some? {
        ClusterValid(t, h);
        IsMemberCorrect(t.clusters[h].value, Low(t.u, x));
      }
    }
  }

  /** Outside the min, x is in the tree exactly when its low half is in cluster high(x). */
  lemma MembershipInCluster(t: Tree, x: nat)
    requires Valid(t) && t.u > 2 && t.min != Some(x)
    ensures x in Contents(t) <==> High(t.u, x) < |View(t)| && Low(t.u, x) in View(t)[High(t.u, x)]
  {
    NodeFacts(t);
    SplitJoin(t.u, x);
    if x in Contents(t) {
      assert InCluster(LevelOf(t.u), View(t), x);
    }
  }

  /**
   * successor(x): the least element above x, or None. The smallest universe
   * answers directly; otherwise a key below the min has the min as successor,
   * then x's own cluster is searched when its max lies above low(x), and
   * failing that the next non-empty cluster, found through the summary,
   * supplies its min.
   */
  function Successor(t: Tree, x: nat): (r: Option<nat>)
    requires Valid(t) && x < t.u
    ensures IsSuccessor(Contents(t), x, r)
    decreases t, 2
  {
    NodeFacts(t);
    if t.u <= 2 then
      if x == 0 && t.max == Some(1) then Some(1) else None
    else if t.min.Some? && x < t.min.value then
      t.min
    else
      SplitInRange(t, x);
      var h, lo := High(t.u, x), Low(t.u, x);
      var maxLow := if t.clusters[h].Some? then t.clusters[h].value.max else None;
      if maxLow.Some? && lo < maxLow.value then
        SuccessorWithinCluster(t, x)
      else
        NothingAboveInCluster(t, h, lo);
        SuccessorPastCluster(t, x)
  }

  /** successor(x) when x's own cluster holds an offset above low(x): the answer lies in that cluster. */
  function SuccessorWithinCluster(t: Tree, x: nat): (r: Option<nat>)
    requires Valid(t) && t.u > 2 && x < t.u && (t.min.Some? ==> t.min.value <= x)
    requires High(t.u, x) < |t.clusters| && t.clusters[High(t.u, x)].Some?
    requires t.clusters[High(t.u, x)].value.max.Some? && Low(t.u, x) < t.clusters[High(t.u, x)].value.max.value
    ensures IsSuccessor(Contents(t), x, r)
    decreases t, 1
  {
    SplitInRange(t, x);
    var h, lo := High(t.u, x), Low(t.u, x);
    PresentCluster(t, h);
    var cl := t.clusters[h].value;
    MinMaxHeld(cl);
    var offset := Successor(cl, lo);
    SuccessorFromCluster(t, x, offset.value);
    Some(Index(t.u, h, offset.value))
  }

  /**
   * successor(x) when nothing in x's own cluster lies above low(x): the summary
   * names the next non-empty cluster, whose min completes the answer, or there
   * is none.
   */
  function SuccessorPastCluster(t: Tree, x: nat): (r: Option<nat>)
    requires Valid(t) && t.u > 2 && x < t.u && (t.min.Some? ==> t.min.value <= x)
    requires High(t.u, x) < |View(t)| && forall l :: l in View(t)[High(t.u, x)] ==> l <= Low(t.u, x)
    ensures IsSuccessor(Contents(t), x, r)
    decreases t, 1
  {
    var next := SummarySuccessor(t, High(t.u, x));
    if next.None? then
      SuccessorNone(LevelOf(t.u), t.min, Contents(t), View(t), SummarySet(t), x);
      None
    else
      SuccessorFromSummary(t, x, next.value);
      Some(Index(t.u, next.value, t.clusters[next.value].value.min.value))
  }

  /** When the summary names cluster sc as the next non-empty one, its min gives the successor. */
  lemma SuccessorFromSummary(t: Tree, x: nat, sc: nat)
    requires Valid(t) && t.u > 2 && x < t.u && (t.min.Some? ==> t.min.value <= x)
    requires High(t.u, x) < |View(t)| && forall l :: l in View(t)[High(t.u, x)] ==> l <= Low(t.u, x)
    requires IsSuccessor(SummarySet(t), High(t.u, x), Some(sc))
    ensures sc < |t.clusters| && t.clusters[sc].Some? && t.clusters[sc].value.min.Some?
    ensures IsSuccessor(Contents(t), x, Some(Index(t.u, sc, t.clusters[sc].value.min.value)))
  {
    NodeFacts(t);
    SummaryEntry(t, sc);
    var c := t.clusters[sc].value;
    SuccessorInLaterCluster(LevelOf(t.u), t.min, Contents(t), View(t), SummarySet(t), x, sc, c.min.value);
  }

  /** The summary's successor of cluster number h; a missing summary has none. */
  function SummarySuccessor(t: Tree, h: nat): (r: Option<nat>)
    requires Valid(t) && t.u > 2 && h < |t.clusters|
    ensures IsSuccessor(SummarySet(t), h, r)
    decreases t, 0
  {
    if t.summary.None? then None
    else
      NodeFacts(t);
      SummaryValid(t);
      Successor(t.summary.value, h)
  }

  /**
   * predecessor(x): the greatest element below x, or None; the mirror image of
   * Successor, except that when no cluster before x's is non-empty the min
   * answers if it lies below x.
   */
  function Predecessor(t: Tree, x: nat): (r: Option<nat>)
    requires Valid(t) && x < t.u
    ensures IsPredecessor(Contents(t), x, r)
    decreases t, 2
  {
    NodeFacts(t);
    if t.u <= 2 then
      if x == 1 && t.min == Some(0) then Some(0) else None
    else if t.max.Some? && x > t.max.value then
      t.max
    else
      SplitInRange(t, x);
      var h, lo := High(t.u, x), Low(t.u, x);
      var minLow := if t.clusters[h].Some? then t.clusters[h].value.min else None;
      if minLow.Some? && lo > minLow.value then
        PredecessorWithinCluster(t, x)
      else
        NothingBelowInCluster(t, h, lo);
        PredecessorBeforeCluster(t, x)
  }

  /**
   * predecessor(x) when x's own cluster has its min below low(x), so that the
   * cluster's predecessor of low(x) exists. The program falls back to
   * index(high(x), 0) when that predecessor is null; the fallback is kept as
   * the offset chosen for a missing answer, and it is never used.
   */
  function PredecessorWithinCluster(t: Tree, x: nat): (r: Option<nat>)
    requires Valid(t) && t.u > 2 && x < t.u
    requires High(t.u, x) < |t.clusters| && t.clusters[High(t.u, x)].Some?
    requires t.clusters[High(t.u, x)].value.min.Some? && t.clusters[High(t.u, x)].value.min.value < Low(t.u, x)
    ensures IsPredecessor(Contents(t), x, r)
    decreases t, 1
  {
    SplitInRange(t, x);
    var h, lo := High(t.u, x), Low(t.u, x);
    PresentCluster(t, h);
    var cl := t.clusters[h].value;
    MinMaxHeld(cl);
    var offset := Predecessor(cl, lo);
    var off := if offset.Some? then offset.value else 0;
    PredecessorFromCluster(t, x, off);
    Some(Index(t.u, h, off))
  }

  /**
   * predecessor(x) when nothing in x's own cluster lies below low(x): the
   * summary names the previous non-empty cluster, whose max completes the
   * answer; without one, the min answers if it lies below x.
   */
  function PredecessorBeforeCluster(t: Tree, x: nat): (r: Option<nat>)
    requires Valid(t) && t.u > 2 && x < t.u
    requires High(t.u, x) < |View(t)| && forall l :: l in View(t)[High(t.u, x)] ==> Low(t.u, x) <= l
    ensures IsPredecessor(Contents(t), x, r)
    decreases t, 1
  {
    var prev := SummaryPredecessor(t, High(t.u, x));
    if prev.Some? then
      PredecessorFromSummary(t, x, prev.value);
      Some(Index(t.u, prev.value, t.clusters[prev.value].value.max.value))
    else
      PredecessorFromMin(t, x);
      if t.min.Some? && x > t.min.value then t.min else None
  }

  /** When no cluster before x's is non-empty, only the min can precede x. */
  lemma PredecessorFromMin(t: Tree, x: nat)
    requires Valid(t) && t.u > 2 && x < t.u
    requires High(t.u, x) < |View(t)| && forall l :: l in View(t)[High(t.u, x)] ==> Low(t.u, x) <= l
    requires IsPredecessor(SummarySet(t), High(t.u, x), None)
    ensures t.min.Some? && x > t.min.value ==> IsPredecessor(Contents(t), x, t.min)
    ensures !(t.min.Some? && x > t.min.value) ==> IsPredecessor(Contents(t), x, None)
  {
    NodeFacts(t);
    PredecessorIsMin(LevelOf(t.u), t.min, Contents(t), View(t), SummarySet(t), x);
  }

  /** When the summary names cluster pc as the previous non-empty one, its max gives the predecessor. */
  lemma PredecessorFromSummary(t: Tree, x: nat, pc: nat)
    requires Valid(t) && t.u > 2 && x < t.u
    requires High(t.u, x) < |View(t)| && forall l :: l in View(t)[High(t.u, x)] ==> Low(t.u, x) <= l
    requires IsPredecessor(SummarySet(t), High(t.u, x), Some(pc))
    ensures pc < |t.clusters| && t.clusters[pc].Some? && t.clusters[pc].value.max.Some?
    ensures IsPredecessor(Contents(t), x, Some(Index(t.u, pc, t.clusters[pc].value.max.value)))
  {
    NodeFacts(t);
    SummaryEntry(t, pc);
    var c := t.clusters[pc].value;
    PredecessorInEarlierCluster(LevelOf(t.u), t.min, Contents(t), View(t), SummarySet(t), x, pc, c.max.value);
  }

  /** The summary's predecessor of cluster number h; a missing summary has none. */
  function SummaryPredecessor(t: Tree, h: nat): (r: Option<nat>)
    requires Valid(t) && t.u > 2 && h < |t.clusters|
    ensures IsPredecessor(SummarySet(t), h, r)
    decreases t, 0
  {
    if t.summary.None? then None
    else
      NodeFacts(t);
      SummaryValid(t);
      Predecessor(t.summary.value, h)
  }
}
