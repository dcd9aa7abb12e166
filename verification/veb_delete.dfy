/**
 * delete(x) of the van Emde Boas tree of JavaScript/van_emde_boas.js, on the
 * node values of module VanEmdeBoas: Delete returns the node the program's
 * method leaves behind.
 */
module VebDelete {
  import opened Wrappers
  import opened VebArith
  import opened VebLayout
  import opened VanEmdeBoas
  import opened VebUpdates

  /**
   * delete(x) of a key that is present: a node holding one element becomes
   * empty; the smallest universe keeps the other key; otherwise the element v
   * that leaves its cluster (x itself, or when x is the min, the least element
   * besides the min, which becomes the new min) is deleted from cluster
   * high(v), an emptied cluster's number leaves the summary, and the max is
   * recomputed when v was the max.
   */
  function Delete(t: Tree, x: nat): (r: Tree)
    requires Valid(t) && x in Contents(t)
    ensures Valid(r) && r.u == t.u && Contents(r) == Contents(t) - {x}
    decreases t, 2
  {
    NodeFacts(t);
    if t.min == t.max then
      var r := t.(min := None, max := None);
      DeleteLastValid(t, x, r);
      r
    else if t.u == 2 then
      var other := if x == 0 then 1 else 0;
      var r := t.(min := Some(other), max := Some(other));
      assert Contents(t) == {0, 1};
      assert ValidAt(r, 0);
      r
    else
      DeleteAbove(t, x)
  }

  /** Deleting the only element leaves a valid empty node. */
  lemma DeleteLastValid(t: Tree, x: nat, r: Tree)
    requires Valid(t) && x in Contents(t) && t.min == t.max
    requires r == t.(min := None, max := None)
    ensures Valid(r) && Contents(r) == Contents(t) - {x}
  {
    NodeFacts(t);
    var k := LevelOf(t.u);
    assert Contents(t) == {x};
    if k == 0 {
      assert ValidAt(r, 0);
    } else {
      SingleLayout(k, x, View(t), SummarySet(t));
      assert View(r) == View(t);
      SlotsOf(t);
      if t.summary.Some? {
        SummaryValid(t);
      }
      BuildValid(r, k, {});
    }
  }

  /**
   * delete(x) of a present key from a node above the smallest universe that
   * holds at least two elements.
   */
  function DeleteAbove(t: Tree, x: nat): (r: Tree)
    requires Valid(t) && t.u > 2 && x in Contents(t) && t.min != t.max
    ensures Valid(r) && r.u == t.u && Contents(r) == Contents(t) - {x}
    decreases t, 1
  {
    TwoKeys(t);
    var m := t.min.value;
    var v := if x == m then SecondKey(t) else x;
    var newMin := if x == m then v else m;
    DeleteSlot(t, v);
    var c, lo := High(t.u, v), Low(t.u, v);
    var cl' := ClusterDelete(t, c, lo);
    NoMinEmpty(cl');
    var sm' := if cl'.min.None? then Some(SummaryDelete(t, c)) else t.summary;
    var r0 := Tree(t.u, Some(newMin), t.max, sm', t.clusters[c := Some(cl')]);
    DeleteMaxReadable(t, c, cl', r0);
    var r := r0.(max := MaxAfterDelete(r0, v, t.max.value));
    assert DeleteStep(t, x, newMin, v, cl', r0);
    DeleteAboveValid(t, x, newMin, v, cl', r0, r);
    r
  }

  /** A node with min != max holds at least two elements, the min below the max. */
  lemma TwoKeys(t: Tree)
    requires Valid(t) && t.min != t.max
    ensures t.min.Some? && t.max.Some? && t.min.value < t.max.value
    ensures t.min.value in Contents(t) && t.max.value in Contents(t)
    ensures forall y :: y in Contents(t) ==> t.min.value <= y <= t.max.value
  {
    NodeFacts(t);
  }

  /**
   * firstCluster = summary.min; index(firstCluster, clusters[firstCluster].min):
   * the least element besides the min.
   */
  function SecondKey(t: Tree): (v: nat)
    requires Valid(t) && t.u > 2 && t.min != t.max
    ensures t.min.Some? && v in Contents(t) && t.min.value < v
    ensures forall y :: y in Contents(t) && y != t.min.value ==> v <= y
  {
    SecondKeyFacts(t);
    var fc := t.summary.value.min.value;
    Index(t.u, fc, t.clusters[fc].value.min.value)
  }

  lemma SecondKeyFacts(t: Tree)
    requires Valid(t) && t.u > 2 && t.min != t.max
    ensures t.min.Some? && t.summary.Some? && t.summary.value.min.Some?
    ensures t.summary.value.min.value < |t.clusters| && t.clusters[t.summary.value.min.value].Some?
    ensures t.clusters[t.summary.value.min.value].value.min.Some?
    ensures
      var fc := t.summary.value.min.value;
      var v := Index(t.u, fc, t.clusters[fc].value.min.value);
      v in Contents(t) && t.min.value < v && forall y :: y in Contents(t) && y != t.min.value ==> v <= y
  {
    NodeFacts(t);
    var k := LevelOf(t.u);
    var s := Contents(t);
    var m := t.min.value;
    SummaryNonEmpty(k, m, s, View(t), SummarySet(t), t.max.value);
    SummaryValid(t);
    var sm := t.summary.value;
    NodeFacts(sm);
    var fc := sm.min.value;
    SummaryEntry(t, fc);
    var cl := t.clusters[fc].value;
    SecondLeast(k, m, s, View(t), SummarySet(t), fc, cl.min.value);
  }

  /** An element other than the min sits in a cluster, whose number the summary holds. */
  lemma DeleteSlot(t: Tree, v: nat)
    requires Valid(t) && t.u > 2 && v in Contents(t) && t.min != Some(v)
    ensures High(t.u, v) < |t.clusters| && Low(t.u, v) in View(t)[High(t.u, v)]
    ensures High(t.u, v) in SummarySet(t)
  {
    NodeFacts(t);
    assert InCluster(LevelOf(t.u), View(t), v);
    assert Summarizes(View(t), SummarySet(t));
  }

  /** clusters[c].delete(lo): offset lo leaves cluster c, which holds it. */
  function ClusterDelete(t: Tree, c: nat, lo: nat): (r: Tree)
    requires Valid(t) && t.u > 2 && c < |t.clusters| && lo in View(t)[c]
    ensures Valid(r) && r.u == |t.clusters| && Contents(r) == View(t)[c] - {lo}
    decreases t, 0
  {
    ClusterValid(t, c);
    PresentCluster(t, c);
    Delete(t.clusters[c].value, lo)
  }

  /** summary.delete(c): the number of an emptied cluster leaves the summary. */
  function SummaryDelete(t: Tree, c: nat): (r: Tree)
    requires Valid(t) && t.u > 2 && c in SummarySet(t)
    ensures Valid(r) && r.u == |t.clusters| && Contents(r) == SummarySet(t) - {c}
    decreases t, 0
  {
    Shape(t);
    SummaryValid(t);
    Delete(t.summary.value, c)
  }

  /** The slots the max update of delete reads are present. */
  predicate MaxReadable(r0: Tree, c: nat)
  {
    && c < |r0.clusters| && r0.clusters[c].Some?
    && (r0.clusters[c].value.min.Some? ==> r0.clusters[c].value.max.Some?)
    && (r0.clusters[c].value.min.None? ==>
          && r0.summary.Some?
          && (r0.summary.value.max.Some? ==>
                && r0.summary.value.max.value < |r0.clusters|
                && r0.clusters[r0.summary.value.max.value].Some?
                && r0.clusters[r0.summary.value.max.value].value.max.Some?))
  }

  /**
   * The max after v left cluster high(v) of node r0, whose old max was
   * oldMax: when the cluster emptied and v was the max, the max is taken from
   * the last non-empty cluster (the summary's max), or is the min when there
   * is none; when the cluster kept elements and v was the max, it is the
   * cluster's max; otherwise the max stays.
   */
  function MaxAfterDelete(r0: Tree, v: nat, oldMax: nat): Option<nat>
    requires r0.u > 0 && MaxReadable(r0, High(r0.u, v))
  {
    var c := High(r0.u, v);
    var cl := r0.clusters[c].value;
    if cl.min.None? then
      if v == oldMax then
        var sm := r0.summary.value;
        if sm.max.None? then r0.min
        else Some(Index(r0.u, sm.max.value, r0.clusters[sm.max.value].value.max.value))
      else Some(oldMax)
    else if v == oldMax then Some(Index(r0.u, c, cl.max.value))
    else Some(oldMax)
  }

  /** After the cluster and summary deletes, the slots the max update reads are present. */
  lemma DeleteMaxReadable(t: Tree, c: nat, cl': Tree, r0: Tree)
    requires Valid(t) && t.u > 2 && c < |t.clusters| && Valid(cl')
    requires r0.clusters == t.clusters[c := Some(cl')]
    requires cl'.min.None? ==> r0.summary.Some? && Valid(r0.summary.value)
    requires cl'.min.None? ==> Contents(r0.summary.value) == SummarySet(t) - {c}
    ensures MaxReadable(r0, c)
  {
    NodeFacts(cl');
    if cl'.min.None? && r0.summary.value.max.Some? {
      var sc := r0.summary.value.max.value;
      MinMaxHeld(r0.summary.value);
      assert sc in SummarySet(t) && sc != c;
      SummaryEntry(t, sc);
      assert r0.clusters[sc] == t.clusters[sc];
    }
  }

  /**
   * The max MaxAfterDelete picks is the greatest element of the set s that
   * r0 stands for, given that every element of s is at most oldMax and that
   * oldMax is in s unless it was v.
   */
  lemma NewMaxExtremes(r0: Tree, k: nat, s: set<nat>, v: nat, oldMax: nat)
    requires k > 0 && r0.u == Universe(k) && r0.min.Some?
    requires Layout(k, r0.min, s, View(r0), SummarySet(r0)) && Below(s, r0.u)
    requires r0.min.value in s && forall y :: y in s ==> r0.min.value <= y
    requires ValidSlots(r0.clusters, |r0.clusters|)
    requires r0.summary.Some? ==> Valid(r0.summary.value)
    requires v < r0.u && MaxReadable(r0, High(r0.u, v))
    requires (forall y :: y in s ==> y <= oldMax) && (v != oldMax ==> oldMax in s)
    ensures Extremes(r0.min, MaxAfterDelete(r0, v, oldMax), s)
  {
    var c := High(r0.u, v);
    var cl := r0.clusters[c].value;
    var mn := r0.min.value;
    NodeFacts(cl);
    if cl.min.None? {
      if v == oldMax {
        var sm := r0.summary.value;
        NodeFacts(sm);
        if sm.max.None? {
          OnlyMin(k, mn, s, View(r0));
        } else {
          var sc := sm.max.value;
          NodeFacts(r0.clusters[sc].value);
          LastInLastCluster(k, mn, s, View(r0), SummarySet(r0), sc, r0.clusters[sc].value.max.value);
        }
      }
    } else if v == oldMax {
      LastInCluster(k, mn, s, View(r0), SummarySet(r0), v, cl.max.value);
    }
  }

  /**
   * The state of delete above the smallest universe once the cluster (and,
   * for an emptied cluster, the summary) delete is done: v left cluster
   * high(v), newMin is the new min, and r0 is the node before its max is
   * updated.
   */
  ghost predicate DeleteStep(t: Tree, x: nat, newMin: nat, v: nat, cl': Tree, r0: Tree)
  {
    var ok :=
      && Valid(t) && t.u > 2 && x in Contents(t) && t.min.Some? && t.max.Some? && t.min != t.max
      && (x == t.min.value ==> newMin == v && v in Contents(t) && v != t.min.value)
      && (x == t.min.value ==> forall y :: y in Contents(t) && y != t.min.value ==> v <= y)
      && (x != t.min.value ==> newMin == t.min.value && v == x)
      && High(t.u, v) < |t.clusters|
      && Valid(cl') && cl'.u == |t.clusters| && Contents(cl') == View(t)[High(t.u, v)] - {Low(t.u, v)}
      && r0.u == t.u && r0.min == Some(newMin) && r0.clusters == t.clusters[High(t.u, v) := Some(cl')]
      && (cl'.min.None? ==> r0.summary.Some? && Valid(r0.summary.value) && r0.summary.value.u == |t.clusters|)
      && (cl'.min.None? ==> Contents(r0.summary.value) == SummarySet(t) - {High(t.u, v)})
      && (cl'.min.Some? ==> r0.summary == t.summary);
    ok
  }

  /** The node delete leaves behind above the smallest universe is valid and holds one element less. */
  lemma DeleteAboveValid(t: Tree, x: nat, newMin: nat, v: nat, cl': Tree, r0: Tree, r: Tree)
    requires DeleteStep(t, x, newMin, v, cl', r0)
    requires MaxReadable(r0, High(t.u, v))
    requires r == r0.(max := MaxAfterDelete(r0, v, t.max.value))
    ensures Valid(r) && Contents(r) == Contents(t) - {x}
  {
    DeleteAboveReady(t, x, newMin, v, cl', r0);
    DeleteFinish(r0, r, LevelOf(t.u), Contents(t) - {x}, v, t.max.value);
  }

  /**
   * What the max update needs of r0 at level k: the layout of s with the
   * min in place, valid children one level down, v in range, and every
   * element of s at most oldMax, which s holds unless it was v.
   */
  ghost predicate FinishReady(r0: Tree, k: nat, s: set<nat>, v: nat, oldMax: nat)
  {
    var ok :=
      && k > 0 && r0.u == Universe(k) && |r0.clusters| == Universe(k - 1) && r0.min.Some?
      && Layout(k, r0.min, s, View(r0), SummarySet(r0)) && Below(s, r0.u)
      && r0.min.value in s && (forall y :: y in s ==> r0.min.value <= y)
      && ValidSlots(r0.clusters, Universe(k - 1))
      && (r0.summary.Some? ==> Valid(r0.summary.value) && r0.summary.value.u == Universe(k - 1))
      && v < r0.u
      && (forall y :: y in s ==> y <= oldMax) && (v != oldMax ==> oldMax in s);
    ok
  }

  /** With the layout, the children and the max in place, the node delete leaves behind is valid. */
  lemma DeleteFinish(r0: Tree, r: Tree, k: nat, s: set<nat>, v: nat, oldMax: nat)
    requires FinishReady(r0, k, s, v, oldMax)
    requires r0.u > 0 && MaxReadable(r0, High(r0.u, v))
    requires r == r0.(max := MaxAfterDelete(r0, v, oldMax))
    ensures Valid(r) && Contents(r) == s
  {
    NewMaxExtremes(r0, k, s, v, oldMax);
    assert View(r) == View(r0);
    BuildValid(r, k, s);
  }

  /** After the cluster and summary deletes, r0 is ready for the max update. */
  lemma DeleteAboveReady(t: Tree, x: nat, newMin: nat, v: nat, cl': Tree, r0: Tree)
    requires DeleteStep(t, x, newMin, v, cl', r0)
    ensures FinishReady(r0, LevelOf(t.u), Contents(t) - {x}, v, t.max.value)
  {
    NodeFacts(t);
    var k := LevelOf(t.u);
    var c := High(t.u, v);
    DeleteLayout(k, t.min.value, Contents(t), View(t), SummarySet(t), x, newMin, v);
    ViewUpdate(t, r0, c, cl');
    NoMinEmpty(cl');
    DeleteChildren(t, c, cl', r0);
  }

  /** After the cluster and summary deletes, the children of the node are valid one level down. */
  lemma DeleteChildren(t: Tree, c: nat, cl': Tree, r0: Tree)
    requires Valid(t) && t.u > 2 && c < |t.clusters| && Valid(cl') && cl'.u == |t.clusters|
    requires r0.clusters == t.clusters[c := Some(cl')]
    requires r0.summary != t.summary ==> r0.summary.Some? && Valid(r0.summary.value) && r0.summary.value.u == |t.clusters|
    ensures LevelOf(t.u) > 0 && t.u == Universe(LevelOf(t.u)) && |r0.clusters| == Universe(LevelOf(t.u) - 1)
    ensures ValidSlots(r0.clusters, Universe(LevelOf(t.u) - 1))
    ensures r0.summary.Some? ==> Valid(r0.summary.value) && r0.summary.value.u == Universe(LevelOf(t.u) - 1)
  {
    Shape(t);
    SlotsOf(t);
    SlotsUpdate(t.clusters, |t.clusters|, c, cl');
    if r0.summary.Some? && r0.summary == t.summary {
      SummaryValid(t);
    }
  }
}
