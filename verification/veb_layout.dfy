/**
 * How one level of a van Emde Boas tree stores its set, stated on plain values:
 * the cached minimum, the sets held by the clusters and the set held by the
 * summary. The tree nodes of modules VanEmdeBoas and VebUpdates are related to
 * these values, and the lemmas here carry the set-level reasoning of their
 * operations.
 */
module VebLayout {
  import opened Wrappers
  import opened VebArith

  /** Every element of s is below n. */
  ghost predicate Below(s: set<nat>, n: nat)
  {
    forall y :: y in s ==> y < n
  }

  /**
   * The cached min and max agree with the set: both absent exactly when it is
   * empty, otherwise its least and its greatest element.
   */
  ghost predicate Extremes(min: Option<nat>, max: Option<nat>, s: set<nat>)
  {
    var ok :=
      && (min.None? <==> s == {})
      && (max.None? <==> s == {})
      && (min.Some? ==> min.value in s && forall y :: y in s ==> min.value <= y)
      && (max.Some? ==> max.value in s && forall y :: y in s ==> y <= max.value);
    ok
  }

  /** r is the least element of s above x, or None when s has none. */
  ghost predicate IsSuccessor(s: set<nat>, x: nat, r: Option<nat>)
  {
    match r
    case Some(y) => y in s && x < y && forall z :: z in s && x < z ==> y <= z
    case None => forall z :: z in s ==> z <= x
  }

  /** r is the greatest element of s below x, or None when s has none. */
  ghost predicate IsPredecessor(s: set<nat>, x: nat, r: Option<nat>)
  {
    match r
    case Some(y) => y in s && y < x && forall z :: z in s && z < x ==> z <= y
    case None => forall z :: z in s ==> x <= z
  }

  /**
   * The layout of a level k > 0 (universe Universe(k), root |view| == Universe(k - 1))
   * holding the set s, in three parts: Members, Entries and Summarizes.
   */
  ghost predicate Layout(k: nat, min: Option<nat>, s: set<nat>, view: seq<set<nat>>, summary: set<nat>)
    requires k > 0
  {
    var ok :=
      && |view| == Universe(k - 1)
      && Members(k, min, s, view)
      && Entries(k, min, s, view)
      && Summarizes(view, summary);
    ok
  }

  /** Every element other than the cached min sits, split into high and low, in its cluster. */
  ghost predicate Members(k: nat, min: Option<nat>, s: set<nat>, view: seq<set<nat>>)
    requires k > 0
  {
    forall y :: y in s ==> min == Some(y) || InCluster(k, view, y)
  }

  /**
   * Every cluster entry stands for an element of s strictly above the min, so the
   * min itself is never stored in a cluster.
   */
  ghost predicate Entries(k: nat, min: Option<nat>, s: set<nat>, view: seq<set<nat>>)
    requires k > 0
  {
    forall i, l :: 0 <= i < |view| && l in view[i] ==>
      && l < |view|
      && Index(Universe(k), i, l) in s
      && min.Some? && min.value < Index(Universe(k), i, l)
  }

  /** The summary holds exactly the numbers of the non-empty clusters. */
  ghost predicate Summarizes(view: seq<set<nat>>, summary: set<nat>)
  {
    && (forall i :: 0 <= i < |view| ==> (i in summary <==> view[i] != {}))
    && Below(summary, |view|)
  }

  /** y is stored, split into high and low, in the cluster of number high(y). */
  ghost predicate InCluster(k: nat, view: seq<set<nat>>, y: nat)
    requires k > 0
  {
    var u := Universe(k);
    High(u, y) < |view| && Low(u, y) in view[High(u, y)]
  }

  /** An empty level has empty clusters and an empty summary. */
  lemma EmptyLayout(k: nat, view: seq<set<nat>>, summary: set<nat>)
    requires k > 0 && Layout(k, None, {}, view, summary)
    ensures forall i :: 0 <= i < |view| ==> view[i] == {}
    ensures summary == {}
  {
  }

  /** The first element of an empty level goes to the min only (emptyVEBInsert). */
  lemma EmptyInsertLayout(k: nat, view: seq<set<nat>>, summary: set<nat>, x: nat)
    requires k > 0 && Layout(k, None, {}, view, summary)
    ensures Layout(k, Some(x), {x}, view, summary)
  {
    EmptyLayout(k, view, summary);
  }

  /**
   * Inserting x into a non-empty level with min m: the smaller of x and m becomes the
   * min and the other one, v, goes into cluster c == high(v) at offset lo == low(v),
   * which did not hold it yet; the summary gains c, which it lacked exactly when that
   * cluster was empty.
   */
  lemma InsertLayout(k: nat, m: nat, s: set<nat>, view: seq<set<nat>>, summary: set<nat>,
                     x: nat, newMin: nat, v: nat, c: nat, lo: nat)
    requires k > 0 && Layout(k, Some(m), s, view, summary)
    requires m in s && (forall y :: y in s ==> m <= y) && Below(s, Universe(k))
    requires x < Universe(k) && x !in s
    requires if x < m then newMin == x && v == m else newMin == m && v == x
    requires c == High(Universe(k), v) && lo == Low(Universe(k), v)
    ensures c < |view| && lo < |view| && lo !in view[c]
    ensures view[c] == {} <==> c !in summary
    ensures Layout(k, Some(newMin), s + {x}, view[c := view[c] + {lo}], summary + {c})
  {
    SplitRoundTrip(k, v);
    InsertKeepsMembers(k, m, s, view, summary, x, newMin, v, c, lo);
    InsertKeepsEntries(k, m, s, view, summary, x, newMin, v, c, lo);
    InsertKeepsSummary(view, summary, c, lo);
  }

  lemma InsertKeepsMembers(k: nat, m: nat, s: set<nat>, view: seq<set<nat>>, summary: set<nat>,
                           x: nat, newMin: nat, v: nat, c: nat, lo: nat)
    requires k > 0 && Members(k, Some(m), s, view)
    requires x !in s && m in s
    requires if x < m then newMin == x && v == m else newMin == m && v == x
    requires c == High(Universe(k), v) && lo == Low(Universe(k), v) && c < |view|
    ensures Members(k, Some(newMin), s + {x}, view[c := view[c] + {lo}])
  {
    var u := Universe(k);
    var view' := view[c := view[c] + {lo}];
    assert InCluster(k, view', v);
    forall y | y in s && y != m
      ensures InCluster(k, view', y)
    {
      assert InCluster(k, view, y);
      var h := High(u, y);
      assert view'[h] == if h == c then view[c] + {lo} else view[h];
    }
  }

  lemma InsertKeepsEntries(k: nat, m: nat, s: set<nat>, view: seq<set<nat>>, summary: set<nat>,
                           x: nat, newMin: nat, v: nat, c: nat, lo: nat)
    requires k > 0 && Layout(k, Some(m), s, view, summary)
    requires x !in s && m in s
    requires if x < m then newMin == x && v == m else newMin == m && v == x
    requires c < |view| && lo < |view| && Index(Universe(k), c, lo) == v
    ensures lo !in view[c]
    ensures Entries(k, Some(newMin), s + {x}, view[c := view[c] + {lo}])
  {
    var u := Universe(k);
    var view' := view[c := view[c] + {lo}];
    forall i, l | 0 <= i < |view'| && l in view'[i]
      ensures l < |view'| && Index(u, i, l) in s + {x} && newMin < Index(u, i, l)
    {
      if i != c || l != lo {
        assert l in view[i];
      }
    }
  }

  lemma InsertKeepsSummary(view: seq<set<nat>>, summary: set<nat>, c: nat, lo: nat)
    requires Summarizes(view, summary) && c < |view|
    ensures view[c] == {} <==> c !in summary
    ensures Summarizes(view[c := view[c] + {lo}], summary + {c})
  {
  }

  /**
   * The least element of a level other than its min sits in the first non-empty
   * cluster fc (the summary's min), at that cluster's least offset lmin.
   */
  lemma SecondLeast(k: nat, m: nat, s: set<nat>, view: seq<set<nat>>, summary: set<nat>,
                    fc: nat, lmin: nat)
    requires k > 0 && Layout(k, Some(m), s, view, summary) && Below(s, Universe(k))
    requires fc in summary && (forall i :: i in summary ==> fc <= i)
    requires lmin in view[fc] && (forall l :: l in view[fc] ==> lmin <= l)
    ensures Index(Universe(k), fc, lmin) in s && m < Index(Universe(k), fc, lmin)
    ensures forall y :: y in s && y != m ==> Index(Universe(k), fc, lmin) <= y
  {
    var u := Universe(k);
    UniverseRoot(k);
    forall y | y in s && y != m
      ensures Index(u, fc, lmin) <= y
    {
      assert InCluster(k, view, y);
      SplitRoundTrip(k, y);
      IndexOrder(u, High(u, y), Low(u, y), fc, lmin);
    }
  }

  /** A level holding something besides its min has a non-empty summary. */
  lemma SummaryNonEmpty(k: nat, m: nat, s: set<nat>, view: seq<set<nat>>, summary: set<nat>, y: nat)
    requires k > 0 && Layout(k, Some(m), s, view, summary)
    requires y in s && y != m
    ensures High(Universe(k), y) in summary
  {
    assert InCluster(k, view, y);
  }

  /**
   * Deleting x from a level holding at least two elements, with min m: v is the
   * element that leaves its cluster (x itself, or when x is the min, the second
   * least element, which becomes the min); its offset goes from cluster high(v),
   * and the summary drops high(v) once that cluster is empty.
   */
  lemma DeleteLayout(k: nat, m: nat, s: set<nat>, view: seq<set<nat>>, summary: set<nat>,
                     x: nat, newMin: nat, v: nat)
    requires k > 0 && Layout(k, Some(m), s, view, summary) && Below(s, Universe(k))
    requires m in s && (forall y :: y in s ==> m <= y)
    requires x in s && v in s && v != m
    requires x == m ==> newMin == v && forall y :: y in s && y != m ==> v <= y
    requires x != m ==> newMin == m && v == x
    ensures High(Universe(k), v) < |view|
    ensures Low(Universe(k), v) in view[High(Universe(k), v)]
    ensures newMin in s - {x} && forall y :: y in s - {x} ==> newMin <= y
    ensures
      var c := High(Universe(k), v);
      var view' := view[c := view[c] - {Low(Universe(k), v)}];
      Layout(k, Some(newMin), s - {x}, view', if view'[c] == {} then summary - {c} else summary)
  {
    var u := Universe(k);
    var c, lo := High(u, v), Low(u, v);
    assert InCluster(k, view, v);
    SplitRoundTrip(k, v);
    DeleteNewMin(m, s, x, newMin, v);
    var view' := view[c := view[c] - {lo}];
    DeleteKeepsMembers(k, m, s, view, x, newMin, v, c, lo);
    DeleteKeepsEntries(k, m, s, view, x, newMin, v, c, lo);
    DeleteKeepsSummary(view, summary, c, lo);
    assert Layout(k, Some(newMin), s - {x}, view', if view'[c] == {} then summary - {c} else summary);
  }

  /** The new min of delete is the least element left. */
  lemma DeleteNewMin(m: nat, s: set<nat>, x: nat, newMin: nat, v: nat)
    requires m in s && (forall y :: y in s ==> m <= y)
    requires x in s && v in s && v != m
    requires x == m ==> newMin == v && forall y :: y in s && y != m ==> v <= y
    requires x != m ==> newMin == m && v == x
    ensures newMin in s - {x} && forall y :: y in s - {x} ==> newMin <= y
  {
  }

  lemma DeleteKeepsMembers(k: nat, m: nat, s: set<nat>, view: seq<set<nat>>,
                           x: nat, newMin: nat, v: nat, c: nat, lo: nat)
    requires k > 0 && Members(k, Some(m), s, view) && Below(s, Universe(k))
    requires x in s && v != m && v < Universe(k)
    requires x == m ==> newMin == v
    requires x != m ==> newMin == m && v == x
    requires c == High(Universe(k), v) && lo == Low(Universe(k), v) && c < |view|
    ensures Members(k, Some(newMin), s - {x}, view[c := view[c] - {lo}])
  {
    var u := Universe(k);
    var view' := view[c := view[c] - {lo}];
    SplitRoundTrip(k, v);
    forall y | y in s && y != m && y != v
      ensures InCluster(k, view', y)
    {
      assert InCluster(k, view, y);
      SplitRoundTrip(k, y);
      var h := High(u, y);
      assert view'[h] == if h == c then view[c] - {lo} else view[h];
    }
  }

  lemma DeleteKeepsEntries(k: nat, m: nat, s: set<nat>, view: seq<set<nat>>,
                           x: nat, newMin: nat, v: nat, c: nat, lo: nat)
    requires k > 0 && |view| == Universe(k - 1) && Entries(k, Some(m), s, view)
    requires m in s && (forall y :: y in s ==> m <= y)
    requires x in s && v in s && v != m
    requires x == m ==> newMin == v && forall y :: y in s && y != m ==> v <= y
    requires x != m ==> newMin == m && v == x
    requires c < |view| && lo < |view| && Index(Universe(k), c, lo) == v
    ensures Entries(k, Some(newMin), s - {x}, view[c := view[c] - {lo}])
  {
    var u := Universe(k);
    var view' := view[c := view[c] - {lo}];
    forall i, l | 0 <= i < |view'| && l in view'[i]
      ensures l < |view'| && Index(u, i, l) in s - {x} && newMin < Index(u, i, l)
    {
      assert l in view[i];
      IndexRoundTrip(k, i, l);
      IndexRoundTrip(k, c, lo);
      assert Index(u, i, l) != v;
    }
  }

  lemma DeleteKeepsSummary(view: seq<set<nat>>, summary: set<nat>, c: nat, lo: nat)
    requires Summarizes(view, summary) && c < |view| && lo in view[c]
    ensures
      var view' := view[c := view[c] - {lo}];
      Summarizes(view', if view'[c] == {} then summary - {c} else summary)
  {
  }

  /** A level holding only its min has empty clusters, so dropping the min leaves the empty layout. */
  lemma SingleLayout(k: nat, m: nat, view: seq<set<nat>>, summary: set<nat>)
    requires k > 0 && Layout(k, Some(m), {m}, view, summary)
    ensures Layout(k, None, {}, view, summary)
  {
    assert forall i :: 0 <= i < |view| ==> view[i] == {};
  }

  /** A level whose summary is empty holds nothing besides its min. */
  lemma OnlyMin(k: nat, mn: nat, s: set<nat>, view: seq<set<nat>>)
    requires k > 0 && Layout(k, Some(mn), s, view, {}) && mn in s
    ensures s == {mn}
  {
    assert forall y :: y in s ==> y == mn || InCluster(k, view, y);
  }

  /**
   * The greatest element of a level with a non-empty summary sits in the last
   * non-empty cluster sc (the summary's max), at that cluster's greatest offset
   * lmax.
   */
  lemma LastInLastCluster(k: nat, mn: nat, s: set<nat>, view: seq<set<nat>>, summary: set<nat>,
                          sc: nat, lmax: nat)
    requires k > 0 && Layout(k, Some(mn), s, view, summary) && Below(s, Universe(k))
    requires sc in summary && (forall i :: i in summary ==> i <= sc)
    requires lmax in view[sc] && (forall l :: l in view[sc] ==> l <= lmax)
    ensures Index(Universe(k), sc, lmax) in s && mn < Index(Universe(k), sc, lmax)
    ensures forall y :: y in s ==> y <= Index(Universe(k), sc, lmax)
  {
    var u := Universe(k);
    UniverseRoot(k);
    forall y | y in s && y != mn
      ensures y <= Index(u, sc, lmax)
    {
      assert InCluster(k, view, y);
      SplitRoundTrip(k, y);
      IndexOrder(u, sc, lmax, High(u, y), Low(u, y));
    }
  }

  /**
   * When every element is at most M and M's cluster c is non-empty, the
   * greatest element sits in cluster c, at its greatest offset lmax.
   */
  lemma LastInCluster(k: nat, mn: nat, s: set<nat>, view: seq<set<nat>>, summary: set<nat>,
                      M: nat, lmax: nat)
    requires k > 0 && Layout(k, Some(mn), s, view, summary) && Below(s, Universe(k))
    requires M < Universe(k) && (forall y :: y in s ==> y <= M)
    requires High(Universe(k), M) < |view|
    requires lmax in view[High(Universe(k), M)] && (forall l :: l in view[High(Universe(k), M)] ==> l <= lmax)
    ensures Index(Universe(k), High(Universe(k), M), lmax) in s
    ensures forall y :: y in s ==> y <= Index(Universe(k), High(Universe(k), M), lmax)
  {
    var u := Universe(k);
    var c := High(u, M);
    UniverseRoot(k);
    SplitRoundTrip(k, M);
    forall y | y in s && y != mn
      ensures y <= Index(u, c, lmax)
    {
      assert InCluster(k, view, y);
      SplitRoundTrip(k, y);
      IndexOrder(u, c, Low(u, M), High(u, y), Low(u, y));
      IndexOrder(u, c, lmax, High(u, y), Low(u, y));
    }
  }

  /** Fresh empty cluster slots with no summary lay out the empty set. */
  lemma EmptySlotsLayout(k: nat, view: seq<set<nat>>)
    requires k > 0 && |view| == Universe(k - 1)
    requires forall i :: 0 <= i < |view| ==> view[i] == {}
    ensures Layout(k, None, {}, view, {})
  {
  }

  /**
   * successor, when x's own cluster h == high(x) holds an offset above low(x):
   * the least such offset off gives the answer index(h, off).
   */
  lemma SuccessorInCluster(k: nat, min: Option<nat>, s: set<nat>, view: seq<set<nat>>, summary: set<nat>,
                           x: nat, off: nat)
    requires k > 0 && Layout(k, min, s, view, summary) && Below(s, Universe(k))
    requires x < Universe(k) && (min.Some? ==> min.value <= x)
    requires High(Universe(k), x) < |view|
    requires IsSuccessor(view[High(Universe(k), x)], Low(Universe(k), x), Some(off))
    ensures IsSuccessor(s, x, Some(Index(Universe(k), High(Universe(k), x), off)))
  {
    var u := Universe(k);
    var h, lo := High(u, x), Low(u, x);
    SplitRoundTrip(k, x);
    UniverseRoot(k);
    IndexOrder(u, h, lo, h, off);
    forall z | z in s && x < z
      ensures Index(u, h, off) <= z
    {
      assert InCluster(k, view, z);
      SplitRoundTrip(k, z);
      IndexOrder(u, h, lo, High(u, z), Low(u, z));
      IndexOrder(u, High(u, z), Low(u, z), h, off);
    }
  }

  /**
   * successor, when nothing in x's own cluster h lies above low(x): the answer
   * is the least offset off of the next non-empty cluster sc, found through the
   * summary.
   */
  lemma SuccessorInLaterCluster(k: nat, min: Option<nat>, s: set<nat>, view: seq<set<nat>>, summary: set<nat>,
                                x: nat, sc: nat, off: nat)
    requires k > 0 && Layout(k, min, s, view, summary) && Below(s, Universe(k))
    requires x < Universe(k) && (min.Some? ==> min.value <= x)
    requires High(Universe(k), x) < |view|
    requires forall l :: l in view[High(Universe(k), x)] ==> l <= Low(Universe(k), x)
    requires IsSuccessor(summary, High(Universe(k), x), Some(sc))
    requires sc < |view| && off in view[sc] && forall l :: l in view[sc] ==> off <= l
    ensures IsSuccessor(s, x, Some(Index(Universe(k), sc, off)))
  {
    var u := Universe(k);
    var h, lo := High(u, x), Low(u, x);
    SplitRoundTrip(k, x);
    UniverseRoot(k);
    IndexOrder(u, h, lo, sc, off);
    forall z | z in s && x < z
      ensures Index(u, sc, off) <= z
    {
      assert InCluster(k, view, z);
      SplitRoundTrip(k, z);
      IndexOrder(u, h, lo, High(u, z), Low(u, z));
      IndexOrder(u, High(u, z), Low(u, z), sc, off);
    }
  }

  /** successor, when neither x's cluster nor any later cluster holds anything: there is none. */
  lemma SuccessorNone(k: nat, min: Option<nat>, s: set<nat>, view: seq<set<nat>>, summary: set<nat>, x: nat)
    requires k > 0 && Layout(k, min, s, view, summary) && Below(s, Universe(k))
    requires x < Universe(k) && (min.Some? ==> min.value <= x)
    requires High(Universe(k), x) < |view|
    requires forall l :: l in view[High(Universe(k), x)] ==> l <= Low(Universe(k), x)
    requires IsSuccessor(summary, High(Universe(k), x), None)
    ensures IsSuccessor(s, x, None)
  {
    var u := Universe(k);
    var h, lo := High(u, x), Low(u, x);
    SplitRoundTrip(k, x);
    UniverseRoot(k);
    forall z | z in s
      ensures z <= x
    {
      if min != Some(z) {
        assert InCluster(k, view, z);
        SplitRoundTrip(k, z);
        IndexOrder(u, h, lo, High(u, z), Low(u, z));
      }
    }
  }

  /**
   * predecessor, when x's own cluster h == high(x) holds an offset below low(x):
   * the greatest such offset off gives the answer index(h, off).
   */
  lemma PredecessorInCluster(k: nat, min: Option<nat>, s: set<nat>, view: seq<set<nat>>, summary: set<nat>,
                             x: nat, off: nat)
    requires k > 0 && Layout(k, min, s, view, summary) && Below(s, Universe(k))
    requires x < Universe(k) && High(Universe(k), x) < |view|
    requires IsPredecessor(view[High(Universe(k), x)], Low(Universe(k), x), Some(off))
    ensures IsPredecessor(s, x, Some(Index(Universe(k), High(Universe(k), x), off)))
  {
    var u := Universe(k);
    var h, lo := High(u, x), Low(u, x);
    SplitRoundTrip(k, x);
    UniverseRoot(k);
    IndexOrder(u, h, off, h, lo);
    forall z | z in s && z < x
      ensures z <= Index(u, h, off)
    {
      if min != Some(z) {
        assert InCluster(k, view, z);
        SplitRoundTrip(k, z);
        IndexOrder(u, High(u, z), Low(u, z), h, lo);
        IndexOrder(u, h, off, High(u, z), Low(u, z));
      }
    }
  }

  /**
   * predecessor, when nothing in x's own cluster h lies below low(x): the answer
   * is the greatest offset off of the previous non-empty cluster pc, found
   * through the summary.
   */
  lemma PredecessorInEarlierCluster(k: nat, min: Option<nat>, s: set<nat>, view: seq<set<nat>>, summary: set<nat>,
                                    x: nat, pc: nat, off: nat)
    requires k > 0 && Layout(k, min, s, view, summary) && Below(s, Universe(k))
    requires x < Universe(k) && High(Universe(k), x) < |view|
    requires forall l :: l in view[High(Universe(k), x)] ==> Low(Universe(k), x) <= l
    requires IsPredecessor(summary, High(Universe(k), x), Some(pc))
    requires pc < |view| && off in view[pc] && forall l :: l in view[pc] ==> l <= off
    ensures IsPredecessor(s, x, Some(Index(Universe(k), pc, off)))
  {
    var u := Universe(k);
    var h, lo := High(u, x), Low(u, x);
    SplitRoundTrip(k, x);
    UniverseRoot(k);
    IndexOrder(u, pc, off, h, lo);
    forall z | z in s && z < x
      ensures z <= Index(u, pc, off)
    {
      if min != Some(z) {
        assert InCluster(k, view, z);
        SplitRoundTrip(k, z);
        IndexOrder(u, High(u, z), Low(u, z), h, lo);
        IndexOrder(u, pc, off, High(u, z), Low(u, z));
      }
    }
  }

  /**
   * predecessor, when neither x's cluster nor any earlier cluster holds anything
   * below x: only the min can precede x.
   */
  lemma PredecessorIsMin(k: nat, min: Option<nat>, s: set<nat>, view: seq<set<nat>>, summary: set<nat>, x: nat)
    requires k > 0 && Layout(k, min, s, view, summary) && Below(s, Universe(k))
    requires x < Universe(k) && High(Universe(k), x) < |view|
    requires forall l :: l in view[High(Universe(k), x)] ==> Low(Universe(k), x) <= l
    requires IsPredecessor(summary, High(Universe(k), x), None)
    requires min.None? ==> s == {}
    requires min.Some? ==> min.value in s
    ensures IsPredecessor(s, x, if min.Some? && x > min.value then min else None)
  {
    var u := Universe(k);
    var h, lo := High(u, x), Low(u, x);
    SplitRoundTrip(k, x);
    UniverseRoot(k);
    forall z | z in s && min != Some(z)
      ensures x <= z
    {
      assert InCluster(k, view, z);
      SplitRoundTrip(k, z);
      IndexOrder(u, High(u, z), Low(u, z), h, lo);
    }
  }

  /** The keys the clusters stand for: index(i, l) for every offset l held by cluster i. */
  ghost function Keys(u: nat, view: seq<set<nat>>): set<nat>
  {
    set i, l | 0 <= i < |view| && l in view[i] :: Index(u, i, l)
  }

  /** Under the layout, the clusters stand for everything but the min. */
  lemma LayoutKeys(k: nat, min: Option<nat>, s: set<nat>, view: seq<set<nat>>, summary: set<nat>)
    requires k > 0 && Layout(k, min, s, view, summary)
    requires min.Some? ==> min.value in s
    ensures Keys(Universe(k), view) == if min.Some? then s - {min.value} else s
    ensures min.None? ==> s == {}
  {
    var u := Universe(k);
    forall y | y in s && min != Some(y)
      ensures y in Keys(u, view)
    {
      assert InCluster(k, view, y);
      SplitJoin(u, y);
    }
  }
}
