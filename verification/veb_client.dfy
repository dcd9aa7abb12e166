/**
 * What a caller of the van Emde Boas tree sees: the duplicate-insert defect
 * of insert as written, the membership-guarded insert that repairs it, and
 * the demonstration run of the program's main function.
 */
module VebClient {
  import opened Wrappers
  import opened VebArith
  import opened VanEmdeBoas
  import opened VebUpdates
  import opened VebDelete

  /**
   * insert as written does not ignore a key that is already present: in a
   * universe of 4, inserting 1 twice leaves 1 as both min and max and also
   * in cluster 0. delete(1) then takes its first branch (min equals max) and
   * only clears min and max, so isMember(1) still answers true afterwards.
   */
  lemma DuplicateInsert()
    ensures
      var e := EmptyTree(4);
      Valid(e) && e.u == 4 && Contents(e) == {} &&
      var t1 := Insert(e, 1);
      Valid(t1) && Contents(t1) == {1} &&
      var t2 := Insert(t1, 1);
      t2.min == Some(1) && t2.max == Some(1) &&
      IsMember(t2.(min := None, max := None), 1)
  {
    var e := EmptyTree(4);
    EmptyTreeValid(4);
    assert Universe(1) == 4;
    UniverseRoot(1);
    assert e.u == 4;
    var t1 := Insert(e, 1);
    assert t1 == e.(min := Some(1), max := Some(1));
    assert High(4, 1) == 0 && Low(4, 1) == 1 && High(4, 4) == 2;
    assert t1.clusters == [None, None];
    var cl := ClusterInsert(t1, 0, 1);
    assert cl == EmptyTree(2).(min := Some(1), max := Some(1));
    var t2 := Insert(t1, 1);
    assert t2.clusters[0] == Some(cl);
    assert IsMember(cl, 1);
  }

  /**
   * The evidently intended insert: a key already present leaves the tree as
   * it is, so inserting is idempotent and a later delete removes the key.
   */
  function InsertChecked(t: Tree, x: nat): (r: Tree)
    requires Valid(t) && x < t.u
    ensures Valid(r) && r.u == t.u && Contents(r) == Contents(t) + {x}
    ensures x in Contents(t) ==> r == t
  {
    IsMemberCorrect(t, x);
    if IsMember(t, x) then t else Insert(t, x)
  }

  /** Inserting the same key twice is the same as inserting it once. */
  lemma InsertCheckedIdempotent(t: Tree, x: nat)
    requires Valid(t) && x < t.u
    ensures InsertChecked(InsertChecked(t, x), x) == InsertChecked(t, x)
  {
  }

  /**
   * delete(x) as written, for any key below u. It does not check that x is
   * present: its first branch clears a node holding one element whatever x
   * is. For a present key it is Delete. For an absent key on a node holding
   * two or more elements it is left out (None): there the other branches
   * recurse into clusters that may not exist.
   */
  function DeleteAsWritten(t: Tree, x: nat): (r: Option<Tree>)
    requires Valid(t)
    ensures t.min == t.max ==> r == Some(t.(min := None, max := None))
    ensures x in Contents(t) ==> r == Some(Delete(t, x))
  {
    IsMemberCorrect(t, x);
    if t.min == t.max then Some(t.(min := None, max := None))
    else if x < t.u && IsMember(t, x) then Some(Delete(t, x))
    else None
  }

  /**
   * A tree for 16 holding only 3: delete(5) as written takes the first branch
   * and clears the node, so isMember(3) answers false afterwards.
   */
  method AbsentDeleteClears() returns (before: bool, after: bool)
    ensures before && !after
  {
    EmptyTreeValid(16);
    var e := EmptyTree(16);
    NodeFacts(e);
    var t := Insert(e, 3);
    NodeFacts(t);
    before := IsMember(t, 3);
    IsMemberCorrect(t, 3);
    var r := DeleteAsWritten(t, 5);
    DeleteLastValid(t, 3, r.value);
    after := IsMember(r.value, 3);
    IsMemberCorrect(r.value, 3);
  }

  /**
   * The evidently intended delete: a key that is not present leaves the tree
   * as it is, and a present key is removed.
   */
  function DeleteChecked(t: Tree, x: nat): (r: Tree)
    requires Valid(t) && x < t.u
    ensures Valid(r) && r.u == t.u && Contents(r) == Contents(t) - {x}
    ensures x !in Contents(t) ==> r == t
  {
    IsMemberCorrect(t, x);
    if IsMember(t, x) then Delete(t, x) else t
  }

  /** Deleting a key just inserted gives back the keys held before. */
  lemma InsertThenDelete(t: Tree, x: nat)
    requires Valid(t) && x < t.u && x !in Contents(t)
    ensures
      var t1 := InsertChecked(t, x);
      Contents(Delete(t1, x)) == Contents(t)
  {
  }

  /**
   * The program's main function: a tree for the universe 1000 (rounded up to
   * 65536) receives 3, 5 and 10, is asked about 3 and 4, loses 3, and is asked
   * about 3 again and whether the successor of 5 is 10 and the predecessor of
   * 10 is 5. The five printed answers are returned in order.
   */
  method Demo() returns (answers: seq<bool>)
    ensures answers == [true, false, false, true, true]
  {
    var t := DemoTree(1000);
    var has3, has4 := DemoMembers(t);
    t := Delete(t, 3);
    var after, next, prev := DemoQueries(t);
    answers := [has3, has4, after, next == Some(10), prev == Some(5)];
  }

  /** The first queries of main: isMember(3) and isMember(4). */
  method DemoMembers(t: Tree) returns (has3: bool, has4: bool)
    requires Valid(t) && Contents(t) == {3, 5, 10}
    ensures has3 && !has4
  {
    has3 := IsMember(t, 3);
    has4 := IsMember(t, 4);
    IsMemberCorrect(t, 3);
    IsMemberCorrect(t, 4);
  }

  /** The last queries of main, once 3 is deleted: isMember(3), successor(5), predecessor(10). */
  method DemoQueries(t: Tree) returns (after: bool, next: Option<nat>, prev: Option<nat>)
    requires Valid(t) && Contents(t) == {5, 10} && 10 < t.u
    ensures !after && next == Some(10) && prev == Some(5)
  {
    after := IsMember(t, 3);
    next := Successor(t, 5);
    prev := Predecessor(t, 10);
    IsMemberCorrect(t, 3);
    NeighbourAnswers(t, 5, 10);
  }

  /** The first part of main: a tree for the requested size receives 3, 5 and 10. */
  method DemoTree(requested: nat) returns (t: Tree)
    requires 10 < requested
    ensures Valid(t) && Contents(t) == {3, 5, 10} && requested <= t.u
  {
    EmptyTreeValid(requested);
    t := EmptyTree(requested);
    t := Insert(t, 3);
    t := Insert(t, 5);
    t := Insert(t, 10);
  }

  /** With only a < b stored, b is the successor of a and a the predecessor of b. */
  lemma NeighbourAnswers(t: Tree, a: nat, b: nat)
    requires Valid(t) && Contents(t) == {a, b} && a < b < t.u
    ensures Successor(t, a) == Some(b) && Predecessor(t, b) == Some(a)
  {
    SuccessorAnswer(t, a, b);
    PredecessorAnswer(t, a, b);
  }

  /** With only a < b stored, b is the successor of a. */
  lemma SuccessorAnswer(t: Tree, a: nat, b: nat)
    requires Valid(t) && Contents(t) == {a, b} && a < b
    ensures Successor(t, a) == Some(b)
  {
    var next := Successor(t, a);
    assert next.Some? ==> next.value == b;
  }

  /** With only a < b stored, a is the predecessor of b. */
  lemma PredecessorAnswer(t: Tree, a: nat, b: nat)
    requires Valid(t) && Contents(t) == {a, b} && a < b
    ensures Predecessor(t, b) == Some(a)
  {
    var prev := Predecessor(t, b);
    assert prev.Some? ==> prev.value == a;
  }
}
