/** Directed graphs as finite edge sets, with walks and reachability. */
module Digraph {

  /** A walk of exactly k edges leads from some root to v. */
  ghost predicate Walk<T(!new)>(E: set<(T, T)>, roots: set<T>, v: T, k: nat)
    decreases k
  {
    if k == 0 then v in roots else exists u :: (u, v) in E && Walk(E, roots, u, k - 1)
  }

  /** v can be reached from a root by a walk of some length. */
  ghost predicate Reachable<T(!new)>(E: set<(T, T)>, roots: set<T>, v: T)
  {
    exists k: nat :: Walk(E, roots, v, k)
  }

  /** v can be reached from u. */
  ghost predicate Reach<T(!new)>(E: set<(T, T)>, u: T, v: T)
  {
    Reachable(E, {u}, v)
  }

  /** No edge leaves S. */
  ghost predicate Closed<T(!new)>(E: set<(T, T)>, S: set<T>)
  {
    forall u, v :: (u, v) in E && u in S ==> v in S
  }

  lemma ReachSelf<T(!new)>(E: set<(T, T)>, u: T)
    ensures Reach(E, u, u)
  {
    assert Walk(E, {u}, u, 0);
  }

  lemma ReachableStep<T(!new)>(E: set<(T, T)>, roots: set<T>, u: T, v: T)
    requires Reachable(E, roots, u) && (u, v) in E
    ensures Reachable(E, roots, v)
  {
    var k: nat :| Walk(E, roots, u, k);
    assert Walk(E, roots, v, k + 1);
  }

  lemma ReachEdge<T(!new)>(E: set<(T, T)>, u: T, v: T)
    requires (u, v) in E
    ensures Reach(E, u, v)
  {
    ReachSelf(E, u);
    ReachableStep(E, {u}, u, v);
  }

  lemma {:induction false} WalkAppend<T(!new)>(E: set<(T, T)>, roots: set<T>, u: T, v: T, k: nat, m: nat)
    requires Walk(E, roots, u, k) && Walk(E, {u}, v, m)
    ensures Walk(E, roots, v, k + m)
    decreases m
  {
    if m == 0 {
      assert v == u;
    } else {
      var w :| (w, v) in E && Walk(E, {u}, w, m - 1);
      WalkAppend(E, roots, u, w, k, m - 1);
    }
  }

  lemma ReachTrans<T(!new)>(E: set<(T, T)>, u: T, v: T, w: T)
    requires Reach(E, u, v) && Reach(E, v, w)
    ensures Reach(E, u, w)
  {
    var k: nat :| Walk(E, {u}, v, k);
    var m: nat :| Walk(E, {v}, w, m);
    WalkAppend(E, {u}, v, w, k, m);
  }

  lemma {:induction false} WalkStaysIn<T(!new)>(E: set<(T, T)>, roots: set<T>, v: T, k: nat, S: set<T>)
    requires Closed(E, S) && roots <= S && Walk(E, roots, v, k)
    ensures v in S
  {
    if k != 0 {
      var u :| (u, v) in E && Walk(E, roots, u, k - 1);
      WalkStaysIn(E, roots, u, k - 1, S);
    }
  }

  /** Whatever can be reached from inside a closed set is inside it. */
  lemma ClosedContains<T(!new)>(E: set<(T, T)>, roots: set<T>, v: T, S: set<T>)
    requires Closed(E, S) && roots <= S && Reachable(E, roots, v)
    ensures v in S
  {
    var k: nat :| Walk(E, roots, v, k);
    WalkStaysIn(E, roots, v, k, S);
  }
}
