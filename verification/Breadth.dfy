/** Breadth-first search over a queue of (node, depth) entries that may repeat nodes,
    with an optional depth limit: nodes beyond the limit are visited but not expanded. */
module Breadth {
  import opened Digraph

  type Entry<T> = (T, nat)

  /** The shortest walk from a root to x has k edges. */
  ghost predicate Shortest<T(!new)>(E: set<(T, T)>, roots: set<T>, x: T, k: nat)
  {
    Walk(E, roots, x, k) && forall m: nat :: m < k ==> !Walk(E, roots, x, m)
  }

  /** Depth d may be expanded; limit 0 stands for no limit. */
  predicate Within(limit: nat, d: nat)
  {
    limit == 0 || d <= limit
  }

  ghost predicate Queued<T(!new)>(queue: seq<Entry<T>>, x: T, d: nat)
  {
    exists i :: 0 <= i < |queue| && queue[i].0 == x && queue[i].1 <= d
  }

  ghost predicate QueueOrdered<T(!new)>(queue: seq<Entry<T>>)
  {
    forall i, j :: 0 <= i <= j < |queue| ==> queue[i].1 <= queue[j].1 <= queue[0].1 + 1
  }

  ghost predicate QueueReached<T(!new)>(E: set<(T, T)>, roots: set<T>, limit: nat, queue: seq<Entry<T>>)
  {
    forall i :: 0 <= i < |queue| ==>
      Walk(E, roots, queue[i].0, queue[i].1) && (limit == 0 || queue[i].1 <= limit + 1)
  }

  ghost predicate DepthsShortest<T(!new)>(E: set<(T, T)>, roots: set<T>, limit: nat, depth: map<T, nat>)
  {
    forall x :: x in depth ==> Shortest(E, roots, x, depth[x]) && (limit == 0 || depth[x] <= limit + 1)
  }

  ghost predicate DepthsBelow<T(!new)>(depth: map<T, nat>, queue: seq<Entry<T>>)
  {
    forall x, i :: x in depth && 0 <= i < |queue| ==> depth[x] <= queue[i].1
  }

  /** Every root and every successor of an expanded node is visited or waits in the queue. */
  ghost predicate Covered<T(!new)>(E: set<(T, T)>, roots: set<T>, limit: nat, depth: map<T, nat>, queue: seq<Entry<T>>)
  {
    && (forall r :: r in roots ==> r in depth || Queued(queue, r, 0))
    && (forall x, y {:trigger (x, y) in E} :: x in depth && Within(limit, depth[x]) && (x, y) in E
          ==> y in depth || Queued(queue, y, depth[x] + 1))
  }

  ghost predicate Inv<T(!new)>(E: set<(T, T)>, roots: set<T>, limit: nat, depth: map<T, nat>, queue: seq<Entry<T>>)
  {
    && QueueOrdered(queue) && QueueReached(E, roots, limit, queue)
    && DepthsShortest(E, roots, limit, depth) && DepthsBelow(depth, queue) && Covered(E, roots, limit, depth, queue)
  }

  lemma Start<T(!new)>(E: set<(T, T)>, roots: set<T>, limit: nat, queue: seq<Entry<T>>)
    requires forall r :: r in roots <==> (r, 0) in queue
    requires forall i :: 0 <= i < |queue| ==> queue[i].1 == 0
    ensures Inv(E, roots, limit, map[], queue)
  {
    forall i | 0 <= i < |queue| ensures Walk(E, roots, queue[i].0, queue[i].1) {
      assert queue[i] == (queue[i].0, 0);
      assert queue[i].0 in roots;
    }
    forall r | r in roots ensures Queued(queue, r, 0) {
      var i :| 0 <= i < |queue| && queue[i] == (r, 0);
      assert queue[i].0 == r;
    }
  }

  /** An unvisited node within reach has a visited or queued node on every walk to it. */
  lemma {:induction false} Frontier<T(!new)>(E: set<(T, T)>, roots: set<T>, limit: nat, depth: map<T, nat>,
                                             queue: seq<Entry<T>>, y: T, k: nat)
    requires DepthsShortest(E, roots, limit, depth) && Covered(E, roots, limit, depth, queue)
    requires Walk(E, roots, y, k) && y !in depth && (limit == 0 || k <= limit + 1)
    ensures exists i :: 0 <= i < |queue| && queue[i].1 <= k
    decreases k
  {
    if k == 0 {
      assert Queued(queue, y, 0);
    } else {
      var u :| (u, y) in E && Walk(E, roots, u, k - 1);
      if u in depth {
        assert Shortest(E, roots, u, depth[u]);
        assert depth[u] <= k - 1;
        assert Queued(queue, y, depth[u] + 1);
      } else {
        Frontier(E, roots, limit, depth, queue, u, k - 1);
      }
    }
  }

  lemma DropQueued<T(!new)>(queue: seq<Entry<T>>, x: T, d: nat)
    requires queue != [] && Queued(queue, x, d)
    ensures x == queue[0].0 || Queued(queue[1..], x, d)
  {
    var i :| 0 <= i < |queue| && queue[i].0 == x && queue[i].1 <= d;
    if i > 0 {
      assert queue[1..][i - 1] == queue[i];
    }
  }

  /** The node at the front was visited before. */
  lemma Skip<T(!new)>(E: set<(T, T)>, roots: set<T>, limit: nat, depth: map<T, nat>, queue: seq<Entry<T>>)
    requires Inv(E, roots, limit, depth, queue) && queue != [] && queue[0].0 in depth
    ensures Inv(E, roots, limit, depth, queue[1..])
  {
    hide Walk;
    forall r | r in roots && r !in depth ensures Queued(queue[1..], r, 0) {
      DropQueued(queue, r, 0);
    }
    forall x, y | x in depth && Within(limit, depth[x]) && (x, y) in E && y !in depth
      ensures Queued(queue[1..], y, depth[x] + 1)
    {
      DropQueued(queue, y, depth[x] + 1);
    }
  }

  /** The depth at the front of the queue is the distance of an unvisited node. */
  lemma FrontIsShortest<T(!new)>(E: set<(T, T)>, roots: set<T>, limit: nat, depth: map<T, nat>, queue: seq<Entry<T>>)
    requires Inv(E, roots, limit, depth, queue) && queue != [] && queue[0].0 !in depth
    ensures Shortest(E, roots, queue[0].0, queue[0].1) && (limit == 0 || queue[0].1 <= limit + 1)
  {
    hide Walk;
    forall m: nat | m < queue[0].1 ensures !Walk(E, roots, queue[0].0, m) {
      if Walk(E, roots, queue[0].0, m) {
        Frontier(E, roots, limit, depth, queue, queue[0].0, m);
      }
    }
  }

  /** What visiting the front node appends: entries for successors, leaving none out that is not visited. */
  ghost predicate Appends<T(!new)>(E: set<(T, T)>, limit: nat, depth: map<T, nat>, front: Entry<T>,
                            added: seq<Entry<T>>)
  {
    && (forall i :: 0 <= i < |added| ==> (front.0, added[i].0) in E && added[i].1 == front.1 + 1)
    && (added != [] ==> Within(limit, front.1))
    && (Within(limit, front.1) ==>
          forall y :: (front.0, y) in E ==> y in depth || y == front.0 || (y, front.1 + 1) in added)
  }

  lemma Rest<T>(queue: seq<Entry<T>>, added: seq<Entry<T>>, i: nat)
    requires queue != [] && i < |queue| - 1 + |added|
    ensures (queue[1..] + added)[i] == if i < |queue| - 1 then queue[i + 1] else added[i - (|queue| - 1)]
  {
  }

  lemma VisitOrdered<T(!new)>(E: set<(T, T)>, limit: nat, depth: map<T, nat>, queue: seq<Entry<T>>,
                       added: seq<Entry<T>>)
    requires QueueOrdered(queue) && queue != [] && Appends(E, limit, depth, queue[0], added)
    ensures QueueOrdered(queue[1..] + added)
  {
    var more, d := queue[1..] + added, queue[0].1;
    forall i | 0 <= i < |more| ensures d <= more[i].1 <= d + 1 && (i >= |queue| - 1 ==> more[i].1 == d + 1) {
      Rest(queue, added, i);
    }
    forall i, j | 0 <= i <= j < |more| ensures more[i].1 <= more[j].1 {
      Rest(queue, added, i);
      Rest(queue, added, j);
    }
  }

  lemma VisitReached<T(!new)>(E: set<(T, T)>, roots: set<T>, limit: nat, depth: map<T, nat>, queue: seq<Entry<T>>,
                       added: seq<Entry<T>>)
    requires QueueReached(E, roots, limit, queue) && queue != [] && Appends(E, limit, depth, queue[0], added)
    ensures QueueReached(E, roots, limit, queue[1..] + added)
  {
    var more, x, d := queue[1..] + added, queue[0].0, queue[0].1;
    forall i | 0 <= i < |more| ensures Walk(E, roots, more[i].0, more[i].1) && (limit == 0 || more[i].1 <= limit + 1) {
      Rest(queue, added, i);
      if i >= |queue| - 1 {
        assert (x, more[i].0) in E && Walk(E, roots, x, d);
      }
    }
  }

  lemma VisitBelow<T(!new)>(E: set<(T, T)>, limit: nat, depth: map<T, nat>, queue: seq<Entry<T>>, added: seq<Entry<T>>)
    requires QueueOrdered(queue) && DepthsBelow(depth, queue) && queue != []
      && Appends(E, limit, depth, queue[0], added)
    ensures DepthsBelow(depth[queue[0].0 := queue[0].1], queue[1..] + added)
  {
    var more, d := queue[1..] + added, queue[0].1;
    forall i | 0 <= i < |more| ensures d <= more[i].1 {
      Rest(queue, added, i);
    }
  }

  lemma VisitQueue<T(!new)>(E: set<(T, T)>, roots: set<T>, limit: nat, depth: map<T, nat>, queue: seq<Entry<T>>,
                     added: seq<Entry<T>>)
    requires Inv(E, roots, limit, depth, queue) && queue != [] && Appends(E, limit, depth, queue[0], added)
    ensures QueueOrdered(queue[1..] + added) && QueueReached(E, roots, limit, queue[1..] + added)
    ensures DepthsBelow(depth[queue[0].0 := queue[0].1], queue[1..] + added)
  {
    hide QueueOrdered, QueueReached, DepthsBelow, DepthsShortest, Covered, Appends;
    VisitOrdered(E, limit, depth, queue, added);
    VisitReached(E, roots, limit, depth, queue, added);
    VisitBelow(E, limit, depth, queue, added);
  }

  lemma VisitCovered<T(!new)>(E: set<(T, T)>, roots: set<T>, limit: nat, depth: map<T, nat>, queue: seq<Entry<T>>,
                       added: seq<Entry<T>>)
    requires Covered(E, roots, limit, depth, queue) && queue != [] && queue[0].0 !in depth
    requires Appends(E, limit, depth, queue[0], added)
    ensures Covered(E, roots, limit, depth[queue[0].0 := queue[0].1], queue[1..] + added)
  {
    var more, x := queue[1..] + added, queue[0].0;
    var depth' := depth[x := queue[0].1];
    forall r | r in roots && r !in depth' ensures Queued(more, r, 0) {
      DropQueued(queue, r, 0);
      StillQueued(queue[1..], added, r, 0);
    }
    forall u, y | u in depth' && Within(limit, depth'[u]) && (u, y) in E && y !in depth'
      ensures Queued(more, y, depth'[u] + 1)
    {
      if u == x {
        var i :| 0 <= i < |added| && added[i] == (y, queue[0].1 + 1);
        assert more[|queue| - 1 + i] == added[i];
      } else {
        DropQueued(queue, y, depth[u] + 1);
        StillQueued(queue[1..], added, y, depth[u] + 1);
      }
    }
  }

  lemma StillQueued<T(!new)>(queue: seq<Entry<T>>, added: seq<Entry<T>>, x: T, d: nat)
    requires Queued(queue, x, d)
    ensures Queued(queue + added, x, d)
  {
    var i :| 0 <= i < |queue| && queue[i].0 == x && queue[i].1 <= d;
    assert (queue + added)[i] == queue[i];
  }

  /** Visiting the front node records its distance and keeps the invariant. */
  lemma Visit<T(!new)>(E: set<(T, T)>, roots: set<T>, limit: nat, depth: map<T, nat>, queue: seq<Entry<T>>,
                added: seq<Entry<T>>)
    requires Inv(E, roots, limit, depth, queue) && queue != [] && queue[0].0 !in depth
    requires Appends(E, limit, depth, queue[0], added)
    ensures Inv(E, roots, limit, depth[queue[0].0 := queue[0].1], queue[1..] + added)
  {
    hide Covered, QueueOrdered, QueueReached, DepthsBelow, Appends, Walk;
    FrontIsShortest(E, roots, limit, depth, queue);
    VisitQueue(E, roots, limit, depth, queue, added);
    VisitCovered(E, roots, limit, depth, queue, added);
  }

  /** When the queue is empty, exactly the nodes at distance at most limit + 1 have been
      visited (all reachable ones if there is no limit), each with its distance. */
  lemma Finish<T(!new)>(E: set<(T, T)>, roots: set<T>, limit: nat, depth: map<T, nat>)
    requires Inv(E, roots, limit, depth, [])
    ensures forall x :: x in depth ==> Shortest(E, roots, x, depth[x]) && (limit == 0 || depth[x] <= limit + 1)
    ensures forall x, k: nat :: Shortest(E, roots, x, k) && (limit == 0 || k <= limit + 1) ==>
      x in depth && depth[x] == k
  {
    hide Walk;
    forall x, k: nat | Shortest(E, roots, x, k) && (limit == 0 || k <= limit + 1) ensures x in depth && depth[x] == k {
      if x !in depth {
        Frontier(E, roots, limit, depth, [], x, k);
      }
      assert Shortest(E, roots, x, depth[x]);
    }
  }
}
