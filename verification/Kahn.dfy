/** Topological order of the condensed graph, whose nodes are the numbers of the components. */
module Kahn {
  import opened Common
  import Sorting

  type Successors = map<nat, set<nat>>

  function SuccessorsOf(succ: Successors, v: nat): set<nat>
  {
    if v in succ then succ[v] else {}
  }

  ghost function Predecessors(n: nat, succ: Successors, i: nat): (r: set<nat>)
    ensures forall j: nat :: j in r <==> j < n && i in SuccessorsOf(succ, j)
  {
    set j: nat | j < n && j in succ && i in succ[j]
  }

  /** Successors are numbers below n, and always smaller than the node they belong to. */
  ghost predicate Descends(n: nat, succ: Successors)
  {
    forall j: nat, i: nat :: i in SuccessorsOf(succ, j) ==> i < j < n
  }

  /** Each node comes after all its predecessors, and is the least that could have come next. */
  ghost predicate LeastFirst(n: nat, succ: Successors, order: seq<nat>)
  {
    && (forall p :: 0 <= p < |order| ==> Predecessors(n, succ, order[p]) <= Elements(order[..p]))
    && (forall p: nat, i: nat {:trigger order[p], Predecessors(n, succ, i)} ::
          0 <= p < |order| && i < n && i !in order[..p] && Predecessors(n, succ, i) <= Elements(order[..p])
          ==> order[p] <= i)
  }

  ghost predicate Distinct<T>(q: seq<T>)
  {
    forall i, j :: 0 <= i < j < |q| ==> q[i] != q[j]
  }

  /** How many predecessors of i are not placed yet. */
  ghost function PendingCount(n: nat, succ: Successors, placed: set<nat>, i: nat): nat
  {
    |Predecessors(n, succ, i) - placed|
  }

  ghost predicate CountsPending(n: nat, succ: Successors, inDegree: map<nat, nat>, placed: set<nat>)
  {
    && (forall i: nat :: i in inDegree <==> i < n)
    && (forall i :: i in inDegree ==> inDegree[i] == PendingCount(n, succ, placed, i))
  }

  ghost function Ready(inDegree: map<nat, nat>, placed: set<nat>): (r: set<nat>)
    ensures forall i :: i in r <==> i in inDegree && inDegree[i] == 0 && i !in placed
  {
    set i | i in inDegree && inDegree[i] == 0 && i !in placed
  }

  lemma PendingDrops(n: nat, succ: Successors, i: nat, placed: set<nat>, v: nat)
    requires v !in placed
    ensures v in Predecessors(n, succ, i) ==>
      |Predecessors(n, succ, i) - (placed + {v})| == |Predecessors(n, succ, i) - placed| - 1
    ensures v !in Predecessors(n, succ, i) ==>
      Predecessors(n, succ, i) - (placed + {v}) == Predecessors(n, succ, i) - placed
  {
    var P := Predecessors(n, succ, i) - placed;
    assert Predecessors(n, succ, i) - (placed + {v}) == P - {v};
  }

  ghost function Told(succ: Successors, placed: set<nat>, v: nat, updated: set<nat>, i: nat): set<nat>
  {
    if i in SuccessorsOf(succ, v) && i !in updated then placed else placed + {v}
  }

  /** The successors of v in updated have been told that v is placed, the others have not. */
  ghost predicate PartlyReleased(n: nat, succ: Successors, inDegree: map<nat, nat>, placed: set<nat>, v: nat,
                                 updated: set<nat>)
  {
    && (forall i: nat :: i in inDegree <==> i < n)
    && (forall i {:trigger inDegree[i]} :: i in inDegree ==>
          inDegree[i] == PendingCount(n, succ, Told(succ, placed, v, updated, i), i))
  }

  lemma ReleaseStarts(n: nat, succ: Successors, inDegree: map<nat, nat>, placed: set<nat>, v: nat)
    requires v < n && v !in placed && CountsPending(n, succ, inDegree, placed)
    ensures PartlyReleased(n, succ, inDegree, placed, v, {})
  {
    forall i | i in inDegree && i !in SuccessorsOf(succ, v)
      ensures PendingCount(n, succ, placed + {v}, i) == PendingCount(n, succ, placed, i)
    {
      PendingDrops(n, succ, i, placed, v);
    }
  }

  lemma ReleaseStep(n: nat, succ: Successors, inDegree: map<nat, nat>, placed: set<nat>, v: nat, updated: set<nat>,
                    w: nat)
    requires v < n && v !in placed && PartlyReleased(n, succ, inDegree, placed, v, updated)
    requires w in SuccessorsOf(succ, v) && w !in updated && w < n
    ensures w in inDegree && inDegree[w] >= 1
    ensures PartlyReleased(n, succ, inDegree[w := inDegree[w] - 1], placed, v, updated + {w})
  {
    PendingDrops(n, succ, w, placed, v);
    assert v in Predecessors(n, succ, w);
  }

  lemma ReadyGrows(inDegree: map<nat, nat>, placed: set<nat>, w: nat)
    requires w in inDegree && inDegree[w] >= 1 && w !in placed
    ensures Ready(inDegree[w := inDegree[w] - 1], placed)
         == Ready(inDegree, placed) + (if inDegree[w] == 1 then {w} else {})
    ensures w !in Ready(inDegree, placed)
  {
  }

  /** Place v: one fewer predecessor is pending for each of its successors. */
  method Release(n: nat, succ: Successors, inDegree: map<nat, nat>, queue: seq<nat>, ghost placed: set<nat>, v: nat)
    returns (inDegree': map<nat, nat>, queue': seq<nat>)
    requires v < n && v !in placed && Descends(n, succ) && CountsPending(n, succ, inDegree, placed)
    requires forall i :: i in SuccessorsOf(succ, v) ==> i !in placed
    requires Sorting.Lists(Sorting.Less, queue, Ready(inDegree, placed + {v}))
    ensures CountsPending(n, succ, inDegree', placed + {v}) && inDegree'.Keys == inDegree.Keys
    ensures Sorting.Lists(Sorting.Less, queue', Ready(inDegree', placed + {v}))
  {
    hide PartlyReleased, Predecessors, CountsPending, Sorting.Ascending, Ready, Told;
    inDegree', queue' := inDegree, queue;
    Sorting.LessIsStrictTotal();
    var neighbors := Sorting.Sorted(Sorting.Less, SuccessorsOf(succ, v));
    ghost var updated: set<nat> := {};
    ReleaseStarts(n, succ, inDegree, placed, v);
    for k := 0 to |neighbors|
      invariant updated == Elements(neighbors[..k])
      invariant inDegree'.Keys == inDegree.Keys
      invariant PartlyReleased(n, succ, inDegree', placed, v, updated)
      invariant Sorting.Lists(Sorting.Less, queue', Ready(inDegree', placed + {v}))
    {
      var w := neighbors[k];
      assert w in SuccessorsOf(succ, v) && w !in neighbors[..k] by {
        assert w in neighbors;
        Sorting.NewAt(Sorting.Less, neighbors, k);
      }
      ReleaseStep(n, succ, inDegree', placed, v, updated, w);
      ReadyGrows(inDegree', placed + {v}, w);
      updated := updated + {w};
      assert neighbors[..k + 1] == neighbors[..k] + [w];
      inDegree' := inDegree'[w := inDegree'[w] - 1];
      if inDegree'[w] == 0 {
        queue' := Sorting.Insert(Sorting.Less, queue', w);  // append, then sort
      }
    }
    ReleaseEnds(n, succ, inDegree', placed, v, updated);
  }

  lemma ReleaseEnds(n: nat, succ: Successors, inDegree: map<nat, nat>, placed: set<nat>, v: nat, updated: set<nat>)
    requires PartlyReleased(n, succ, inDegree, placed, v, updated) && SuccessorsOf(succ, v) <= updated
    ensures CountsPending(n, succ, inDegree, placed + {v})
  {
  }

  /** What the main loop knows: the queue is the sorted list of all nodes that could come next. */
  ghost predicate Underway(n: nat, succ: Successors, inDegree: map<nat, nat>, queue: seq<nat>, order: seq<nat>)
  {
    && CountsPending(n, succ, inDegree, Elements(order))
    && Sorting.Lists(Sorting.Less, queue, Ready(inDegree, Elements(order)))
    && Distinct(order) && (forall i :: i in order ==> i < n)
    && LeastFirst(n, succ, order)
  }

  lemma ReadyMeansPlaced(n: nat, succ: Successors, inDegree: map<nat, nat>, placed: set<nat>, i: nat)
    requires CountsPending(n, succ, inDegree, placed) && i < n
    ensures inDegree[i] == 0 <==> Predecessors(n, succ, i) <= placed
  {
    var P := Predecessors(n, succ, i);
    assert i in inDegree && inDegree[i] == |P - placed|;
    if inDegree[i] == 0 {
      forall j | j in P ensures j in placed {
        assert j !in P - placed;
      }
    }
    if P <= placed {
      assert P - placed == {};
      assert |P - placed| == 0;
    }
  }

  lemma PlaceInOrder(n: nat, succ: Successors, order: seq<nat>, v: nat)
    requires LeastFirst(n, succ, order) && Predecessors(n, succ, v) <= Elements(order)
    requires forall i: nat :: i < n && i !in order && Predecessors(n, succ, i) <= Elements(order) ==> v <= i
    ensures LeastFirst(n, succ, order + [v])
  {
    var more := order + [v];
    assert forall p :: 0 <= p <= |order| ==> more[..p] == order[..p];
    assert order[..|order|] == order;
  }

  /** A successor of a node that is not placed is not placed either. */
  lemma SuccessorsUnplaced(n: nat, succ: Successors, order: seq<nat>, v: nat, i: nat)
    requires LeastFirst(n, succ, order) && v < n && v !in order && i in SuccessorsOf(succ, v)
    ensures i !in order
  {
  }

  lemma ReadyShrinks(inDegree: map<nat, nat>, placed: set<nat>, v: nat)
    ensures Ready(inDegree, placed + {v}) == Ready(inDegree, placed) - {v}
  {
  }

  lemma HeadIsLeastReady(n: nat, succ: Successors, inDegree: map<nat, nat>, queue: seq<nat>, placed: set<nat>)
    requires CountsPending(n, succ, inDegree, placed) && queue != []
    requires Sorting.Lists(Sorting.Less, queue, Ready(inDegree, placed))
    ensures queue[0] < n && queue[0] !in placed && queue[0] in inDegree && Predecessors(n, succ, queue[0]) <= placed
    ensures forall i: nat :: i < n && i !in placed && Predecessors(n, succ, i) <= placed ==> queue[0] <= i
    ensures Sorting.Lists(Sorting.Less, queue[1..], Ready(inDegree, placed + {queue[0]}))
  {
    hide Predecessors, Ready, Sorting.Lists, Sorting.Ascending;
    var v := queue[0];
    Sorting.LessIsStrictTotal();
    Sorting.ListsTail(Sorting.Less, queue, Ready(inDegree, placed));
    ReadyMeansPlaced(n, succ, inDegree, placed, v);
    forall i: nat | i < n && i !in placed && Predecessors(n, succ, i) <= placed ensures v <= i {
      ReadyMeansPlaced(n, succ, inDegree, placed, i);
      assert i in Ready(inDegree, placed);
    }
    ReadyShrinks(inDegree, placed, v);
  }

  lemma PlaceLeast(n: nat, succ: Successors, inDegree: map<nat, nat>, queue: seq<nat>, order: seq<nat>)
    requires Underway(n, succ, inDegree, queue, order) && queue != []
    ensures queue[0] < n && queue[0] !in order && queue[0] in inDegree
    ensures LeastFirst(n, succ, order + [queue[0]])
    ensures Elements(order + [queue[0]]) == Elements(order) + {queue[0]}
    ensures Sorting.Lists(Sorting.Less, queue[1..], Ready(inDegree, Elements(order) + {queue[0]}))
  {
    hide LeastFirst, CountsPending, Predecessors, Ready, Sorting.Lists, Distinct;
    HeadIsLeastReady(n, succ, inDegree, queue, Elements(order));
    PlaceInOrder(n, succ, order, queue[0]);
  }

  /** When nothing is ready any more, everything has been placed: the largest node that
      is left over would have all its predecessors placed. */
  lemma {:induction false} NothingLeft(n: nat, succ: Successors, inDegree: map<nat, nat>, order: seq<nat>, i: nat)
    requires Descends(n, succ) && Underway(n, succ, inDegree, [], order) && i < n
    ensures i in order
    decreases n - i
  {
    forall j | j in Predecessors(n, succ, i) ensures j in order {
      NothingLeft(n, succ, inDegree, order, j);
    }
    ReadyMeansPlaced(n, succ, inDegree, Elements(order), i);
    assert i !in Ready(inDegree, Elements(order)) by { assert i !in []; }
  }

  method Order(n: nat, succ: Successors, inDegree0: map<nat, nat>) returns (order: seq<nat>)
    requires Descends(n, succ) && CountsPending(n, succ, inDegree0, {})
    ensures Distinct(order) && (forall i: nat :: i in order <==> i < n)
    ensures LeastFirst(n, succ, order)
  {
    hide CountsPending, LeastFirst, Predecessors;
    var inDegree := inDegree0;
    Sorting.LessIsStrictTotal();
    var queue := Sorting.Sorted(Sorting.Less, set i | i in inDegree && inDegree[i] == 0);
    order := [];
    assert LeastFirst(n, succ, order) by { EmptyOrder(n, succ); }
    assert Elements(order) == {};
    while queue != []
      invariant Underway(n, succ, inDegree, queue, order)
      invariant inDegree.Keys == inDegree0.Keys
      decreases inDegree0.Keys - Elements(order)
    {
      PlaceLeast(n, succ, inDegree, queue, order);
      var v := queue[0];
      forall i | i in SuccessorsOf(succ, v) ensures i !in Elements(order) {
        SuccessorsUnplaced(n, succ, order, v, i);
      }
      ghost var before := order;
      order := order + [v];
      inDegree, queue := Release(n, succ, inDegree, queue[1..], Elements(before), v);
    }
    forall i: nat | i < n ensures i in order {
      NothingLeft(n, succ, inDegree, order, i);
    }
    // The guard against a cycle in the condensed graph: it never finds a component missing.
    ghost var complete := order;
    for i: nat := 0 to n
      invariant order == complete
    {
      if i !in order {
        order := order + [i];
      }
    }
  }

  lemma EmptyOrder(n: nat, succ: Successors)
    ensures LeastFirst(n, succ, [])
  {
  }
}
