/** The build order of a graph is determined: there is only one plan. */
module OnePlan {
  import opened Common
  import Digraph
  import opened Tarjan
  import opened SccSearch
  import opened BuildOrder
  import PostOrder
  import Kahn
  import Sorting

  // ---------- The components ----------

  /** Each component of one list is in the other. */
  lemma SameBlock(net: Net<string>, a: seq<seq<string>>, b: seq<seq<string>>, i: nat) returns (j: nat)
    requires AreComponents(net, a) && AreComponents(net, b) && i < |a|
    ensures j < |b| && b[j] == a[i] && a[i] != []
  {
    hide ReachSet, EdgesPointBack;
    var x := a[i][0];
    assert x in a[i];
    assert x in net.Keys;
    j :| 0 <= j < |b| && x in b[j];
    SameClass(ReachSet(net), a[i], b[j], x);
    Sorting.BeforeIsStrictTotal();
    Sorting.OneListing(Sorting.Before, a[i], b[j], Elements(a[i]));
  }

  lemma SameClass(R: set<(string, string)>, a: seq<string>, b: seq<string>, x: string)
    requires IsComponent(R, a) && IsComponent(R, b) && x in a && x in b
    ensures forall y :: y in a <==> y in b
  {
  }

  lemma BlocksDiffer(net: Net<string>, a: seq<seq<string>>, i: nat, j: nat)
    requires AreComponents(net, a) && i < j < |a|
    ensures a[i] != a[j]
  {
    hide ReachSet, EdgesPointBack, Covers;
    assert a[i][0] in a[i];
  }

  lemma NotAmongFirst(net: Net<string>, a: seq<seq<string>>, b: seq<seq<string>>, n: nat, j: nat)
    requires AreComponents(net, a) && n < |a| && n <= |b| && a[..n] == b[..n] && j < |b| && b[j] == a[n]
    ensures j >= n
  {
    hide AreComponents;
    forall i | 0 <= i < n ensures b[i] != a[n] {
      assert b[i] == b[..n][i] == a[..n][i];
      BlocksDiffer(net, a, i, n);
    }
  }

  /** In order of completion, an earlier block has an earlier place. */
  lemma Earlier(a: seq<seq<string>>, left: seq<string>, i: nat, j: nat, k: nat, m: nat)
    requires PostOrder.InOrder(a, left) && i < |a| && j < |a|
    requires PostOrder.LastAt(left, a[i], k) && PostOrder.LastAt(left, a[j], m)
    ensures i < j ==> k < m
  {
    hide PostOrder.LastAt;
  }

  lemma {:induction false} SameUpTo(net: Net<string>, a: seq<seq<string>>, b: seq<seq<string>>, left: seq<string>,
                                    n: nat)
    requires AreComponents(net, a) && AreComponents(net, b)
    requires PostOrder.InOrder(a, left) && PostOrder.InOrder(b, left) && n <= |a|
    ensures n <= |b| && a[..n] == b[..n]
  {
    hide AreComponents, PostOrder.LastAt;
    if n > 0 {
      SameUpTo(net, a, b, left, n - 1);
      var j := SameBlock(net, a, b, n - 1);
      NotAmongFirst(net, a, b, n - 1, j);
      var i := SameBlock(net, b, a, n - 1);
      NotAmongFirst(net, b, a, n - 1, i);
      var k: nat :| PostOrder.LastAt(left, a[n - 1], k);
      var m: nat :| PostOrder.LastAt(left, b[n - 1], m);
      NoneBetween(a, b, left, n - 1, i, j, k, m);
    }
  }

  lemma NoneBetween(a: seq<seq<string>>, b: seq<seq<string>>, left: seq<string>, n: nat, i: nat, j: nat, k: nat, m: nat)
    requires PostOrder.InOrder(a, left) && PostOrder.InOrder(b, left)
    requires n < |a| && n < |b| && n <= j < |b| && b[j] == a[n] && n <= i < |a| && a[i] == b[n]
    requires PostOrder.LastAt(left, a[n], k) && PostOrder.LastAt(left, b[n], m)
    ensures a[n] == b[n]
  {
    hide PostOrder.LastAt, PostOrder.InOrder;
    if j > n && i > n {
      Earlier(b, left, n, j, m, k);
      Earlier(a, left, n, i, k, m);
    }
  }

  lemma OneBlockOrder(net: Net<string>, a: seq<seq<string>>, b: seq<seq<string>>)
    requires AreComponents(net, a) && AreComponents(net, b) && InPostOrder(net, a) && InPostOrder(net, b)
    ensures a == b
  {
    hide AreComponents, PostOrder.InOrder, PostOrder.Visit;
    var o :| Sorting.Lists(Sorting.Before, o, net.Keys) && PostOrder.InOrder(a, PostOrder.Visit(net, o, {}).left);
    var q :| Sorting.Lists(Sorting.Before, q, net.Keys) && PostOrder.InOrder(b, PostOrder.Visit(net, q, {}).left);
    Sorting.BeforeIsStrictTotal();
    Sorting.OneListing(Sorting.Before, o, q, net.Keys);
    var left := PostOrder.Visit(net, o, {}).left;
    SameUpTo(net, a, b, left, |a|);
    SameUpTo(net, b, a, left, |b|);
  }

  // ---------- The order of the components ----------

  lemma OneNumbering(nodes: set<string>, sccs: seq<seq<string>>, ids: map<string, nat>, jds: map<string, nat>)
    requires Disjoint(sccs) && Numbers(nodes, sccs, ids) && Numbers(nodes, sccs, jds)
    ensures ids == jds
  {
    forall x | x in nodes ensures ids[x] == jds[x] {
      NumberIsUnique(nodes, sccs, ids, x, jds[x]);
    }
  }

  lemma SamePredecessors(edges: seq<Edge>, ids: map<string, nat>, n: nat, succ: Kahn.Successors, tucc: Kahn.Successors,
                         i: nat)
    requires Condenses(edges, |edges|, ids, succ) && Condenses(edges, |edges|, ids, tucc)
    ensures Kahn.Predecessors(n, succ, i) == Kahn.Predecessors(n, tucc, i)
  {
    hide CondensedEdge;
    forall j: nat ensures i in Kahn.SuccessorsOf(succ, j) <==> i in Kahn.SuccessorsOf(tucc, j) {
      assert i in Kahn.SuccessorsOf(succ, j) <==> CondensedEdge(edges[..|edges|], ids, j, i);
    }
  }

  lemma PlacedRight(n: nat, succ: Kahn.Successors, a: seq<nat>, k: nat)
    requires Kahn.LeastFirst(n, succ, a) && Kahn.Distinct(a) && k < |a|
    ensures a[k] in a && a[k] !in a[..k] && Kahn.Predecessors(n, succ, a[k]) <= Elements(a[..k])
  {
    hide Kahn.Predecessors;
  }

  lemma PlacedLeast(n: nat, succ: Kahn.Successors, a: seq<nat>, k: nat, i: nat)
    requires Kahn.LeastFirst(n, succ, a) && k < |a| && i < n && i !in a[..k]
    requires Kahn.Predecessors(n, succ, i) <= Elements(a[..k])
    ensures a[k] <= i
  {
    hide Kahn.Predecessors;
  }

  lemma {:induction false} OneLeastFirst(n: nat, succ: Kahn.Successors, tucc: Kahn.Successors, a: seq<nat>, b: seq<nat>,
                                         k: nat)
    requires forall i: nat :: Kahn.Predecessors(n, succ, i) == Kahn.Predecessors(n, tucc, i)
    requires Kahn.LeastFirst(n, succ, a) && Kahn.LeastFirst(n, tucc, b) && k <= |a| && k <= |b|
    requires Kahn.Distinct(a) && Kahn.Distinct(b) && forall i: nat :: (i in a ==> i < n) && (i in b ==> i < n)
    ensures a[..k] == b[..k]
  {
    hide Kahn.Predecessors, Kahn.LeastFirst, Kahn.Distinct;
    if k > 0 {
      OneLeastFirst(n, succ, tucc, a, b, k - 1);
      PlacedRight(n, succ, a, k - 1);
      PlacedRight(n, tucc, b, k - 1);
      PlacedLeast(n, succ, a, k - 1, b[k - 1]);
      PlacedLeast(n, tucc, b, k - 1, a[k - 1]);
    }
  }

  lemma SameLength(n: nat, a: seq<nat>, b: seq<nat>)
    requires Kahn.Distinct(a) && Kahn.Distinct(b)
    requires forall i: nat :: (i in a <==> i < n) && (i in b <==> i < n)
    requires |a| <= |b| ==> a == b[..|a|]
    requires |b| <= |a| ==> b == a[..|b|]
    ensures a == b
  {
    if |a| < |b| {
      NextIsNew(a, b);
    } else if |b| < |a| {
      NextIsNew(b, a);
    }
  }

  lemma NextIsNew(a: seq<nat>, b: seq<nat>)
    requires |a| < |b| && a == b[..|a|] && Kahn.Distinct(b)
    ensures b[|a|] in b && b[|a|] !in a
  {
    forall i | 0 <= i < |a| ensures a[i] != b[|a|] {
      assert a[i] == b[i];
    }
  }

  // ---------- The members of a component ----------

  lemma BestIsOne(edges: seq<Edge>, remaining: set<string>, x: string, y: string)
    requires Better(edges, remaining, x, y) && Better(edges, remaining, y, x)
    ensures x == y
  {
    Sorting.BeforeIsTotal(x, y);
  }

  lemma {:induction false} OneGreedy(edges: seq<Edge>, scc: seq<string>, a: seq<string>, b: seq<string>, k: nat)
    requires IsBlock(edges, scc, a) && IsBlock(edges, scc, b) && k <= |a| && k <= |b|
    ensures a[..k] == b[..k]
  {
    hide Better;
    if k > 0 {
      OneGreedy(edges, scc, a, b, k - 1);
      var x, y := a[k - 1], b[k - 1];
      assert x in a && y in b;
      assert x !in a[..k - 1] && y !in b[..k - 1];
      BestIsOne(edges, Elements(scc) - Elements(a[..k - 1]), x, y);
    }
  }

  lemma OneBlock(edges: seq<Edge>, scc: seq<string>, a: seq<string>, b: seq<string>)
    requires IsBlock(edges, scc, a) && IsBlock(edges, scc, b)
    ensures a == b
  {
    hide GreedyBlock;
    OneGreedy(edges, scc, a, b, if |a| <= |b| then |a| else |b|);
    if |a| < |b| {
      NextMemberIsNew(a, b);
    } else if |b| < |a| {
      NextMemberIsNew(b, a);
    }
  }

  lemma NextMemberIsNew(a: seq<string>, b: seq<string>)
    requires |a| < |b| && a == b[..|a|] && Kahn.Distinct(b)
    ensures b[|a|] in b && b[|a|] !in a
  {
    forall i | 0 <= i < |a| ensures a[i] != b[|a|] {
      assert a[i] == b[i];
    }
  }

  // ---------- The whole plan ----------

  lemma OneComponentOrder(edges: seq<Edge>, nodes: set<string>, p: Plan, q: Plan)
    requires IsPlan(edges, nodes, p) && IsPlan(edges, nodes, q)
    ensures p.sccs == q.sccs && p.sccOrder == q.sccOrder
  {
    hide Condenses, Kahn.LeastFirst, InPostOrder, IsBlock, DepNet, Numbers, IsComponent, ReachSet, Kahn.Distinct,
      EdgesPointBack;
    OneBlockOrder(DepNet(edges, nodes), p.sccs, q.sccs);
    OneNumbering(nodes, p.sccs, p.ids, q.ids);
    var n := |p.sccs|;
    forall i: nat ensures Kahn.Predecessors(n, p.succ, i) == Kahn.Predecessors(n, q.succ, i) {
      SamePredecessors(edges, p.ids, n, p.succ, q.succ, i);
    }
    var a, b := p.sccOrder, q.sccOrder;
    OneLeastFirst(n, p.succ, q.succ, a, b, if |a| <= |b| then |a| else |b|);
    assert a[..|a|] == a && b[..|b|] == b;
    SameLength(n, a, b);
  }

  /** The edge list, with the order of its edges, and the node set determine the build order and the
      list of cycles. */
  lemma OneBuildOrder(edges: seq<Edge>, nodes: set<string>, a: seq<string>, b: seq<string>,
                      c: seq<seq<string>>, d: seq<seq<string>>)
    requires FollowsPlan(edges, nodes, a, c) && FollowsPlan(edges, nodes, b, d)
    ensures a == b && c == d
  {
    hide IsBlock;
    var p :| IsPlan(edges, nodes, p) && a == Flatten(p.blocks) && c == Larger(p.sccs);
    var q :| IsPlan(edges, nodes, q) && b == Flatten(q.blocks) && d == Larger(q.sccs);
    OneComponentOrder(edges, nodes, p, q);
    hide AreComponents, InPostOrder, Numbers, Condenses, Kahn.LeastFirst;
    forall k | 0 <= k < |p.blocks| ensures p.blocks[k] == q.blocks[k] {
      OneBlock(edges, p.sccs[p.sccOrder[k]], p.blocks[k], q.blocks[k]);
    }
    assert p.blocks == q.blocks;
  }

  // ---------- Packages that do not depend on each other ----------

  lemma AloneInBlock(nodes: set<string>, scc: seq<string>)
    requires IsComponent(ReachSet(DepNet([], nodes)), scc) && Sorting.Ascending(Sorting.Before, scc)
    ensures |scc| == 1
  {
    var net := DepNet([], nodes);
    var E := EdgesOf(net);
    assert E == {};
    if |scc| > 1 {
      var x, y := scc[0], scc[1];
      Sorting.BeforeIsTotal(x, x);
      assert x in scc && y in scc;
      Digraph.ClosedContains(E, {x}, y, {x});
    }
  }

  lemma {:induction false} FlattenSingles(blocks: seq<seq<string>>)
    requires forall k :: 0 <= k < |blocks| ==> |blocks[k]| == 1
    ensures |Flatten(blocks)| == |blocks| && forall k :: 0 <= k < |blocks| ==> Flatten(blocks)[k] == blocks[k][0]
  {
    if blocks != [] {
      FlattenSingles(blocks[..|blocks| - 1]);
    }
  }

  lemma SameSingle(scc: seq<string>, block: seq<string>)
    requires |scc| == 1 && Kahn.Distinct(block) && forall x :: x in block <==> x in scc
    ensures block == scc
  {
    assert scc[0] in block;
    if |block| > 1 {
      AnotherMember(block, scc[0]);
    }
  }

  lemma AnotherMember(block: seq<string>, x: string)
    requires |block| > 1 && Kahn.Distinct(block)
    ensures exists y :: y in block && y != x
  {
    assert block[0] in block && block[1] in block;
  }

  /** Without edges the packages are built in the order of their names. */
  lemma WithoutEdgesByName(nodes: set<string>, order: seq<string>, cycles: seq<seq<string>>)
    requires FollowsPlan([], nodes, order, cycles)
    ensures Sorting.Ascending(Sorting.Before, order)
  {
    hide AreComponents, InPostOrder, Numbers, Condenses, Kahn.LeastFirst, GreedyBlock, ReachSet, Flatten;
    var p :| IsPlan([], nodes, p) && order == Flatten(p.blocks) && cycles == Larger(p.sccs);
    forall k | 0 <= k < |p.blocks| ensures |p.blocks[k]| == 1 && p.blocks[k] == p.sccs[p.sccOrder[k]] {
      BlocksAreComponents(DepNet([], nodes), p.sccs, p.sccOrder[k]);
      AloneInBlock(nodes, p.sccs[p.sccOrder[k]]);
      SameSingle(p.sccs[p.sccOrder[k]], p.blocks[k]);
    }
    FlattenSingles(p.blocks);
    forall a, b | 0 <= a < b < |order| ensures Sorting.Before(order[a], order[b]) {
      NumbersAscend(p, a, b);
      BlocksAscend(nodes, p.sccs, p.sccOrder[a], p.sccOrder[b]);
    }
  }

  lemma BlocksAreComponents(net: Net<string>, sccs: seq<seq<string>>, i: nat)
    requires AreComponents(net, sccs) && i < |sccs|
    ensures IsComponent(ReachSet(net), sccs[i]) && Sorting.Ascending(Sorting.Before, sccs[i])
  {
  }

  lemma NumbersAscend(p: Plan, a: nat, b: nat)
    requires Condenses([], 0, p.ids, p.succ) && Kahn.LeastFirst(|p.sccs|, p.succ, p.sccOrder)
    requires Kahn.Distinct(p.sccOrder) && (forall i: nat :: i in p.sccOrder <==> i < |p.sccs|) && a < b < |p.sccOrder|
    ensures p.sccOrder[a] < p.sccOrder[b]
  {
    var i := p.sccOrder[b];
    assert i in p.sccOrder;
    forall j: nat ensures i !in Kahn.SuccessorsOf(p.succ, j) {
      assert !CondensedEdge([][..0], p.ids, j, i);
    }
    assert Kahn.Predecessors(|p.sccs|, p.succ, i) == {};
    assert i !in p.sccOrder[..a];
  }

  lemma BlocksAscend(nodes: set<string>, sccs: seq<seq<string>>, i: nat, j: nat)
    requires AreComponents(DepNet([], nodes), sccs) && InPostOrder(DepNet([], nodes), sccs) && i < j < |sccs|
    requires |sccs[i]| == 1 && |sccs[j]| == 1
    ensures Sorting.Before(sccs[i][0], sccs[j][0])
  {
    hide AreComponents, PostOrder.Visit, PostOrder.InOrder, Sorting.Before;
    var net := DepNet([], nodes);
    var o :| Sorting.Lists(Sorting.Before, o, net.Keys) && PostOrder.InOrder(sccs, PostOrder.Visit(net, o, {}).left);
    Sorting.BeforeIsStrictTotal();
    PostOrder.WithoutEdges(net, o, {});
    var k, m := PostOrder.Places(sccs, o, i, j);
  }
}
