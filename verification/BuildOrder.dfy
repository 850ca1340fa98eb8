/** The build order: components in dependency order, each expanded greedily. */
module BuildOrder {
  import opened Common
  import opened Tarjan
  import opened SccSearch
  import Kahn
  import Sorting

  /** A dependency and the package that needs it. */
  type Edge = (string, string)

  // ---------- The two adjacency lists ----------

  function Outgoing(edges: seq<Edge>, u: string): (r: seq<string>)
    ensures forall v :: v in r <==> (u, v) in edges
  {
    if edges == [] then []
    else
      var last := edges[|edges| - 1];
      assert edges == edges[..|edges| - 1] + [last];
      Outgoing(edges[..|edges| - 1], u) + (if last.0 == u then [last.1] else [])
  }

  function Incoming(edges: seq<Edge>, v: string): (r: seq<string>)
    ensures forall u :: u in r <==> (u, v) in edges
  {
    if edges == [] then []
    else
      var last := edges[|edges| - 1];
      assert edges == edges[..|edges| - 1] + [last];
      Incoming(edges[..|edges| - 1], v) + (if last.1 == v then [last.0] else [])
  }

  function Get(m: map<string, seq<string>>, k: string): seq<string>
  {
    if k in m then m[k] else []
  }

  lemma NoEdges()
    ensures forall x :: Outgoing([], x) == [] && Incoming([], x) == []
  {
  }

  lemma EdgesGrow(edges: seq<Edge>, i: nat, x: string)
    requires i < |edges|
    ensures Outgoing(edges[..i + 1], x) == Outgoing(edges[..i], x) + (if edges[i].0 == x then [edges[i].1] else [])
    ensures Incoming(edges[..i + 1], x) == Incoming(edges[..i], x) + (if edges[i].1 == x then [edges[i].0] else [])
  {
    assert edges[..i + 1][..i] == edges[..i];
  }

  /** The lists follow the order of the edges: they are those of the front and then those of the back,
      and an edge (u, v) puts v into the list of u and u into that of v. */
  lemma {:induction false} ListsAppend(a: seq<Edge>, b: seq<Edge>, x: string)
    ensures Outgoing(a + b, x) == Outgoing(a, x) + Outgoing(b, x)
    ensures Incoming(a + b, x) == Incoming(a, x) + Incoming(b, x)
  {
    if b == [] {
      assert a + b == a;
    } else {
      assert (a + b)[..|a + b| - 1] == a + b[..|b| - 1];
      ListsAppend(a, b[..|b| - 1], x);
    }
  }

  lemma ListsOfOne(u: string, v: string, x: string)
    ensures Outgoing([(u, v)], x) == (if x == u then [v] else [])
    ensures Incoming([(u, v)], x) == (if x == v then [u] else [])
  {
  }

  method BuildAdjacency(edges: seq<Edge>)
      returns (adjacency: map<string, seq<string>>, reverseAdj: map<string, seq<string>>)
    ensures forall x :: Get(adjacency, x) == Outgoing(edges, x) && Get(reverseAdj, x) == Incoming(edges, x)
  {
    hide Outgoing, Incoming;
    assert edges[..0] == [];
    adjacency, reverseAdj := map[], map[];
    NoEdges();
    for i := 0 to |edges|
      invariant forall x :: Get(adjacency, x) == Outgoing(edges[..i], x)
      invariant forall x :: Get(reverseAdj, x) == Incoming(edges[..i], x)
    {
      var (dep, dependent) := edges[i];
      ghost var adjacency0, reverseAdj0 := adjacency, reverseAdj;
      adjacency := adjacency[dep := Get(adjacency, dep) + [dependent]];
      reverseAdj := reverseAdj[dependent := Get(reverseAdj, dependent) + [dep]];
      forall x
        ensures Get(adjacency, x) == Outgoing(edges[..i + 1], x) && Get(reverseAdj, x) == Incoming(edges[..i + 1], x)
      {
        EdgesGrow(edges, i, x);
        assert Get(adjacency0, x) == Outgoing(edges[..i], x) && Get(reverseAdj0, x) == Incoming(edges[..i], x);
      }
    }
    assert edges[..|edges|] == edges;
  }

  /** The dependency graph on the node set: from each package to the packages that need it. */
  ghost function DepNet(edges: seq<Edge>, nodes: set<string>): (net: Net<string>)
    ensures net.Keys == nodes && IsNet(net)
    ensures forall u, v :: u in net ==> (v in net[u] <==> (u, v) in edges && v in nodes)
  {
    map x | x in nodes :: Within(Outgoing(edges, x), nodes)
  }

  lemma DepNetIsNet(edges: seq<Edge>, nodes: set<string>, adjacency: map<string, seq<string>>)
    requires forall x :: Get(adjacency, x) == Outgoing(edges, x)
    ensures NetOf(nodes, adjacency) == DepNet(edges, nodes)
  {
    forall x | x in nodes ensures Neighbors(nodes, adjacency, x) == Within(Outgoing(edges, x), nodes) {
      assert Get(adjacency, x) == Outgoing(edges, x);
    }
  }

  // ---------- What a good order is ----------

  ghost predicate Same(R: set<(string, string)>, x: string, y: string)
  {
    (x, y) in R && (y, x) in R
  }

  /** Members of one component stand next to each other. */
  ghost predicate Contiguous(R: set<(string, string)>, order: seq<string>)
  {
    forall p, q, r :: 0 <= p < q < r < |order| && Same(R, order[p], order[r]) ==> Same(R, order[p], order[q])
  }

  /** A package comes after everything it needs, except for what is on a cycle with it. */
  ghost predicate DependenciesFirst(edges: seq<Edge>, nodes: set<string>, R: set<(string, string)>, order: seq<string>)
  {
    forall q, u :: 0 <= q < |order| && u in nodes && (u, order[q]) in edges && !Same(R, u, order[q]) ==> u in order[..q]
  }

  function CountIn(s: seq<string>, within: set<string>): nat
  {
    if s == [] then 0 else (if s[0] in within then 1 else 0) + CountIn(s[1..], within)
  }

  /** It counts places, not names. */
  lemma {:induction false} CountInCounts(s: seq<string>, within: set<string>)
    ensures CountIn(s, within) == |set i | 0 <= i < |s| && s[i] in within|
    decreases |s|
  {
    if s != [] {
      var t := s[..|s| - 1];
      CountInSnoc(t, s[|t|], within);
      assert s == t + [s[|t|]];
      CountInCounts(t, within);
      var P, Q := set i | 0 <= i < |s| && s[i] in within, set i | 0 <= i < |t| && t[i] in within;
      assert P == Q + if s[|t|] in within then {|t|} else {};
    }
  }

  lemma {:induction false} CountInSnoc(s: seq<string>, x: string, within: set<string>)
    ensures CountIn(s + [x], within) == CountIn(s, within) + if x in within then 1 else 0
  {
    if s != [] {
      assert (s + [x])[1..] == s[1..] + [x];
      CountInSnoc(s[1..], x, within);
    }
  }

  /** x has fewer pending dependencies than y, or as many and the smaller name. */
  predicate Better(edges: seq<Edge>, remaining: set<string>, x: string, y: string)
  {
    var cx, cy := CountIn(Incoming(edges, x), remaining), CountIn(Incoming(edges, y), remaining);
    cx < cy || (cx == cy && !Sorting.Before(y, x))
  }

  /** The members of the component of x that are not in the list yet. */
  ghost function Pending(nodes: set<string>, R: set<(string, string)>, x: string, listed: seq<string>): (r: set<string>)
    ensures forall y :: y in r <==> y in nodes && Same(R, x, y) && y !in listed
  {
    set y | y in nodes && Same(R, x, y) && y !in listed
  }

  /** Within its component, each package is the best of those that are left. */
  ghost predicate Greedy(edges: seq<Edge>, nodes: set<string>, R: set<(string, string)>, order: seq<string>)
  {
    forall p, y :: 0 <= p < |order| && y in Pending(nodes, R, order[p], order[..p])
      ==> Better(edges, Pending(nodes, R, order[p], order[..p]), order[p], y)
  }

  ghost predicate IsBuildOrder(edges: seq<Edge>, nodes: set<string>, R: set<(string, string)>, order: seq<string>)
  {
    && Kahn.Distinct(order) && (forall x :: x in order <==> x in nodes)
    && Contiguous(R, order) && DependenciesFirst(edges, nodes, R, order) && Greedy(edges, nodes, R, order)
  }

  // ---------- Inside one component ----------

  ghost predicate GreedyBlock(edges: seq<Edge>, members: set<string>, block: seq<string>)
  {
    forall p, y :: 0 <= p < |block| && y in members && y !in block[..p]
      ==> Better(edges, members - Elements(block[..p]), block[p], y)
  }

  method PickBest(edges: seq<Edge>, reverseAdj: map<string, seq<string>>, remaining: set<string>)
      returns (best: Option<string>)
    requires forall x :: Get(reverseAdj, x) == Incoming(edges, x)
    ensures best.None? <==> remaining == {}
    ensures best.Some? ==>
      best.value in remaining && forall y :: y in remaining ==> Better(edges, remaining, best.value, y)
  {
    hide Incoming, CountIn, Get;
    Sorting.BeforeIsStrictTotal();
    var nodes := Sorting.Sorted(Sorting.Before, remaining);
    best := None;
    var bestCount := 0;
    for i := 0 to |nodes|
      invariant best.None? <==> i == 0
      invariant best.Some? ==> best.value in nodes[..i] && bestCount == CountIn(Incoming(edges, best.value), remaining)
      invariant best.Some? ==> forall j :: 0 <= j < i ==> Better(edges, remaining, best.value, nodes[j])
    {
      var node := nodes[i];
      var unresolved := CountIn(Get(reverseAdj, node), remaining);
      assert Get(reverseAdj, node) == Incoming(edges, node);
      if best.None? || unresolved < bestCount {
        bestCount := unresolved;
        best := Some(node);
      }
    }
    assert remaining == Elements(nodes);
    assert |nodes| > 0 ==> nodes[0] in nodes;
  }

  lemma GreedyStarts(edges: seq<Edge>, members: set<string>)
    ensures GreedyBlock(edges, members, [])
  {
  }

  lemma GreedyGrows(edges: seq<Edge>, members: set<string>, block: seq<string>, x: string)
    requires GreedyBlock(edges, members, block) && x in members && x !in block
    requires forall y :: y in members - Elements(block) ==> Better(edges, members - Elements(block), x, y)
    ensures GreedyBlock(edges, members, block + [x])
  {
    assert forall p :: 0 <= p <= |block| ==> (block + [x])[..p] == block[..p];
    assert block[..|block|] == block;
  }

  method OrderSccGreedy(edges: seq<Edge>, reverseAdj: map<string, seq<string>>, scc: seq<string>)
      returns (result: seq<string>)
    requires forall x :: Get(reverseAdj, x) == Incoming(edges, x)
    ensures Kahn.Distinct(result) && (forall x :: x in result <==> x in scc)
    ensures GreedyBlock(edges, Elements(scc), result)
  {
    hide GreedyBlock, Better, Incoming;
    var remaining := set x | x in scc;
    assert GreedyBlock(edges, Elements(scc), []) by { GreedyStarts(edges, Elements(scc)); }
    result := [];
    while remaining != {}
      invariant remaining == Elements(scc) - Elements(result) && Elements(result) <= Elements(scc)
      invariant Kahn.Distinct(result) && GreedyBlock(edges, Elements(scc), result)
      decreases remaining
    {
      var best := PickBest(edges, reverseAdj, remaining);
      if best.None? {
        break;
      }
      GreedyGrows(edges, Elements(scc), result, best.value);
      result := result + [best.value];
      remaining := remaining - {best.value};
    }
    assert Elements(scc) == Elements(result) + remaining;
  }

  // ---------- The condensed graph ----------

  /** ids numbers the components. */
  ghost predicate Numbers(nodes: set<string>, sccs: seq<seq<string>>, ids: map<string, nat>)
  {
    ids.Keys == nodes && forall x :: x in nodes ==> ids[x] < |sccs| && x in sccs[ids[x]]
  }

  method NumberComponents(nodes: set<string>, sccs: seq<seq<string>>) returns (ids: map<string, nat>)
    requires Covers(sccs, nodes) && Disjoint(sccs)
    ensures Numbers(nodes, sccs, ids)
  {
    ids := map[];
    for i := 0 to |sccs|
      invariant forall x :: x in ids <==> exists j :: 0 <= j < i && x in sccs[j]
      invariant forall x :: x in ids ==> ids[x] < |sccs| && x in sccs[ids[x]]
    {
      var scc := sccs[i];
      for k := 0 to |scc|
        invariant forall x :: x in ids <==> (x in scc[..k] || exists j :: 0 <= j < i && x in sccs[j])
        invariant forall x :: x in ids ==> ids[x] < |sccs| && x in sccs[ids[x]]
      {
        assert scc[..k + 1] == scc[..k] + [scc[k]];
        ids := ids[scc[k] := i];
      }
      assert scc[..|scc|] == scc;
    }
  }

  /** j -> i is an edge of the condensed graph of the first k edges. */
  ghost predicate Condenses(edges: seq<Edge>, k: nat, ids: map<string, nat>, succ: Kahn.Successors)
    requires k <= |edges|
  {
    forall j: nat, i: nat {:trigger CondensedEdge(edges[..k], ids, j, i)} :: i in Kahn.SuccessorsOf(succ, j) <==>
        CondensedEdge(edges[..k], ids, j, i)
  }

  ghost predicate CondensedEdge(edges: seq<Edge>, ids: map<string, nat>, j: nat, i: nat)
  {
    i != j && exists e :: e in edges && e.0 in ids && e.1 in ids && ids[e.0] == j && ids[e.1] == i
  }

  lemma PredecessorsAfter(n: nat, succ: Kahn.Successors, j: nat, i: nat, k: nat)
    requires i !in Kahn.SuccessorsOf(succ, j) && j < n
    ensures Kahn.Predecessors(n, succ[j := Kahn.SuccessorsOf(succ, j) + {i}], k)
         == Kahn.Predecessors(n, succ, k) + (if k == i then {j} else {})
    ensures j !in Kahn.Predecessors(n, succ, i)
  {
  }

  lemma PendingAfter(n: nat, succ: Kahn.Successors, j: nat, i: nat, k: nat)
    requires i !in Kahn.SuccessorsOf(succ, j) && j < n
    ensures Kahn.PendingCount(n, succ[j := Kahn.SuccessorsOf(succ, j) + {i}], {}, k)
         == Kahn.PendingCount(n, succ, {}, k) + (if k == i then 1 else 0)
  {
    hide Kahn.Predecessors;
    PredecessorsAfter(n, succ, j, i, k);
    var P := Kahn.Predecessors(n, succ, k);
    assert P - {} == P && (P + {j}) - {} == P + {j};
  }

  lemma PredecessorAdded(n: nat, succ: Kahn.Successors, inDegree: map<nat, nat>, j: nat, i: nat)
    requires Kahn.CountsPending(n, succ, inDegree, {}) && i < n && j < n
    requires i !in Kahn.SuccessorsOf(succ, j) && i in inDegree
    ensures Kahn.CountsPending(n, succ[j := Kahn.SuccessorsOf(succ, j) + {i}], inDegree[i := inDegree[i] + 1], {})
  {
    hide Kahn.PendingCount, Kahn.SuccessorsOf;
    forall k: nat | k in inDegree {
      PendingAfter(n, succ, j, i, k);
    }
  }

  lemma EdgeCondensed(edges: seq<Edge>, k: nat, ids: map<string, nat>, j: nat, i: nat)
    requires k < |edges|
    ensures CondensedEdge(edges[..k + 1], ids, j, i) <==>
      (CondensedEdge(edges[..k], ids, j, i)
       || (i != j && edges[k].0 in ids && edges[k].1 in ids && ids[edges[k].0] == j && ids[edges[k].1] == i))
  {
    assert edges[..k + 1] == edges[..k] + [edges[k]];
  }

  lemma NoPredecessors(n: nat, inDegree: map<nat, nat>)
    requires forall i: nat :: i in inDegree <==> i < n
    requires forall i :: i in inDegree ==> inDegree[i] == 0
    ensures Kahn.CountsPending(n, map[], inDegree, {})
  {
    forall i: nat | i < n ensures Kahn.PendingCount(n, map[], {}, i) == 0 {
      assert Kahn.Predecessors(n, map[], i) - {} == {};
    }
  }

  method Condense(edges: seq<Edge>, n: nat, ids: map<string, nat>)
      returns (succ: Kahn.Successors, inDegree: map<nat, nat>)
    requires forall x :: x in ids ==> ids[x] < n
    ensures Condenses(edges, |edges|, ids, succ) && Kahn.CountsPending(n, succ, inDegree, {})
  {
    hide Kahn.CountsPending, Kahn.Predecessors, CondensedEdge;
    succ, inDegree := map[], map[];
    for i: nat := 0 to n
      invariant forall j: nat :: j in inDegree <==> j < i
      invariant forall j :: j in inDegree ==> inDegree[j] == 0
    {
      inDegree := inDegree[i := 0];
    }
    NoPredecessors(n, inDegree);
    NothingCondensed(edges, ids);
    for k := 0 to |edges|
      invariant Condenses(edges, k, ids, succ)
      invariant Kahn.CountsPending(n, succ, inDegree, {}) && forall j: nat :: j in inDegree <==> j < n
    {
      var (dep, dependent) := edges[k];
      ghost var succ0 := succ;
      if dep in ids && dependent in ids && ids[dep] != ids[dependent] {
        var j, i := ids[dep], ids[dependent];
        if i !in Kahn.SuccessorsOf(succ, j) {
          PredecessorAdded(n, succ, inDegree, j, i);
          succ := succ[j := Kahn.SuccessorsOf(succ, j) + {i}];
          inDegree := inDegree[i := inDegree[i] + 1];
        }
      }
      forall j: nat, i: nat ensures i in Kahn.SuccessorsOf(succ, j) <==> CondensedEdge(edges[..k + 1], ids, j, i) {
        EdgeCondensed(edges, k, ids, j, i);
        assert i in Kahn.SuccessorsOf(succ0, j) <==> CondensedEdge(edges[..k], ids, j, i);
      }
    }
    assert edges[..|edges|] == edges;
  }

  lemma NothingCondensed(edges: seq<Edge>, ids: map<string, nat>)
    ensures Condenses(edges, 0, ids, map[])
  {
  }

  // ---------- Expanding the components ----------

  /** The list can be extended by block, an arrangement of the component scc. */
  ghost predicate Extends(edges: seq<Edge>, nodes: set<string>, R: set<(string, string)>,
                          order: seq<string>, scc: seq<string>, block: seq<string>)
  {
    && IsComponent(R, scc) && (forall x :: x in block <==> x in scc)
    && Kahn.Distinct(block) && GreedyBlock(edges, Elements(scc), block)
    && (forall x :: x in scc ==> x in nodes && x !in order)
    && (forall x, u :: x in scc && u in nodes && (u, x) in edges ==> u in scc || u in order)
  }

  lemma ExtendContiguous(edges: seq<Edge>, nodes: set<string>, R: set<(string, string)>,
                         order: seq<string>, scc: seq<string>, block: seq<string>)
    requires Extends(edges, nodes, R, order, scc, block) && Kahn.Distinct(order) && Contiguous(R, order)
    ensures Kahn.Distinct(order + block) && Contiguous(R, order + block)
  {
    var more := order + block;
    assert forall k :: 0 <= k < |block| ==> more[|order| + k] == block[k] && block[k] in scc;
    forall p, q, r | 0 <= p < q < r < |more| && Same(R, more[p], more[r]) ensures Same(R, more[p], more[q]) {
      if r >= |order| {
        assert more[r] in scc && more[p] in scc;
        assert p >= |order|;
        assert more[q] in scc;
      } else {
        assert more[p] == order[p] && more[q] == order[q] && more[r] == order[r];
      }
    }
  }

  lemma ExtendDependencies(edges: seq<Edge>, nodes: set<string>, R: set<(string, string)>,
                           order: seq<string>, scc: seq<string>, block: seq<string>)
    requires Extends(edges, nodes, R, order, scc, block) && DependenciesFirst(edges, nodes, R, order)
    ensures DependenciesFirst(edges, nodes, R, order + block)
  {
    var more := order + block;
    forall q, u | 0 <= q < |more| && u in nodes && (u, more[q]) in edges && !Same(R, u, more[q])
      ensures u in more[..q]
    {
      if q < |order| {
        assert more[..q] == order[..q];
      } else {
        assert block[q - |order|] in scc && more[q] == block[q - |order|];
        assert u in order;
        assert order <= more[..q];
      }
    }
  }

  lemma PendingInBlock(edges: seq<Edge>, nodes: set<string>, R: set<(string, string)>,
                       order: seq<string>, scc: seq<string>, block: seq<string>, p: nat)
    requires Extends(edges, nodes, R, order, scc, block) && p < |block|
    ensures Pending(nodes, R, block[p], order + block[..p]) == Elements(scc) - Elements(block[..p])
  {
    assert block[p] in scc;
    assert forall y :: y in order + block[..p] <==> y in order || y in block[..p];
  }

  lemma ExtendGreedy(edges: seq<Edge>, nodes: set<string>, R: set<(string, string)>,
                     order: seq<string>, scc: seq<string>, block: seq<string>)
    requires Extends(edges, nodes, R, order, scc, block) && Greedy(edges, nodes, R, order)
    ensures Greedy(edges, nodes, R, order + block)
  {
    hide Better;
    var more := order + block;
    forall p, y | 0 <= p < |more| && y in Pending(nodes, R, more[p], more[..p])
      ensures Better(edges, Pending(nodes, R, more[p], more[..p]), more[p], y)
    {
      if p < |order| {
        assert more[p] == order[p] && more[..p] == order[..p];
      } else {
        var k := p - |order|;
        assert more[p] == block[k] && more[..p] == order + block[..k];
        PendingInBlock(edges, nodes, R, order, scc, block, k);
      }
    }
  }

  /** The blocks with more than one member, each once, cover all nodes that lie on a cycle with another one. */
  ghost predicate IsCycleList(nodes: set<string>, R: set<(string, string)>, cycles: seq<seq<string>>)
  {
    && (forall i :: 0 <= i < |cycles| ==>
          IsComponent(R, cycles[i]) && |cycles[i]| > 1 && Sorting.Ascending(Sorting.Before, cycles[i]))
    && Disjoint(cycles)
    && (forall x, y :: x in nodes && x != y && Same(R, x, y) ==> exists i :: 0 <= i < |cycles| && x in cycles[i])
  }

  /** The blocks with more than one member, in their order. */
  ghost function Larger(sccs: seq<seq<string>>): seq<seq<string>>
  {
    if sccs == [] then []
    else
      var last := sccs[|sccs| - 1];
      Larger(sccs[..|sccs| - 1]) + if |last| > 1 then [last] else []
  }

  lemma {:induction false} LargerHas(sccs: seq<seq<string>>, block: seq<string>)
    ensures block in Larger(sccs) <==> block in sccs && |block| > 1
  {
    if sccs != [] {
      LargerHas(sccs[..|sccs| - 1], block);
      assert sccs == sccs[..|sccs| - 1] + [sccs[|sccs| - 1]];
    }
  }

  lemma {:induction false} LargerDisjoint(sccs: seq<seq<string>>)
    requires Disjoint(sccs)
    ensures Disjoint(Larger(sccs))
  {
    if sccs != [] {
      var n := |sccs| - 1;
      LargerDisjoint(sccs[..n]);
      var front := Larger(sccs[..n]);
      forall i, x | 0 <= i < |front| && x in front[i] ensures x !in sccs[n] {
        LargerHas(sccs[..n], front[i]);
        var j :| 0 <= j < n && sccs[..n][j] == front[i];
        assert x in sccs[j];
      }
    }
  }

  lemma LargerIsCycleList(net: Net<string>, sccs: seq<seq<string>>)
    requires AreComponents(net, sccs)
    ensures IsCycleList(net.Keys, ReachSet(net), Larger(sccs))
  {
    hide ReachSet, EdgesPointBack, Larger;
    var cycles := Larger(sccs);
    LargerDisjoint(sccs);
    forall i | 0 <= i < |cycles| ensures cycles[i] in sccs && |cycles[i]| > 1 {
      LargerHas(sccs, cycles[i]);
    }
    forall x, y | x in net.Keys && x != y && Same(ReachSet(net), x, y)
      ensures exists i :: 0 <= i < |cycles| && x in cycles[i]
    {
      var j :| 0 <= j < |sccs| && x in sccs[j];
      TwoMembers(ReachSet(net), sccs[j], x, y);
      LargerHas(sccs, sccs[j]);
    }
  }

  lemma TwoMembers(R: set<(string, string)>, block: seq<string>, x: string, y: string)
    requires IsComponent(R, block) && x in block && x != y && Same(R, x, y)
    ensures |block| > 1
  {
    assert y in block;
  }

  method Cycles(ghost net: Net<string>, sccs: seq<seq<string>>) returns (cycles: seq<seq<string>>)
    requires AreComponents(net, sccs)
    ensures IsCycleList(net.Keys, ReachSet(net), cycles) && cycles == Larger(sccs)
  {
    hide AreComponents, IsCycleList, ReachSet;
    cycles := [];
    for k := 0 to |sccs|
      invariant cycles == Larger(sccs[..k])
    {
      assert sccs[..k + 1][..k] == sccs[..k];
      if |sccs[k]| > 1 {
        cycles := cycles + [sccs[k]];
      }
    }
    assert sccs[..|sccs|] == sccs;
    LargerIsCycleList(net, sccs);
  }

  // ---------- The whole sort ----------

  /** What goes into a build order: the components in their order, their numbers, the edges between the
      numbers, the order of the numbers, and each component expanded. */
  datatype Plan = Plan(
    sccs: seq<seq<string>>,
    ids: map<string, nat>,
    succ: Kahn.Successors,
    sccOrder: seq<nat>,
    blocks: seq<seq<string>>)

  /** block is the component scc in greedy order. */
  ghost predicate IsBlock(edges: seq<Edge>, scc: seq<string>, block: seq<string>)
  {
    Kahn.Distinct(block) && (forall x :: x in block <==> x in scc) && GreedyBlock(edges, Elements(scc), block)
  }

  ghost predicate IsPlan(edges: seq<Edge>, nodes: set<string>, p: Plan)
  {
    && AreComponents(DepNet(edges, nodes), p.sccs) && InPostOrder(DepNet(edges, nodes), p.sccs)
    && Numbers(nodes, p.sccs, p.ids) && Condenses(edges, |edges|, p.ids, p.succ)
    && Kahn.Distinct(p.sccOrder) && (forall i: nat :: i in p.sccOrder <==> i < |p.sccs|)
    && Kahn.LeastFirst(|p.sccs|, p.succ, p.sccOrder)
    && |p.blocks| == |p.sccOrder|
    && forall k :: 0 <= k < |p.sccOrder| ==>
         p.sccOrder[k] < |p.sccs| && IsBlock(edges, p.sccs[p.sccOrder[k]], p.blocks[k])
  }

  ghost function Flatten(blocks: seq<seq<string>>): seq<string>
  {
    if blocks == [] then [] else Flatten(blocks[..|blocks| - 1]) + blocks[|blocks| - 1]
  }

  /** order and cycles are what the plan for the graph gives. */
  ghost predicate FollowsPlan(edges: seq<Edge>, nodes: set<string>, order: seq<string>, cycles: seq<seq<string>>)
  {
    exists p :: IsPlan(edges, nodes, p) && order == Flatten(p.blocks) && cycles == Larger(p.sccs)
  }

  lemma NumberIsUnique(nodes: set<string>, sccs: seq<seq<string>>, ids: map<string, nat>, x: string, j: nat)
    requires Disjoint(sccs) && Numbers(nodes, sccs, ids) && j < |sccs| && x in sccs[j] && x in nodes
    ensures ids[x] == j
  {
  }

  /** The condensed graph is acyclic: its edges lead to components that were found earlier. */
  lemma CondensedDescends(edges: seq<Edge>, nodes: set<string>, sccs: seq<seq<string>>, ids: map<string, nat>,
                          succ: Kahn.Successors)
    requires AreComponents(DepNet(edges, nodes), sccs) && Numbers(nodes, sccs, ids)
      && Condenses(edges, |edges|, ids, succ)
    ensures Kahn.Descends(|sccs|, succ)
  {
    hide IsComponent, ReachSet;
    assert edges[..|edges|] == edges;
    forall j: nat, i: nat | i in Kahn.SuccessorsOf(succ, j) ensures i < j < |sccs| {
      assert CondensedEdge(edges[..|edges|], ids, j, i);
      var e :| e in edges && e.0 in ids && e.1 in ids && ids[e.0] == j && ids[e.1] == i;
      assert e.0 in sccs[j] && e == (e.0, e.1) && e.1 in DepNet(edges, nodes)[e.0];
      var k :| 0 <= k <= j && e.1 in sccs[k];
      NumberIsUnique(nodes, sccs, ids, e.1, k);
    }
  }

  ghost predicate Expanded(edges: seq<Edge>, nodes: set<string>, R: set<(string, string)>, order: seq<string>)
  {
    && Kahn.Distinct(order) && Contiguous(R, order)
    && DependenciesFirst(edges, nodes, R, order) && Greedy(edges, nodes, R, order)
  }

  /** The list holds exactly the members of the components placed so far. */
  ghost predicate HoldsPlaced(nodes: set<string>, ids: map<string, nat>, placed: seq<nat>, order: seq<string>)
    requires ids.Keys == nodes
  {
    forall x :: x in order <==> x in nodes && ids[x] in placed
  }

  lemma DependencyPlaced(edges: seq<Edge>, nodes: set<string>, sccs: seq<seq<string>>, ids: map<string, nat>,
                         succ: Kahn.Successors, sccOrder: seq<nat>, k: nat, u: string, x: string)
    requires Numbers(nodes, sccs, ids) && Condenses(edges, |edges|, ids, succ)
    requires Kahn.LeastFirst(|sccs|, succ, sccOrder) && k < |sccOrder|
    requires u in nodes && x in nodes && (u, x) in edges && ids[x] == sccOrder[k]
    ensures ids[u] == sccOrder[k] || ids[u] in sccOrder[..k]
  {
    if ids[u] != sccOrder[k] {
      assert edges[..|edges|] == edges;
      assert CondensedEdge(edges[..|edges|], ids, ids[u], sccOrder[k]);
      assert ids[u] in Kahn.Predecessors(|sccs|, succ, sccOrder[k]);
    }
  }

  lemma NextExtends(edges: seq<Edge>, nodes: set<string>, sccs: seq<seq<string>>, ids: map<string, nat>,
                    succ: Kahn.Successors, sccOrder: seq<nat>, k: nat, order: seq<string>, block: seq<string>)
    requires AreComponents(DepNet(edges, nodes), sccs) && Numbers(nodes, sccs, ids)
      && Condenses(edges, |edges|, ids, succ)
    requires Kahn.LeastFirst(|sccs|, succ, sccOrder) && Kahn.Distinct(sccOrder)
    requires k < |sccOrder| && sccOrder[k] < |sccs| && HoldsPlaced(nodes, ids, sccOrder[..k], order)
    requires IsBlock(edges, sccs[sccOrder[k]], block)
    ensures Extends(edges, nodes, ReachSet(DepNet(edges, nodes)), order, sccs[sccOrder[k]], block)
    ensures HoldsPlaced(nodes, ids, sccOrder[..k + 1], order + block)
  {
    hide ReachSet, GreedyBlock, IsComponent, Condenses, Kahn.LeastFirst, EdgesPointBack;
    var id := sccOrder[k];
    var scc := sccs[id];
    assert sccOrder[..k + 1] == sccOrder[..k] + [id];
    assert id !in sccOrder[..k];
    forall x | x in scc ensures x in nodes && ids[x] == id {
      assert x in nodes;
      NumberIsUnique(nodes, sccs, ids, x, id);
    }
    forall x, u | x in scc && u in nodes && (u, x) in edges ensures u in scc || u in order {
      DependencyPlaced(edges, nodes, sccs, ids, succ, sccOrder, k, u, x);
    }
  }

  lemma ExtendAll(edges: seq<Edge>, nodes: set<string>, R: set<(string, string)>,
                  order: seq<string>, scc: seq<string>, block: seq<string>)
    requires Extends(edges, nodes, R, order, scc, block) && Expanded(edges, nodes, R, order)
    ensures Expanded(edges, nodes, R, order + block)
  {
    hide Extends, Contiguous, DependenciesFirst, Greedy;
    ExtendContiguous(edges, nodes, R, order, scc, block);
    ExtendDependencies(edges, nodes, R, order, scc, block);
    ExtendGreedy(edges, nodes, R, order, scc, block);
  }

  /** The members of one component in the order they are to be built. */
  method ExpandBlock(edges: seq<Edge>, reverseAdj: map<string, seq<string>>, scc: seq<string>)
      returns (block: seq<string>)
    requires forall x :: Get(reverseAdj, x) == Incoming(edges, x)
    requires scc != []
    ensures IsBlock(edges, scc, block)
  {
    if |scc| == 1 {
      block := [scc[0]];
      assert forall y :: y in scc ==> y == scc[0];
      Sorting.BeforeIsTotal(scc[0], scc[0]);
    } else {
      block := OrderSccGreedy(edges, reverseAdj, scc);
    }
  }

  method TopologicalSort(edges: seq<Edge>, allNodes: set<string>) returns (order: seq<string>, cycles: seq<seq<string>>)
    ensures IsBuildOrder(edges, allNodes, ReachSet(DepNet(edges, allNodes)), order)
    ensures IsCycleList(allNodes, ReachSet(DepNet(edges, allNodes)), cycles)
    ensures FollowsPlan(edges, allNodes, order, cycles)
  {
    hide InPostOrder, IsBlock, Larger, ReachSet, IsCycleList, Contiguous, DependenciesFirst, Greedy, GreedyBlock,
      Condenses, Kahn.CountsPending,
      Kahn.LeastFirst, Incoming, Outgoing, DepNet, NetOf, Extends;
    ghost var net := DepNet(edges, allNodes);
    ghost var R := ReachSet(net);
    var adjacency, reverseAdj := BuildAdjacency(edges);
    DepNetIsNet(edges, allNodes, adjacency);
    var allSccs := FindAllSccs(allNodes, adjacency);
    cycles := Cycles(net, allSccs);

    var nodeToScc := NumberComponents(allNodes, allSccs);
    var condensedAdj, condensedInDegree := Condense(edges, |allSccs|, nodeToScc);
    CondensedDescends(edges, allNodes, allSccs, nodeToScc, condensedAdj);
    var sccOrder := Kahn.Order(|allSccs|, condensedAdj, condensedInDegree);

    order := [];
    ghost var blocks: seq<seq<string>> := [];
    assert Expanded(edges, allNodes, R, order) by { NothingExpanded(edges, allNodes, R); }
    for k := 0 to |sccOrder|
      invariant Expanded(edges, allNodes, R, order)
      invariant HoldsPlaced(allNodes, nodeToScc, sccOrder[..k], order)
      invariant |blocks| == k && order == Flatten(blocks)
      invariant forall i :: 0 <= i < k ==> sccOrder[i] < |allSccs| && IsBlock(edges, allSccs[sccOrder[i]], blocks[i])
    {
      assert sccOrder[k] in sccOrder;
      var scc := allSccs[sccOrder[k]];
      var block := ExpandBlock(edges, reverseAdj, scc);
      NextExtends(edges, allNodes, allSccs, nodeToScc, condensedAdj, sccOrder, k, order, block);
      ExtendAll(edges, allNodes, R, order, scc, block);
      order := order + block;
      assert (blocks + [block])[..k] == blocks;
      blocks := blocks + [block];
    }
    assert sccOrder[..|sccOrder|] == sccOrder;
    ghost var plan := Plan(allSccs, nodeToScc, condensedAdj, sccOrder, blocks);
    assert IsPlan(edges, allNodes, plan);

    // The guard for nodes outside every component: there are none.
    ghost var complete := order;
    Sorting.BeforeIsStrictTotal();
    var rest := Sorting.Sorted(Sorting.Before, allNodes);
    for i := 0 to |rest|
      invariant order == complete
    {
      var node := rest[i];
      assert node in rest;
      if node !in order {
        order := order + [node];
      }
    }
  }

  lemma NothingExpanded(edges: seq<Edge>, nodes: set<string>, R: set<(string, string)>)
    ensures Expanded(edges, nodes, R, [])
  {
  }

  /** Without cycles the build order is a plain topological order. */
  lemma AcyclicMeansTopological(edges: seq<Edge>, nodes: set<string>, order: seq<string>, i: nat, u: string)
    requires IsBuildOrder(edges, nodes, ReachSet(DepNet(edges, nodes)), order)
    requires IsCycleList(nodes, ReachSet(DepNet(edges, nodes)), [])
    requires i < |order| && u in nodes && u != order[i] && (u, order[i]) in edges
    ensures u in order[..i]
  {
    assert order[i] in order;
  }
}
