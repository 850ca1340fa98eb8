/** The NEEDED graph of the libraries in a bundle: depths and transitive counts. */
module DepGraph {
  import opened Digraph
  import Breadth
  import Firsts
  import Sonames

  type Needed = map<string, seq<string>>

  datatype Info = Info(neededBy: seq<string>, depth: nat, transitiveCount: nat)

  /** Edges between libraries that are both in the bundle. */
  ghost function Edges(needed: Needed): (E: set<(string, string)>)
    ensures forall a, b :: (a, b) in E <==> a in needed && b in needed[a] && b in needed
  {
    set a, b | a in needed && b in needed[a] && b in needed :: (a, b)
  }

  // ---------- Counting ----------

  /** The recursive counter and the set of names it shares between its calls. */
  class TransitiveCounter {
    const needed: Needed
    var seen: set<string>

    constructor (needed: Needed)
      ensures this.needed == needed && seen == {}
    {
      this.needed, seen := needed, {};
    }

    method Count(name: string) returns (total: nat)
      requires seen <= needed.Keys
      modifies this
      ensures old(seen) <= seen <= needed.Keys
      ensures name in old(seen) || name !in needed ==> total == 0 && seen == old(seen)
      ensures name !in old(seen) && name in needed ==> name in seen && total + 1 == |seen - old(seen)|
      ensures forall x :: x in seen && x !in old(seen) ==> Reach(Edges(needed), name, x)
      ensures forall x, y :: x in seen && x !in old(seen) && (x, y) in Edges(needed) ==> y in seen
      decreases needed.Keys - seen
    {
      hide Edges, Reach;
      if name in seen || name !in needed {
        return 0;
      }
      ghost var E, before := Edges(needed), seen;
      seen := seen + {name};
      ReachSelf(E, name);
      assert seen - before == {name};
      total := 0;
      for i := 0 to |needed[name]|
        invariant before + {name} <= seen <= needed.Keys
        invariant total + 1 == |seen - before|
        invariant forall x :: x in seen && x !in before ==> Reach(E, name, x)
        invariant forall x, y :: x in seen && x !in before && x != name && (x, y) in E ==> y in seen
        invariant forall j :: 0 <= j < i && needed[name][j] in needed ==> needed[name][j] in seen
      {
        var dep := needed[name][i];
        if dep in needed && dep !in seen {
          ghost var during := seen;
          var deeper := Count(dep);
          EdgeOf(needed, name, dep);
          assert seen - before == (during - before) + (seen - during);
          forall x | x in seen && x !in during ensures Reach(E, name, x) {
            ReachEdge(E, name, dep);
            ReachTrans(E, name, dep, x);
          }
          total := total + 1 + deeper;
        }
      }
      forall y | (name, y) in E ensures y in seen {
        EdgeOf(needed, name, y);
      }
    }
  }

  lemma EdgeOf(needed: Needed, a: string, b: string)
    requires a in needed
    ensures (a, b) in Edges(needed) <==> b in needed[a] && b in needed
  {
  }

  /** The other libraries that name needs, directly or not. */
  ghost function Closure(needed: Needed, name: string): (r: set<string>)
    ensures forall x :: x in r <==> x in needed && x != name && Reach(Edges(needed), name, x)
  {
    set x | x in needed && x != name && Reach(Edges(needed), name, x)
  }

  method CountTransitive(needed: Needed, name: string) returns (total: nat)
    requires name in needed
    ensures total == |Closure(needed, name)|
  {
    hide Edges;
    var counter := new TransitiveCounter(needed);
    total := counter.Count(name);
    assert counter.seen - {} == counter.seen;
    forall x | Reach(Edges(needed), name, x) ensures x in counter.seen {
      ClosedContains(Edges(needed), {name}, x, counter.seen);
    }
    assert counter.seen == Closure(needed, name) + {name};
  }

  // ---------- The graph ----------

  ghost function Unneeded(needed: Needed): (r: set<string>)
    ensures forall n :: n in r <==> n in needed && forall a :: (a, n) !in Edges(needed)
  {
    set n | n in needed && forall a :: (a, n) !in Edges(needed)
  }

  /** Libraries that no library in the bundle needs; all of them if there is none. */
  ghost function Roots(needed: Needed): set<string>
  {
    if Unneeded(needed) == {} then needed.Keys else Unneeded(needed)
  }

  /** The name once for each time n occurs in deps. */
  function OncePerNeed(name: string, deps: seq<string>, n: string): seq<string>
  {
    if deps == [] then []
    else OncePerNeed(name, deps[..|deps| - 1], n) + if deps[|deps| - 1] == n then [name] else []
  }

  /** Those of the names that need n, in order, each once for each of its entries that stands for n. */
  function Dependents(names: seq<string>, needed: Needed, n: string): seq<string>
  {
    if names == [] then []
    else
      var a := names[|names| - 1];
      Dependents(names[..|names| - 1], needed, n) + if a in needed then OncePerNeed(a, needed[a], n) else []
  }

  lemma OncePerNeedSnoc(name: string, deps: seq<string>, d: string, n: string)
    ensures OncePerNeed(name, deps + [d], n) == OncePerNeed(name, deps, n) + if d == n then [name] else []
  {
    assert (deps + [d])[..|deps + [d]| - 1] == deps;
  }

  lemma DependentsSnoc(names: seq<string>, needed: Needed, a: string, n: string)
    requires a in needed
    ensures Dependents(names + [a], needed, n) == Dependents(names, needed, n) + OncePerNeed(a, needed[a], n)
  {
    assert (names + [a])[..|names + [a]| - 1] == names;
  }

  lemma {:induction false} OncePerNeedHas(name: string, deps: seq<string>, n: string, a: string)
    ensures a in OncePerNeed(name, deps, n) <==> a == name && n in deps
  {
    if deps != [] {
      OncePerNeedHas(name, deps[..|deps| - 1], n, a);
      assert deps == deps[..|deps| - 1] + [deps[|deps| - 1]];
    }
  }

  /** They are the sources of the edges into n. */
  lemma {:induction false} DependentsHas(names: seq<string>, needed: Needed, n: string, a: string)
    requires n in needed
    ensures a in Dependents(names, needed, n) <==> a in names && (a, n) in Edges(needed)
  {
    if names != [] {
      var b := names[|names| - 1];
      DependentsHas(names[..|names| - 1], needed, n, a);
      assert names == names[..|names| - 1] + [b];
      if b in needed {
        OncePerNeedHas(b, needed[b], n, a);
      }
    }
  }

  ghost predicate NeededByRight(names: seq<string>, needed: Needed, graph: map<string, Info>)
  {
    graph.Keys == needed.Keys && forall n :: n in graph ==> graph[n].neededBy == Dependents(names, needed, n)
  }

  /** The depth is the distance from the roots, and 0 for what the roots do not reach. */
  ghost predicate DepthRight(needed: Needed, name: string, depth: nat)
  {
    if Reachable(Edges(needed), Roots(needed), name) then Breadth.Shortest(Edges(needed), Roots(needed), name, depth)
    else depth == 0
  }

  /** The inner loop: the name joins those that need each of its dependencies. */
  method AddNeeds(graph: map<string, Info>, name: string, deps: seq<string>) returns (graph': map<string, Info>)
    ensures graph'.Keys == graph.Keys
    ensures forall n :: n in graph ==>
      graph'[n] == graph[n].(neededBy := graph[n].neededBy + OncePerNeed(name, deps, n))
  {
    hide OncePerNeed;
    graph' := graph;
    NoNeeds(name, graph);
    for j := 0 to |deps|
      invariant graph'.Keys == graph.Keys
      invariant forall n :: n in graph ==>
        graph'[n] == graph[n].(neededBy := graph[n].neededBy + OncePerNeed(name, deps[..j], n))
    {
      assert deps[..j + 1] == deps[..j] + [deps[j]];
      forall n {
        OncePerNeedSnoc(name, deps[..j], deps[j], n);
      }
      if deps[j] in graph' {
        graph' := graph'[deps[j] := graph'[deps[j]].(neededBy := graph'[deps[j]].neededBy + [name])];
      }
    }
    assert deps[..|deps|] == deps;
  }

  lemma NoNeeds(name: string, graph: map<string, Info>)
    ensures forall n :: n in graph ==> graph[n] == graph[n].(neededBy := graph[n].neededBy + OncePerNeed(name, [], n))
  {
  }

  method ReverseEdges(names: seq<string>, needed: Needed) returns (graph: map<string, Info>)
    requires forall n :: n in names <==> n in needed
    ensures NeededByRight(names, needed, graph)
    ensures forall n :: n in graph ==> graph[n].depth == 0
  {
    hide OncePerNeed, Dependents;
    graph := map n | n in needed :: Info([], 0, 0);
    NoDependents(needed);
    for i := 0 to |names|
      invariant graph.Keys == needed.Keys
      invariant forall n :: n in graph ==> graph[n].depth == 0
      invariant forall n :: n in graph ==> graph[n].neededBy == Dependents(names[..i], needed, n)
    {
      assert names[..i + 1] == names[..i] + [names[i]];
      assert names[i] in names;
      forall n {
        DependentsSnoc(names[..i], needed, names[i], n);
      }
      graph := AddNeeds(graph, names[i], needed[names[i]]);
    }
    assert names[..|names|] == names;
  }

  lemma NoDependents(needed: Needed)
    ensures forall n :: Dependents([], needed, n) == []
  {
  }

  method FindRoots(names: seq<string>, needed: Needed, graph: map<string, Info>) returns (roots: seq<string>)
    requires (forall n :: n in names <==> n in needed) && NeededByRight(names, needed, graph)
    ensures forall n :: n in roots <==> n in Roots(needed)
  {
    hide NeededByRight, Unneeded;
    GraphKeys(names, needed, graph);
    roots := [];
    for i := 0 to |names|
      invariant forall n :: n in roots <==> n in names[..i] && graph[n].neededBy == []
    {
      assert names[..i + 1] == names[..i] + [names[i]];
      if graph[names[i]].neededBy == [] {
        roots := roots + [names[i]];
      }
    }
    assert names[..|names|] == names;
    forall n ensures n in roots <==> n in Unneeded(needed) {
      if n in needed {
        UnneededMeansEmpty(names, needed, graph, n);
      }
    }
    if roots == [] {
      roots := names;
    } else {
      assert roots[0] in Unneeded(needed);
    }
  }

  lemma GraphKeys(names: seq<string>, needed: Needed, graph: map<string, Info>)
    requires NeededByRight(names, needed, graph)
    ensures graph.Keys == needed.Keys
  {
  }

  lemma UnneededMeansEmpty(names: seq<string>, needed: Needed, graph: map<string, Info>, n: string)
    requires (forall a :: a in names <==> a in needed) && NeededByRight(names, needed, graph) && n in needed
    ensures n in Unneeded(needed) <==> graph[n].neededBy == []
  {
    hide Dependents;
    forall a ensures a in graph[n].neededBy <==> (a, n) in Edges(needed) {
      DependentsHas(names, needed, n, a);
    }
    if graph[n].neededBy != [] {
      assert graph[n].neededBy[0] in graph[n].neededBy;
    }
  }

  function Appended(deps: seq<string>, keys: set<string>, depth: nat): (r: seq<(string, nat)>)
    ensures forall e :: e in r <==> e.0 in deps && e.0 in keys && e.1 == depth + 1
  {
    if deps == [] then []
    else
      assert forall d :: d in deps <==> d == deps[0] || d in deps[1..];
      (if deps[0] in keys then [(deps[0], depth + 1)] else []) + Appended(deps[1..], keys, depth)
  }

  lemma AppendedFits(needed: Needed, depth: map<string, nat>, name: string, d: nat)
    requires name in needed
    ensures Breadth.Appends(Edges(needed), 0, depth, (name, d), Appended(needed[name], needed.Keys, d))
  {
    var added := Appended(needed[name], needed.Keys, d);
    forall i | 0 <= i < |added| ensures (name, added[i].0) in Edges(needed) && added[i].1 == d + 1 {
      assert added[i] in added;
    }
  }

  method ComputeDepths(roots: seq<string>, needed: Needed, graph: map<string, Info>) returns (graph': map<string, Info>)
    requires graph.Keys == needed.Keys && (forall n :: n in graph ==> graph[n].depth == 0)
    requires forall n :: n in roots <==> n in Roots(needed)
    ensures graph'.Keys == graph.Keys
    ensures forall n :: n in graph ==> graph'[n] == graph[n].(depth := graph'[n].depth)
    ensures forall n :: n in graph ==> DepthRight(needed, n, graph'[n].depth)
  {
    hide Breadth.Inv, Edges, Roots;
    ghost var E, R := Edges(needed), Roots(needed);
    ghost var depth: map<string, nat> := map[];
    RootsAreNames(needed);
    graph' := graph;
    var visited: set<string> := {};
    var queue := seq(|roots|, i requires 0 <= i < |roots| => (roots[i], 0));
    InitialQueue(roots, queue);
    Breadth.Start(E, R, 0, queue);
    while queue != []
      invariant visited == depth.Keys && visited <= needed.Keys
      invariant Breadth.Inv(E, R, 0, depth, queue)
      invariant forall i :: 0 <= i < |queue| ==> queue[i].0 in needed
      invariant graph'.Keys == graph.Keys
      invariant forall n :: n in graph ==> graph'[n] == graph[n].(depth := if n in depth then depth[n] else 0)
      decreases needed.Keys - visited, |queue|
    {
      var (name, d) := queue[0];
      if name in visited {
        Breadth.Skip(E, R, 0, depth, queue);
        queue := queue[1..];
        continue;
      }
      visited := visited + {name};
      var higher := if graph'[name].depth < d then d else graph'[name].depth;
      graph' := graph'[name := graph'[name].(depth := higher)];
      AppendedFits(needed, depth, name, d);
      var added := Appended(needed[name], needed.Keys, d);
      Breadth.Visit(E, R, 0, depth, queue, added);
      forall i | 0 <= i < |added| ensures added[i].0 in needed {
        assert added[i] in added;
      }
      queue, depth := queue[1..] + added, depth[name := d];
    }
    forall n | n in graph ensures DepthRight(needed, n, graph'[n].depth) {
      DepthsFound(needed, depth, n);
    }
  }

  lemma RootsAreNames(needed: Needed)
    ensures Roots(needed) <= needed.Keys
  {
  }

  lemma InitialQueue(roots: seq<string>, queue: seq<(string, nat)>)
    requires |queue| == |roots| && forall i :: 0 <= i < |roots| ==> queue[i] == (roots[i], 0)
    ensures forall r :: r in roots <==> (r, 0) in queue
  {
    forall r | r in roots ensures (r, 0) in queue {
      var i :| 0 <= i < |roots| && roots[i] == r;
      assert queue[i] == (r, 0);
    }
  }

  lemma DepthsFound(needed: Needed, depth: map<string, nat>, n: string)
    requires Breadth.Inv(Edges(needed), Roots(needed), 0, depth, [])
    ensures DepthRight(needed, n, if n in depth then depth[n] else 0)
  {
    Breadth.Finish(Edges(needed), Roots(needed), 0, depth);
    if Reachable(Edges(needed), Roots(needed), n) {
      var k: nat :| Walk(Edges(needed), Roots(needed), n, k);
      ShortestExists(needed, n, k);
    }
  }

  lemma {:induction false} ShortestExists(needed: Needed, n: string, k: nat)
    requires Walk(Edges(needed), Roots(needed), n, k)
    ensures exists m: nat :: Breadth.Shortest(Edges(needed), Roots(needed), n, m)
    decreases k
  {
    if !Breadth.Shortest(Edges(needed), Roots(needed), n, k) {
      var m: nat :| m < k && Walk(Edges(needed), Roots(needed), n, m);
      ShortestExists(needed, n, m);
    }
  }

  /** names lists the libraries of the bundle; needed holds their resolved NEEDED entries. */
  method FillGraph(names: seq<string>, needed: Needed) returns (graph: map<string, Info>)
    requires forall n :: n in names <==> n in needed
    ensures NeededByRight(names, needed, graph)
    ensures forall n :: n in needed ==> DepthRight(needed, n, graph[n].depth)
    ensures forall n :: n in needed ==> graph[n].transitiveCount == |Closure(needed, n)|
  {
    hide Edges, Roots, DepthRight, Closure, Dependents;
    graph := ReverseEdges(names, needed);
    var roots := FindRoots(names, needed, graph);
    graph := ComputeDepths(roots, needed, graph);
    for i := 0 to |names|
      invariant NeededByRight(names, needed, graph)
      invariant forall n :: n in needed ==> DepthRight(needed, n, graph[n].depth)
      invariant forall n :: n in names[..i] ==> n in needed && graph[n].transitiveCount == |Closure(needed, n)|
    {
      assert names[..i + 1] == names[..i] + [names[i]];
      assert names[i] in names;
      var total := CountTransitive(needed, names[i]);
      graph := graph[names[i] := graph[names[i]].(transitiveCount := total)];
    }
    assert names[..|names|] == names;
  }

  // ---------- From the libraries ----------

  /** A library file: its name and its NEEDED sonames. */
  datatype Library = Library(name: string, sonames: seq<string>)

  function Names(libraries: seq<Library>): (r: seq<string>)
    ensures |r| == |libraries| && forall i :: 0 <= i < |r| ==> r[i] == libraries[i].name
  {
    seq(|libraries|, i requires 0 <= i < |libraries| => libraries[i].name)
  }

  /** The name of the library that a soname stands for; a soname that stands for none is kept. */
  function Resolved(names: seq<string>, soname: string): string
  {
    match Sonames.Stands(names, soname)
    case None => soname
    case Some(name) => name
  }

  function ResolvedAll(names: seq<string>, sonames: seq<string>): (r: seq<string>)
    ensures |r| == |sonames| && forall i :: 0 <= i < |r| ==> r[i] == Resolved(names, sonames[i])
  {
    seq(|sonames|, i requires 0 <= i < |sonames| => Resolved(names, sonames[i]))
  }

  /** The resolved NEEDED entries of the libraries by name; of several with one name the last counts. */
  function NeededOf(names: seq<string>, libraries: seq<Library>): Needed
  {
    if libraries == [] then map[]
    else
      var last := libraries[|libraries| - 1];
      NeededOf(names, libraries[..|libraries| - 1])[last.name := ResolvedAll(names, last.sonames)]
  }

  /** Of several libraries with one name the last one's entries count, each resolved, in their order. */
  lemma {:induction false} LastOfName(names: seq<string>, libraries: seq<Library>, k: nat, i: nat)
    requires k < |libraries| && i < |libraries[k].sonames|
    requires forall j :: k < j < |libraries| ==> libraries[j].name != libraries[k].name
    ensures var name, m := libraries[k].name, NeededOf(names, libraries);
      name in m && |m[name]| == |libraries[k].sonames| && m[name][i] == Resolved(names, libraries[k].sonames[i])
    decreases |libraries|
  {
    hide Resolved;
    if k < |libraries| - 1 {
      LastOfName(names, libraries[..|libraries| - 1], k, i);
    }
  }

  method ResolveAll(byName: map<string, string>, ghost names: seq<string>, sonames: seq<string>)
      returns (r: seq<string>)
    requires Sonames.Indexes(byName, names)
    ensures r == ResolvedAll(names, sonames)
  {
    hide Sonames.Stands;
    r := [];
    for i := 0 to |sonames|
      invariant |r| == i && forall j :: 0 <= j < i ==> r[j] == Resolved(names, sonames[j])
    {
      assert Sonames.Get(byName, sonames[i]) == Sonames.Stands(names, sonames[i]);
      r := r + [if sonames[i] in byName then byName[sonames[i]] else sonames[i]];
    }
  }

  method BuildDepGraph(libraries: seq<Library>) returns (graph: map<string, Info>)
    ensures var needed := NeededOf(Names(libraries), libraries);
      && NeededByRight(Firsts.Of(Names(libraries)), needed, graph)
      && forall n :: n in needed ==>
           DepthRight(needed, n, graph[n].depth) && graph[n].transitiveCount == |Closure(needed, n)|
  {
    ghost var all := Names(libraries);
    assert Firsts.Of(all[..0]) == [];
    hide NeededByRight, DepthRight, Closure, Sonames.Indexes, ResolvedAll, Firsts.Of;
    var byName := Sonames.IndexNames(Names(libraries));
    var names: seq<string>, needed: Needed := [], map[];
    for i := 0 to |libraries|
      invariant needed == NeededOf(all, libraries[..i]) && names == Firsts.Of(all[..i])
      invariant forall n :: n in names <==> n in needed
    {
      assert libraries[..i + 1][..i] == libraries[..i];
      var library := libraries[i];
      var resolved := ResolveAll(byName, all, library.sonames);
      NextName(all, i);
      if library.name !in needed {
        names := names + [library.name];
      }
      needed := needed[library.name := resolved];
    }
    assert libraries[..|libraries|] == libraries && all[..|libraries|] == all;
    graph := FillGraph(names, needed);
  }

  lemma NextName(all: seq<string>, i: nat)
    requires i < |all|
    ensures Firsts.Of(all[..i + 1])
         == if all[i] in Firsts.Of(all[..i]) then Firsts.Of(all[..i]) else Firsts.Of(all[..i]) + [all[i]]
  {
    assert all[..i + 1] == all[..i] + [all[i]];
    Firsts.OfSnoc(all[..i], all[i]);
    Firsts.OfElements(all[..i]);
  }

  lemma {:induction false} NamesAreKeys(names: seq<string>, libraries: seq<Library>, n: string)
    ensures n in NeededOf(names, libraries) <==> n in Names(libraries)
  {
    if libraries != [] {
      var front, last := libraries[..|libraries| - 1], libraries[|libraries| - 1];
      NamesAreKeys(names, front, n);
      assert Names(libraries) == Names(front) + [last.name];
    }
  }

  /** A library that a soname stands for is in the graph; so an edge is missing only for a soname that
      neither is the name of a library nor is cut from one. */
  lemma ResolvedIsKey(libraries: seq<Library>, soname: string)
    ensures var names := Names(libraries);
      Resolved(names, soname) in NeededOf(names, libraries) <==>
        exists name :: name in names && (soname == name || Sonames.CutOf(soname, name))
  {
    hide Sonames.CutOf;
    var names := Names(libraries);
    NamesAreKeys(names, libraries, Resolved(names, soname));
    var k := Sonames.FirstCut(names, soname);
    if k < |names| {
      assert names[k] in names;
    }
    if name :| name in names && Sonames.CutOf(soname, name) {
      var i :| 0 <= i < |names| && names[i] == name;
      assert k <= i;
    }
  }
}
