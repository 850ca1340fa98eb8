/** The whole result of resolving a target is determined by the resolver and the target. */
module OneRoadmap {
  import opened Roadmap
  import BuildOrder
  import OnePlan
  import Tarjan
  import Kahn
  import Sorting

  /** What Resolve promises. */
  ghost predicate IsResult(r: Resolver, target: string, res: Result, visited: set<string>, edges: seq<(string, string)>,
                           order: seq<string>)
  {
    && RecordsWithinLimit(r, target, res.packages) && RequirementsRight(r, res.packages)
    && NeededByInverts(res.packages) && Numbered(res.packages, res.buildOrder)
    && Ordered(r, target, res, visited, edges)
    && SearchOrder(r, target, order, visited) && NearerFirst(r, target, order, res.packages.Keys)
    && FoundRest(r, order, edges, res.droppedDeps, res.unresolvableDeps, res.sysrootDeps)
  }

  lemma SamePackages(r: Resolver, target: string, a: map<string, PackageInfo>, b: map<string, PackageInfo>)
    requires RecordsWithinLimit(r, target, a) && RecordsWithinLimit(r, target, b)
    ensures a.Keys == b.Keys
  {
    hide Distance;
  }

  lemma SameVisited(r: Resolver, target: string, a: Result, v: set<string>, e: seq<(string, string)>,
                    b: Result, w: set<string>, f: seq<(string, string)>)
    requires Ordered(r, target, a, v, e) && Ordered(r, target, b, w, f)
    ensures v == w
  {
    hide Distance, BuildOrder.IsBuildOrder, BuildOrder.IsCycleList, BuildOrder.FollowsPlan, Needs;
  }

  lemma SameRest(r: Resolver, order: seq<string>, e: seq<(string, string)>, f: seq<(string, string)>, a: Result,
                 b: Result)
    requires FoundRest(r, order, e, a.droppedDeps, a.unresolvableDeps, a.sysrootDeps)
    requires FoundRest(r, order, f, b.droppedDeps, b.unresolvableDeps, b.sysrootDeps)
    ensures e == f && a.droppedDeps == b.droppedDeps && a.unresolvableDeps == b.unresolvableDeps
    ensures a.sysrootDeps == b.sysrootDeps
  {
    hide AllEdges, AllDropped, AllUnresolvable, FromSysroot;
  }

  lemma SameRequires(r: Resolver, a: map<string, PackageInfo>, b: map<string, PackageInfo>, p: string)
    requires RequirementsRight(r, a) && RequirementsRight(r, b) && p in a && p in b
    ensures a[p].buildRequires == b[p].buildRequires
  {
    hide Needs;
    Sorting.BeforeIsStrictTotal();
    Sorting.OneListing(Sorting.Before, a[p].buildRequires, b[p].buildRequires, set x | x in a[p].buildRequires);
  }

  lemma SameNumber(a: map<string, PackageInfo>, b: map<string, PackageInfo>, order: seq<string>, p: string)
    requires Numbered(a, order) && Numbered(b, order) && Kahn.Distinct(order) && p in a && p in b
    ensures a[p].buildOrder == b[p].buildOrder
  {
  }

  lemma OrderedParts(r: Resolver, target: string, a: Result, v: set<string>, e: seq<(string, string)>)
    requires Ordered(r, target, a, v, e)
    ensures BuildOrder.FollowsPlan(e, v, a.buildOrder, a.cycles) && Kahn.Distinct(a.buildOrder)
    ensures forall p :: p in a.packages ==> a.packages[p].neededBy == NeededInOrder(e, p)
  {
    hide Distance, BuildOrder.IsCycleList, BuildOrder.FollowsPlan, Needs, NeededInOrder, Kahn.Distinct, Tarjan.ReachSet;
  }

  /** Two results for the same resolver and target are the same, down to the order of every list. */
  lemma OneResult(r: Resolver, target: string, a: Result, v: set<string>, e: seq<(string, string)>, o: seq<string>,
                  b: Result, w: set<string>, f: seq<(string, string)>, q: seq<string>)
    requires IsResult(r, target, a, v, e, o) && IsResult(r, target, b, w, f, q)
    ensures a == b
  {
    hide RecordsWithinLimit, RequirementsRight, NeededByInverts, Numbered, Ordered, SearchOrder, NearerFirst, FoundRest,
      NeededInOrder, Kahn.Distinct, BuildOrder.FollowsPlan;
    SamePackages(r, target, a.packages, b.packages);
    SameVisited(r, target, a, v, e, b, w, f);
    OneOrder(r, target, o, q, a.packages, v);
    SameRest(r, o, e, f, a, b);
    OrderedParts(r, target, a, v, e);
    OrderedParts(r, target, b, w, f);
    OnePlan.OneBuildOrder(e, v, a.buildOrder, b.buildOrder, a.cycles, b.cycles);
    forall p | p in a.packages ensures a.packages[p] == b.packages[p] {
      SameRequires(r, a.packages, b.packages, p);
      SameNumber(a.packages, b.packages, a.buildOrder, p);
    }
    assert a.packages == b.packages;
  }
}
