/** Resolving the build dependency graph of a target package. */
module Roadmap {
  import Breadth
  import Digraph
  import BuildOrder
  import Firsts
  import Sorting
  import Tarjan
  import Kahn

  /** How one BuildRequires entry of a package is resolved. */
  datatype Provision =
    | Dropped(detail: string)
    | Sysroot
    | Unresolvable(detail: string)
    | Provided(source: string, hasRules: bool)

  /** The package index, the provider resolution and the options. */
  datatype Resolver = Resolver(
    index: map<string, seq<string>>,
    provide: (string, string) -> Provision,
    stopAtRules: bool,
    maxDepth: int)

  datatype PackageInfo = PackageInfo(buildOrder: nat, buildRequires: seq<string>, neededBy: seq<string>)

  datatype Result = Result(
    packages: map<string, PackageInfo>,
    buildOrder: seq<string>,
    cycles: seq<seq<string>>,
    droppedDeps: map<string, string>,
    unresolvableDeps: map<string, string>,
    sysrootDeps: set<string>)

  function Requirements(r: Resolver, pkg: string): seq<string>
  {
    if pkg in r.index then r.index[pkg] else []
  }

  ghost predicate ProvidedBy(r: Resolver, pkg: string, reqs: seq<string>, src: string)
  {
    exists q :: q in reqs && r.provide(pkg, q).Provided? && r.provide(pkg, q).source == src
  }

  /** Some requirement of pkg is provided by src. */
  ghost predicate Needs(r: Resolver, pkg: string, src: string)
  {
    ProvidedBy(r, pkg, Requirements(r, pkg), src)
  }

  predicate Recurses(r: Resolver, pkg: string, p: Provision)
  {
    p.Provided? && p.source != pkg && !(r.stopAtRules && p.hasRules)
  }

  ghost predicate FollowedBy(r: Resolver, pkg: string, reqs: seq<string>, src: string)
  {
    exists q :: q in reqs && Recurses(r, pkg, r.provide(pkg, q)) && r.provide(pkg, q).source == src
  }

  /** The search goes on from pkg to src. */
  ghost predicate Follows(r: Resolver, pkg: string, src: string)
  {
    FollowedBy(r, pkg, Requirements(r, pkg), src)
  }

  ghost function FollowEdges(r: Resolver): (E: set<(string, string)>)
    ensures forall p, s :: (p, s) in E <==> Follows(r, p, s)
  {
    set p, q | p in r.index && q in r.index[p] && Recurses(r, p, r.provide(p, q)) :: (p, r.provide(p, q).source)
  }

  function Limit(r: Resolver): nat
  {
    if r.maxDepth > 0 then r.maxDepth else 0
  }

  ghost function DroppedBy(r: Resolver, pkg: string): map<string, string>
  {
    map q | q in Requirements(r, pkg) && r.provide(pkg, q).Dropped? :: r.provide(pkg, q).detail
  }

  ghost function UnresolvableBy(r: Resolver, pkg: string): map<string, string>
  {
    map q | q in Requirements(r, pkg) && r.provide(pkg, q).Unresolvable? :: r.provide(pkg, q).detail
  }

  ghost function SysrootBy(r: Resolver, pkg: string): set<string>
  {
    set q | q in Requirements(r, pkg) && r.provide(pkg, q).Sysroot?
  }

  // ---------- Looking at the requirements of one package ----------

  datatype Scan = Scan(
    sources: seq<string>,
    edges: seq<(string, string)>,
    added: seq<(string, nat)>,
    dropped: map<string, string>,
    unresolvable: map<string, string>,
    sysroot: set<string>)

  /** The dependencies found among the requirements in reqs. */
  ghost predicate ScannedGraph(r: Resolver, pkg: string, depth: nat, visited: set<string>, reqs: seq<string>, s: Scan)
  {
    && (forall x :: x in s.sources <==> ProvidedBy(r, pkg, reqs, x))
    && (forall e :: e in s.edges <==> e.1 == pkg && e.0 != pkg && e.0 in s.sources)
    && (forall a :: a in s.added ==> a.1 == depth + 1 && FollowedBy(r, pkg, reqs, a.0))
    && (forall x :: FollowedBy(r, pkg, reqs, x) ==> x in visited || (x, depth + 1) in s.added)
  }

  /** What was dropped, unresolvable or provided by the sysroot among the requirements in reqs. */
  ghost predicate ScannedRest(r: Resolver, pkg: string, reqs: seq<string>, s: Scan)
  {
    && s.dropped == (map q | q in reqs && r.provide(pkg, q).Dropped? :: r.provide(pkg, q).detail)
    && s.unresolvable == (map q | q in reqs && r.provide(pkg, q).Unresolvable? :: r.provide(pkg, q).detail)
    && s.sysroot == (set q | q in reqs && r.provide(pkg, q).Sysroot?)
  }

  /** The sources that provide the requirements in reqs, in order and as often as they do, without the
      package itself. */
  function SourcesOf(r: Resolver, pkg: string, reqs: seq<string>): seq<string>
  {
    if reqs == [] then []
    else
      var p := r.provide(pkg, reqs[|reqs| - 1]);
      SourcesOf(r, pkg, reqs[..|reqs| - 1]) + if p.Provided? && p.source != pkg then [p.source] else []
  }

  /** The sources the search goes on to for the requirements in reqs, in order and as often as it does. */
  function Following(r: Resolver, pkg: string, reqs: seq<string>): seq<string>
  {
    if reqs == [] then []
    else
      var p := r.provide(pkg, reqs[|reqs| - 1]);
      Following(r, pkg, reqs[..|reqs| - 1]) + if Recurses(r, pkg, p) then [p.source] else []
  }

  function Names(queue: seq<(string, nat)>): seq<string>
  {
    seq(|queue|, i requires 0 <= i < |queue| => queue[i].0)
  }

  /** Those not visited yet are queued. */
  ghost predicate ScannedNext(r: Resolver, pkg: string, visited: set<string>, reqs: seq<string>, s: Scan)
  {
    Names(s.added) == Firsts.NotIn(Following(r, pkg, reqs), visited)
  }

  /** Each source gives one dependency pair. */
  ghost predicate ScannedEdges(r: Resolver, pkg: string, reqs: seq<string>, s: Scan)
  {
    s.edges == EdgesTo(SourcesOf(r, pkg, reqs), pkg)
  }

  function EdgesTo(sources: seq<string>, pkg: string): (r: seq<(string, string)>)
    ensures |r| == |sources| && forall i :: 0 <= i < |r| ==> r[i] == (sources[i], pkg)
  {
    seq(|sources|, i requires 0 <= i < |sources| => (sources[i], pkg))
  }

  function ScanOne(r: Resolver, pkg: string, depth: nat, visited: set<string>, s: Scan, req: string): Scan
  {
    match r.provide(pkg, req)
    case Dropped(detail) => s.(dropped := s.dropped[req := detail])
    case Sysroot => s.(sysroot := s.sysroot + {req})
    case Unresolvable(detail) => s.(unresolvable := s.unresolvable[req := detail])
    case Provided(src, hasRules) =>
      var more := s.(sources := s.sources + [src]);
      if src == pkg then more
      else
        more.(edges := s.edges + [(src, pkg)],
              added := if Recurses(r, pkg, r.provide(pkg, req)) && src !in visited
                       then s.added + [(src, depth + 1)] else s.added)
  }

  lemma ProvidedGrows(r: Resolver, pkg: string, reqs: seq<string>, req: string, x: string)
    ensures ProvidedBy(r, pkg, reqs + [req], x) <==>
      (ProvidedBy(r, pkg, reqs, x) || (r.provide(pkg, req).Provided? && r.provide(pkg, req).source == x))
    ensures FollowedBy(r, pkg, reqs + [req], x) <==>
      (FollowedBy(r, pkg, reqs, x) || (Recurses(r, pkg, r.provide(pkg, req)) && r.provide(pkg, req).source == x))
  {
    assert forall q :: q in reqs + [req] <==> q in reqs || q == req;
    assert req in reqs + [req];
  }

  lemma ScanGraph(r: Resolver, pkg: string, depth: nat, visited: set<string>, reqs: seq<string>, s: Scan, req: string)
    requires ScannedGraph(r, pkg, depth, visited, reqs, s)
    ensures ScannedGraph(r, pkg, depth, visited, reqs + [req], ScanOne(r, pkg, depth, visited, s, req))
  {
    hide ProvidedBy, FollowedBy;
    forall x {
      ProvidedGrows(r, pkg, reqs, req, x);
    }
  }

  lemma SourcesGrow(r: Resolver, pkg: string, reqs: seq<string>, req: string)
    ensures SourcesOf(r, pkg, reqs + [req]) == SourcesOf(r, pkg, reqs)
      + (if r.provide(pkg, req).Provided? && r.provide(pkg, req).source != pkg then [r.provide(pkg, req).source]
          else [])
  {
    assert (reqs + [req])[..|reqs + [req]| - 1] == reqs;
  }

  lemma ScanEdges(r: Resolver, pkg: string, depth: nat, visited: set<string>, reqs: seq<string>, s: Scan, req: string)
    requires ScannedEdges(r, pkg, reqs, s)
    ensures ScannedEdges(r, pkg, reqs + [req], ScanOne(r, pkg, depth, visited, s, req))
  {
    hide SourcesOf;
    var p := r.provide(pkg, req);
    SourcesGrow(r, pkg, reqs, req);
    if p.Provided? && p.source != pkg {
      var old_, new_ := SourcesOf(r, pkg, reqs), SourcesOf(r, pkg, reqs + [req]);
      assert EdgesTo(new_, pkg) == EdgesTo(old_, pkg) + [(p.source, pkg)];
    } else {
      assert SourcesOf(r, pkg, reqs + [req]) == SourcesOf(r, pkg, reqs);
    }
  }

  lemma FollowingGrows(r: Resolver, pkg: string, reqs: seq<string>, req: string)
    ensures Following(r, pkg, reqs + [req]) == Following(r, pkg, reqs)
      + (if Recurses(r, pkg, r.provide(pkg, req)) then [r.provide(pkg, req).source] else [])
  {
    assert (reqs + [req])[..|reqs + [req]| - 1] == reqs;
  }

  lemma ScanNext(r: Resolver, pkg: string, depth: nat, visited: set<string>, reqs: seq<string>, s: Scan, req: string)
    requires ScannedNext(r, pkg, visited, reqs, s)
    ensures ScannedNext(r, pkg, visited, reqs + [req], ScanOne(r, pkg, depth, visited, s, req))
  {
    hide Following;
    var p, f := r.provide(pkg, req), Following(r, pkg, reqs);
    FollowingGrows(r, pkg, reqs, req);
    assert f + [] == f;
    if Recurses(r, pkg, p) {
      Firsts.NotInSnoc(f, p.source, visited);
      assert p.source !in visited ==> Names(s.added + [(p.source, depth + 1)]) == Names(s.added) + [p.source];
    }
  }

  lemma ScanRest(r: Resolver, pkg: string, depth: nat, visited: set<string>, reqs: seq<string>, s: Scan, req: string)
    requires ScannedRest(r, pkg, reqs, s)
    ensures ScannedRest(r, pkg, reqs + [req], ScanOne(r, pkg, depth, visited, s, req))
  {
    assert forall q :: q in reqs + [req] <==> q in reqs || q == req;
  }

  method ScanRequirements(r: Resolver, pkg: string, depth: nat, visited: set<string>) returns (s: Scan)
    ensures ScannedGraph(r, pkg, depth, visited, Requirements(r, pkg), s)
      && ScannedRest(r, pkg, Requirements(r, pkg), s)
    ensures ScannedEdges(r, pkg, Requirements(r, pkg), s) && ScannedNext(r, pkg, visited, Requirements(r, pkg), s)
  {
    hide ScannedGraph, ScannedRest, ScannedEdges, ScannedNext, ScanOne;
    NothingScanned(r, pkg, depth, visited);
    var buildRequires := Requirements(r, pkg);
    s := Scan([], [], [], map[], map[], {});
    for i := 0 to |buildRequires|
      invariant ScannedGraph(r, pkg, depth, visited, buildRequires[..i], s)
      invariant ScannedRest(r, pkg, buildRequires[..i], s) && ScannedEdges(r, pkg, buildRequires[..i], s)
      invariant ScannedNext(r, pkg, visited, buildRequires[..i], s)
    {
      ScanGraph(r, pkg, depth, visited, buildRequires[..i], s, buildRequires[i]);
      ScanRest(r, pkg, depth, visited, buildRequires[..i], s, buildRequires[i]);
      ScanEdges(r, pkg, depth, visited, buildRequires[..i], s, buildRequires[i]);
      ScanNext(r, pkg, depth, visited, buildRequires[..i], s, buildRequires[i]);
      assert buildRequires[..i + 1] == buildRequires[..i] + [buildRequires[i]];
      s := ScanOne(r, pkg, depth, visited, s, buildRequires[i]);
    }
    assert buildRequires[..|buildRequires|] == buildRequires;
  }

  lemma NothingScanned(r: Resolver, pkg: string, depth: nat, visited: set<string>)
    ensures var s := Scan([], [], [], map[], map[], {});
      && ScannedGraph(r, pkg, depth, visited, [], s) && ScannedRest(r, pkg, [], s)
      && ScannedEdges(r, pkg, [], s) && ScannedNext(r, pkg, visited, [], s)
  {
  }

  // ---------- The search ----------

  datatype Found = Found(
    packages: map<string, PackageInfo>,
    edges: seq<(string, string)>,
    dropped: map<string, string>,
    unresolvable: map<string, string>,
    sysroot: set<string>)

  /** The recorded packages have exactly their build requirements, and the edge list holds a
      (dependency, dependent) pair for each of them other than the package itself. */
  ghost predicate FoundGraph(r: Resolver, f: Found)
  {
    && (forall p :: p in f.packages ==>
          Sorting.Ascending(Sorting.Before, f.packages[p].buildRequires)
          && forall x :: x in f.packages[p].buildRequires <==> Needs(r, p, x))
    && (forall p :: p in f.packages ==> f.packages[p].neededBy == [])
    && (forall e :: e in f.edges <==> e.1 in f.packages && e.0 != e.1 && Needs(r, e.1, e.0))
  }

  /** The dependency pairs of the packages, taken in the given order: for each the sources of its requirements. */
  ghost function AllEdges(r: Resolver, order: seq<string>): seq<(string, string)>
  {
    if order == [] then []
    else
      var pkg := order[|order| - 1];
      AllEdges(r, order[..|order| - 1]) + EdgesTo(SourcesOf(r, pkg, Requirements(r, pkg)), pkg)
  }

  /** What the packages drop, taken in the given order: for a requirement of several of them the last
      one's word counts. */
  ghost function AllDropped(r: Resolver, order: seq<string>): map<string, string>
  {
    if order == [] then map[] else AllDropped(r, order[..|order| - 1]) + DroppedBy(r, order[|order| - 1])
  }

  ghost function AllUnresolvable(r: Resolver, order: seq<string>): map<string, string>
  {
    if order == [] then map[] else AllUnresolvable(r, order[..|order| - 1]) + UnresolvableBy(r, order[|order| - 1])
  }

  ghost predicate FromSysroot(r: Resolver, order: seq<string>, q: string)
  {
    exists p :: p in order && q in SysrootBy(r, p)
  }

  /** What has been found along the way is that of the packages in the given order. */
  ghost predicate FoundRest(r: Resolver, order: seq<string>, edges: seq<(string, string)>, dropped: map<string, string>,
                            unresolvable: map<string, string>, sysroot: set<string>)
  {
    && edges == AllEdges(r, order)
    && dropped == AllDropped(r, order) && unresolvable == AllUnresolvable(r, order)
    && (forall q :: q in sysroot <==> FromSysroot(r, order, q))
  }

  /** The recorded packages in the order in which they were visited, nearer ones first. */
  ghost predicate Visited(order: seq<string>, packages: set<string>, depth: map<string, nat>)
  {
    && Kahn.Distinct(order) && (forall p :: p in order <==> p in packages) && packages <= depth.Keys
    && forall i, j :: 0 <= i < j < |order| ==> depth[order[i]] <= depth[order[j]]
  }

  lemma VisitNext(order: seq<string>, packages: set<string>, depth: map<string, nat>, pkg: string, d: nat)
    requires Visited(order, packages, depth) && pkg !in depth && forall x :: x in depth ==> depth[x] <= d
    ensures Visited(order + [pkg], packages + {pkg}, depth[pkg := d])
    ensures Visited(order, packages, depth[pkg := d])
  {
    var more := order + [pkg];
    forall p ensures p in more <==> p in packages || p == pkg {
      if p == pkg { assert more[|order|] == p; }
    }
  }

  function Record(f: Found, pkg: string, requires_: seq<string>, s: Scan): Found
  {
    Found(f.packages[pkg := PackageInfo(0, requires_, [])], f.edges + s.edges,
          f.dropped + s.dropped, f.unresolvable + s.unresolvable, f.sysroot + s.sysroot)
  }

  lemma RecordGraph(r: Resolver, f: Found, pkg: string, depth: nat, visited: set<string>, requires_: seq<string>,
                    s: Scan)
    requires FoundGraph(r, f) && pkg !in f.packages
    requires ScannedGraph(r, pkg, depth, visited, Requirements(r, pkg), s)
    requires Sorting.Ascending(Sorting.Before, requires_) && forall x :: x in requires_ <==> x in s.sources
    ensures FoundGraph(r, Record(f, pkg, requires_, s))
  {
    hide ProvidedBy, FollowedBy;
    var g := Record(f, pkg, requires_, s);
    assert forall e :: e in g.edges <==> e in f.edges || e in s.edges;
  }

  lemma RecordRest(r: Resolver, order: seq<string>, f: Found, pkg: string, requires_: seq<string>, s: Scan)
    requires FoundRest(r, order, f.edges, f.dropped, f.unresolvable, f.sysroot)
    requires ScannedRest(r, pkg, Requirements(r, pkg), s) && ScannedEdges(r, pkg, Requirements(r, pkg), s)
    ensures var g := Record(f, pkg, requires_, s);
      FoundRest(r, order + [pkg], g.edges, g.dropped, g.unresolvable, g.sysroot)
  {
    var more := order + [pkg];
    hide DroppedBy, UnresolvableBy, SysrootBy, ScannedRest, Requirements, FromSysroot, AllDropped, AllUnresolvable,
      AllEdges, SourcesOf;
    AllNext(r, order, pkg);
    RestOfPackage(r, pkg, s);
    SysrootNext(r, order, pkg, f.sysroot);
  }

  lemma SysrootNext(r: Resolver, order: seq<string>, pkg: string, found: set<string>)
    requires forall q :: q in found <==> FromSysroot(r, order, q)
    ensures forall q :: q in found + SysrootBy(r, pkg) <==> FromSysroot(r, order + [pkg], q)
  {
    hide SysrootBy;
    forall q ensures q in found + SysrootBy(r, pkg) <==> FromSysroot(r, order + [pkg], q) {
      if q in SysrootBy(r, pkg) {
        assert pkg in order + [pkg];
      } else if q in found {
        var p :| p in order && q in SysrootBy(r, p);
        assert p in order + [pkg];
      }
    }
  }

  lemma AllNext(r: Resolver, order: seq<string>, pkg: string)
    ensures AllDropped(r, order + [pkg]) == AllDropped(r, order) + DroppedBy(r, pkg)
    ensures AllUnresolvable(r, order + [pkg]) == AllUnresolvable(r, order) + UnresolvableBy(r, pkg)
    ensures AllEdges(r, order + [pkg]) == AllEdges(r, order) + EdgesTo(SourcesOf(r, pkg, Requirements(r, pkg)), pkg)
  {
    hide DroppedBy, UnresolvableBy, SourcesOf, Requirements;
    var more := order + [pkg];
    assert more[..|more| - 1] == order;
  }

  lemma RestOfPackage(r: Resolver, pkg: string, s: Scan)
    requires ScannedRest(r, pkg, Requirements(r, pkg), s)
    ensures s.dropped == DroppedBy(r, pkg) && s.unresolvable == UnresolvableBy(r, pkg) && s.sysroot == SysrootBy(r, pkg)
  {
    hide Requirements;
  }

  /** Every package the search can come across. */
  ghost function Universe(r: Resolver, target: string): set<string>
  {
    {target} + set p, q | p in r.index && q in r.index[p] && r.provide(p, q).Provided? :: r.provide(p, q).source
  }

  /** The search has recorded the visited packages within the limit. */
  ghost predicate Recorded(r: Resolver, depth: map<string, nat>, f: Found)
  {
    forall p :: p in f.packages <==> p in depth && Breadth.Within(Limit(r), depth[p])
  }

  /** What has been found is right for the packages recorded in the given order. */
  ghost predicate Holds(r: Resolver, depth: map<string, nat>, order: seq<string>, f: Found)
  {
    && Recorded(r, depth, f) && FoundGraph(r, f)
    && FoundRest(r, order, f.edges, f.dropped, f.unresolvable, f.sysroot) && Visited(order, f.packages.Keys, depth)
  }

  lemma HoldsNext(r: Resolver, depth: map<string, nat>, order: seq<string>, f: Found, pkg: string, d: nat,
                  requires_: seq<string>, s: Scan)
    requires Holds(r, depth, order, f) && pkg !in depth && forall x :: x in depth ==> depth[x] <= d
    requires Breadth.Within(Limit(r), d) && ScannedGraph(r, pkg, d, depth.Keys + {pkg}, Requirements(r, pkg), s)
    requires ScannedRest(r, pkg, Requirements(r, pkg), s) && ScannedEdges(r, pkg, Requirements(r, pkg), s)
    requires Sorting.Ascending(Sorting.Before, requires_) && forall x :: x in requires_ <==> x in s.sources
    ensures Holds(r, depth[pkg := d], order + [pkg], Record(f, pkg, requires_, s))
  {
    hide Visited, FoundGraph, FoundRest, ScannedGraph, ScannedEdges, ScannedRest, Breadth.Within;
    VisitNext(order, f.packages.Keys, depth, pkg, d);
    RecordGraph(r, f, pkg, d, depth.Keys + {pkg}, requires_, s);
    RecordRest(r, order, f, pkg, requires_, s);
    assert Record(f, pkg, requires_, s).packages.Keys == f.packages.Keys + {pkg};
  }

  /** Beyond the limit nothing is recorded. */
  lemma HoldsBeyond(r: Resolver, depth: map<string, nat>, order: seq<string>, f: Found, pkg: string, d: nat)
    requires Holds(r, depth, order, f) && pkg !in depth && forall x :: x in depth ==> depth[x] <= d
    requires !Breadth.Within(Limit(r), d)
    ensures Holds(r, depth[pkg := d], order, f)
  {
    hide Visited, FoundGraph, FoundRest, Breadth.Within;
    VisitNext(order, f.packages.Keys, depth, pkg, d);
  }

  lemma ScanAppends(r: Resolver, depth: map<string, nat>, front: (string, nat), s: Scan)
    requires Breadth.Within(Limit(r), front.1)
    requires ScannedGraph(r, front.0, front.1, depth.Keys + {front.0}, Requirements(r, front.0), s)
    ensures Breadth.Appends(FollowEdges(r), Limit(r), depth, front, s.added)
  {
    forall i | 0 <= i < |s.added| ensures (front.0, s.added[i].0) in FollowEdges(r) && s.added[i].1 == front.1 + 1 {
      assert s.added[i] in s.added;
    }
    forall y | (front.0, y) in FollowEdges(r) ensures y in depth || y == front.0 || (y, front.1 + 1) in s.added {
      assert FollowedBy(r, front.0, Requirements(r, front.0), y);
    }
  }

  lemma AddedInUniverse(r: Resolver, target: string, pkg: string, src: string)
    requires Follows(r, pkg, src)
    ensures src in Universe(r, target)
  {
  }

  /** What the search goes on to from the packages in order. */
  function AllFollowing(r: Resolver, order: seq<string>): seq<string>
  {
    if order == [] then []
    else
      var pkg := order[|order| - 1];
      AllFollowing(r, order[..|order| - 1]) + Following(r, pkg, Requirements(r, pkg))
  }

  /** The packages visited so far, those beyond the limit last, and then the queue: they are the target
      and what the recorded ones lead to, in the order of first mention. */
  ghost predicate Mentioned(r: Resolver, target: string, order: seq<string>, beyond: seq<string>,
                            depth: map<string, nat>, queue: seq<(string, nat)>)
  {
    && Firsts.Of([target] + AllFollowing(r, order)) == Firsts.Of(order + beyond + Names(queue))
    && Listed(order + beyond, depth) && Beyond(r, beyond, depth)
  }

  ghost predicate Listed(seen: seq<string>, depth: map<string, nat>)
  {
    Kahn.Distinct(seen) && forall x :: x in seen <==> x in depth
  }

  ghost predicate Beyond(r: Resolver, beyond: seq<string>, depth: map<string, nat>)
  {
    forall x :: x in beyond ==> x in depth && !Breadth.Within(Limit(r), depth[x])
  }

  lemma MentionedStart(r: Resolver, target: string)
    ensures Mentioned(r, target, [], [], map[], [(target, 0)])
  {
    var none: seq<string> := [];
    assert AllFollowing(r, none) == none;
    hide AllFollowing;
    assert Names([(target, 0)]) == [target];
    assert none + none + Names([(target, 0)]) == [target] + AllFollowing(r, none);
  }

  lemma NamesSplit(queue: seq<(string, nat)>, more: seq<(string, nat)>)
    requires queue != []
    ensures Names(queue) == [queue[0].0] + Names(queue[1..])
      && Names(queue[1..] + more) == Names(queue[1..]) + Names(more)
  {
  }

  lemma MentionedSkip(r: Resolver, target: string, order: seq<string>, beyond: seq<string>, depth: map<string, nat>,
                      queue: seq<(string, nat)>)
    requires Mentioned(r, target, order, beyond, depth, queue) && queue != [] && queue[0].0 in depth
    ensures Mentioned(r, target, order, beyond, depth, queue[1..])
  {
    var seen, x := order + beyond, queue[0].0;
    NamesSplit(queue, []);
    assert seen + Names(queue) == seen + [x] + Names(queue[1..]);
    Firsts.OfSkip(seen, x, Names(queue[1..]));
  }

  lemma MentionedBeyond(r: Resolver, target: string, order: seq<string>, beyond: seq<string>, depth: map<string, nat>,
                        queue: seq<(string, nat)>)
    requires Mentioned(r, target, order, beyond, depth, queue) && queue != [] && queue[0].0 !in depth
    requires !Breadth.Within(Limit(r), queue[0].1)
    ensures Mentioned(r, target, order, beyond + [queue[0].0], depth[queue[0].0 := queue[0].1], queue[1..])
  {
    var seen, x := order + beyond, queue[0].0;
    NamesSplit(queue, []);
    assert seen + Names(queue) == order + (beyond + [x]) + Names(queue[1..]);
    assert order + (beyond + [x]) == seen + [x];
    MoreListed(seen, depth, x, queue[0].1);
  }

  lemma MoreListed(s: seq<string>, depth: map<string, nat>, x: string, d: nat)
    requires Listed(s, depth) && x !in depth
    ensures Listed(s + [x], depth[x := d])
  {
    var more := s + [x];
    forall y ensures y in more <==> y in depth || y == x {
      if y == x { assert more[|s|] == y; }
    }
  }

  lemma SomeBeyond(r: Resolver, beyond: seq<string>, depth: map<string, nat>, d: nat)
    requires Beyond(r, beyond, depth) && beyond != [] && forall x :: x in depth ==> depth[x] <= d
    ensures !Breadth.Within(Limit(r), d)
  {
    assert beyond[0] in beyond;
  }

  lemma MentionedNext(r: Resolver, target: string, order: seq<string>, beyond: seq<string>, depth: map<string, nat>,
                      queue: seq<(string, nat)>, s: Scan)
    requires Mentioned(r, target, order, beyond, depth, queue) && queue != [] && queue[0].0 !in depth
    requires Breadth.Within(Limit(r), queue[0].1) && forall x :: x in depth ==> depth[x] <= queue[0].1
    requires ScannedNext(r, queue[0].0, depth.Keys + {queue[0].0}, Requirements(r, queue[0].0), s)
    ensures Mentioned(r, target, order + [queue[0].0], beyond, depth[queue[0].0 := queue[0].1], queue[1..] + s.added)
  {
    var (x, d) := queue[0];
    if beyond != [] {
      SomeBeyond(r, beyond, depth, d);
    }
    assert order + beyond == order && order + [x] + beyond == order + [x];
    hide ScannedNext, Requirements, Names, AllFollowing, Firsts.Of, Listed;
    NextMentions(r, target, order, queue, s, depth.Keys + {x});
    MoreListed(order, depth, x, d);
  }

  lemma NextMentions(r: Resolver, target: string, order: seq<string>, queue: seq<(string, nat)>, s: Scan,
                     visited: set<string>)
    requires Firsts.Of([target] + AllFollowing(r, order)) == Firsts.Of(order + Names(queue)) && queue != []
    requires ScannedNext(r, queue[0].0, visited, Requirements(r, queue[0].0), s)
    requires forall y :: y in visited ==> y in order || y == queue[0].0
    ensures Firsts.Of([target] + AllFollowing(r, order + [queue[0].0]))
         == Firsts.Of(order + [queue[0].0] + Names(queue[1..] + s.added))
  {
    var x := queue[0].0;
    var f := Following(r, x, Requirements(r, x));
    hide Following, Requirements, Firsts.Of, Firsts.NotIn;
    FollowingNext(r, target, order, x);
    NamesSplit(queue, s.added);
    Firsts.OfNext([target] + AllFollowing(r, order), order, x, Names(queue[1..]), f, visited);
  }

  lemma FollowingNext(r: Resolver, target: string, order: seq<string>, x: string)
    ensures [target] + AllFollowing(r, order + [x]) == [target] + AllFollowing(r, order)
      + Following(r, x, Requirements(r, x))
  {
    assert (order + [x])[..|order + [x]| - 1] == order;
  }

  /** The packages the search visits are the target and what the packages in order lead to; it visits them
      in the order of first mention, and order holds the first of them. */
  ghost predicate SearchOrder(r: Resolver, target: string, order: seq<string>, visited: set<string>)
  {
    var seen := Firsts.Of([target] + AllFollowing(r, order));
    order <= seen && forall x :: x in seen <==> x in visited
  }

  lemma MentionedAll(r: Resolver, target: string, order: seq<string>, beyond: seq<string>, depth: map<string, nat>)
    requires Mentioned(r, target, order, beyond, depth, [])
    ensures SearchOrder(r, target, order, depth.Keys)
  {
    assert order + beyond + Names([]) == order + beyond;
    Firsts.OfDistinct(order + beyond);
  }

  method Search(r: Resolver, target: string)
    returns (visited: set<string>, f: Found, ghost depth: map<string, nat>, ghost order: seq<string>)
    ensures visited == depth.Keys
    ensures Breadth.Inv(FollowEdges(r), {target}, Limit(r), depth, [])
    ensures Holds(r, depth, order, f) && SearchOrder(r, target, order, visited)
  {
    hide Holds, Mentioned, SearchOrder, ScannedNext, Breadth.Inv, FollowEdges, ScannedGraph, ScannedEdges, ScannedRest,
      Universe, Follows, Record;
    ghost var E, U := FollowEdges(r), Universe(r, target);
    var queue := [(target, 0)];
    visited, f, depth, order := {}, Found(map[], [], map[], map[], {}), map[], [];
    Breadth.Start(E, {target}, Limit(r), queue);
    NothingFound(r, f);
    TargetInUniverse(r, target);
    ghost var beyond := [];
    MentionedStart(r, target);
    while queue != []
      invariant visited == depth.Keys
      invariant Breadth.Inv(E, {target}, Limit(r), depth, queue)
      invariant Holds(r, depth, order, f) && Mentioned(r, target, order, beyond, depth, queue)
      invariant forall i :: 0 <= i < |queue| ==> queue[i].0 in U
      decreases U - visited, |queue|
    {
      var (pkg, d) := queue[0];
      if pkg in visited {
        Breadth.Skip(E, {target}, Limit(r), depth, queue);
        MentionedSkip(r, target, order, beyond, depth, queue);
        queue := queue[1..];
        continue;
      }
      visited := visited + {pkg};
      NoneFarther(r, target, depth, queue);
      if r.maxDepth > 0 && d > r.maxDepth {
        HoldsBeyond(r, depth, order, f, pkg, d);
        Breadth.Visit(E, {target}, Limit(r), depth, queue, []);
        assert queue[1..] + [] == queue[1..];
        MentionedBeyond(r, target, order, beyond, depth, queue);
        queue, depth, beyond := queue[1..], depth[pkg := d], beyond + [pkg];
        continue;
      }
      var s := ScanRequirements(r, pkg, d, visited);
      ScanAppends(r, depth, queue[0], s);
      Breadth.Visit(E, {target}, Limit(r), depth, queue, s.added);
      Sorting.BeforeIsStrictTotal();
      var buildRequires := Sorting.Sorted(Sorting.Before, set x | x in s.sources);
      HoldsNext(r, depth, order, f, pkg, d, buildRequires, s);
      MentionedNext(r, target, order, beyond, depth, queue, s);
      AddedAllInUniverse(r, target, depth, queue[0], s);
      f, order := Record(f, pkg, buildRequires, s), order + [pkg];
      queue, depth := queue[1..] + s.added, depth[pkg := d];
    }
    MentionedAll(r, target, order, beyond, depth);
  }

  lemma AddedAllInUniverse(r: Resolver, target: string, depth: map<string, nat>, front: (string, nat), s: Scan)
    requires Breadth.Appends(FollowEdges(r), Limit(r), depth, front, s.added)
    ensures forall i :: 0 <= i < |s.added| ==> s.added[i].0 in Universe(r, target)
  {
    forall i | 0 <= i < |s.added| ensures s.added[i].0 in Universe(r, target) {
      AddedFollows(r, depth, front, s, i);
      AddedInUniverse(r, target, front.0, s.added[i].0);
    }
  }

  lemma AddedFollows(r: Resolver, depth: map<string, nat>, front: (string, nat), s: Scan, i: nat)
    requires Breadth.Appends(FollowEdges(r), Limit(r), depth, front, s.added) && i < |s.added|
    ensures Follows(r, front.0, s.added[i].0)
  {
  }

  lemma NoneFarther(r: Resolver, target: string, depth: map<string, nat>, queue: seq<(string, nat)>)
    requires Breadth.Inv(FollowEdges(r), {target}, Limit(r), depth, queue) && queue != []
    ensures forall x :: x in depth ==> depth[x] <= queue[0].1
  {
  }

  lemma NothingFound(r: Resolver, f: Found)
    requires f == Found(map[], [], map[], map[], {})
    ensures Holds(r, map[], [], f)
  {
  }

  lemma TargetInUniverse(r: Resolver, target: string)
    ensures target in Universe(r, target)
  {
  }

  // ---------- The roadmap ----------

  /** Number the packages by their place in the build order. */
  method AssignNumbers(packages: map<string, PackageInfo>, order: seq<string>)
      returns (numbered: map<string, PackageInfo>)
    requires Kahn.Distinct(order)
    ensures numbered.Keys == packages.Keys
    ensures forall p :: p in packages ==> numbered[p] == packages[p].(buildOrder := numbered[p].buildOrder)
    ensures forall i :: 0 <= i < |order| && order[i] in packages ==> numbered[order[i]].buildOrder == i + 1
  {
    numbered := packages;
    for i := 0 to |order|
      invariant numbered.Keys == packages.Keys
      invariant forall p :: p in packages ==> numbered[p] == packages[p].(buildOrder := numbered[p].buildOrder)
      invariant forall j :: 0 <= j < i && order[j] in packages ==> numbered[order[j]].buildOrder == j + 1
    {
      var pkg := order[i];
      if pkg in numbered {
        numbered := numbered[pkg := numbered[pkg].(buildOrder := i + 1)];
      }
    }
  }

  /** The dependents of p in the order of the edges, each once. */
  ghost function NeededInOrder(edges: seq<(string, string)>, p: string): seq<string>
  {
    Firsts.Of(BuildOrder.Outgoing(edges, p))
  }

  lemma NeededNext(edges: seq<(string, string)>, i: nat, p: string)
    requires i < |edges|
    ensures var old_ := NeededInOrder(edges[..i], p);
      NeededInOrder(edges[..i + 1], p) == if edges[i].0 == p && edges[i].1 !in old_ then old_ + [edges[i].1] else old_
  {
    hide BuildOrder.Outgoing, Firsts.Of;
    var out := BuildOrder.Outgoing(edges[..i], p);
    BuildOrder.EdgesGrow(edges, i, p);
    Firsts.OfSnoc(out, edges[i].1);
    Firsts.OfElements(out);
    assert out + [] == out;
  }

  lemma NeededHas(edges: seq<(string, string)>, p: string)
    ensures Kahn.Distinct(NeededInOrder(edges, p))
    ensures forall q :: q in NeededInOrder(edges, p) <==> (p, q) in edges
  {
    hide BuildOrder.Outgoing, Firsts.Of;
    Firsts.OfIsDistinct(BuildOrder.Outgoing(edges, p));
    Firsts.OfElements(BuildOrder.Outgoing(edges, p));
  }

  method FillNeededBy(packages: map<string, PackageInfo>, edges: seq<(string, string)>)
      returns (filled: map<string, PackageInfo>)
    requires forall p :: p in packages ==> packages[p].neededBy == []
    ensures filled.Keys == packages.Keys
    ensures forall p :: p in packages ==> filled[p] == packages[p].(neededBy := NeededInOrder(edges, p))
  {
    hide NeededInOrder;
    filled := packages;
    NoneNeeded();
    for i := 0 to |edges|
      invariant filled.Keys == packages.Keys
      invariant forall p :: p in packages ==> filled[p] == packages[p].(neededBy := NeededInOrder(edges[..i], p))
    {
      var (dep, dependent) := edges[i];
      forall p | p in packages {
        NeededNext(edges, i, p);
      }
      if dep in filled && dependent !in filled[dep].neededBy {
        filled := filled[dep := filled[dep].(neededBy := filled[dep].neededBy + [dependent])];
      }
    }
    assert edges[..|edges|] == edges;
  }

  lemma NoneNeeded()
    ensures forall p :: NeededInOrder([], p) == []
  {
  }

  /** x is at distance k from the target, counting only dependencies the search follows. */
  ghost predicate Distance(r: Resolver, target: string, x: string, k: nat)
  {
    Breadth.Shortest(FollowEdges(r), {target}, x, k)
  }

  /** The packages that are recorded: those at distance at most the limit. */
  ghost predicate RecordsWithinLimit(r: Resolver, target: string, packages: map<string, PackageInfo>)
  {
    forall x :: x in packages <==> exists k: nat :: Distance(r, target, x, k) && Breadth.Within(Limit(r), k)
  }

  ghost predicate RequirementsRight(r: Resolver, packages: map<string, PackageInfo>)
  {
    forall p :: p in packages ==>
      Sorting.Ascending(Sorting.Before, packages[p].buildRequires)
      && forall x :: x in packages[p].buildRequires <==> Needs(r, p, x)
  }

  /** neededBy is the inverse of buildRequires, without self-dependencies. */
  ghost predicate NeededByInverts(packages: map<string, PackageInfo>)
  {
    forall p :: p in packages ==>
      Kahn.Distinct(packages[p].neededBy)
      && forall q :: q in packages[p].neededBy <==> q in packages && q != p && p in packages[q].buildRequires
  }

  /** Every recorded package carries its place, counted from one, in the build order. */
  ghost predicate Numbered(packages: map<string, PackageInfo>, order: seq<string>)
  {
    forall p :: p in packages ==> 1 <= packages[p].buildOrder <= |order| && order[packages[p].buildOrder - 1] == p
  }

  /** The build order orders the visited packages by the dependency pairs of the recorded ones, of which
      there is one for each requirement that another package provides; the same pairs give the dependents. */
  ghost predicate Ordered(r: Resolver, target: string, res: Result, visited: set<string>, edges: seq<(string, string)>)
  {
    && (forall x :: x in visited <==>
          exists k: nat :: Distance(r, target, x, k) && (Limit(r) == 0 || k <= Limit(r) + 1))
    && (forall e :: e in edges <==> e.1 in res.packages && e.0 != e.1 && Needs(r, e.1, e.0))
    && (forall p :: p in res.packages ==> res.packages[p].neededBy == NeededInOrder(edges, p))
    && BuildOrder.FollowsPlan(edges, visited, res.buildOrder, res.cycles)
    && BuildOrder.IsBuildOrder(edges, visited, Tarjan.ReachSet(BuildOrder.DepNet(edges, visited)), res.buildOrder)
    && BuildOrder.IsCycleList(visited, Tarjan.ReachSet(BuildOrder.DepNet(edges, visited)), res.cycles)
  }

  lemma SearchResults(r: Resolver, target: string, depth: map<string, nat>, f: Found)
    requires Breadth.Inv(FollowEdges(r), {target}, Limit(r), depth, []) && Recorded(r, depth, f)
    ensures RecordsWithinLimit(r, target, f.packages)
    ensures forall x :: x in depth <==>
      exists k: nat :: Distance(r, target, x, k) && (Limit(r) == 0 || k <= Limit(r) + 1)
  {
    var E := FollowEdges(r);
    Breadth.Finish(E, {target}, Limit(r), depth);
    hide Breadth.Inv, Breadth.Shortest;
    forall x ensures x in f.packages <==> exists k: nat :: Distance(r, target, x, k) && Breadth.Within(Limit(r), k) {
      if x in f.packages { assert Distance(r, target, x, depth[x]); }
      if k: nat :| Distance(r, target, x, k) && Breadth.Within(Limit(r), k) {
        assert Breadth.Shortest(E, {target}, x, k);
      }
    }
    forall x
      ensures x in depth <==> exists k: nat :: Distance(r, target, x, k) && (Limit(r) == 0 || k <= Limit(r) + 1)
    {
      if x in depth { assert Distance(r, target, x, depth[x]); }
      if k: nat :| Distance(r, target, x, k) && (Limit(r) == 0 || k <= Limit(r) + 1) {
        assert Breadth.Shortest(E, {target}, x, k);
      }
    }
  }

  /** A limit that is not positive stands for none; the packages at the limit are still recorded. */
  lemma RecordsExactly(r: Resolver, target: string, packages: map<string, PackageInfo>, x: string)
    requires RecordsWithinLimit(r, target, packages)
    ensures x in packages <==> exists k: nat :: Distance(r, target, x, k) && (r.maxDepth > 0 ==> k <= r.maxDepth)
  {
    hide Distance;
    if k: nat :| Distance(r, target, x, k) && (r.maxDepth > 0 ==> k <= r.maxDepth) {
      assert Breadth.Within(Limit(r), k);
    }
  }

  /** The order of visiting: exactly the recorded packages, nearer ones first. */
  ghost predicate NearerFirst(r: Resolver, target: string, order: seq<string>, packages: set<string>)
  {
    && Kahn.Distinct(order) && (forall p :: p in order <==> p in packages)
    && forall i, j, k: nat, m: nat ::
         0 <= i < j < |order| && Distance(r, target, order[i], k) && Distance(r, target, order[j], m) ==> k <= m
  }

  lemma VisitedNearer(r: Resolver, target: string, order: seq<string>, packages: set<string>, depth: map<string, nat>)
    requires Visited(order, packages, depth) && Breadth.Inv(FollowEdges(r), {target}, Limit(r), depth, [])
    ensures NearerFirst(r, target, order, packages)
  {
    var E := FollowEdges(r);
    Breadth.Finish(E, {target}, Limit(r), depth);
    hide Breadth.Inv, FollowEdges;
    forall i, k: nat | 0 <= i < |order| && Distance(r, target, order[i], k) ensures k == depth[order[i]] {
      OneDistance(r, target, order[i], k, depth[order[i]]);
    }
  }

  lemma OneDistance(r: Resolver, target: string, x: string, k: nat, m: nat)
    requires Distance(r, target, x, k) && Distance(r, target, x, m)
    ensures k == m
  {
  }

  lemma Predecessor(r: Resolver, target: string, x: string, m: nat) returns (u: string)
    requires Distance(r, target, x, m) && m > 0
    ensures Distance(r, target, u, m - 1) && Follows(r, u, x)
  {
    var E := FollowEdges(r);
    u :| (u, x) in E && Digraph.Walk(E, {target}, u, m - 1);
    hide FollowEdges, Follows;
    forall j: nat | j < m - 1 ensures !Digraph.Walk(E, {target}, u, j) {
      assert !Digraph.Walk(E, {target}, x, j + 1);
    }
  }

  lemma FartherDiffers(r: Resolver, target: string, u: string, x: string, k: nat, m: nat)
    requires Distance(r, target, u, k) && Distance(r, target, x, m) && k < m
    ensures u != x
  {
  }

  lemma {:induction false} FollowingHas(r: Resolver, pkg: string, reqs: seq<string>, x: string)
    requires FollowedBy(r, pkg, reqs, x)
    ensures x in Following(r, pkg, reqs)
  {
    var n := |reqs| - 1;
    var q :| q in reqs && Recurses(r, pkg, r.provide(pkg, q)) && r.provide(pkg, q).source == x;
    if q != reqs[n] {
      assert q in reqs[..n];
      FollowingHas(r, pkg, reqs[..n], x);
    }
  }

  lemma {:induction false} AllFollowingHas(r: Resolver, order: seq<string>, u: string, x: string)
    requires u in order && Follows(r, u, x)
    ensures x in AllFollowing(r, order)
  {
    var n := |order| - 1;
    if u == order[n] {
      FollowingHas(r, u, Requirements(r, u), x);
    } else {
      assert u in order[..n];
      AllFollowingHas(r, order[..n], u, x);
    }
  }

  lemma {:induction false} AllFollowingGrows(r: Resolver, order: seq<string>, k: nat)
    requires k <= |order|
    ensures AllFollowing(r, order[..k]) <= AllFollowing(r, order)
  {
    if k < |order| {
      AllFollowingGrows(r, order[..|order| - 1], k);
      assert order[..|order| - 1][..k] == order[..k];
    } else {
      assert order[..k] == order;
    }
  }

  lemma NearerIsBefore(r: Resolver, target: string, order: seq<string>, packages: map<string, PackageInfo>, u: string,
                       k: nat, d: nat, m: nat)
    requires NearerFirst(r, target, order, packages.Keys) && u in packages && k < |order|
    requires Distance(r, target, u, d) && Distance(r, target, order[k], m) && d < m
    ensures u in order[..k]
  {
    FartherDiffers(r, target, u, order[k], d, m);
    hide Distance;
    var i :| 0 <= i < |order| && order[i] == u;
    assert i < k;
    assert order[..k][i] == u;
  }

  /** The package at place k is the target or follows one before it. */
  lemma NextIsFollowed(r: Resolver, target: string, order: seq<string>, packages: map<string, PackageInfo>, k: nat)
    requires NearerFirst(r, target, order, packages.Keys) && RecordsWithinLimit(r, target, packages) && k < |order|
    ensures order[k] in [target] + AllFollowing(r, order[..k])
  {
    var x := order[k];
    assert x in packages;
    var m: nat :| Distance(r, target, x, m) && Breadth.Within(Limit(r), m);
    if m > 0 {
      var u := Predecessor(r, target, x, m);
      hide Distance, Follows, AllFollowing;
      assert u in packages;
      NearerIsBefore(r, target, order, packages, u, k, m - 1, m);
      AllFollowingHas(r, order[..k], u, x);
    }
  }

  /** The packages before place k determine which one is there. */
  lemma NextIsFixed(r: Resolver, target: string, order: seq<string>, packages: map<string, PackageInfo>,
                    visited: set<string>, k: nat)
    requires SearchOrder(r, target, order, visited) && NearerFirst(r, target, order, packages.Keys)
    requires RecordsWithinLimit(r, target, packages) && k < |order|
    ensures order[..k + 1] <= Firsts.Of([target] + AllFollowing(r, order[..k]))
  {
    hide SearchOrder, NearerFirst, RecordsWithinLimit, AllFollowing, Firsts.Of;
    var some, all := AllFollowing(r, order[..k]), AllFollowing(r, order);
    NextIsFollowed(r, target, order, packages, k);
    AllFollowingGrows(r, order, k);
    FirstMentioned(r, target, order, visited, some, all[|some|..]);
    Firsts.OfUpTo([target] + some, all[|some|..], k);
  }

  lemma FirstMentioned(r: Resolver, target: string, order: seq<string>, visited: set<string>, some: seq<string>,
                       rest: seq<string>)
    requires SearchOrder(r, target, order, visited) && AllFollowing(r, order) == some + rest
    ensures order <= Firsts.Of([target] + some + rest)
  {
    assert [target] + (some + rest) == [target] + some + rest;
  }

  lemma {:induction false} OneOrderUpTo(r: Resolver, target: string, a: seq<string>, b: seq<string>,
                                        packages: map<string, PackageInfo>, visited: set<string>, k: nat)
    requires SearchOrder(r, target, a, visited) && NearerFirst(r, target, a, packages.Keys)
    requires SearchOrder(r, target, b, visited) && NearerFirst(r, target, b, packages.Keys)
    requires RecordsWithinLimit(r, target, packages) && k <= |a| && k <= |b|
    ensures a[..k] == b[..k]
  {
    hide SearchOrder, NearerFirst, RecordsWithinLimit, AllFollowing, Firsts.Of;
    if k > 0 {
      OneOrderUpTo(r, target, a, b, packages, visited, k - 1);
      NextIsFixed(r, target, a, packages, visited, k - 1);
      NextIsFixed(r, target, b, packages, visited, k - 1);
      var seen := Firsts.Of([target] + AllFollowing(r, a[..k - 1]));
      assert a[..k] == seen[..k] && b[..k] == seen[..k];
    }
  }

  /** Only one order lists the recorded packages nearer ones first and in the order of first mention. */
  lemma OneOrder(r: Resolver, target: string, a: seq<string>, b: seq<string>, packages: map<string, PackageInfo>,
                 visited: set<string>)
    requires SearchOrder(r, target, a, visited) && NearerFirst(r, target, a, packages.Keys)
    requires SearchOrder(r, target, b, visited) && NearerFirst(r, target, b, packages.Keys)
    requires RecordsWithinLimit(r, target, packages)
    ensures a == b
  {
    OneOrderUpTo(r, target, a, b, packages, visited, if |a| <= |b| then |a| else |b|);
    if |a| < |b| {
      NextIsNew(a, b);
    } else if |b| < |a| {
      NextIsNew(b, a);
    }
  }

  lemma NextIsNew(a: seq<string>, b: seq<string>)
    requires |a| < |b| && a == b[..|a|] && Kahn.Distinct(b)
    ensures b[|a|] in b && b[|a|] !in a
  {
    forall i | 0 <= i < |a| ensures a[i] != b[|a|] {
      assert a[i] == b[i];
    }
  }

  method Resolve(r: Resolver, target: string)
    returns (res: Result, ghost visited: set<string>, ghost edges: seq<(string, string)>, ghost order: seq<string>)
    ensures RecordsWithinLimit(r, target, res.packages) && RequirementsRight(r, res.packages)
    ensures NeededByInverts(res.packages) && Numbered(res.packages, res.buildOrder)
    ensures Ordered(r, target, res, visited, edges)
    ensures SearchOrder(r, target, order, visited) && NearerFirst(r, target, order, res.packages.Keys)
    ensures FoundRest(r, order, edges, res.droppedDeps, res.unresolvableDeps, res.sysrootDeps)
  {
    hide Holds, NeededInOrder, BuildOrder.FollowsPlan, Numbered, Breadth.Within, Kahn.Distinct, BuildOrder.IsBuildOrder;
    hide Breadth.Inv, FoundRest, FoundGraph, Visited, SearchOrder, NearerFirst, RecordsWithinLimit,
      RequirementsRight, NeededByInverts, BuildOrder.IsCycleList, BuildOrder.Contiguous, BuildOrder.DependenciesFirst,
      BuildOrder.Greedy, Tarjan.ReachSet, BuildOrder.DepNet, Needs, Distance;
    var all, f;
    ghost var depth;
    all, f, depth, order := Search(r, target);
    HoldsParts(r, depth, order, f);
    VisitedNearer(r, target, order, f.packages.Keys, depth);
    SearchResults(r, target, depth, f);
    GraphFacts(r, f);
    visited, edges := all, f.edges;
    var buildOrder, cycles := BuildOrder.TopologicalSort(f.edges, all);
    OrderParts(f.edges, all, buildOrder);
    var numbered := AssignNumbers(f.packages, buildOrder);
    var packages := FillNeededBy(numbered, f.edges);
    res := Result(packages, buildOrder, cycles, f.dropped, f.unresolvable, f.sysroot);
    SameKeys(r, target, f.packages, packages);
    GraphCompleted(r, f, packages);
    NumbersRight(f.packages, buildOrder, packages);
  }

  lemma HoldsParts(r: Resolver, depth: map<string, nat>, order: seq<string>, f: Found)
    requires Holds(r, depth, order, f)
    ensures Recorded(r, depth, f) && FoundGraph(r, f) && Visited(order, f.packages.Keys, depth)
    ensures FoundRest(r, order, f.edges, f.dropped, f.unresolvable, f.sysroot)
    ensures f.packages.Keys <= depth.Keys
  {
  }

  lemma OrderParts(edges: seq<(string, string)>, nodes: set<string>, order: seq<string>)
    requires BuildOrder.IsBuildOrder(edges, nodes, Tarjan.ReachSet(BuildOrder.DepNet(edges, nodes)), order)
    ensures Kahn.Distinct(order) && forall x :: x in order <==> x in nodes
  {
  }

  lemma GraphFacts(r: Resolver, f: Found)
    requires FoundGraph(r, f)
    ensures forall p :: p in f.packages ==> f.packages[p].neededBy == []
    ensures forall e :: e in f.edges <==> e.1 in f.packages && e.0 != e.1 && Needs(r, e.1, e.0)
  {
  }

  lemma GraphCompleted(r: Resolver, f: Found, packages: map<string, PackageInfo>)
    requires FoundGraph(r, f) && packages.Keys == f.packages.Keys
    requires forall p :: p in packages ==> packages[p].buildRequires == f.packages[p].buildRequires
    requires forall p :: p in packages ==> packages[p].neededBy == NeededInOrder(f.edges, p)
    ensures RequirementsRight(r, packages) && NeededByInverts(packages)
  {
    hide ProvidedBy, Needs, NeededInOrder, Kahn.Distinct;
    forall p | p in packages {
      NeededHas(f.edges, p);
    }
  }

  lemma NumbersRight(found: map<string, PackageInfo>, order: seq<string>, packages: map<string, PackageInfo>)
    requires packages.Keys == found.Keys && forall p :: p in found ==> p in order
    requires forall i :: 0 <= i < |order| && order[i] in packages ==> packages[order[i]].buildOrder == i + 1
    ensures Numbered(packages, order)
  {
    forall p | p in packages ensures 1 <= packages[p].buildOrder <= |order| && order[packages[p].buildOrder - 1] == p {
      var i :| 0 <= i < |order| && order[i] == p;
    }
  }

  lemma SameKeys(r: Resolver, target: string, p: map<string, PackageInfo>, q: map<string, PackageInfo>)
    requires RecordsWithinLimit(r, target, p) && p.Keys == q.Keys
    ensures RecordsWithinLimit(r, target, q)
  {
  }

  /** With the option on, it follows those on a package for which there are no rules. */
  lemma StopsAtRules(r: Resolver, p: string, s: string)
    requires r.stopAtRules
    ensures Follows(r, p, s) <==>
      s != p && exists q :: q in Requirements(r, p) && r.provide(p, q) == Provided(s, false)
  {
    if q :| q in Requirements(r, p) && r.provide(p, q) == Provided(s, false) && s != p {
      assert Recurses(r, p, r.provide(p, q));
    }
  }

  /** With the option off, the search follows every dependency on another package. */
  lemma FollowsEveryNeed(r: Resolver, p: string, s: string)
    requires !r.stopAtRules
    ensures Follows(r, p, s) <==> Needs(r, p, s) && s != p
  {
    if Needs(r, p, s) && s != p {
      var q :| q in Requirements(r, p) && r.provide(p, q).Provided? && r.provide(p, q).source == s;
      assert Recurses(r, p, r.provide(p, q));
    }
  }
}
