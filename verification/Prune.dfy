/** Pruning the library directory of a bundle down to what its binaries need. */
module Prune {
  import opened Common
  import opened Digraph
  import Sorting

  /** A directory entry: a symlink to a name in the same directory, an ELF file with its
      NEEDED sonames, or any other file. */
  datatype Entry = Link(target: string) | Elf(needed: seq<string>) | Other

  type Dir = map<string, Entry>

  /** The libraries that are preloaded and kept in any case. */
  const PRELOADED: set<string> := {"libmogrix_compat.so", "irix_rld_stubs.so"}

  /** One symlink hop, or one NEEDED entry of a real file. */
  ghost function Edges(dir: Dir): (E: set<(string, string)>)
    ensures forall a, b :: (a, b) in E <==>
      a in dir && ((dir[a].Link? && b == dir[a].target) || (dir[a].Elf? && b in dir[a].needed))
  {
    (set a | a in dir && dir[a].Link? :: (a, dir[a].target))
        + (set a, b | a in dir && dir[a].Elf? && b in dir[a].needed :: (a, b))
  }

  ghost function Links(dir: Dir): (E: set<(string, string)>)
    ensures forall a, b :: (a, b) in E <==> a in dir && dir[a].Link? && b == dir[a].target
  {
    set a | a in dir && dir[a].Link? :: (a, dir[a].target)
  }

  /** No name that the walk can come to lies on a cycle of symlinks. */
  ghost predicate LinksEnd(dir: Dir, roots: set<string>)
  {
    forall n, k: nat :: Reachable(Edges(dir), roots, n) && k > 0 ==> !Walk(Links(dir), {n}, n, k)
  }

  predicate IsLink(dir: Dir, name: string)
  {
    name in dir && dir[name].Link?
  }

  // ---------- Walking a chain of symlinks ----------

  /** All successors of x are checked or wait in the queue. */
  ghost predicate Handled(dir: Dir, checked: set<string>, queue: seq<string>, x: string)
  {
    forall y :: (x, y) in Edges(dir) ==> y in checked || y in queue
  }

  method WalkLinks(dir: Dir, ghost roots: set<string>, soname: string, checked: set<string>, ghost queue: seq<string>)
    returns (checked': set<string>, file: string)
    requires LinksEnd(dir, roots) && Reachable(Edges(dir), roots, soname) && soname in checked
    ensures checked <= checked' && file in checked' && !IsLink(dir, file)
    ensures forall x :: x in checked' && x !in checked ==> Reachable(Edges(dir), roots, x)
    ensures Reachable(Edges(dir), roots, file)
    ensures forall x :: x in checked' && (x == soname || x !in checked) && x != file ==>
      Handled(dir, checked', queue, x)
  {
    hide Walk, Edges, Links;
    checked', file := checked, soname;
    ghost var walked: set<string> := {};
    while IsLink(dir, file)
      invariant checked <= checked' && file in checked' && Reachable(Edges(dir), roots, file)
      invariant forall x :: x in checked' && x !in checked ==> Reachable(Edges(dir), roots, x)
      invariant forall x :: x in checked' && (x == soname || x !in checked) && x != file ==> x in walked
      invariant forall x :: x in walked ==> IsLink(dir, x) && dir[x].target in checked'
      invariant forall x :: x in walked ==> Reachable(Edges(dir), roots, x) && LinkLeads(dir, x, file)
      decreases dir.Keys - walked
    {
      NotOnCycle(dir, roots, file);
      var target := dir[file].target;
      LinkStep(dir, walked, file);
      ReachableStep(Edges(dir), roots, file, target);
      walked := walked + {file};
      checked', file := checked' + {target}, target;
    }
    forall x | x in walked ensures Handled(dir, checked', queue, x) {
      assert forall y :: (x, y) in Edges(dir) ==> y == dir[x].target;
    }
  }

  /** A chain of at least one symlink leads from a to b. */
  ghost predicate LinkLeads(dir: Dir, a: string, b: string)
  {
    exists k: nat :: k > 0 && Walk(Links(dir), {a}, b, k)
  }

  lemma NotOnCycle(dir: Dir, roots: set<string>, file: string)
    requires LinksEnd(dir, roots) && Reachable(Edges(dir), roots, file)
    ensures !LinkLeads(dir, file, file)
  {
  }

  lemma LinkStep(dir: Dir, walked: set<string>, file: string)
    requires IsLink(dir, file) && forall x :: x in walked ==> LinkLeads(dir, x, file)
    ensures (file, dir[file].target) in Edges(dir)
    ensures forall x :: x in walked + {file} ==> LinkLeads(dir, x, dir[file].target)
  {
    var target := dir[file].target;
    assert (file, target) in Links(dir);
    assert Walk(Links(dir), {file}, file, 0) && Walk(Links(dir), {file}, target, 1);
    forall x | x in walked ensures LinkLeads(dir, x, target) {
      var k: nat :| k > 0 && Walk(Links(dir), {x}, file, k);
      assert Walk(Links(dir), {x}, target, k + 1);
    }
  }

  // ---------- The names that are needed ----------

  ghost function Universe(dir: Dir, roots: set<string>): (U: set<string>)
    ensures roots <= U && forall a, b :: (a, b) in Edges(dir) ==> b in U
  {
    roots + set e | e in Edges(dir) :: e.1
  }

  lemma ReachableInUniverse(dir: Dir, roots: set<string>, x: string)
    requires Reachable(Edges(dir), roots, x)
    ensures x in Universe(dir, roots)
  {
    ClosedContains(Edges(dir), roots, x, Universe(dir, roots));
  }

  method ListOf(s: set<string>) returns (q: seq<string>)
    ensures forall x :: x in q <==> x in s
  {
    q := [];
    var rest := s;
    while rest != {}
      invariant rest <= s && forall x :: x in q <==> x in s - rest
    {
      var x :| x in rest;
      q, rest := q + [x], rest - {x};
    }
  }

  lemma RootReachable(E: set<(string, string)>, roots: set<string>, x: string)
    requires x in roots
    ensures Reachable(E, roots, x)
  {
    assert Walk(E, roots, x, 0);
  }

  lemma HandledGrows(dir: Dir, checked: set<string>, queue: seq<string>, checked': set<string>, queue': seq<string>,
                     x: string)
    requires Handled(dir, checked, queue, x)
    requires checked <= checked' && forall y :: y in queue ==> y in checked' || y in queue'
    ensures Handled(dir, checked', queue', x)
  {
  }

  method FindNeeded(dir: Dir, roots: set<string>) returns (checked: set<string>)
    requires LinksEnd(dir, roots)
    ensures forall x :: x in checked <==> Reachable(Edges(dir), roots, x)
  {
    hide Walk, Universe, LinksEnd, Reachable;
    ghost var E, U := Edges(dir), Universe(dir, roots);
    checked := {};
    var queue := ListOf(roots);
    forall x | x in roots ensures Reachable(E, roots, x) {
      RootReachable(E, roots, x);
    }
    while queue != []
      invariant forall x :: x in checked ==> Reachable(E, roots, x)
      invariant forall x :: x in queue ==> Reachable(E, roots, x)
      invariant forall x :: x in roots ==> x in checked || x in queue
      invariant forall x :: x in checked ==> Handled(dir, checked, queue, x)
      decreases U - checked, |queue|
    {
      var soname := queue[|queue| - 1];
      ghost var queue0, checked0 := queue, checked;
      queue := queue[..|queue| - 1];
      assert queue0 == queue + [soname];
      if soname in checked {
        continue;
      }
      ReachableInUniverse(dir, roots, soname);
      checked := checked + {soname};
      var file;
      checked, file := WalkLinks(dir, roots, soname, checked, queue);
      if file in dir && dir[file].Elf? {
        var needed := dir[file].needed;
        for i := 0 to |needed|
          invariant forall x :: x in queue ==> Reachable(E, roots, x)
          invariant queue0[..|queue0| - 1] <= queue
          invariant forall j :: 0 <= j < i ==> needed[j] in checked || needed[j] in queue
        {
          ReachableStep(E, roots, file, needed[i]);
          if needed[i] !in checked {
            queue := queue + [needed[i]];
          }
        }
      }
      forall x | x in checked ensures Handled(dir, checked, queue, x) {
        if x in checked0 {
          HandledGrows(dir, checked0, queue0, checked, queue, x);
        } else if x != file {
          HandledGrows(dir, checked, queue0[..|queue0| - 1], checked, queue, x);
        }
      }
    }
    forall x | Reachable(E, roots, x) ensures x in checked {
      ClosedContains(E, roots, x, checked);
    }
  }

  // ---------- Pruning ----------

  /** What is left: the files that are not libraries, and the libraries that are needed. */
  ghost function Pruned(dir: Dir, roots: set<string>): (r: Dir)
    ensures forall n :: n in r <==> n in dir && (!HasSo(n) || Reachable(Edges(dir), roots, n))
    ensures forall n :: n in r ==> r[n] == dir[n]
  {
    map n | n in dir && (!HasSo(n) || Reachable(Edges(dir), roots, n)) :: dir[n]
  }

  /** binaries holds the NEEDED sonames of the programs of the bundle. */
  method PruneUnusedLibs(dir: Dir, binaries: set<string>) returns (dir': Dir)
    requires LinksEnd(dir, binaries + PRELOADED)
    ensures dir' == Pruned(dir, binaries + PRELOADED)
  {
    hide Reachable, Edges;
    var needed := FindNeeded(dir, binaries + PRELOADED);
    Sorting.BeforeIsStrictTotal();
    var files := Sorting.Sorted(Sorting.Before, dir.Keys);
    dir' := dir;
    for i := 0 to |files|
      invariant forall n :: n in dir' <==> n in dir && (n !in files[..i] || !HasSo(n) || n in needed)
      invariant forall n :: n in dir' ==> dir'[n] == dir[n]
    {
      assert files[..i + 1] == files[..i] + [files[i]];
      if HasSo(files[i]) && files[i] !in needed {
        dir' := dir' - {files[i]};
      }
    }
    assert files[..|files|] == files;
  }

  /** Whatever a kept library needs, or a kept symlink points to, is kept. */
  lemma NothingNeededIsRemoved(dir: Dir, roots: set<string>, a: string, b: string)
    requires a in Pruned(dir, roots) && HasSo(a) && (a, b) in Edges(dir) && b in dir
    ensures b in Pruned(dir, roots)
  {
    ReachableStep(Edges(dir), roots, a, b);
  }

  /** Every soname a program needs is kept if it was there. */
  lemma RootsAreKept(dir: Dir, roots: set<string>, a: string)
    requires a in roots && a in dir
    ensures a in Pruned(dir, roots)
  {
    RootReachable(Edges(dir), roots, a);
  }

  /** The two preloaded libraries stay, whatever the programs need. */
  lemma PreloadedStay(dir: Dir, binaries: set<string>, a: string)
    requires a in dir && (a == "libmogrix_compat.so" || a == "irix_rld_stubs.so")
    ensures a in Pruned(dir, binaries + PRELOADED)
  {
    RootsAreKept(dir, binaries + PRELOADED, a);
  }

  /** Pruning does not change what can be reached. */
  lemma {:induction false} SameWalks(dir: Dir, roots: set<string>, n: string, k: nat)
    ensures Walk(Edges(dir), roots, n, k) <==> Walk(Edges(Pruned(dir, roots)), roots, n, k)
    decreases k
  {
    hide Edges, Pruned;
    var E, F := Edges(dir), Edges(Pruned(dir, roots));
    if k != 0 {
      if Walk(E, roots, n, k) {
        var u :| (u, n) in E && Walk(E, roots, u, k - 1);
        SameWalks(dir, roots, u, k - 1);
        PrunedEdge(dir, roots, u, n, k - 1);
      }
      if Walk(F, roots, n, k) {
        var u :| (u, n) in F && Walk(F, roots, u, k - 1);
        SameWalks(dir, roots, u, k - 1);
        PrunedEdge(dir, roots, u, n, k - 1);
      }
    }
  }

  /** What can be reached keeps its entry, and with it the edges from it. */
  lemma PrunedEdge(dir: Dir, roots: set<string>, u: string, n: string, k: nat)
    requires Walk(Edges(dir), roots, u, k)
    ensures (u, n) in Edges(dir) <==> (u, n) in Edges(Pruned(dir, roots))
  {
    assert Reachable(Edges(dir), roots, u);
  }

  /** A second run finds nothing to remove. */
  lemma PruningTwice(dir: Dir, roots: set<string>)
    ensures Pruned(Pruned(dir, roots), roots) == Pruned(dir, roots)
  {
    forall n | n in Pruned(dir, roots) && Reachable(Edges(dir), roots, n)
      ensures Reachable(Edges(Pruned(dir, roots)), roots, n)
    {
      var k: nat :| Walk(Edges(dir), roots, n, k);
      SameWalks(dir, roots, n, k);
    }
  }

  lemma {:induction false} PrunedLinkWalk(dir: Dir, roots: set<string>, a: string, b: string, k: nat)
    requires Walk(Links(Pruned(dir, roots)), {a}, b, k)
    ensures Walk(Links(dir), {a}, b, k)
    decreases k
  {
    if k != 0 {
      var u :| (u, b) in Links(Pruned(dir, roots)) && Walk(Links(Pruned(dir, roots)), {a}, u, k - 1);
      PrunedLinkWalk(dir, roots, a, u, k - 1);
    }
  }

  /** The second run is as safe as the first. */
  lemma PrunedLinksEnd(dir: Dir, roots: set<string>)
    requires LinksEnd(dir, roots)
    ensures LinksEnd(Pruned(dir, roots), roots)
  {
    var P := Pruned(dir, roots);
    forall n, k: nat | Reachable(Edges(P), roots, n) && k > 0 ensures !Walk(Links(P), {n}, n, k) {
      var m: nat :| Walk(Edges(P), roots, n, m);
      SameWalks(dir, roots, n, m);
      if Walk(Links(P), {n}, n, k) {
        PrunedLinkWalk(dir, roots, n, n, k);
      }
    }
  }

  // ---------- Why cycles of symlinks have to be excluded ----------

  /** The file the walk looks at after m hops. */
  function Hop(dir: Dir, name: string, m: nat): string
    decreases m
  {
    if m == 0 then name else if IsLink(dir, name) then Hop(dir, dir[name].target, m - 1) else name
  }

  lemma {:induction false} WalkFirstLink(dir: Dir, a: string, b: string, k: nat)
    requires k > 0 && Walk(Links(dir), {a}, b, k)
    ensures IsLink(dir, a) && Walk(Links(dir), {dir[a].target}, b, k - 1)
    decreases k
  {
    var u :| (u, b) in Links(dir) && Walk(Links(dir), {a}, u, k - 1);
    if k == 1 {
      assert u == a;
    } else {
      WalkFirstLink(dir, a, u, k - 1);
    }
  }

  /** From a name on a cycle the walk never comes to a real file, so the loop does not end. */
  lemma {:induction false} CycleNeverEnds(dir: Dir, name: string, k: nat, m: nat)
    requires k > 0 && Walk(Links(dir), {name}, name, k)
    ensures IsLink(dir, Hop(dir, name, m))
    decreases m
  {
    WalkFirstLink(dir, name, name, k);
    if m != 0 {
      var target := dir[name].target;
      assert (name, target) in Links(dir);
      assert Walk(Links(dir), {target}, target, k);
      CycleNeverEnds(dir, target, k, m - 1);
    }
  }

  /** After some number of hops the walk is at a name that is no link. */
  ghost predicate Arrives(dir: Dir, name: string)
  {
    exists m: nat :: !IsLink(dir, Hop(dir, name, m))
  }

  lemma {:induction false} HopsEnd(dir: Dir, roots: set<string>, name: string, walked: set<string>) returns (m: nat)
    requires LinksEnd(dir, roots) && Reachable(Edges(dir), roots, name)
    requires forall x :: x in walked ==> IsLink(dir, x) && LinkLeads(dir, x, name)
    ensures !IsLink(dir, Hop(dir, name, m))
    decreases dir.Keys - walked
  {
    hide Walk, Edges, Links, LinksEnd;
    if !IsLink(dir, name) {
      m := 0;
    } else {
      NotOnCycle(dir, roots, name);
      LinkStep(dir, walked, name);
      ReachableStep(Edges(dir), roots, name, dir[name].target);
      m := HopsEnd(dir, roots, dir[name].target, walked + {name});
      m := m + 1;
    }
  }

  /** That no reachable name lies on a cycle of links is exactly what the loop needs: that from every
      reachable name it comes to a name that is no link. */
  lemma LinksEndExactly(dir: Dir, roots: set<string>)
    ensures LinksEnd(dir, roots) <==> forall n :: Reachable(Edges(dir), roots, n) ==> Arrives(dir, n)
  {
    hide Walk, Edges, Links, Reachable;
    if LinksEnd(dir, roots) {
      forall n | Reachable(Edges(dir), roots, n) ensures Arrives(dir, n) {
        var m := HopsEnd(dir, roots, n, {});
        assert !IsLink(dir, Hop(dir, n, m));
      }
    } else {
      var n, k: nat :| Reachable(Edges(dir), roots, n) && k > 0 && Walk(Links(dir), {n}, n, k);
      forall m: nat ensures IsLink(dir, Hop(dir, n, m)) {
        CycleNeverEnds(dir, n, k, m);
      }
      assert !Arrives(dir, n);
    }
  }
}
