/** The order in which a recursive depth-first search leaves the nodes of a graph. */
module PostOrder {
  import opened Digraph
  import opened Tarjan
  import Kahn

  /** The nodes left so far, in that order, and all nodes seen. */
  datatype Tour<T> = Tour(left: seq<T>, seen: set<T>)

  /** Visit the nodes of todo one after the other: each that is new, and before leaving it its neighbours. */
  ghost function Visit<T(!new)>(net: Net<T>, todo: seq<T>, seen: set<T>): (r: Tour<T>)
    ensures seen <= r.seen
    decreases net.Keys - seen, |todo|
  {
    if todo == [] then Tour([], seen)
    else
      var x := todo[0];
      if x in seen || x !in net then Visit(net, todo[1..], seen)
      else
        var below := Visit(net, net[x], seen + {x});
        assert x in net.Keys - seen && x !in net.Keys - below.seen;
        var rest := Visit(net, todo[1..], below.seen);
        Tour(below.left + [x] + rest.left, rest.seen)
  }

  // ---------- The roots decide ----------

  lemma {:induction false} VisitSplit<T(!new)>(net: Net<T>, a: seq<T>, b: seq<T>, seen: set<T>)
    ensures var first := Visit(net, a, seen); var second := Visit(net, b, first.seen);
      Visit(net, a + b, seen) == Tour(first.left + second.left, second.seen)
    decreases net.Keys - seen, |a|
  {
    if a == [] {
      assert a + b == b;
    } else {
      var x := a[0];
      assert (a + b)[1..] == a[1..] + b;
      if x in seen || x !in net {
        VisitSplit(net, a[1..], b, seen);
      } else {
        var below := Visit(net, net[x], seen + {x});
        assert x in net.Keys - seen && x !in net.Keys - below.seen;
        VisitSplit(net, a[1..], b, below.seen);
      }
    }
  }

  /** Left is what is new, and all of it can be reached from todo. */
  lemma {:induction false} VisitReaches<T(!new)>(net: Net<T>, todo: seq<T>, seen: set<T>, z: T)
    requires z in Visit(net, todo, seen).left
    ensures z !in seen && z in Visit(net, todo, seen).seen && exists t :: t in todo && Reach(EdgesOf(net), t, z)
    decreases net.Keys - seen, |todo|
  {
    hide Reach, EdgesOf;
    var x := todo[0];
    if x in seen || x !in net {
      VisitReaches(net, todo[1..], seen, z);
    } else {
      var below := Visit(net, net[x], seen + {x});
      assert x in net.Keys - seen && x !in net.Keys - below.seen;
      if z in below.left {
        VisitReaches(net, net[x], seen + {x}, z);
        var t :| t in net[x] && Reach(EdgesOf(net), t, z);
        ReachVia(net, x, t, z);
      } else if z == x {
        ReachSelf(EdgesOf(net), x);
      } else {
        VisitReaches(net, todo[1..], below.seen, z);
      }
    }
  }

  lemma ReachVia<T(!new)>(net: Net<T>, x: T, t: T, z: T)
    requires x in net && t in net[x] && Reach(EdgesOf(net), t, z)
    ensures Reach(EdgesOf(net), x, z)
  {
    ReachEdge(EdgesOf(net), x, t);
    ReachTrans(EdgesOf(net), x, t, z);
  }

  /** The neighbours of what has been seen have been seen, except for those of the nodes in open. */
  ghost predicate ClosedBut<T(!new)>(net: Net<T>, seen: set<T>, open: set<T>)
  {
    forall u, v :: u in seen && u !in open && u in net && v in net[u] ==> v in seen
  }

  lemma {:induction false} VisitCloses<T(!new)>(net: Net<T>, todo: seq<T>, seen: set<T>, open: set<T>)
    requires IsNet(net) && ClosedBut(net, seen, open)
    ensures ClosedBut(net, Visit(net, todo, seen).seen, open)
    ensures forall t :: t in todo && t in net ==> t in Visit(net, todo, seen).seen
    decreases net.Keys - seen, |todo|
  {
    if todo != [] {
      var x := todo[0];
      if x in seen || x !in net {
        VisitCloses(net, todo[1..], seen, open);
      } else {
        var below := Visit(net, net[x], seen + {x});
        assert x in net.Keys - seen && x !in net.Keys - below.seen;
        VisitCloses(net, net[x], seen + {x}, open + {x});
        VisitCloses(net, todo[1..], below.seen, open);
      }
    }
  }

  /** What can be reached from one of the first roots is left before everything that can be reached only
      from later ones. */
  lemma ByRoots<T(!new)>(net: Net<T>, roots: seq<T>, p: nat, q: nat, j: nat) returns (i: nat)
    requires IsNet(net) && (forall r :: r in roots ==> r in net) && j < |roots|
    requires p <= q < |Visit(net, roots, {}).left| && Reach(EdgesOf(net), roots[j], Visit(net, roots, {}).left[q])
    ensures i <= j && Reach(EdgesOf(net), roots[i], Visit(net, roots, {}).left[p])
  {
    hide Visit, Reach, EdgesOf;
    var E, left := EdgesOf(net), Visit(net, roots, {}).left;
    var a, b := roots[..j + 1], roots[j + 1..];
    assert roots == a + b;
    VisitSplit(net, a, b, {});
    VisitCloses(net, a, {}, {});
    var first := Visit(net, a, {});
    assert roots[j] in a by { assert a[j] == roots[j]; }
    ReachedIsSeen(net, first.seen, roots[j], left[q]);
    if q >= |first.left| {
      var second := Visit(net, b, first.seen);
      assert left[q] == second.left[q - |first.left|];
      VisitReaches(net, b, first.seen, left[q]);
    }
    assert left[p] == first.left[p];
    VisitReaches(net, a, {}, left[p]);
    var t :| t in a && Reach(E, t, left[p]);
    i :| 0 <= i < |a| && a[i] == t;
  }

  lemma ReachedIsSeen<T(!new)>(net: Net<T>, seen: set<T>, r: T, z: T)
    requires ClosedBut(net, seen, {}) && r in seen && Reach(EdgesOf(net), r, z)
    ensures z in seen
  {
    ClosedContains(EdgesOf(net), {r}, z, seen);
  }

  /** Without edges the nodes are left in the order of the roots. */
  lemma {:induction false} WithoutEdges<T(!new)>(net: Net<T>, roots: seq<T>, seen: set<T>)
    requires forall x :: x in net ==> net[x] == []
    requires Kahn.Distinct(roots) && forall r :: r in roots ==> r in net && r !in seen
    ensures Visit(net, roots, seen).left == roots
    decreases |roots|
  {
    if roots != [] {
      WithoutEdges(net, roots[1..], seen + {roots[0]});
      assert Visit(net, net[roots[0]], seen + {roots[0]}) == Tour([], seen + {roots[0]});
      assert roots == [] + [roots[0]] + roots[1..];
    }
  }

  // ---------- What is still to come ----------

  ghost predicate AreCalls<T(!new)>(net: Net<T>, calls: seq<(T, nat)>)
  {
    forall i :: 0 <= i < |calls| ==> calls[i].0 in net && calls[i].1 <= |net[calls[i].0]|
  }

  /** The nodes that the search has yet to leave: those below the innermost call, its node, and so on
      outwards, and then what is below the roots. */
  ghost function Rest<T(!new)>(net: Net<T>, calls: seq<(T, nat)>, roots: seq<T>, seen: set<T>): seq<T>
    requires AreCalls(net, calls)
    decreases |calls|
  {
    if calls == [] then Visit(net, roots, seen).left
    else
      var (x, i) := calls[|calls| - 1];
      var below := Visit(net, net[x][i..], seen);
      below.left + [x] + Rest(net, calls[..|calls| - 1], roots, below.seen)
  }

  lemma RestAdvance<T(!new)>(net: Net<T>, calls: seq<(T, nat)>, x: T, i: nat, roots: seq<T>, seen: set<T>)
    requires AreCalls(net, calls) && x in net && i < |net[x]| && net[x][i] in seen
    ensures Rest(net, calls + [(x, i + 1)], roots, seen) == Rest(net, calls + [(x, i)], roots, seen)
  {
    assert (calls + [(x, i)])[..|calls|] == calls && (calls + [(x, i + 1)])[..|calls|] == calls;
    assert net[x][i..][1..] == net[x][i + 1..];
  }

  lemma RestEnter<T(!new)>(net: Net<T>, calls: seq<(T, nat)>, x: T, i: nat, roots: seq<T>, seen: set<T>)
    requires AreCalls(net, calls) && x in net && i < |net[x]| && net[x][i] !in seen && net[x][i] in net
    ensures Rest(net, calls + [(x, i + 1)] + [(net[x][i], 0)], roots, seen + {net[x][i]})
         == Rest(net, calls + [(x, i)], roots, seen)
  {
    var w, outer := net[x][i], calls + [(x, i + 1)];
    assert (calls + [(x, i)])[..|calls|] == calls && outer[..|calls|] == calls;
    assert (outer + [(w, 0)])[..|outer|] == outer;
    assert net[x][i..][1..] == net[x][i + 1..] && net[w][0..] == net[w];
    var below := Visit(net, net[w], seen + {w});
    var rest := Visit(net, net[x][i + 1..], below.seen);
    var last := Rest(net, calls, roots, rest.seen);
    assert Rest(net, outer, roots, below.seen) == rest.left + [x] + last;
    assert below.left + [w] + (rest.left + [x] + last) == (below.left + [w] + rest.left) + [x] + last;
  }

  lemma RestLeave<T(!new)>(net: Net<T>, calls: seq<(T, nat)>, x: T, roots: seq<T>, seen: set<T>)
    requires AreCalls(net, calls) && x in net
    ensures Rest(net, calls + [(x, |net[x]|)], roots, seen) == [x] + Rest(net, calls, roots, seen)
  {
    assert (calls + [(x, |net[x]|)])[..|calls|] == calls;
  }

  lemma RestRoot<T(!new)>(net: Net<T>, roots: seq<T>, seen: set<T>)
    requires roots != [] && roots[0] in net
    ensures Rest(net, [], roots, seen)
         == if roots[0] in seen then Rest(net, [], roots[1..], seen)
            else Rest(net, [(roots[0], 0)], roots[1..], seen + {roots[0]})
  {
    var x := roots[0];
    assert [(x, 0)][..0] == [];
    assert net[x][0..] == net[x];
  }

  // ---------- Blocks in the order in which they are completed ----------

  /** All of the block has been left by place k, and not before. */
  ghost predicate LastAt<T>(left: seq<T>, block: seq<T>, k: nat)
  {
    k < |left| && left[k] in block && forall x :: x in block ==> x in left[..k + 1]
  }

  ghost predicate Completed<T(!new)>(left: seq<T>, block: seq<T>)
  {
    exists k: nat :: LastAt(left, block, k)
  }

  /** The blocks stand in the order in which the search leaves the last node of each. */
  ghost predicate InOrder<T(!new)>(blocks: seq<seq<T>>, left: seq<T>)
  {
    && Kahn.Distinct(left)
    && (forall j :: 0 <= j < |blocks| ==> Completed(left, blocks[j]))
    && (forall i, j, k: nat, m: nat ::
          0 <= i < j < |blocks| && LastAt(left, blocks[i], k) && LastAt(left, blocks[j], m) ==> k < m)
  }

  lemma Places<T(!new)>(blocks: seq<seq<T>>, left: seq<T>, i: nat, j: nat) returns (k: nat, m: nat)
    requires InOrder(blocks, left) && i < j < |blocks|
    ensures k < m < |left| && left[k] in blocks[i] && left[m] in blocks[j]
  {
    k :| LastAt(left, blocks[i], k);
    m :| LastAt(left, blocks[j], m);
  }

  lemma LastAtStays<T(!new)>(left: seq<T>, x: T, block: seq<T>)
    requires Kahn.Distinct(left) && x !in left && Completed(left, block)
    ensures Kahn.Distinct(left + [x]) && Completed(left + [x], block)
    ensures forall k: nat :: LastAt(left + [x], block, k) ==> LastAt(left, block, k)
  {
    var k: nat :| LastAt(left, block, k);
    var more := left + [x];
    assert more[..k + 1] == left[..k + 1];
    assert LastAt(more, block, k);
    forall m: nat | LastAt(more, block, m) ensures LastAt(left, block, m) {
      assert forall y :: y in block ==> y in left;
      assert m < |left|;
      assert more[..m + 1] == left[..m + 1];
    }
  }

  lemma OrderGrows<T(!new)>(blocks: seq<seq<T>>, left: seq<T>, x: T)
    requires InOrder(blocks, left) && x !in left
    ensures InOrder(blocks, left + [x])
  {
    hide LastAt;
    forall j | 0 <= j < |blocks| {
      LastAtStays(left, x, blocks[j]);
    }
  }

  lemma NotBefore<T(!new)>(left: seq<T>, x: T, k: nat)
    requires x !in left
    ensures k < |left| ==> x !in (left + [x])[..k + 1]
  {
    if k < |left| {
      assert (left + [x])[..k + 1] == left[..k + 1];
    }
  }

  lemma NewIsLast<T(!new)>(left: seq<T>, x: T, block: seq<T>)
    requires Kahn.Distinct(left) && x !in left && x in block && forall y :: y in block ==> y in left || y == x
    ensures LastAt(left + [x], block, |left|) && forall k: nat :: LastAt(left + [x], block, k) ==> k == |left|
  {
    var more := left + [x];
    assert more[..|left| + 1] == more;
    forall k: nat | LastAt(more, block, k) ensures k == |left| {
      NotBefore(left, x, k);
    }
  }

  lemma OrderEmits<T(!new)>(blocks: seq<seq<T>>, left: seq<T>, x: T, block: seq<T>)
    requires InOrder(blocks, left) && x !in left && x in block && forall y :: y in block ==> y in left || y == x
    ensures InOrder(blocks + [block], left + [x])
  {
    OrderGrows(blocks, left, x);
    NewIsLast(left, x, block);
    forall i, k: nat | 0 <= i < |blocks| && LastAt(left + [x], blocks[i], k) ensures k < |left| {
      LastAtStays(left, x, blocks[i]);
    }
    hide LastAt;
  }
}
