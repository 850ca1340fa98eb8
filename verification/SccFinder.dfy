/** The iterative search for all strongly connected components. */
module SccSearch {
  import opened Common
  import Digraph
  import opened Tarjan
  import PostOrder
  import Sorting

  /** [n for n in s if n in nodes] */
  function Within(s: seq<string>, nodes: set<string>): (r: seq<string>)
    ensures forall x :: x in r <==> x in s && x in nodes
  {
    if s == [] then []
    else
      assert forall x :: x in s <==> x == s[0] || x in s[1..];
      (if s[0] in nodes then [s[0]] else []) + Within(s[1..], nodes)
  }

  /** The order stays, and each occurrence is looked at by itself. */
  lemma {:induction false} WithinAppend(a: seq<string>, b: seq<string>, nodes: set<string>)
    ensures Within(a + b, nodes) == Within(a, nodes) + Within(b, nodes)
  {
    if a == [] {
      assert a + b == b;
    } else {
      assert (a + b)[1..] == a[1..] + b;
      WithinAppend(a[1..], b, nodes);
    }
  }

  lemma WithinOne(x: string, nodes: set<string>)
    ensures Within([x], nodes) == if x in nodes then [x] else []
  {
  }

  function Neighbors(nodes: set<string>, adjacency: map<string, seq<string>>, x: string): seq<string>
  {
    if x in adjacency then Within(adjacency[x], nodes) else []
  }

  /** The graph restricted to the node set. */
  ghost function NetOf(nodes: set<string>, adjacency: map<string, seq<string>>): (net: Net<string>)
    ensures net.Keys == nodes && IsNet(net)
  {
    map x | x in nodes :: Neighbors(nodes, adjacency, x)
  }

  /** The blocks are exactly the classes of mutually reachable nodes, each sorted, and no
      edge leads from a block to a later one. */
  ghost predicate AreComponents(net: Net<string>, sccs: seq<seq<string>>)
  {
    && (forall i :: 0 <= i < |sccs| ==>
          IsComponent(ReachSet(net), sccs[i]) && Sorting.Ascending(Sorting.Before, sccs[i]))
    && Covers(sccs, net.Keys) && Disjoint(sccs) && EdgesPointBack(net, sccs)
  }

  /** The blocks come in the order in which a recursive depth-first search that starts at the nodes in
      ascending order, and takes neighbours in the order of their lists, leaves the last node of each. */
  ghost predicate InPostOrder(net: Net<string>, sccs: seq<seq<string>>)
  {
    exists order :: Sorting.Lists(Sorting.Before, order, net.Keys)
      && PostOrder.InOrder(sccs, PostOrder.Visit(net, order, {}).left)
  }

  class SccFinder {
    const nodes: set<string>
    const adjacency: map<string, seq<string>>
    var counter: nat
    var stack: seq<string>
    var onStack: set<string>
    var index: map<string, nat>
    var lowlink: map<string, nat>
    var sccs: seq<seq<string>>
    ghost var finished: seq<string>  // the nodes whose calls have ended, in that order
    ghost const net: Net<string>
    ghost const R: set<(string, string)>

    constructor (nodes: set<string>, adjacency: map<string, seq<string>>)
      ensures this.nodes == nodes && this.adjacency == adjacency
      ensures net == NetOf(nodes, adjacency) && R == ReachSet(net)
      ensures counter == 0 && stack == [] && onStack == {} && index == map[] && lowlink == map[] && sccs == []
      ensures finished == []
    {
      this.nodes, this.adjacency := nodes, adjacency;
      this.net, this.R := NetOf(nodes, adjacency), ReachSet(NetOf(nodes, adjacency));
      counter, stack, onStack, index, lowlink, sccs, finished := 0, [], {}, map[], map[], [], [];
    }

    ghost function State(path: seq<string>, pos: map<string, nat>): Search<string>
      reads this
    {
      Search(stack, onStack, index, lowlink, counter, sccs, path, pos)
    }

    ghost predicate Good(path: seq<string>, pos: map<string, nat>)
      reads this
    {
      && net.Keys == nodes && (forall x :: x in nodes ==> net[x] == Neighbors(nodes, adjacency, x))
      && IsReach(net, R) && Inv(net, R, State(path, pos))
      && (forall i :: 0 <= i < |sccs| ==> Sorting.Ascending(Sorting.Before, sccs[i]))
    }

    /** Every visited node that is not active has finished, and the blocks are in order of completion. */
    ghost predicate Tracks(pos: map<string, nat>)
      reads this
    {
      (forall x :: x in finished <==> x in index && x !in pos) && PostOrder.InOrder(sccs, finished)
    }

    /** post is what has finished and then what the calls and the remaining roots have yet to finish. */
    ghost predicate OnCourse(calls: seq<(string, nat)>, roots: seq<string>, post: seq<string>)
      reads this
    {
      PostOrder.AreCalls(net, calls) && post == finished + PostOrder.Rest(net, calls, roots, index.Keys)
    }

    /** Pop the stack down to and including node, and record the popped nodes as a component. */
    method PopComponent(node: string, ghost k: nat) returns (block: seq<string>)
      requires k < |stack| && stack[k] == node && node !in stack[k + 1..]
      requires forall x :: x in onStack <==> x in stack
      requires forall i, j :: 0 <= i < j < |stack| ==> stack[i] != stack[j]
      modifies this
      ensures stack == old(stack)[..k] && onStack == old(onStack) - Elements(old(stack)[k..])
      ensures sccs == old(sccs) + [block] && Sorting.Lists(Sorting.Before, block, Elements(old(stack)[k..]))
      ensures index == old(index) && lowlink == old(lowlink) && counter == old(counter) && finished == old(finished)
    {
      var scc := [];
      var w := stack[|stack| - 1];
      stack, onStack := stack[..|stack| - 1], onStack - {w};
      scc := scc + [w];
      while w != node
        invariant k <= |stack| < |old(stack)|
        invariant stack == old(stack)[..|stack|] && w == old(stack)[|stack|]
        invariant forall x :: x in scc <==> x in old(stack)[|stack|..]
        invariant onStack == old(onStack) - Elements(scc)
        invariant index == old(index) && lowlink == old(lowlink) && counter == old(counter) && sccs == old(sccs)
        invariant finished == old(finished)
        decreases |stack|
      {
        if |stack| == k { assert false; }
        ghost var n := |stack|;
        w := stack[|stack| - 1];
        stack, onStack := stack[..|stack| - 1], onStack - {w};
        scc := scc + [w];
        assert old(stack)[n - 1..] == [w] + old(stack)[n..];
      }
      Sorting.BeforeIsStrictTotal();
      block := Sorting.Sorted(Sorting.Before, set x | x in scc);
      sccs := sccs + [block];
    }

    method Number(w: string)
      modifies this
      ensures index == old(index)[w := old(counter)] && lowlink == old(lowlink)[w := old(counter)]
      ensures counter == old(counter) + 1 && stack == old(stack) + [w] && onStack == old(onStack) + {w}
      ensures sccs == old(sccs) && finished == old(finished)
    {
      index, lowlink := index[w := counter], lowlink[w := counter];
      counter := counter + 1;
      stack, onStack := stack + [w], onStack + {w};
    }

    method Lower(node: string, bound: nat)
      requires node in lowlink
      modifies this`lowlink
      ensures lowlink == old(lowlink)[node := Min(old(lowlink)[node], bound)]
    {
      lowlink := lowlink[node := Min(lowlink[node], bound)];
    }

    /** Fold the lowlink of a finished call into its caller's, if it has one. */
    method FoldIntoCaller(callers: seq<(string, nat)>, node: string)
      requires callers != [] ==> node in lowlink && callers[|callers| - 1].0 in lowlink
      modifies this`lowlink
      ensures lowlink == if callers == [] then old(lowlink)
                         else
                           var caller := callers[|callers| - 1].0;
                           old(lowlink)[caller := Min(old(lowlink)[caller], old(lowlink)[node])]
    {
      if callers != [] {
        var parent := callers[|callers| - 1].0;
        lowlink := lowlink[parent := Min(lowlink[parent], lowlink[node])];
      }
    }

    /** Number w and call into it. */
    method Visit(w: string, ghost path: seq<string>, ghost pos: map<string, nat>)
      requires Good(path, pos) && MayEnter(net, State(path, pos), w)
      modifies this
      ensures State(path + [w], Bump(old(State(path, pos)))[w := 0]) == Enter(old(State(path, pos)), w)
      ensures Good(path + [w], Bump(old(State(path, pos)))[w := 0])
      ensures index.Keys == old(index.Keys) + {w} && sccs == old(sccs) && finished == old(finished)
    {
      hide Inv, IsReach, IsClosure;
      ghost var s := State(path, pos);
      ReachIsClosure(net, R);
      EnterPreserves(net, R, s, w);
      Number(w);
      assert State(path + [w], Bump(s)[w := 0]) == Enter(s, w);
    }

    /** Fold the index of an already numbered neighbour w into the lowlink of node. */
    method Revisit(node: string, w: string, ghost path: seq<string>, ghost pos: map<string, nat>)
      requires Good(path, pos) && MayAdvance(net, State(path, pos), w) && node == path[|path| - 1]
      requires node in lowlink && node in pos
      modifies this`lowlink
      ensures State(path, Bump(old(State(path, pos)))) == Advance(old(State(path, pos)), w)
      ensures Good(path, Bump(old(State(path, pos)))) && lowlink.Keys == old(lowlink.Keys)
    {
      hide Inv, IsReach, IsClosure;
      ghost var s := State(path, pos);
      ReachIsClosure(net, R);
      AdvancePreserves(net, R, s, w);
      if w in onStack {
        Lower(node, index[w]);
      }
      assert State(path, Bump(s)) == Advance(s, w);
    }

    /** What the loops need to know about a good state. */
    ghost predicate Sound(path: seq<string>, pos: map<string, nat>)
      reads this
    {
      && index.Keys <= nodes && lowlink.Keys == index.Keys && net.Keys == nodes && IsNet(net)
      && (forall i, j :: 0 <= i < j < |path| ==> path[i] != path[j])
      && (forall i :: 0 <= i < |path| ==>
            path[i] in pos && path[i] in index && path[i] in net && pos[path[i]] <= |net[path[i]]|)
      && (path == [] ==> pos == map[] && onStack == {})
      && (path != [] ==> net[path[|path| - 1]] == Neighbors(nodes, adjacency, path[|path| - 1]))
    }

    lemma GoodIsSound(path: seq<string>, pos: map<string, nat>)
      requires Good(path, pos)
      ensures Sound(path, pos)
    {
      hide Inv, Linked, Ordered, Anchored, IsReach;
      var s := State(path, pos);
      InvOrder(net, R, s);
      PathIsSound(net, s);
      if path == [] {
        NothingActive(net, R, s);
      }
    }

    /** The call stack mirrors the path of active nodes and their positions. */
    ghost predicate Mirrors(calls: seq<(string, nat)>, path: seq<string>, pos: map<string, nat>)
    {
      |calls| == |path|
      && (forall i :: 0 <= i < |path| ==> path[i] in pos && calls[i] == (path[i], pos[path[i]]))
    }

    /** Move the innermost call on to its next neighbour w. */
    method Examine(calls: seq<(string, nat)>, w: string, ghost path: seq<string>, ghost pos: map<string, nat>)
      returns (calls': seq<(string, nat)>, ghost path': seq<string>, ghost pos': map<string, nat>)
      requires Good(path, pos) && Sound(path, pos) && Mirrors(calls, path, pos) && AtNeighbor(net, State(path, pos), w)
      modifies this
      ensures Good(path', pos') && Mirrors(calls', path', pos')
      ensures var (node, ni) := calls[|calls| - 1];
        calls' == calls[..|calls| - 1] + [(node, ni + 1)] + if w in old(index) then [] else [(w, 0)]
      ensures index.Keys == old(index.Keys) + {w} && w in nodes
      ensures sccs == old(sccs) && finished == old(finished)
      ensures pos'.Keys == if w in old(index) then pos.Keys else pos.Keys + {w}
    {
      hide Inv, Good, IsReach, Neighbors, Elements;
      ghost var s := State(path, pos);
      var (node, ni) := calls[|calls| - 1];
      calls' := calls[|calls| - 1 := (node, ni + 1)];
      path', pos' := path, Bump(s);
      if w !in index {
        Visit(w, path, pos);
        calls' := calls' + [(w, 0)];
        path', pos' := path + [w], pos'[w := 0];
      } else {
        Revisit(node, w, path, pos);
      }
    }

    lemma RootPosition(path: seq<string>, pos: map<string, nat>) returns (k: nat)
      requires Good(path, pos) && AtEnd(net, State(path, pos))
      requires path[|path| - 1] in index && path[|path| - 1] in lowlink
      requires lowlink[path[|path| - 1]] == index[path[|path| - 1]]
      ensures AtRoot(net, State(path, pos), k)
      ensures forall x :: x in onStack <==> x in stack
      ensures forall i, j :: 0 <= i < j < |stack| ==> stack[i] != stack[j]
      ensures stack[k] !in stack[k + 1..]
    {
      hide Inv, Linked, Ordered, Anchored, IsReach, IsNet;
      InvOrder(net, R, State(path, pos));
      k := RootOnStack(net, State(path, pos));
    }

    lemma LeaveIsGood(path: seq<string>, pos: map<string, nat>)
      requires Good(path, pos) && AtEnd(net, State(path, pos)) && Sound(path, pos)
      requires lowlink[path[|path| - 1]] != index[path[|path| - 1]]
      ensures Inv(net, R, Leave(State(path, pos)))
    {
      assert HasWitness(net, R, State(path, pos), path[|path| - 1]);
      LeavePreserves(net, R, State(path, pos));
    }

    /** What is above the root on the stack has finished, the root itself excepted. */
    lemma BlockFinished(s: Search<string>, k: nat, block: seq<string>, left: seq<string>)
      requires Inv(net, R, s) && AtRoot(net, s, k) && Elements(block) == Elements(s.stack[k..])
      requires forall x :: x in left <==> x in s.index && x !in s.pos
      ensures Top(s) in block && forall x :: x in block ==> x in left || x == Top(s)
    {
      hide Anchored, ActiveReaches, Scanned, LowBounds, LowsWitnessed, Emitted, IsNet;
      TopSegment(net, s, k);
      assert Top(s) in s.stack[k..];
      assert Top(s) in Elements(block);
      forall x | x in block ensures x in left || x == Top(s) {
        assert x in Elements(block);
      }
    }

    /** A finished call that is the root of its component: take the component off the stack. */
    method FinishRoot(calls: seq<(string, nat)>, ghost path: seq<string>, ghost pos: map<string, nat>)
      returns (calls': seq<(string, nat)>)
      requires Good(path, pos) && Sound(path, pos) && Mirrors(calls, path, pos) && AtEnd(net, State(path, pos))
      requires Tracks(pos) && lowlink[path[|path| - 1]] == index[path[|path| - 1]]
      modifies this
      ensures calls' == calls[..|calls| - 1]
      ensures index == old(index) && finished == old(finished) + [path[|path| - 1]]
      ensures Good(path[..|path| - 1], pos - {path[|path| - 1]}) && Tracks(pos - {path[|path| - 1]})
    {
      hide Inv, IsReach, Neighbors, IsNet;
      ghost var s := State(path, pos);
      ghost var path', pos' := path[..|path| - 1], pos - {path[|path| - 1]};
      var (node, ni) := calls[|calls| - 1];
      ghost var k := RootPosition(path, pos);
      var block := PopComponent(node, k);
      CollapsePreserves(net, R, s, k, block);
      BlockFinished(s, k, block, finished);
      PostOrder.OrderEmits(old(sccs), finished, node, block);
      finished := finished + [node];
      calls' := calls[..|calls| - 1];
      FoldIntoCaller(calls', node);
      assert State(path', pos') == Collapse(s, k, block);
    }

    /** A finished call that is not: only fold its lowlink into its caller's. */
    method FinishLower(calls: seq<(string, nat)>, ghost path: seq<string>, ghost pos: map<string, nat>)
      returns (calls': seq<(string, nat)>)
      requires Good(path, pos) && Sound(path, pos) && Mirrors(calls, path, pos) && AtEnd(net, State(path, pos))
      requires Tracks(pos) && lowlink[path[|path| - 1]] != index[path[|path| - 1]]
      modifies this
      ensures calls' == calls[..|calls| - 1]
      ensures index == old(index) && finished == old(finished) + [path[|path| - 1]]
      ensures Good(path[..|path| - 1], pos - {path[|path| - 1]}) && Tracks(pos - {path[|path| - 1]})
    {
      hide Inv, IsReach, Neighbors, IsNet;
      ghost var s := State(path, pos);
      ghost var path', pos' := path[..|path| - 1], pos - {path[|path| - 1]};
      var (node, ni) := calls[|calls| - 1];
      LeaveIsGood(path, pos);
      PostOrder.OrderGrows(sccs, finished, node);
      finished := finished + [node];
      calls' := calls[..|calls| - 1];
      FoldIntoCaller(calls', node);
      assert State(path', pos') == Leave(s);
    }

    /** A finished call either completes a component or goes on; then fold its lowlink into its caller's. */
    method Finish(calls: seq<(string, nat)>, ghost path: seq<string>, ghost pos: map<string, nat>)
      returns (calls': seq<(string, nat)>)
      requires Good(path, pos) && Sound(path, pos) && Mirrors(calls, path, pos) && AtEnd(net, State(path, pos))
      requires Tracks(pos)
      modifies this
      ensures calls' == calls[..|calls| - 1]
      ensures index == old(index) && finished == old(finished) + [path[|path| - 1]]
      ensures Good(path[..|path| - 1], pos - {path[|path| - 1]}) && Tracks(pos - {path[|path| - 1]})
    {
      hide Good, Inv, IsReach, IsNet;
      var (node, ni) := calls[|calls| - 1];
      if lowlink[node] == index[node] {
        calls' := FinishRoot(calls, path, pos);
      } else {
        calls' := FinishLower(calls, path, pos);
      }
    }

    method StrongConnect(v: string, ghost roots: seq<string>, ghost post: seq<string>)
      requires Good([], map[]) && onStack == {} && v in nodes && v !in index
      requires Tracks(map[]) && OnCourse([], [v] + roots, post)
      modifies this
      ensures Good([], map[]) && onStack == {}
      ensures old(index.Keys) + {v} <= index.Keys
      ensures Tracks(map[]) && OnCourse([], roots, post)
    {
      hide Inv, IsReach, Good, IsNet, Neighbors, PostOrder.Rest, PostOrder.AreCalls, PostOrder.InOrder;
      GoodIsSound([], map[]);
      var callStack := [(v, 0)];
      ghost var path, pos := [] + [v], Bump(State([], map[]))[v := 0];
      RootEntered(v, roots, post);
      Visit(v, [], map[]);

      while callStack != []
        invariant Good(path, pos) && Mirrors(callStack, path, pos)
        invariant old(index.Keys) + {v} <= index.Keys
        invariant Tracks(pos) && OnCourse(callStack, roots, post)
        decreases nodes - index.Keys, |callStack|,
          if callStack == [] then 0
          else |Neighbors(nodes, adjacency, callStack[|callStack| - 1].0)| - callStack[|callStack| - 1].1
      {
        GoodIsSound(path, pos);
        var (node, ni) := callStack[|callStack| - 1];
        var neighbors := Neighbors(nodes, adjacency, node);
        if ni < |neighbors| {
          StepOn(callStack, roots, post);
          callStack, path, pos := Examine(callStack, neighbors[ni], path, pos);
        } else {
          StepOff(callStack, roots, post);
          callStack := Finish(callStack, path, pos);
          path, pos := path[..|path| - 1], pos - {node};
        }
      }
      GoodIsSound(path, pos);
    }

    method FindAllSccs() returns (ghost order: seq<string>)
      requires Good([], map[]) && onStack == {} && IsNet(net) && index == map[] && finished == [] && sccs == []
      modifies this
      ensures Good([], map[]) && onStack == {} && index.Keys == nodes
      ensures Sorting.Lists(Sorting.Before, order, nodes)
      ensures PostOrder.InOrder(sccs, PostOrder.Visit(net, order, {}).left)
    {
      hide Inv, IsReach, Good, Sound, PostOrder.InOrder, PostOrder.Rest, PostOrder.Visit, Tracks, OnCourse, IsNet,
        Sorting.Ascending, Sorting.Before;
      Sorting.BeforeIsStrictTotal();
      var sorted := Sorting.Sorted(Sorting.Before, nodes);
      order := sorted;
      ghost var post := PostOrder.Visit(net, order, {}).left;
      assert sorted[0..] == sorted;
      NothingFinished(sorted);
      IndexIsNodes();
      for i := 0 to |sorted|
        invariant Good([], map[]) && onStack == {}
        invariant forall j :: 0 <= j < i ==> sorted[j] in index
        invariant Tracks(map[]) && OnCourse([], sorted[i..], post)
      {
        assert sorted[i..] == [sorted[i]] + sorted[i + 1..];
        if sorted[i] !in index {
          StrongConnect(sorted[i], sorted[i + 1..], post);
        } else {
          RootPassed(sorted[i], sorted[i + 1..], post);
        }
      }
      assert sorted[|sorted|..] == [];
      AllFinished(post);
      GoodIsSound([], map[]);
      IndexIsNodes();
    }

    lemma NothingFinished(roots: seq<string>)
      requires index == map[] && finished == [] && sccs == []
      ensures Tracks(map[]) && OnCourse([], roots, PostOrder.Visit(net, roots, {}).left)
    {
      assert index.Keys == {};
    }

    lemma AllFinished(post: seq<string>)
      requires Tracks(map[]) && OnCourse([], [], post)
      ensures finished == post && PostOrder.InOrder(sccs, post)
    {
    }

    lemma IndexIsNodes()
      requires Good([], map[])
      ensures index.Keys <= nodes && net.Keys == nodes
    {
      GoodIsSound([], map[]);
    }

    /** Calling into a new root, or into the next neighbour, or passing one that is numbered, leaves what
        is yet to finish as it is. */
    lemma RootEntered(v: string, roots: seq<string>, post: seq<string>)
      requires OnCourse([], [v] + roots, post) && v in net && v !in index
      ensures PostOrder.AreCalls(net, [(v, 0)])
      ensures post == finished + PostOrder.Rest(net, [(v, 0)], roots, index.Keys + {v})
    {
      PostOrder.RestRoot(net, [v] + roots, index.Keys);
      assert ([v] + roots)[1..] == roots;
    }

    lemma RootPassed(v: string, roots: seq<string>, post: seq<string>)
      requires OnCourse([], [v] + roots, post) && v in net && v in index
      ensures OnCourse([], roots, post)
    {
      PostOrder.RestRoot(net, [v] + roots, index.Keys);
      assert ([v] + roots)[1..] == roots;
    }

    lemma StepOn(calls: seq<(string, nat)>, roots: seq<string>, post: seq<string>)
      requires calls != [] && OnCourse(calls, roots, post) && IsNet(net)
      requires calls[|calls| - 1].1 < |net[calls[|calls| - 1].0]|
      ensures var (node, ni) := calls[|calls| - 1]; var w := net[node][ni];
        var more := calls[..|calls| - 1] + [(node, ni + 1)] + if w in index then [] else [(w, 0)];
        PostOrder.AreCalls(net, more) && post == finished + PostOrder.Rest(net, more, roots, index.Keys + {w})
    {
      var (node, ni) := calls[|calls| - 1];
      var outer, w := calls[..|calls| - 1], net[node][ni];
      assert calls == outer + [(node, ni)];
      if w in index {
        PostOrder.RestAdvance(net, outer, node, ni, roots, index.Keys);
        assert outer + [(node, ni + 1)] + [] == outer + [(node, ni + 1)];
        assert index.Keys + {w} == index.Keys;
      } else {
        PostOrder.RestEnter(net, outer, node, ni, roots, index.Keys);
      }
    }

    lemma StepOff(calls: seq<(string, nat)>, roots: seq<string>, post: seq<string>)
      requires calls != [] && OnCourse(calls, roots, post)
      requires calls[|calls| - 1].1 == |net[calls[|calls| - 1].0]|
      ensures var node, outer := calls[|calls| - 1].0, calls[..|calls| - 1];
        PostOrder.AreCalls(net, outer) && post == finished + [node] + PostOrder.Rest(net, outer, roots, index.Keys)
    {
      var node, outer := calls[|calls| - 1].0, calls[..|calls| - 1];
      assert calls == outer + [(node, |net[node]|)];
      PostOrder.RestLeave(net, outer, node, roots, index.Keys);
    }

    lemma AllVisited()
      requires Good([], map[]) && onStack == {} && index.Keys == nodes && R == ReachSet(net)
      ensures AreComponents(net, sccs)
    {
      hide IsReach, ReachSet, Linked, Ordered;
      assert Done(State([], map[])) == nodes;
    }
  }

  method FindAllSccs(nodes: set<string>, adjacency: map<string, seq<string>>) returns (sccs: seq<seq<string>>)
    ensures AreComponents(NetOf(nodes, adjacency), sccs) && InPostOrder(NetOf(nodes, adjacency), sccs)
  {
    hide Inv, IsReach, ReachSet, AreComponents, PostOrder.InOrder;
    var finder := new SccFinder(nodes, adjacency);
    ReachSetIsReach(finder.net);
    InitialInv(finder.net, finder.R);
    assert finder.Good([], map[]);
    ghost var order := finder.FindAllSccs();
    finder.AllVisited();
    sccs := finder.sccs;
  }

  /** The blocks come by their first names: if r leads to a later block, then r or a name before it leads
      to each earlier one. */
  lemma BlocksByFirst(net: Net<string>, sccs: seq<seq<string>>, i: nat, j: nat, x: string, y: string, r: string)
      returns (s: string)
    requires IsNet(net) && AreComponents(net, sccs) && InPostOrder(net, sccs) && i < j < |sccs|
    requires x in sccs[i] && y in sccs[j] && r in net.Keys && Digraph.Reach(EdgesOf(net), r, y)
    ensures s in net.Keys && !Sorting.Before(r, s) && Digraph.Reach(EdgesOf(net), s, x)
  {
    hide Digraph.Reach, PostOrder.Visit, PostOrder.InOrder, EdgesPointBack, EdgesOf, IsComponent, ReachSet, Disjoint,
      Covers, Sorting.Ascending, Sorting.Before;
    var E := EdgesOf(net);
    var order :| Sorting.Lists(Sorting.Before, order, net.Keys)
      && PostOrder.InOrder(sccs, PostOrder.Visit(net, order, {}).left);
    var left := PostOrder.Visit(net, order, {}).left;
    var k, m := PostOrder.Places(sccs, left, i, j);
    MembersReach(net, sccs[j], y, left[m]);
    Digraph.ReachTrans(E, r, y, left[m]);
    var n: nat :| n < |order| && order[n] == r;
    var l := PostOrder.ByRoots(net, order, k, m, n);
    s := order[l];
    MembersReach(net, sccs[i], left[k], x);
    Digraph.ReachTrans(E, s, left[k], x);
    NotAfter(order, l, n);
  }

  lemma NotAfter(order: seq<string>, l: nat, n: nat)
    requires Sorting.Ascending(Sorting.Before, order) && l <= n < |order|
    ensures !Sorting.Before(order[n], order[l])
  {
    Sorting.BeforeIsStrictTotal();
  }

  lemma MembersReach(net: Net<string>, block: seq<string>, x: string, y: string)
    requires IsComponent(ReachSet(net), block) && x in block && y in block
    ensures Digraph.Reach(EdgesOf(net), x, y)
  {
  }
}
