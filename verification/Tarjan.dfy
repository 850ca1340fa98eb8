/** The search state of the iterative strongly-connected-components algorithm,
    its invariant, and the lemmas that each step of the loop preserves it. */
module Tarjan {
  import opened Common
  import opened Digraph

  /** The search works on a map from every node to its list of neighbours. */
  type Net<T> = map<T, seq<T>>

  /** The variables of the algorithm. The explicit call stack of (node, position)
      pairs is split into the path of active nodes and the position of each. */
  datatype Search<T> = Search(
    stack: seq<T>,
    onStack: set<T>,
    index: map<T, nat>,
    lowlink: map<T, nat>,
    counter: nat,
    sccs: seq<seq<T>>,
    path: seq<T>,
    pos: map<T, nat>)

  ghost predicate IsNet<T(!new)>(net: Net<T>)
  {
    forall x, y :: x in net && y in net[x] ==> y in net
  }

  ghost function EdgesOf<T(!new)>(net: Net<T>): (E: set<(T, T)>)
    ensures forall u, v :: (u, v) in E <==> u in net && v in net[u]
  {
    set u, v | u in net && v in net[u] :: (u, v)
  }

  // ---------- The invariant ----------

  /** The keys of the maps are in step with each other. */
  ghost predicate Linked<T(!new)>(net: Net<T>, s: Search<T>)
  {
    && s.pos.Keys <= s.onStack <= s.index.Keys <= net.Keys
    && s.lowlink.Keys == s.index.Keys
    && (forall i :: 0 <= i < |s.path| ==> s.path[i] in s.pos)
  }

  /** Visited nodes that have already been put into a component. */
  ghost function Done<T(!new)>(s: Search<T>): set<T>
  {
    s.index.Keys - s.onStack
  }

  ghost predicate Ascending<T(!new)>(index: map<T, nat>, q: seq<T>)
  {
    && (forall i :: 0 <= i < |q| ==> q[i] in index)
    && (forall i, j :: 0 <= i < j < |q| ==> index[q[i]] < index[q[j]])
  }

  /** The stack and the path hold the right nodes, in the order they were numbered. */
  ghost predicate Ordered<T(!new)>(net: Net<T>, s: Search<T>)
    requires Linked(net, s)
  {
    && (forall x :: x in s.index ==> s.index[x] < s.counter)
    && (forall x :: x in s.pos ==> s.pos[x] <= |net[x]|)
    && s.onStack == Elements(s.stack) && s.pos.Keys == Elements(s.path)
    && Ascending(s.index, s.stack) && Ascending(s.index, s.path)
  }

  /** The loop has already looked at the edge from x to y. */
  ghost predicate Examined<T(!new)>(net: Net<T>, s: Search<T>, x: T, y: T)
    requires x in net
  {
    if x in s.pos && s.pos[x] <= |net[x]| then y in net[x][..s.pos[x]] else y in net[x]
  }

  /** x was found while call i was the innermost of the calls that are still active. */
  ghost predicate InSegment<T(!new)>(net: Net<T>, s: Search<T>, i: nat, x: T)
    requires Linked(net, s) && i < |s.path| && x in s.index
  {
    && s.index[s.path[i]] <= s.index[x]
    && (i + 1 < |s.path| ==> s.index[x] < s.index[s.path[i + 1]])
  }

  /** R is reflexive, transitive and contains every edge: the facts about reachability
      that the steps need, without its definition. */
  ghost predicate IsClosure<T(!new)>(net: Net<T>, R: set<(T, T)>)
  {
    && (forall x :: x in net ==> (x, x) in R)
    && (forall x, y :: x in net && y in net[x] ==> (x, y) in R)
    && (forall y {:trigger Through(R, y)} :: Through(R, y))
  }

  /** R is transitive through y. */
  ghost predicate Through<T(!new)>(R: set<(T, T)>, y: T)
  {
    forall x, z :: (x, y) in R && (y, z) in R ==> (x, z) in R
  }

  /** Active nodes reach everything above them on the stack. */
  ghost predicate ActiveReaches<T(!new)>(net: Net<T>, R: set<(T, T)>, s: Search<T>)
    requires Linked(net, s)
  {
    forall g, y :: g in s.pos && y in s.onStack && s.index[g] <= s.index[y] ==> (g, y) in R
  }

  ghost predicate Anchor<T(!new)>(net: Net<T>, R: set<(T, T)>, s: Search<T>, y: T, g: T)
    requires Linked(net, s) && y in s.onStack
  {
    g in s.pos && s.index[g] <= s.index[y] && (y, g) in R
  }

  ghost predicate HasAnchor<T(!new)>(net: Net<T>, R: set<(T, T)>, s: Search<T>, y: T)
    requires Linked(net, s) && y in s.onStack
  {
    exists g :: Anchor(net, R, s, y, g)
  }

  /** Every node on the stack reaches an active node at or below it. */
  ghost predicate Anchored<T(!new)>(net: Net<T>, R: set<(T, T)>, s: Search<T>)
    requires Linked(net, s)
  {
    forall y {:trigger HasAnchor(net, R, s, y)} :: y in s.onStack ==> HasAnchor(net, R, s, y)
  }

  ghost predicate Scanned<T(!new)>(net: Net<T>, s: Search<T>)
    requires Linked(net, s)
  {
    forall x, y :: x in s.index && Examined(net, s, x, y) ==> y in s.index
  }

  /** Examined edges into the stack lead no lower than the lowlink of the call they belong to. */
  ghost predicate LowBounds<T(!new)>(net: Net<T>, s: Search<T>)
    requires Linked(net, s)
  {
    forall i, x, y {:trigger InSegment(net, s, i, x), Examined(net, s, x, y)} ::
      0 <= i < |s.path| && x in s.onStack && y in s.onStack
                      && InSegment(net, s, i, x) && Examined(net, s, x, y)
      ==> s.lowlink[s.path[i]] <= s.index[y]
  }

  ghost predicate LowWitness<T(!new)>(net: Net<T>, R: set<(T, T)>, s: Search<T>, g: T, y: T)
    requires Linked(net, s) && g in s.pos
  {
    y in s.onStack && s.lowlink[g] == s.index[y] && (g, y) in R
  }

  ghost predicate HasWitness<T(!new)>(net: Net<T>, R: set<(T, T)>, s: Search<T>, g: T)
    requires Linked(net, s) && g in s.pos
  {
    s.lowlink[g] <= s.index[g] && exists y :: LowWitness(net, R, s, g, y)
  }

  /** The lowlink of an active node is the index of a stack node it reaches. */
  ghost predicate LowsWitnessed<T(!new)>(net: Net<T>, R: set<(T, T)>, s: Search<T>)
    requires Linked(net, s)
  {
    forall g {:trigger HasWitness(net, R, s, g)} :: g in s.pos ==> HasWitness(net, R, s, g)
  }

  /** The block is the class of all nodes that share a cycle with any one of its members. */
  ghost predicate IsComponent<T(!new)>(R: set<(T, T)>, block: seq<T>)
  {
    && block != []
    && (forall x, y :: x in block ==> (y in block <==> (x, y) in R && (y, x) in R))
  }

  /** An edge never leads from a block to a later one. */
  ghost predicate EdgesPointBack<T(!new)>(net: Net<T>, sccs: seq<seq<T>>)
  {
    forall i, u, v :: 0 <= i < |sccs| && u in sccs[i] && u in net && v in net[u]
      ==> exists j :: 0 <= j <= i && v in sccs[j]
  }

  ghost predicate Disjoint<T(!new)>(sccs: seq<seq<T>>)
  {
    forall i, j, x :: 0 <= i < j < |sccs| && x in sccs[i] ==> x !in sccs[j]
  }

  ghost predicate Covers<T(!new)>(sccs: seq<seq<T>>, nodes: set<T>)
  {
    forall x :: x in nodes <==> exists i :: 0 <= i < |sccs| && x in sccs[i]
  }

  ghost predicate Emitted<T(!new)>(net: Net<T>, R: set<(T, T)>, s: Search<T>)
  {
    && (forall i :: 0 <= i < |s.sccs| ==> IsComponent(R, s.sccs[i]))
    && Covers(s.sccs, Done(s)) && Disjoint(s.sccs) && EdgesPointBack(net, s.sccs)
  }

  ghost predicate Inv<T(!new)>(net: Net<T>, R: set<(T, T)>, s: Search<T>)
  {
    && IsNet(net) && Linked(net, s) && Ordered(net, s) && ActiveReaches(net, R, s) && Anchored(net, R, s)
    && Scanned(net, s) && LowBounds(net, s) && LowsWitnessed(net, R, s) && Emitted(net, R, s)
  }

  // ---------- The steps ----------

  function Min(a: nat, b: nat): nat
  {
    if a < b then a else b
  }

  /** The innermost active node moves on to its next neighbour. */
  ghost function Bump<T>(s: Search<T>): map<T, nat>
    requires s.path != [] ==> s.path[|s.path| - 1] in s.pos
  {
    if s.path == [] then s.pos
    else var g := s.path[|s.path| - 1]; s.pos[g := s.pos[g] + 1]
  }

  /** Enter w: number it, push it and call into it. */
  ghost function Enter<T>(s: Search<T>, w: T): Search<T>
    requires s.path != [] ==> s.path[|s.path| - 1] in s.pos
  {
    Search(s.stack + [w], s.onStack + {w}, s.index[w := s.counter], s.lowlink[w := s.counter], s.counter + 1,
           s.sccs, s.path + [w], Bump(s)[w := 0])
  }

  /** The next neighbour w is already numbered. */
  ghost function Advance<T>(s: Search<T>, w: T): Search<T>
    requires s.path != [] && w in s.index
    requires s.path[|s.path| - 1] in s.pos && s.path[|s.path| - 1] in s.lowlink
  {
    var g := s.path[|s.path| - 1];
    s.(pos := Bump(s),
       lowlink := if w in s.onStack then s.lowlink[g := Min(s.lowlink[g], s.index[w])] else s.lowlink)
  }

  /** Leave the innermost call and fold its lowlink into its caller's. */
  ghost function Leave<T>(s: Search<T>): Search<T>
    requires s.path != [] && forall i :: 0 <= i < |s.path| ==> s.path[i] in s.lowlink
  {
    var top := |s.path| - 1;
    var g := s.path[top];
    s.(path := s.path[..top],
       pos := s.pos - {g},
       lowlink := if top == 0 then s.lowlink
                  else s.lowlink[s.path[top - 1] := Min(s.lowlink[s.path[top - 1]], s.lowlink[g])])
  }

  /** Take everything from stack position k upwards off the stack, as the new block, and leave. */
  ghost function Collapse<T(!new)>(s: Search<T>, k: nat, block: seq<T>): Search<T>
    requires s.path != [] && k <= |s.stack| && forall i :: 0 <= i < |s.path| ==> s.path[i] in s.lowlink
  {
    Leave(s).(stack := s.stack[..k], onStack := s.onStack - Elements(s.stack[k..]), sccs := s.sccs + [block])
  }

  /** The next neighbour of the innermost call is w. */
  ghost predicate AtNeighbor<T>(net: Net<T>, s: Search<T>, w: T)
  {
    && s.path != []
    && var g := s.path[|s.path| - 1];
       g in net && g in s.pos && s.pos[g] < |net[g]| && w == net[g][s.pos[g]]
  }

  // ---------- Entering a node ----------

  ghost predicate MayEnter<T(!new)>(net: Net<T>, s: Search<T>, w: T)
  {
    && w in net && w !in s.index
    && if s.path == [] then s.onStack == {} else AtNeighbor(net, s, w)
  }

  lemma EnterLinked<T(!new)>(net: Net<T>, s: Search<T>, w: T)
    requires Linked(net, s) && MayEnter(net, s, w)
    ensures Linked(net, Enter(s, w))
    ensures Done(Enter(s, w)) == Done(s)
  {
  }

  lemma AscendingPush<T(!new)>(index: map<T, nat>, q: seq<T>, w: T, counter: nat)
    requires Ascending(index, q) && w !in index
    requires forall x :: x in index ==> index[x] < counter
    ensures Ascending(index[w := counter], q + [w])
  {
  }

  lemma ElementsPush<T(!new)>(q: seq<T>, w: T)
    ensures Elements(q + [w]) == Elements(q) + {w}
  {
  }

  lemma EnterBounded<T(!new)>(net: Net<T>, s: Search<T>, w: T)
    requires Linked(net, s) && MayEnter(net, s, w)
    requires forall x :: x in s.index ==> s.index[x] < s.counter
    requires forall x :: x in s.pos ==> s.pos[x] <= |net[x]|
    ensures forall x :: x in Enter(s, w).index ==> Enter(s, w).index[x] < s.counter + 1
    ensures forall x :: x in Enter(s, w).pos ==> x in net && Enter(s, w).pos[x] <= |net[x]|
  {
  }

  lemma EnterOrdered<T(!new)>(net: Net<T>, s: Search<T>, w: T)
    requires Linked(net, s) && Ordered(net, s) && MayEnter(net, s, w)
    requires Linked(net, Enter(s, w))
    ensures Ordered(net, Enter(s, w))
  {
    hide Elements, Ascending;
    ElementsPush(s.stack, w);
    ElementsPush(s.path, w);
    AscendingPush(s.index, s.stack, w, s.counter);
    AscendingPush(s.index, s.path, w, s.counter);
    EnterBounded(net, s, w);
    var t := Enter(s, w);
    assert t.pos.Keys == s.pos.Keys + {w};
    assert t.onStack == s.onStack + {w};
  }

  lemma EnterExamined<T(!new)>(net: Net<T>, s: Search<T>, w: T, x: T, y: T)
    requires Linked(net, s) && Ordered(net, s) && MayEnter(net, s, w)
    requires x in net && Examined(net, Enter(s, w), x, y)
    ensures x != w
    ensures Examined(net, s, x, y) || (y == w && s.path != [] && x == s.path[|s.path| - 1])
  {
    if s.path != [] && x == s.path[|s.path| - 1] {
      var n := s.pos[x];
      assert net[x][..n + 1] == net[x][..n] + [w];
    }
  }

  /** Every active node reaches the neighbour that the innermost call is about to enter. */
  lemma ActiveReachesNew<T(!new)>(net: Net<T>, R: set<(T, T)>, s: Search<T>, w: T, g: T)
    requires Linked(net, s) && Ordered(net, s) && MayEnter(net, s, w)
    requires IsClosure(net, R) && ActiveReaches(net, R, s) && g in s.pos
    ensures (g, w) in R
  {
    var i :| 0 <= i < |s.path| && s.path[i] == g;
    var top := s.path[|s.path| - 1];
    assert s.index[g] <= s.index[top];
    assert Through(R, top) && (g, top) in R && (top, w) in R;
  }

  lemma EnterReaches<T(!new)>(net: Net<T>, R: set<(T, T)>, s: Search<T>, w: T)
    requires Linked(net, s) && Ordered(net, s) && MayEnter(net, s, w)
    requires IsClosure(net, R) && ActiveReaches(net, R, s)
    requires Linked(net, Enter(s, w))
    ensures ActiveReaches(net, R, Enter(s, w))
  {
    var t := Enter(s, w);
    forall g, y | g in t.pos && y in t.onStack && t.index[g] <= t.index[y] ensures (g, y) in R {
      if y == w && g != w {
        ActiveReachesNew(net, R, s, w, g);
      }
    }
  }

  lemma EnterAnchored<T(!new)>(net: Net<T>, R: set<(T, T)>, s: Search<T>, w: T)
    requires Linked(net, s) && Ordered(net, s) && MayEnter(net, s, w)
    requires (w, w) in R && Anchored(net, R, s)
    requires Linked(net, Enter(s, w))
    ensures Anchored(net, R, Enter(s, w))
  {
    var t := Enter(s, w);
    forall y | y in t.onStack ensures HasAnchor(net, R, t, y) {
      if y == w {
        assert Anchor(net, R, t, w, w);
      } else {
        assert HasAnchor(net, R, s, y);
        var g :| Anchor(net, R, s, y, g);
        assert Anchor(net, R, t, y, g);
      }
    }
  }

  lemma EnterWitnesses<T(!new)>(net: Net<T>, R: set<(T, T)>, s: Search<T>, w: T)
    requires Linked(net, s) && Ordered(net, s) && MayEnter(net, s, w)
    requires (w, w) in R && LowsWitnessed(net, R, s)
    requires Linked(net, Enter(s, w))
    ensures LowsWitnessed(net, R, Enter(s, w))
  {
    var t := Enter(s, w);
    forall g | g in t.pos ensures HasWitness(net, R, t, g) {
      if g == w {
        assert LowWitness(net, R, t, w, w);
      } else {
        assert HasWitness(net, R, s, g);
        var y :| LowWitness(net, R, s, g, y);
        assert LowWitness(net, R, t, g, y);
      }
    }
  }

  lemma EnterScanned<T(!new)>(net: Net<T>, s: Search<T>, w: T)
    requires Linked(net, s) && Ordered(net, s) && MayEnter(net, s, w) && Scanned(net, s)
    requires Linked(net, Enter(s, w))
    ensures Scanned(net, Enter(s, w))
  {
    var t := Enter(s, w);
    forall x, y | x in t.index && Examined(net, t, x, y) ensures y in t.index {
      EnterExamined(net, s, w, x, y);
    }
  }

  lemma EnterBound<T(!new)>(net: Net<T>, s: Search<T>, w: T, i: nat, x: T, y: T)
    requires Linked(net, s) && Ordered(net, s) && MayEnter(net, s, w) && LowBounds(net, s)
    requires forall i :: 0 <= i < |s.path| ==> s.lowlink[s.path[i]] <= s.index[s.path[i]]
    requires Linked(net, Enter(s, w))
    requires i < |s.path| + 1 && x in s.onStack + {w} && y in s.onStack + {w}
    requires InSegment(net, Enter(s, w), i, x) && Examined(net, Enter(s, w), x, y)
    ensures Enter(s, w).lowlink[Enter(s, w).path[i]] <= Enter(s, w).index[y]
  {
    EnterExamined(net, s, w, x, y);
    var t := Enter(s, w);
    assert i < |s.path| && t.path[i] == s.path[i];
    if y == w {
      assert t.index[y] == s.counter;
    } else {
      assert InSegment(net, s, i, x);
    }
  }

  lemma EnterBounds<T(!new)>(net: Net<T>, s: Search<T>, w: T)
    requires Linked(net, s) && Ordered(net, s) && MayEnter(net, s, w) && LowBounds(net, s)
    requires forall i :: 0 <= i < |s.path| ==> s.lowlink[s.path[i]] <= s.index[s.path[i]]
    requires Linked(net, Enter(s, w))
    ensures LowBounds(net, Enter(s, w))
  {
    var t := Enter(s, w);
    forall i, x, y | 0 <= i < |t.path| && x in t.onStack && y in t.onStack
                     && InSegment(net, t, i, x) && Examined(net, t, x, y)
      ensures t.lowlink[t.path[i]] <= t.index[y]
    {
      EnterBound(net, s, w, i, x, y);
    }
  }

  lemma EnterPreserves<T(!new)>(net: Net<T>, R: set<(T, T)>, s: Search<T>, w: T)
    requires IsClosure(net, R) && Inv(net, R, s) && MayEnter(net, s, w)
    ensures Inv(net, R, Enter(s, w))
  {
    EnterLinked(net, s, w);
    EnterOrdered(net, s, w);
    EnterReaches(net, R, s, w);
    EnterAnchored(net, R, s, w);
    EnterWitnesses(net, R, s, w);
    EnterScanned(net, s, w);
    forall i | 0 <= i < |s.path| ensures s.lowlink[s.path[i]] <= s.index[s.path[i]] {
      assert HasWitness(net, R, s, s.path[i]);
    }
    EnterBounds(net, s, w);
  }

  // ---------- Looking at a numbered neighbour ----------

  ghost predicate MayAdvance<T(!new)>(net: Net<T>, s: Search<T>, w: T)
  {
    AtNeighbor(net, s, w) && w in s.index
  }

  lemma AdvanceOrdered<T(!new)>(net: Net<T>, s: Search<T>, w: T)
    requires Linked(net, s) && Ordered(net, s) && MayAdvance(net, s, w)
    ensures Linked(net, Advance(s, w)) && Ordered(net, Advance(s, w))
  {
    var t := Advance(s, w);
    assert t.pos.Keys == s.pos.Keys;
    assert t.lowlink.Keys == s.lowlink.Keys;
  }

  lemma AdvanceExamined<T(!new)>(net: Net<T>, s: Search<T>, w: T, x: T, y: T)
    requires Linked(net, s) && Ordered(net, s) && MayAdvance(net, s, w)
    requires x in net && Examined(net, Advance(s, w), x, y)
    ensures Examined(net, s, x, y) || (y == w && x == s.path[|s.path| - 1])
  {
    if x == s.path[|s.path| - 1] {
      var n := s.pos[x];
      assert net[x][..n + 1] == net[x][..n] + [w];
    }
  }

  lemma AdvanceAnchored<T(!new)>(net: Net<T>, R: set<(T, T)>, s: Search<T>, w: T)
    requires Linked(net, s) && MayAdvance(net, s, w) && Linked(net, Advance(s, w))
    requires Anchored(net, R, s)
    ensures Anchored(net, R, Advance(s, w))
  {
    var t := Advance(s, w);
    forall y | y in t.onStack ensures HasAnchor(net, R, t, y) {
      assert HasAnchor(net, R, s, y);
      var g :| Anchor(net, R, s, y, g);
      assert Anchor(net, R, t, y, g);
    }
  }

  lemma AdvanceWitnesses<T(!new)>(net: Net<T>, R: set<(T, T)>, s: Search<T>, w: T)
    requires Linked(net, s) && MayAdvance(net, s, w) && Linked(net, Advance(s, w))
    requires (s.path[|s.path| - 1], w) in R && LowsWitnessed(net, R, s)
    ensures LowsWitnessed(net, R, Advance(s, w))
  {
    var t := Advance(s, w);
    forall g | g in t.pos ensures HasWitness(net, R, t, g) {
      assert HasWitness(net, R, s, g);
      var y :| LowWitness(net, R, s, g, y);
      assert LowWitness(net, R, t, g, y) || LowWitness(net, R, t, g, w);
    }
  }

  lemma AdvanceScanned<T(!new)>(net: Net<T>, s: Search<T>, w: T)
    requires Linked(net, s) && Ordered(net, s) && MayAdvance(net, s, w) && Scanned(net, s)
    requires Linked(net, Advance(s, w))
    ensures Scanned(net, Advance(s, w))
  {
    var t := Advance(s, w);
    forall x, y | x in t.index && Examined(net, t, x, y) ensures y in t.index {
      AdvanceExamined(net, s, w, x, y);
    }
  }

  lemma AdvanceBound<T(!new)>(net: Net<T>, s: Search<T>, w: T, i: nat, x: T, y: T)
    requires Linked(net, s) && Ordered(net, s) && MayAdvance(net, s, w) && LowBounds(net, s)
    requires Linked(net, Advance(s, w))
    requires i < |s.path| && x in s.onStack && y in s.onStack
    requires InSegment(net, Advance(s, w), i, x) && Examined(net, Advance(s, w), x, y)
    ensures Advance(s, w).lowlink[s.path[i]] <= s.index[y]
  {
    AdvanceExamined(net, s, w, x, y);
    assert InSegment(net, s, i, x);
    if !Examined(net, s, x, y) {
      assert i == |s.path| - 1;
    }
  }

  lemma AdvanceBounds<T(!new)>(net: Net<T>, s: Search<T>, w: T)
    requires Linked(net, s) && Ordered(net, s) && MayAdvance(net, s, w) && LowBounds(net, s)
    requires Linked(net, Advance(s, w))
    ensures LowBounds(net, Advance(s, w))
  {
    var t := Advance(s, w);
    forall i, x, y | 0 <= i < |t.path| && x in t.onStack && y in t.onStack
                     && InSegment(net, t, i, x) && Examined(net, t, x, y)
      ensures t.lowlink[t.path[i]] <= t.index[y]
    {
      AdvanceBound(net, s, w, i, x, y);
    }
  }

  lemma SameOutput<T(!new)>(net: Net<T>, R: set<(T, T)>, s: Search<T>, t: Search<T>)
    requires Emitted(net, R, s) && t.sccs == s.sccs && Done(t) == Done(s)
    ensures Emitted(net, R, t)
  {
  }

  lemma AdvanceReaches<T(!new)>(net: Net<T>, R: set<(T, T)>, s: Search<T>, w: T)
    requires Linked(net, s) && MayAdvance(net, s, w) && Linked(net, Advance(s, w)) && ActiveReaches(net, R, s)
    ensures ActiveReaches(net, R, Advance(s, w))
  {
  }

  lemma AdvancePreserves<T(!new)>(net: Net<T>, R: set<(T, T)>, s: Search<T>, w: T)
    requires IsClosure(net, R) && Inv(net, R, s) && MayAdvance(net, s, w)
    ensures Inv(net, R, Advance(s, w))
  {
    AdvanceOrdered(net, s, w);
    AdvanceReaches(net, R, s, w);
    SameOutput(net, R, s, Advance(s, w));
    AdvanceAnchored(net, R, s, w);
    AdvanceWitnesses(net, R, s, w);
    AdvanceScanned(net, s, w);
    AdvanceBounds(net, s, w);
  }

  // ---------- Leaving a node ----------

  /** All neighbours of the innermost active node have been examined. */
  ghost predicate AtEnd<T>(net: Net<T>, s: Search<T>)
  {
    && s.path != []
    && var g := s.path[|s.path| - 1];
       g in net && g in s.pos && s.pos[g] == |net[g]|
  }

  ghost function Top<T>(s: Search<T>): T
    requires s.path != []
  {
    s.path[|s.path| - 1]
  }

  lemma ElementsPop<T(!new)>(index: map<T, nat>, q: seq<T>)
    requires Ascending(index, q) && q != []
    ensures Elements(q[..|q| - 1]) == Elements(q) - {q[|q| - 1]}
    ensures Ascending(index, q[..|q| - 1])
  {
    assert q == q[..|q| - 1] + [q[|q| - 1]];
  }

  lemma LeaveOrdered<T(!new)>(net: Net<T>, s: Search<T>)
    requires Linked(net, s) && Ordered(net, s) && AtEnd(net, s)
    ensures Linked(net, Leave(s)) && Ordered(net, Leave(s))
  {
    var t := Leave(s);
    ElementsPop(s.index, s.path);
    assert t.pos.Keys == s.pos.Keys - {Top(s)};
    assert t.lowlink.Keys == s.lowlink.Keys;
  }

  /** A node that is not the root of its component has an active node below it. */
  lemma LowerActive<T(!new)>(net: Net<T>, R: set<(T, T)>, s: Search<T>) returns (g: T)
    requires Linked(net, s) && Ordered(net, s) && AtEnd(net, s) && s.lowlink[Top(s)] < s.index[Top(s)]
    requires IsClosure(net, R) && Anchored(net, R, s) && LowsWitnessed(net, R, s)
    ensures g in s.pos && s.index[g] <= s.lowlink[Top(s)] && (Top(s), g) in R
    ensures |s.path| >= 2
  {
    var u := Top(s);
    assert HasWitness(net, R, s, u);
    var y :| LowWitness(net, R, s, u, y);
    assert Through(R, y) && HasAnchor(net, R, s, y);
    g :| Anchor(net, R, s, y, g);
    assert (u, y) in R && (y, g) in R;
    assert g in s.path;
  }

  lemma LeaveAnchored<T(!new)>(net: Net<T>, R: set<(T, T)>, s: Search<T>)
    requires Linked(net, s) && Ordered(net, s) && AtEnd(net, s) && s.lowlink[Top(s)] < s.index[Top(s)]
    requires IsClosure(net, R) && Anchored(net, R, s) && LowsWitnessed(net, R, s)
    requires Linked(net, Leave(s))
    ensures Anchored(net, R, Leave(s))
  {
    var t, u := Leave(s), Top(s);
    var h := LowerActive(net, R, s);
    forall y | y in t.onStack ensures HasAnchor(net, R, t, y) {
      assert HasAnchor(net, R, s, y);
      var g :| Anchor(net, R, s, y, g);
      if g == u {
        assert Through(R, u);
        assert (y, u) in R && (u, h) in R;
        assert Anchor(net, R, t, y, h);
      } else {
        assert Anchor(net, R, t, y, g);
      }
    }
  }

  lemma LeaveWitnesses<T(!new)>(net: Net<T>, R: set<(T, T)>, s: Search<T>)
    requires Linked(net, s) && Ordered(net, s) && AtEnd(net, s) && |s.path| >= 2
    requires IsClosure(net, R) && ActiveReaches(net, R, s) && LowsWitnessed(net, R, s)
    requires Linked(net, Leave(s))
    ensures LowsWitnessed(net, R, Leave(s))
  {
    var t, u, p := Leave(s), Top(s), s.path[|s.path| - 2];
    forall g | g in t.pos ensures HasWitness(net, R, t, g) {
      assert HasWitness(net, R, s, g);
      var y :| LowWitness(net, R, s, g, y);
      if g == p && t.lowlink[p] != s.lowlink[p] {
        assert HasWitness(net, R, s, u) && Through(R, u);
        var z :| LowWitness(net, R, s, u, z);
        assert s.index[p] < s.index[u];
        assert (p, u) in R && (u, z) in R;
        assert LowWitness(net, R, t, g, z);
      } else {
        assert LowWitness(net, R, t, g, y);
      }
    }
  }

  lemma LeaveExamined<T(!new)>(net: Net<T>, s: Search<T>, x: T, y: T)
    requires Linked(net, s) && AtEnd(net, s) && x in net && Examined(net, Leave(s), x, y)
    ensures Examined(net, s, x, y)
  {
    if x == Top(s) {
      assert net[x][..|net[x]|] == net[x];
    }
  }

  lemma LeaveBound<T(!new)>(net: Net<T>, s: Search<T>, i: nat, x: T, y: T)
    requires Linked(net, s) && AtEnd(net, s) && LowBounds(net, s)
    requires Linked(net, Leave(s))
    requires i < |s.path| - 1 && x in s.onStack && y in s.onStack
    requires InSegment(net, Leave(s), i, x) && Examined(net, Leave(s), x, y)
    ensures Leave(s).lowlink[s.path[i]] <= s.index[y]
  {
    LeaveExamined(net, s, x, y);
    assert Leave(s).path[i] == s.path[i];
    if !InSegment(net, s, i, x) {
      assert InSegment(net, s, i + 1, x);
    }
  }

  lemma LeaveScanned<T(!new)>(net: Net<T>, s: Search<T>)
    requires Linked(net, s) && AtEnd(net, s) && Scanned(net, s) && Linked(net, Leave(s))
    ensures Scanned(net, Leave(s))
  {
    forall x, y | x in s.index && Examined(net, Leave(s), x, y) ensures y in s.index {
      LeaveExamined(net, s, x, y);
    }
  }

  lemma LeaveBounds<T(!new)>(net: Net<T>, s: Search<T>)
    requires Linked(net, s) && Ordered(net, s) && AtEnd(net, s) && LowBounds(net, s)
    requires Linked(net, Leave(s))
    ensures LowBounds(net, Leave(s))
  {
    var t := Leave(s);
    forall i, x, y | 0 <= i < |t.path| && x in t.onStack && y in t.onStack
                     && InSegment(net, t, i, x) && Examined(net, t, x, y)
      ensures t.lowlink[t.path[i]] <= t.index[y]
    {
      LeaveBound(net, s, i, x, y);
    }
  }

  lemma LeaveReaches<T(!new)>(net: Net<T>, R: set<(T, T)>, s: Search<T>)
    requires Linked(net, s) && AtEnd(net, s) && Linked(net, Leave(s)) && ActiveReaches(net, R, s)
    ensures ActiveReaches(net, R, Leave(s))
  {
  }

  lemma LeavePreserves<T(!new)>(net: Net<T>, R: set<(T, T)>, s: Search<T>)
    requires IsClosure(net, R) && Inv(net, R, s) && AtEnd(net, s) && s.lowlink[Top(s)] < s.index[Top(s)]
    ensures Inv(net, R, Leave(s))
  {
    LeaveOrdered(net, s);
    LeaveReaches(net, R, s);
    SameOutput(net, R, s, Leave(s));
    var g := LowerActive(net, R, s);
    LeaveAnchored(net, R, s);
    LeaveWitnesses(net, R, s);
    LeaveScanned(net, s);
    LeaveBounds(net, s);
  }

  // ---------- Emitting a component ----------

  /** The innermost active node is the root of a component that starts at stack position k. */
  ghost predicate AtRoot<T(!new)>(net: Net<T>, s: Search<T>, k: nat)
  {
    && AtEnd(net, s) && Top(s) in s.lowlink && Top(s) in s.index
    && s.lowlink[Top(s)] == s.index[Top(s)]
    && k < |s.stack| && s.stack[k] == Top(s)
  }

  lemma SplitStack<T(!new)>(index: map<T, nat>, q: seq<T>, k: nat)
    requires Ascending(index, q) && k < |q|
    ensures Elements(q[..k]) == Elements(q) - Elements(q[k..])
    ensures Ascending(index, q[..k])
    ensures forall x :: x in q ==> (x in q[k..] <==> index[x] >= index[q[k]])
  {
    assert q == q[..k] + q[k..];
    forall x | x in q ensures x in q[k..] <==> index[x] >= index[q[k]] {
      var i :| 0 <= i < |q| && q[i] == x;
      if i >= k { assert q[k..][i - k] == x; }
      if x in q[k..] {
        var j :| 0 <= j < |q[k..]| && q[k..][j] == x;
        assert q[k + j] == x;
      }
    }
  }

  lemma StackIsDistinct<T(!new)>(index: map<T, nat>, q: seq<T>, k: nat)
    requires Ascending(index, q) && k < |q|
    ensures q[k] !in q[k + 1..]
    ensures forall i, j :: 0 <= i < j < |q| ==> q[i] != q[j]
  {
  }

  /** The innermost active node has the highest number of those that are active. */
  lemma TopIsLast<T(!new)>(net: Net<T>, s: Search<T>, x: T)
    requires Linked(net, s) && Ordered(net, s) && s.path != [] && x in s.pos && x != Top(s)
    ensures s.index[x] < s.index[Top(s)]
  {
    var i :| 0 <= i < |s.path| && s.path[i] == x;
  }

  /** The nodes from position k upwards are the stack nodes numbered no earlier than the root,
      and the root is the only active one among them. */
  lemma TopSegment<T(!new)>(net: Net<T>, s: Search<T>, k: nat)
    requires Linked(net, s) && Ordered(net, s) && AtRoot(net, s, k)
    ensures forall x :: x in s.onStack ==> (x in s.stack[k..] <==> s.index[x] >= s.index[Top(s)])
    ensures forall x :: x in s.stack[k..] ==> x in s.onStack && (x in s.pos ==> x == Top(s))
    ensures forall x :: x in s.pos && x != Top(s) ==> s.index[x] < s.index[Top(s)]
  {
    hide Elements;
    SplitStack(s.index, s.stack, k);
    forall x | x in s.pos && x != Top(s) ensures s.index[x] < s.index[Top(s)] {
      TopIsLast(net, s, x);
    }
    forall x | x in s.stack[k..] ensures x in s.onStack {
      assert x in s.stack;
    }
  }

  lemma CollapseOrdered<T(!new)>(net: Net<T>, s: Search<T>, k: nat, block: seq<T>)
    requires Linked(net, s) && Ordered(net, s) && AtRoot(net, s, k)
    ensures Linked(net, Collapse(s, k, block)) && Ordered(net, Collapse(s, k, block))
    ensures Done(Collapse(s, k, block)) == Done(s) + Elements(s.stack[k..])
  {
    LeaveOrdered(net, s);
    TopSegment(net, s, k);
    SplitStack(s.index, s.stack, k);
  }

  lemma DoneClosed<T(!new)>(net: Net<T>, R: set<(T, T)>, s: Search<T>, x: T, y: T)
    requires Emitted(net, R, s) && x in Done(s) && x in net && y in net[x]
    ensures y in Done(s)
  {
    var i :| 0 <= i < |s.sccs| && x in s.sccs[i];
    var j :| 0 <= j <= i && y in s.sccs[j];
  }

  /** No edge leads from the new block to anything but itself and the emitted nodes. */
  lemma BlockClosed<T(!new)>(net: Net<T>, s: Search<T>, k: nat, x: T, y: T)
    requires Linked(net, s) && Ordered(net, s) && AtRoot(net, s, k) && Scanned(net, s) && LowBounds(net, s)
    requires x in s.stack[k..] && x in net && y in net[x]
    ensures y in s.stack[k..] || y in Done(s)
  {
    TopSegment(net, s, k);
    assert Examined(net, s, x, y) by {
      if x == Top(s) { assert net[x][..|net[x]|] == net[x]; }
    }
    assert InSegment(net, s, |s.path| - 1, x);
  }

  /** R is the reachability relation of the net. */
  ghost predicate IsReach<T(!new)>(net: Net<T>, R: set<(T, T)>)
  {
    && IsClosure(net, R)
    && (forall x, y :: (x, y) in R ==> x in net && y in net)
    && (forall S, x, y {:trigger Confines(net, R, S, x, y)} :: Confines(net, R, S, x, y))
  }

  lemma ReachIsClosure<T(!new)>(net: Net<T>, R: set<(T, T)>)
    requires IsReach(net, R)
    ensures IsClosure(net, R)
  {
    hide IsClosure;
  }

  lemma InvOrder<T(!new)>(net: Net<T>, R: set<(T, T)>, s: Search<T>)
    requires Inv(net, R, s)
    ensures IsNet(net) && Linked(net, s) && Ordered(net, s) && Anchored(net, R, s)
    ensures Scanned(net, s) && LowBounds(net, s) && Emitted(net, R, s)
  {
    hide Linked, Ordered, ActiveReaches, Anchored, Scanned, LowBounds, LowsWitnessed, Emitted, IsNet;
  }

  /** Between two calls from outside nothing is on the stack. */
  lemma NothingActive<T(!new)>(net: Net<T>, R: set<(T, T)>, s: Search<T>)
    requires Linked(net, s) && Ordered(net, s) && Anchored(net, R, s) && s.path == []
    ensures s.pos == map[] && s.onStack == {}
  {
    assert s.pos.Keys == {};
    assert forall y :: y in s.onStack ==> HasAnchor(net, R, s, y);
    assert forall y :: y in s.onStack ==> exists g :: g in s.pos;
  }

  lemma PathIsSound<T(!new)>(net: Net<T>, s: Search<T>)
    requires Linked(net, s) && Ordered(net, s)
    ensures s.index.Keys <= net.Keys && s.lowlink.Keys == s.index.Keys
    ensures forall i, j :: 0 <= i < j < |s.path| ==> s.path[i] != s.path[j]
    ensures forall i :: 0 <= i < |s.path| ==>
      s.path[i] in s.pos && s.path[i] in s.index && s.path[i] in net && s.pos[s.path[i]] <= |net[s.path[i]]|
  {
  }

  lemma RootOnStack<T(!new)>(net: Net<T>, s: Search<T>) returns (k: nat)
    requires Linked(net, s) && Ordered(net, s) && AtEnd(net, s)
    requires Top(s) in s.index && Top(s) in s.lowlink && s.lowlink[Top(s)] == s.index[Top(s)]
    ensures AtRoot(net, s, k) && (forall x :: x in s.onStack <==> x in s.stack)
    ensures s.stack[k] !in s.stack[k + 1..] && forall i, j :: 0 <= i < j < |s.stack| ==> s.stack[i] != s.stack[j]
  {
    assert Top(s) in s.path;
    assert Top(s) in s.stack;
    k :| 0 <= k < |s.stack| && s.stack[k] == Top(s);
    StackIsDistinct(s.index, s.stack, k);
  }

  /** A closed set that contains x contains everything x reaches. */
  ghost predicate Confines<T(!new)>(net: Net<T>, R: set<(T, T)>, S: set<T>, x: T, y: T)
  {
    (forall u, v :: u in S && u in net && v in net[u] ==> v in S) && x in S && (x, y) in R ==> y in S
  }

  lemma BlockConfines<T(!new)>(net: Net<T>, R: set<(T, T)>, s: Search<T>, k: nat, x: T, y: T)
    requires Inv(net, R, s) && AtRoot(net, s, k) && IsReach(net, R)
    requires x in s.stack[k..] && (x, y) in R
    ensures y in s.stack[k..] || y in Done(s)
  {
    var S := Elements(s.stack[k..]) + Done(s);
    forall u, v | u in S && u in net && v in net[u] ensures v in S {
      if u in Done(s) { DoneClosed(net, R, s, u, v); } else { BlockClosed(net, s, k, u, v); }
    }
    assert Confines(net, R, S, x, y);
  }

  lemma DoneConfines<T(!new)>(net: Net<T>, R: set<(T, T)>, s: Search<T>, x: T, y: T)
    requires Emitted(net, R, s) && IsReach(net, R) && x in Done(s) && (x, y) in R
    ensures y in Done(s)
  {
    forall u, v | u in Done(s) && u in net && v in net[u] ensures v in Done(s) {
      DoneClosed(net, R, s, u, v);
    }
    assert Confines(net, R, Done(s), x, y);
  }

  /** Every node of the new block shares a cycle with the root. */
  lemma BlockReachesRoot<T(!new)>(net: Net<T>, R: set<(T, T)>, s: Search<T>, k: nat, x: T)
    requires Inv(net, R, s) && AtRoot(net, s, k) && IsReach(net, R)
    requires x in s.stack[k..]
    ensures (x, Top(s)) in R && (Top(s), x) in R
  {
    TopSegment(net, s, k);
    assert HasAnchor(net, R, s, x);
    var g :| Anchor(net, R, s, x, g);
    BlockConfines(net, R, s, k, x, g);
  }

  lemma BlockIsComponent<T(!new)>(net: Net<T>, R: set<(T, T)>, s: Search<T>, k: nat, block: seq<T>)
    requires Inv(net, R, s) && AtRoot(net, s, k) && IsReach(net, R)
    requires Elements(block) == Elements(s.stack[k..])
    ensures IsComponent(R, block)
  {
    var u := Top(s);
    assert u in s.stack[k..] by { assert s.stack[k..][0] == u; }
    assert u in Elements(block);
    forall x, y | x in block ensures y in block <==> (x, y) in R && (y, x) in R {
      assert x in Elements(block);
      BlockReachesRoot(net, R, s, k, x);
      if y in block {
        assert y in Elements(block);
        BlockReachesRoot(net, R, s, k, y);
        assert Through(R, u);
      }
      if (x, y) in R && (y, x) in R {
        BlockConfines(net, R, s, k, x, y);
        if y in Done(s) {
          DoneConfines(net, R, s, y, x);
        }
        assert y in Elements(block);
      }
    }
  }

  lemma CoversMore<T(!new)>(sccs: seq<seq<T>>, nodes: set<T>, block: seq<T>)
    requires Covers(sccs, nodes) && Disjoint(sccs)
    requires forall x :: x in block ==> x !in nodes
    ensures Covers(sccs + [block], nodes + Elements(block)) && Disjoint(sccs + [block])
  {
    var n := |sccs|;
    forall x | x in nodes + Elements(block) ensures exists i :: 0 <= i < n + 1 && x in (sccs + [block])[i] {
      if x in nodes {
        var i :| 0 <= i < n && x in sccs[i];
        assert x in (sccs + [block])[i];
      } else {
        assert x in (sccs + [block])[n];
      }
    }
    forall i, j, x | 0 <= i < j < n + 1 && x in (sccs + [block])[i] ensures x !in (sccs + [block])[j] {
      assert x in sccs[i] && x in nodes;
    }
  }

  lemma CollapsePointsBack<T(!new)>(net: Net<T>, R: set<(T, T)>, s: Search<T>, k: nat, block: seq<T>)
    requires Linked(net, s) && Ordered(net, s) && AtRoot(net, s, k) && Scanned(net, s) && LowBounds(net, s)
    requires Emitted(net, R, s) && Elements(block) == Elements(s.stack[k..])
    ensures EdgesPointBack(net, s.sccs + [block])
  {
    var n, sccs := |s.sccs|, s.sccs + [block];
    assert forall x :: x in block <==> x in Elements(block);
    forall i, u, v | 0 <= i < |sccs| && u in sccs[i] && u in net && v in net[u]
      ensures exists j :: 0 <= j <= i && v in sccs[j]
    {
      if i < n {
        var j :| 0 <= j <= i && v in s.sccs[j];
        assert v in sccs[j];
      } else {
        BlockClosed(net, s, k, u, v);
        if v in Done(s) {
          var j :| 0 <= j < n && v in s.sccs[j];
          assert v in sccs[j];
        } else {
          assert v in Elements(block) && v in sccs[n];
        }
      }
    }
  }

  lemma CollapseEmitted<T(!new)>(net: Net<T>, R: set<(T, T)>, s: Search<T>, k: nat, block: seq<T>)
    requires Inv(net, R, s) && AtRoot(net, s, k) && IsReach(net, R)
    requires Elements(block) == Elements(s.stack[k..])
    ensures Emitted(net, R, Collapse(s, k, block))
  {
    hide Inv, Anchored, Scanned, LowBounds, IsReach, IsComponent, EdgesPointBack, Covers, Disjoint, IsNet, Ordered;
    InvOrder(net, R, s);
    CollapseOrdered(net, s, k, block);
    TopSegment(net, s, k);
    BlockIsComponent(net, R, s, k, block);
    CollapsePointsBack(net, R, s, k, block);
    assert forall x :: x in block ==> x in Elements(block);
    CoversMore(s.sccs, Done(s), block);
  }

  lemma CollapseAnchored<T(!new)>(net: Net<T>, R: set<(T, T)>, s: Search<T>, k: nat, block: seq<T>)
    requires Linked(net, s) && Ordered(net, s) && AtRoot(net, s, k) && Anchored(net, R, s)
    requires Linked(net, Collapse(s, k, block))
    ensures Anchored(net, R, Collapse(s, k, block))
  {
    var t := Collapse(s, k, block);
    TopSegment(net, s, k);
    forall y | y in t.onStack ensures HasAnchor(net, R, t, y) {
      assert HasAnchor(net, R, s, y);
      var g :| Anchor(net, R, s, y, g);
      assert Anchor(net, R, t, y, g);
    }
  }

  lemma CollapseWitnesses<T(!new)>(net: Net<T>, R: set<(T, T)>, s: Search<T>, k: nat, block: seq<T>)
    requires Linked(net, s) && Ordered(net, s) && AtRoot(net, s, k) && LowsWitnessed(net, R, s)
    requires Linked(net, Collapse(s, k, block))
    ensures LowsWitnessed(net, R, Collapse(s, k, block))
  {
    var t := Collapse(s, k, block);
    TopSegment(net, s, k);
    forall g | g in t.pos ensures HasWitness(net, R, t, g) {
      assert HasWitness(net, R, s, g);
      var y :| LowWitness(net, R, s, g, y);
      assert LowWitness(net, R, t, g, y);
    }
  }

  lemma CollapseScanned<T(!new)>(net: Net<T>, s: Search<T>, k: nat, block: seq<T>)
    requires Linked(net, s) && AtRoot(net, s, k) && Scanned(net, s) && Linked(net, Collapse(s, k, block))
    ensures Scanned(net, Collapse(s, k, block))
  {
    var t := Collapse(s, k, block);
    forall x, y | x in t.index && Examined(net, t, x, y) ensures y in t.index {
      LeaveExamined(net, s, x, y);
    }
  }

  lemma CollapseBounds<T(!new)>(net: Net<T>, s: Search<T>, k: nat, block: seq<T>)
    requires Linked(net, s) && Ordered(net, s) && AtRoot(net, s, k) && LowBounds(net, s)
    requires Linked(net, Leave(s)) && Linked(net, Collapse(s, k, block))
    ensures LowBounds(net, Collapse(s, k, block))
  {
    var t := Collapse(s, k, block);
    forall i, x, y | 0 <= i < |t.path| && x in t.onStack && y in t.onStack
                     && InSegment(net, t, i, x) && Examined(net, t, x, y)
      ensures t.lowlink[t.path[i]] <= t.index[y]
    {
      assert InSegment(net, Leave(s), i, x) && Examined(net, Leave(s), x, y);
      LeaveBound(net, s, i, x, y);
    }
  }

  lemma CollapseReaches<T(!new)>(net: Net<T>, R: set<(T, T)>, s: Search<T>, k: nat, block: seq<T>)
    requires Linked(net, s) && AtRoot(net, s, k) && ActiveReaches(net, R, s) && Linked(net, Collapse(s, k, block))
    ensures ActiveReaches(net, R, Collapse(s, k, block))
  {
  }

  lemma CollapsePreserves<T(!new)>(net: Net<T>, R: set<(T, T)>, s: Search<T>, k: nat, block: seq<T>)
    requires IsReach(net, R) && Inv(net, R, s) && AtRoot(net, s, k)
    requires Elements(block) == Elements(s.stack[k..])
    ensures Inv(net, R, Collapse(s, k, block))
  {
    LeaveOrdered(net, s);
    CollapseOrdered(net, s, k, block);
    CollapseReaches(net, R, s, k, block);
    CollapseAnchored(net, R, s, k, block);
    CollapseWitnesses(net, R, s, k, block);
    CollapseScanned(net, s, k, block);
    CollapseBounds(net, s, k, block);
    CollapseEmitted(net, R, s, k, block);
  }

  // ---------- The reachability relation ----------

  ghost function ReachSet<T(!new)>(net: Net<T>): set<(T, T)>
  {
    set x, y | x in net && y in net && Reach(EdgesOf(net), x, y) :: (x, y)
  }

  lemma ReachSetIsReach<T(!new)>(net: Net<T>)
    requires IsNet(net)
    ensures IsReach(net, ReachSet(net))
  {
    var R, E := ReachSet(net), EdgesOf(net);
    forall x | x in net ensures (x, x) in R {
      ReachSelf(E, x);
    }
    forall x, y | x in net && y in net[x] ensures (x, y) in R {
      ReachEdge(E, x, y);
    }
    forall y ensures Through(R, y) {
      forall x, z | (x, y) in R && (y, z) in R ensures (x, z) in R {
        ReachTrans(E, x, y, z);
      }
    }
    forall S, x, y ensures Confines(net, R, S, x, y) {
      if (forall u, v :: u in S && u in net && v in net[u] ==> v in S) && x in S && (x, y) in R {
        ClosedContains(E, {x}, y, S);
      }
    }
  }

  lemma InitialInv<T(!new)>(net: Net<T>, R: set<(T, T)>)
    requires IsNet(net)
    ensures Inv(net, R, Search([], {}, map[], map[], 0, [], [], map[]))
  {
  }
}
