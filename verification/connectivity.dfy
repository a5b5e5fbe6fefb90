/**
 * `is_strongly_connected` of util_functions.py.
 *
 * Vertices with no edge at all (no successor and no predecessor) are
 * dropped. From one remaining anchor vertex the check runs `dfs` on the
 * graph and on its transpose, and answers whether both searches visit
 * exactly the remaining vertices.
 */
module Connectivity {
  import opened Graphs
  import opened Traversal
  import opened Transposition

  /** `v` is a key with at least one edge leaving or entering it. */
  ghost predicate Touched(g: Graph, v: int)
  {
    v in g.adj && (g.adj[v] != [] || HasInEdge(g, v))
  }

  /** Every vertex with an edge reaches every vertex with an edge. */
  ghost predicate StronglyConnected(g: Graph)
  {
    forall u, v :: Touched(g, u) && Touched(g, v) ==> Reachable(g, u, v)
  }

  /** `isolated_vertices`: keys whose own list and whose list in the transpose are both empty. */
  function IsolatedVertices(g: Graph): set<int>
    requires Valid(g)
  {
    var t := Transpose(g);
    set v | v in g.adj && g.adj[v] == [] && Entry(t.adj, v) == []
  }

  /** `vertices`: the keys that are not isolated. */
  function NonIsolatedVertices(g: Graph): set<int>
    requires Valid(g)
  {
    g.adj.Keys - IsolatedVertices(g)
  }

  lemma EmptyTransposedListIffNoInEdge(g: Graph, v: int)
    requires Valid(g)
    ensures Entry(Transpose(g).adj, v) == [] <==> !HasInEdge(g, v)
  {
    var e := Entry(Transpose(g).adj, v);
    if HasInEdge(g, v) {
      var u :| u in g.adj && v in g.adj[u];
      TransposeCounts(g, u, v);
      assert Count(e, u) > 0;
    } else if e != [] {
      TransposeCounts(g, e[0], v);
    }
  }

  /**
   * A key is isolated exactly when its list is empty and no list names it;
   * the remaining keys are exactly those with an edge.
   */
  lemma IsolatedVerticesHaveNoEdges(g: Graph, v: int)
    requires Valid(g)
    ensures v in IsolatedVertices(g) <==> v in g.adj && g.adj[v] == [] && !HasInEdge(g, v)
    ensures v in NonIsolatedVertices(g) <==> Touched(g, v)
  {
    EmptyTransposedListIffNoInEdge(g, v);
  }

  /**
   * The check with the target that `dfs` is given: `is_strongly_connected` passes none,
   * so `dfs` runs with its default target `-1`.
   */
  function ConnectivityCheck(g: Graph, anchor: int, terminate: Option<int>): bool
    requires WellFormed(g) && anchor in NonIsolatedVertices(g)
  {
    var t := Transpose(g);
    var vertices := NonIsolatedVertices(g);
    TransposeWellFormed(g);
    var direct := Dfs(g, anchor, terminate).value;
    var reverse := Dfs(t, anchor, terminate).value;
    Elems(direct) == vertices && vertices == Elems(reverse)
  }

  /** `is_strongly_connected(graph)` as written: both searches use the default target -1. */
  function IsStronglyConnectedAsWritten(g: Graph, anchor: int): bool
    requires WellFormed(g) && anchor in NonIsolatedVertices(g)
  {
    ConnectivityCheck(g, anchor, Some(-1))
  }

  /** `is_strongly_connected(graph)` with searches that never stop early. */
  function IsStronglyConnected(g: Graph, anchor: int): bool
    requires WellFormed(g) && anchor in NonIsolatedVertices(g)
  {
    ConnectivityCheck(g, anchor, None)
  }

  /** The two ends of a walk between distinct vertices have an edge leaving and entering them. */
  lemma ReachableEnds(g: Graph, u: int, v: int)
    requires Reachable(g, u, v) && u != v
    ensures Touched(g, u) && Touched(g, v)
  {
    var p :| IsPath(g, p) && p[0] == u && p[|p| - 1] == v;
    assert |p| >= 2;
    assert p[1] in g.adj[p[0]];
    assert g.adj[u] != [];
    var n := |p| - 1;
    var w := p[n - 1];
    assert w in g.adj && v in g.adj[w];
  }

  /** Whatever the target, a positive answer means the graph is strongly connected. */
  lemma ConnectivityCheckSound(g: Graph, anchor: int, terminate: Option<int>)
    requires WellFormed(g) && anchor in NonIsolatedVertices(g)
    ensures ConnectivityCheck(g, anchor, terminate) ==> StronglyConnected(g)
  {
    if ConnectivityCheck(g, anchor, terminate) {
      var t := Transpose(g);
      TransposeWellFormed(g);
      var vertices := NonIsolatedVertices(g);
      var direct := Dfs(g, anchor, terminate).value;
      var reverse := Dfs(t, anchor, terminate).value;
      DfsVisitsOnlyReachable(g, anchor, terminate);
      DfsVisitsOnlyReachable(t, anchor, terminate);
      forall u, v | Touched(g, u) && Touched(g, v)
        ensures Reachable(g, u, v)
      {
        IsolatedVerticesHaveNoEdges(g, u);
        IsolatedVerticesHaveNoEdges(g, v);
        assert v in Elems(direct) && u in Elems(reverse);
        TransposeReversesReachability(g, anchor, u);
        ReachableTrans(g, u, anchor, v);
      }
      assert StronglyConnected(g);
    }
  }

  /** The check with searches that never stop early decides strong connectivity, from any anchor. */
  lemma IsStronglyConnectedCorrect(g: Graph, anchor: int)
    requires WellFormed(g) && anchor in NonIsolatedVertices(g)
    ensures IsStronglyConnected(g, anchor) <==> StronglyConnected(g)
  {
    ConnectivityCheckSound(g, anchor, None);
    if StronglyConnected(g) {
      var t := Transpose(g);
      TransposeWellFormed(g);
      var vertices := NonIsolatedVertices(g);
      var direct := Dfs(g, anchor, None).value;
      var reverse := Dfs(t, anchor, None).value;
      DfsWithoutTargetIsReachableSet(g, anchor);
      DfsWithoutTargetIsReachableSet(t, anchor);
      IsolatedVerticesHaveNoEdges(g, anchor);
      forall v
        ensures v in Elems(direct) <==> v in vertices
        ensures v in Elems(reverse) <==> v in vertices
      {
        IsolatedVerticesHaveNoEdges(g, v);
        TransposeReversesReachability(g, anchor, v);
        if v != anchor {
          if Reachable(g, anchor, v) {
            ReachableEnds(g, anchor, v);
          }
          if Reachable(g, v, anchor) {
            ReachableEnds(g, v, anchor);
          }
        } else {
          ReachableRefl(g, anchor);
        }
      }
      assert Elems(direct) == vertices && vertices == Elems(reverse);
    }
  }

  /**
   * The check as written never claims a graph strongly connected that is
   * not. It is exact when -1 is not a vertex, and when -1 is the anchor,
   * since the start of a search is never compared with the target.
   */
  lemma IsStronglyConnectedAsWrittenCorrect(g: Graph, anchor: int)
    requires WellFormed(g) && anchor in NonIsolatedVertices(g)
    ensures IsStronglyConnectedAsWritten(g, anchor) ==> StronglyConnected(g)
    ensures -1 !in g.adj || anchor == -1 ==> (IsStronglyConnectedAsWritten(g, anchor) <==> StronglyConnected(g))
  {
    ConnectivityCheckSound(g, anchor, Some(-1));
    TransposeWellFormed(g);
    if -1 !in g.adj {
      DfsIgnoresAbsentTarget(g, anchor, -1);
      DfsIgnoresAbsentTarget(Transpose(g), anchor, -1);
      IsStronglyConnectedCorrect(g, anchor);
    } else if anchor == -1 {
      DfsIgnoresTargetAtStart(g, -1);
      DfsIgnoresTargetAtStart(Transpose(g), -1);
      IsStronglyConnectedCorrect(g, anchor);
    }
  }

  /** A three-cycle through the vertex -1. */
  function CycleThroughMinusOne(): Graph
  {
    Graph([0, -1, 1], map[0 := [-1], -1 := [1], 1 := [0]])
  }

  lemma CycleThroughMinusOneFacts()
    ensures WellFormed(CycleThroughMinusOne())
    ensures CycleThroughMinusOne().adj.Keys == {0, -1, 1}
    ensures CycleThroughMinusOne().adj[0] == [-1]
    ensures CycleThroughMinusOne().adj[-1] == [1]
    ensures CycleThroughMinusOne().adj[1] == [0]
  {
    var g := CycleThroughMinusOne();
    assert Distinct(g.keys);
  }

  /** Searching from 0 for -1 on a graph whose list of 0 is `[-1]` stops after one step. */
  lemma StopsAtMinusOne(g: Graph)
    requires WellFormed(g) && 0 in g.adj && g.adj[0] == [-1]
    ensures Dfs(g, 0, Some(-1)) == Some([0, -1])
  {
    assert StackInGraph(g, [0]);
    assert FirstUnvisited(g.adj[0], [0]) == 0;
    assert Explore(g, Some(-1), [0], [0]) == [0] + [-1] == [0, -1];
    assert Dfs(g, 0, Some(-1)) == Some(Explore(g, Some(-1), [0], [0]));
  }

  /** The cycle 0 -> -1 -> 1 -> 0, on any graph that has exactly those keys and edges. */
  lemma ThreeCycleFacts(g: Graph)
    requires WellFormed(g) && g.adj.Keys == {0, -1, 1}
    requires g.adj[0] == [-1] && g.adj[-1] == [1] && g.adj[1] == [0]
    ensures 0 in NonIsolatedVertices(g) && 1 in NonIsolatedVertices(g)
    ensures StronglyConnected(g)
  {
    assert 0 in g.adj[1] && 1 in g.adj[-1];
    IsolatedVerticesHaveNoEdges(g, 0);
    IsolatedVerticesHaveNoEdges(g, 1);
    var p := [0, -1, 1, 0, -1, 1];
    assert IsPath(g, p);
    forall u, v | Touched(g, u) && Touched(g, v)
      ensures Reachable(g, u, v)
    {
      var i := if u == 0 then 0 else if u == -1 then 1 else 2;
      var j := if v == 0 then 3 else if v == -1 then 4 else 5;
      assert p[i] == u && p[j] == v;
      SubPath(g, p, i, j);
    }
  }

  /**
   * The forward search from 0 discovers -1 first and stops there, so the
   * check as written rejects a strongly connected graph; the corrected
   * check accepts it. From the anchor -1 the check as written accepts it
   * too, so the verdict depends on which vertex the set yields first.
   * Stated for any graph with exactly the lists of the cycle 0 -> -1 -> 1 -> 0.
   */
  lemma SentinelVerdicts(g: Graph)
    requires WellFormed(g) && g.adj.Keys == {0, -1, 1}
    requires g.adj[0] == [-1] && g.adj[-1] == [1] && g.adj[1] == [0]
    ensures 0 in NonIsolatedVertices(g) && StronglyConnected(g)
    ensures !IsStronglyConnectedAsWritten(g, 0)
    ensures IsStronglyConnected(g, 0)
    ensures -1 in NonIsolatedVertices(g) && IsStronglyConnectedAsWritten(g, -1)
  {
    ThreeCycleFacts(g);
    StopsAtMinusOne(g);
    assert 1 !in Elems([0, -1]);
    IsStronglyConnectedCorrect(g, 0);
    assert 1 in g.adj[-1];
    IsolatedVerticesHaveNoEdges(g, -1);
    IsStronglyConnectedAsWrittenCorrect(g, -1);
  }

  /** The counterexample as a dictionary: `{0: [-1], -1: [1], 1: [0]}`. */
  lemma SentinelCounterexample()
    ensures WellFormed(CycleThroughMinusOne())
    ensures 0 in NonIsolatedVertices(CycleThroughMinusOne())
    ensures StronglyConnected(CycleThroughMinusOne())
    ensures !IsStronglyConnectedAsWritten(CycleThroughMinusOne(), 0)
    ensures IsStronglyConnected(CycleThroughMinusOne(), 0)
    ensures -1 in NonIsolatedVertices(CycleThroughMinusOne()) && IsStronglyConnectedAsWritten(CycleThroughMinusOne(), -1)
  {
    CycleThroughMinusOneFacts();
    SentinelVerdicts(CycleThroughMinusOne());
  }

  /** A stretch of a walk is a walk. */
  lemma SubPath(g: Graph, p: seq<int>, i: int, j: int)
    requires IsPath(g, p) && 0 <= i <= j < |p|
    ensures Reachable(g, p[i], p[j])
  {
    var q := p[i..j + 1];
    assert forall k :: 0 <= k < |q| ==> q[k] == p[i + k];
    assert IsPath(g, q);
  }

  /** `graph` with one more key `x` that has no edges. */
  function WithIsolated(g: Graph, x: int): Graph
  {
    Graph(g.keys + [x], g.adj[x := []])
  }

  /** A vertex with no edges that the search never meets changes nothing it does. */
  lemma {:induction false} ExploreWithIsolated(g: Graph, x: int, terminate: Option<int>, stack: seq<int>, result: seq<int>)
    requires WellFormed(g) && x !in g.adj && WellFormed(WithIsolated(g, x)) && StackInGraph(g, stack)
    ensures StackInGraph(WithIsolated(g, x), stack)
    ensures Explore(WithIsolated(g, x), terminate, stack, result) == Explore(g, terminate, stack, result)
    decreases g.adj.Keys - Elems(result), |stack|
  {
    var h := WithIsolated(g, x);
    if stack != [] {
      var top := stack[|stack| - 1];
      assert top in stack && top != x && h.adj[top] == g.adj[top];
      var succ := g.adj[top];
      var k := FirstUnvisited(succ, result);
      if k < |succ| {
        var w := succ[k];
        if Some(w) != terminate {
          assert w in succ && w in g.adj - Elems(result) && w !in g.adj.Keys - Elems(result + [w]);
          ExploreWithIsolated(g, x, terminate, stack + [w], result + [w]);
        }
      } else {
        ExploreWithIsolated(g, x, terminate, stack[..|stack| - 1], result);
      }
    }
  }

  /** Transposing commutes with adding an isolated vertex at the end of the key order. */
  lemma TransposeWithIsolated(g: Graph, x: int)
    requires WellFormed(g) && x !in g.adj && Valid(WithIsolated(g, x))
    ensures x !in Transpose(g).adj
    ensures Transpose(WithIsolated(g, x)) == WithIsolated(Transpose(g), x)
  {
    var h, e := WithIsolated(g, x), Graph([], map[]);
    TransposeWellFormed(g);
    assert forall u :: u in g.keys ==> u in g.adj && u in h.adj && g.adj[u] == h.adj[u];
    TransposeFromAgree(g, h, g.keys, e);
    assert forall u :: u in [x] ==> u in h.adj;
    TransposeFromSplit(h, g.keys, [x], e);
    var t := TransposeFrom(g, g.keys, e);
    assert [x][1..] == [] && h.adj[x] == [];
    assert Entry(t.adj, x) == [];
  }

  /**
   * With any target, both searches of the check return the same lists after
   * an isolated vertex is added, and so does the set they are compared with.
   */
  lemma IsolatedVertexSearchesUnchanged(g: Graph, x: int, anchor: int, terminate: Option<int>)
    requires WellFormed(g) && x !in g.adj && WellFormed(WithIsolated(g, x))
    requires anchor in NonIsolatedVertices(g) && anchor in NonIsolatedVertices(WithIsolated(g, x))
    requires NonIsolatedVertices(WithIsolated(g, x)) == NonIsolatedVertices(g)
    ensures ConnectivityCheck(WithIsolated(g, x), anchor, terminate) == ConnectivityCheck(g, anchor, terminate)
  {
    var t := Transpose(g);
    TransposeWellFormed(g);
    DistinctAppend(g.keys, x);
    TransposeWithIsolated(g, x);
    assert WellFormed(WithIsolated(t, x)) by {
      DistinctAppend(t.keys, x);
    }
    ExploreWithIsolated(g, x, terminate, [anchor], [anchor]);
    ExploreWithIsolated(t, x, terminate, [anchor], [anchor]);
  }

  /** A new vertex without edges changes neither the vertex set nor the verdict. */
  lemma IsolatedVertexIrrelevant(g: Graph, x: int, anchor: int)
    requires WellFormed(g) && x !in g.adj && anchor in NonIsolatedVertices(g)
    ensures WellFormed(WithIsolated(g, x))
    ensures NonIsolatedVertices(WithIsolated(g, x)) == NonIsolatedVertices(g)
    ensures IsStronglyConnected(WithIsolated(g, x), anchor) == IsStronglyConnected(g, anchor)
    ensures forall terminate :: ConnectivityCheck(WithIsolated(g, x), anchor, terminate) == ConnectivityCheck(g, anchor, terminate)
  {
    var h := WithIsolated(g, x);
    DistinctAppend(g.keys, x);
    assert WellFormed(h);
    forall v
      ensures Touched(h, v) <==> Touched(g, v)
    {
      if HasInEdge(h, v) {
        var u :| u in h.adj && v in h.adj[u];
        assert u != x && v in g.adj[u];
      }
      if HasInEdge(g, v) {
        var u :| u in g.adj && v in g.adj[u];
        assert v in h.adj[u];
      }
      IsolatedVerticesHaveNoEdges(g, v);
      IsolatedVerticesHaveNoEdges(h, v);
    }
    forall v
      ensures v in NonIsolatedVertices(h) <==> v in NonIsolatedVertices(g)
    {
      IsolatedVerticesHaveNoEdges(g, v);
      IsolatedVerticesHaveNoEdges(h, v);
    }
    assert NonIsolatedVertices(h) == NonIsolatedVertices(g);
    forall terminate
      ensures ConnectivityCheck(h, anchor, terminate) == ConnectivityCheck(g, anchor, terminate)
    {
      IsolatedVertexSearchesUnchanged(g, x, anchor, terminate);
    }
  }

  lemma CycleWithIsolatedFacts()
    ensures WellFormed(CycleWithIsolated())
    ensures CycleWithIsolated().adj.Keys == {0, 1, 2, 3, 4}
    ensures CycleWithIsolated().adj[0] == [1] && CycleWithIsolated().adj[1] == [2]
    ensures CycleWithIsolated().adj[2] == [3] && CycleWithIsolated().adj[3] == [0]
    ensures CycleWithIsolated().adj[4] == []
  {
    var g := CycleWithIsolated();
    assert Distinct(g.keys);
    forall u, v | u in g.adj && v in g.adj[u]
      ensures v in g.adj
    {
      assert u in {0, 1, 2, 3, 4};
    }
  }

  /** A 4-cycle on 0..3 next to the edgeless vertex 4, on any graph with exactly those lists. */
  lemma CycleWithIsolatedConnected(g: Graph)
    requires WellFormed(g) && g.adj.Keys == {0, 1, 2, 3, 4}
    requires g.adj[0] == [1] && g.adj[1] == [2] && g.adj[2] == [3] && g.adj[3] == [0] && g.adj[4] == []
    ensures NonIsolatedVertices(g) == {0, 1, 2, 3}
    ensures StronglyConnected(g)
  {
    CycleWithIsolatedTouched(g);
    var p := [0, 1, 2, 3, 0, 1, 2, 3];
    assert IsPath(g, p);
    forall u, v | Touched(g, u) && Touched(g, v)
      ensures Reachable(g, u, v)
    {
      IsolatedVerticesHaveNoEdges(g, u);
      IsolatedVerticesHaveNoEdges(g, v);
      assert u in {0, 1, 2, 3} && v in {0, 1, 2, 3};
      assert p[u] == u && p[if u <= v then v else v + 4] == v;
      SubPath(g, p, u, if u <= v then v else v + 4);
    }
  }

  lemma CycleWithIsolatedTouched(g: Graph)
    requires WellFormed(g) && g.adj.Keys == {0, 1, 2, 3, 4}
    requires g.adj[0] == [1] && g.adj[1] == [2] && g.adj[2] == [3] && g.adj[3] == [0] && g.adj[4] == []
    ensures NonIsolatedVertices(g) == {0, 1, 2, 3}
  {
    forall v
      ensures v in NonIsolatedVertices(g) <==> v in {0, 1, 2, 3}
    {
      IsolatedVerticesHaveNoEdges(g, v);
      if v == 4 {
        forall u | u in g.adj
          ensures v !in g.adj[u]
        {
          assert u in {0, 1, 2, 3, 4};
        }
      }
    }
  }

  lemma CycleWithIsolatedVerdicts(g: Graph)
    requires WellFormed(g) && g.adj.Keys == {0, 1, 2, 3, 4}
    requires g.adj[0] == [1] && g.adj[1] == [2] && g.adj[2] == [3] && g.adj[3] == [0] && g.adj[4] == []
    ensures NonIsolatedVertices(g) == {0, 1, 2, 3}
    ensures forall a :: a in NonIsolatedVertices(g) ==> IsStronglyConnectedAsWritten(g, a)
  {
    CycleWithIsolatedConnected(g);
    forall a | a in NonIsolatedVertices(g)
      ensures IsStronglyConnectedAsWritten(g, a)
    {
      IsStronglyConnectedAsWrittenCorrect(g, a);
    }
  }

  /** The first `is_strongly_connected` doctest: true from every anchor the set could yield. */
  lemma StronglyConnectedDoctest()
    ensures WellFormed(CycleWithIsolated())
    ensures NonIsolatedVertices(CycleWithIsolated()) == {0, 1, 2, 3}
    ensures forall a :: a in NonIsolatedVertices(CycleWithIsolated()) ==> IsStronglyConnectedAsWritten(CycleWithIsolated(), a)
  {
    CycleWithIsolatedFacts();
    CycleWithIsolatedConnected(CycleWithIsolated());
    CycleWithIsolatedVerdicts(CycleWithIsolated());
  }

  /** Two disjoint 3-cycles: 0 -> 1 -> 2 -> 0 and 10 -> 11 -> 12 -> 10. */
  function TwoTriangles(): Graph
  {
    Graph([0, 1, 2, 10, 11, 12], map[0 := [1], 1 := [2], 2 := [0], 10 := [11], 11 := [12], 12 := [10]])
  }

  lemma TwoTrianglesFacts()
    ensures WellFormed(TwoTriangles())
    ensures TwoTriangles().adj.Keys == {0, 1, 2, 10, 11, 12}
    ensures TwoTriangles().adj[0] == [1] && TwoTriangles().adj[1] == [2] && TwoTriangles().adj[2] == [0]
    ensures TwoTriangles().adj[10] == [11]
  {
    var g := TwoTriangles();
    assert Distinct(g.keys);
    forall u, v | u in g.adj && v in g.adj[u]
      ensures v in g.adj
    {
      assert u in {0, 1, 2, 10, 11, 12};
    }
  }

  /** 0 never reaches 10: the first cycle is closed under successors. */
  lemma TwoTrianglesNotConnected(g: Graph)
    requires WellFormed(g) && 0 in g.adj && 10 in g.adj
    requires g.adj[0] == [1] && g.adj[1] == [2] && g.adj[2] == [0] && g.adj[10] != []
    ensures !StronglyConnected(g)
  {
    var s := [0, 1, 2];
    forall x, y | x in s && x in g.adj && y in g.adj[x]
      ensures y in s
    {
    }
    if Reachable(g, 0, 10) {
      ClosedContainsReachable(g, s, 0, 10);
    }
    assert Touched(g, 0) && Touched(g, 10);
  }

  lemma TwoTrianglesVerdicts(g: Graph)
    requires WellFormed(g) && 0 in g.adj && 10 in g.adj
    requires g.adj[0] == [1] && g.adj[1] == [2] && g.adj[2] == [0] && g.adj[10] != []
    ensures forall a :: a in NonIsolatedVertices(g) ==> !IsStronglyConnectedAsWritten(g, a)
  {
    TwoTrianglesNotConnected(g);
    forall a | a in NonIsolatedVertices(g)
      ensures !IsStronglyConnectedAsWritten(g, a)
    {
      IsStronglyConnectedAsWrittenCorrect(g, a);
    }
  }

  /** The second `is_strongly_connected` doctest: false from every anchor. */
  lemma NotStronglyConnectedDoctest()
    ensures WellFormed(TwoTriangles())
    ensures forall a :: a in NonIsolatedVertices(TwoTriangles()) ==> !IsStronglyConnectedAsWritten(TwoTriangles(), a)
  {
    TwoTrianglesFacts();
    TwoTrianglesVerdicts(TwoTriangles());
  }
}
