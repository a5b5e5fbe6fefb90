/**
 * The iterative depth-first search `dfs` of util_functions.py.
 *
 * The search keeps a stack and the visit order `result`. At each step it
 * looks at the top of the stack and takes the first successor, in list
 * order, that is not yet in `result`: that vertex is visited and pushed.
 * When the top has no unvisited successor it is popped. Discovering the
 * target vertex ends the search at once.
 */
module Traversal {
  import opened Graphs

  /**
   * Position of the first successor not yet visited, or `|succ|` when every
   * successor is visited (the `for ... else` scan over the top's list).
   */
  function FirstUnvisited(succ: seq<int>, visited: seq<int>): (k: nat)
    ensures k <= |succ|
    ensures forall j :: 0 <= j < k ==> succ[j] in visited
    ensures k < |succ| ==> succ[k] !in visited
  {
    if succ == [] then 0
    else if succ[0] !in visited then 0
    else 1 + FirstUnvisited(succ[1..], visited)
  }

  /** `s[i]` is a successor of a vertex visited before it. */
  ghost predicate DiscoveredAt(g: Graph, s: seq<int>, i: int)
    requires 0 <= i < |s|
  {
    exists j :: 0 <= j < i && s[j] in g.adj && s[i] in g.adj[s[j]]
  }

  /** Every visited vertex after the first is a successor of an earlier one. */
  ghost predicate DiscoveredFromEarlier(g: Graph, s: seq<int>)
  {
    forall i :: 0 < i < |s| ==> DiscoveredAt(g, s, i)
  }

  /** A visited vertex that is no longer on the stack has no unvisited successor. */
  ghost predicate PoppedAreFinished(g: Graph, stack: seq<int>, result: seq<int>)
  {
    forall x, y :: x in result && x !in stack && x in g.adj && y in g.adj[x] ==> y in result
  }

  /** What holds of the stack and the visit order at the head of every step. */
  ghost predicate SearchState(g: Graph, stack: seq<int>, result: seq<int>)
  {
    && |result| >= 1
    && Distinct(result)
    && Distinct(stack)
    && (forall x :: x in result ==> x in g.adj)
    && (forall x :: x in stack ==> x in result)
    && DiscoveredFromEarlier(g, result)
    && PoppedAreFinished(g, stack, result)
  }

  lemma DiscoveredAppend(g: Graph, s: seq<int>, j: int, w: int)
    requires DiscoveredFromEarlier(g, s)
    requires 0 <= j < |s| && s[j] in g.adj && w in g.adj[s[j]]
    ensures DiscoveredFromEarlier(g, s + [w])
  {
    var t := s + [w];
    forall i | 0 < i < |t|
      ensures DiscoveredAt(g, t, i)
    {
      if i == |s| {
        assert t[j] == s[j] && t[i] == w;
      } else {
        assert DiscoveredAt(g, s, i);
        var j' :| 0 <= j' < i && s[j'] in g.adj && s[i] in g.adj[s[j']];
        assert t[j'] == s[j'] && t[i] == s[i];
      }
    }
  }

  /** The stack only holds vertices of the graph: what each lookup `graph[stack[-1]]` needs. */
  ghost predicate StackInGraph(g: Graph, stack: seq<int>)
  {
    forall x :: x in stack ==> x in g.adj
  }

  lemma PushKeepsState(g: Graph, stack: seq<int>, result: seq<int>, w: int)
    requires WellFormed(g)
    requires stack != [] && stack[|stack| - 1] in g.adj
    requires w in g.adj[stack[|stack| - 1]] && w !in result
    ensures SearchState(g, stack, result) ==> SearchState(g, stack + [w], result + [w])
  {
    if SearchState(g, stack, result) {
      var top := stack[|stack| - 1];
      assert top in stack;
      var j :| 0 <= j < |result| && result[j] == top;
      DistinctAppend(result, w);
      DistinctAppend(stack, w);
      DiscoveredAppend(g, result, j, w);
      assert w in g.adj;
    }
  }

  lemma PopKeepsState(g: Graph, stack: seq<int>, result: seq<int>)
    requires WellFormed(g)
    requires stack != [] && stack[|stack| - 1] in g.adj
    requires forall y :: y in g.adj[stack[|stack| - 1]] ==> y in result
    ensures SearchState(g, stack, result) ==> SearchState(g, stack[..|stack| - 1], result)
  {
    var n := |stack| - 1;
    assert stack == stack[..n] + [stack[n]];
  }

  /**
   * The `while stack:` loop, one iteration per call. The result extends
   * `result`, and the target is never discovered before the last vertex.
   */
  function Explore(g: Graph, terminate: Option<int>, stack: seq<int>, result: seq<int>): (r: seq<int>)
    requires WellFormed(g) && StackInGraph(g, stack)
    ensures |result| <= |r| && r[..|result|] == result
    ensures forall i :: |result| <= i < |r| - 1 ==> Some(r[i]) != terminate
    decreases g.adj.Keys - Elems(result), |stack|
  {
    if stack == [] then
      result
    else
      var top := stack[|stack| - 1];
      assert top in stack;
      var succ := g.adj[top];
      var k := FirstUnvisited(succ, result);
      if k < |succ| then
        var w := succ[k];
        if Some(w) == terminate then
          result + [w]
        else
          assert w in g.adj - Elems(result) && w !in g.adj.Keys - Elems(result + [w]);
          var r := Explore(g, terminate, stack + [w], result + [w]);
          assert r[..|result|] == result by {
            assert r[..|result|] == r[..|result| + 1][..|result|];
          }
          assert r[|result|] == w;
          r
      else
        Explore(g, terminate, stack[..|stack| - 1], result)
  }

  /**
   * Started from a consistent search state, the loop visits each vertex at
   * most once and each newly visited vertex is a successor of an earlier one.
   */
  lemma {:induction false} ExploreVisitsOnce(g: Graph, terminate: Option<int>, stack: seq<int>, result: seq<int>)
    requires WellFormed(g) && SearchState(g, stack, result)
    ensures StackInGraph(g, stack)
    ensures var r := Explore(g, terminate, stack, result);
            && Distinct(r) && (forall x :: x in r ==> x in g.adj)
            && DiscoveredFromEarlier(g, r)
    decreases g.adj.Keys - Elems(result), |stack|
  {
    assert StackInGraph(g, stack);
    if stack != [] {
      var top := stack[|stack| - 1];
      assert top in stack;
      var succ := g.adj[top];
      var k := FirstUnvisited(succ, result);
      if k < |succ| {
        var w := succ[k];
        PushKeepsState(g, stack, result, w);
        if Some(w) != terminate {
          assert w in g.adj - Elems(result) && w !in g.adj.Keys - Elems(result + [w]);
          ExploreVisitsOnce(g, terminate, stack + [w], result + [w]);
        }
      } else {
        PopKeepsState(g, stack, result);
        ExploreVisitsOnce(g, terminate, stack[..|stack| - 1], result);
      }
    }
  }

  lemma PushKeepsFinished(g: Graph, stack: seq<int>, result: seq<int>, w: int)
    requires PoppedAreFinished(g, stack, result)
    ensures PoppedAreFinished(g, stack + [w], result + [w])
  {
    forall x, y | x in result + [w] && x !in stack + [w] && x in g.adj && y in g.adj[x]
      ensures y in result + [w]
    {
      assert x in result && x !in stack;
    }
  }

  lemma PopKeepsFinished(g: Graph, stack: seq<int>, result: seq<int>)
    requires stack != [] && stack[|stack| - 1] in g.adj
    requires FirstUnvisited(g.adj[stack[|stack| - 1]], result) == |g.adj[stack[|stack| - 1]]|
    requires PoppedAreFinished(g, stack, result)
    ensures PoppedAreFinished(g, stack[..|stack| - 1], result)
  {
    var n := |stack| - 1;
    var succ := g.adj[stack[n]];
    assert stack == stack[..n] + [stack[n]];
    forall x, y | x in result && x !in stack[..n] && x in g.adj && y in g.adj[x]
      ensures y in result
    {
      if x == stack[n] {
        var j :| 0 <= j < |succ| && succ[j] == y;
      } else {
        assert x !in stack;
      }
    }
  }

  /**
   * The loop either stops right after discovering the target or runs until
   * the stack is empty, where the visit order is closed under successors.
   */
  lemma {:induction false} ExploreStopsOrCloses(g: Graph, terminate: Option<int>, stack: seq<int>, result: seq<int>)
    requires WellFormed(g) && StackInGraph(g, stack)
    requires PoppedAreFinished(g, stack, result)
    ensures var r := Explore(g, terminate, stack, result);
            SuccessorClosed(g, r) || (|result| < |r| && Some(r[|r| - 1]) == terminate)
    decreases g.adj.Keys - Elems(result), |stack|, 1
  {
    if stack != [] {
      var top := stack[|stack| - 1];
      assert top in stack;
      if FirstUnvisited(g.adj[top], result) < |g.adj[top]| {
        PushStopsOrCloses(g, terminate, stack, result);
      } else {
        PopStopsOrCloses(g, terminate, stack, result);
      }
    }
  }

  lemma {:induction false} PushStopsOrCloses(g: Graph, terminate: Option<int>, stack: seq<int>, result: seq<int>)
    requires WellFormed(g) && StackInGraph(g, stack) && stack != []
    requires stack[|stack| - 1] in g.adj
    requires FirstUnvisited(g.adj[stack[|stack| - 1]], result) < |g.adj[stack[|stack| - 1]]|
    requires PoppedAreFinished(g, stack, result)
    ensures var r := Explore(g, terminate, stack, result);
            SuccessorClosed(g, r) || (|result| < |r| && Some(r[|r| - 1]) == terminate)
    decreases g.adj.Keys - Elems(result), |stack|, 0
  {
    var succ := g.adj[stack[|stack| - 1]];
    var w := succ[FirstUnvisited(succ, result)];
    if Some(w) != terminate {
      assert w in g.adj - Elems(result) && w !in g.adj.Keys - Elems(result + [w]);
      PushKeepsFinished(g, stack, result, w);
      ExploreStopsOrCloses(g, terminate, stack + [w], result + [w]);
    }
  }

  lemma {:induction false} PopStopsOrCloses(g: Graph, terminate: Option<int>, stack: seq<int>, result: seq<int>)
    requires WellFormed(g) && StackInGraph(g, stack) && stack != []
    requires stack[|stack| - 1] in g.adj
    requires FirstUnvisited(g.adj[stack[|stack| - 1]], result) == |g.adj[stack[|stack| - 1]]|
    requires PoppedAreFinished(g, stack, result)
    ensures var r := Explore(g, terminate, stack, result);
            SuccessorClosed(g, r) || (|result| < |r| && Some(r[|r| - 1]) == terminate)
    decreases g.adj.Keys - Elems(result), |stack|, 0
  {
    PopKeepsFinished(g, stack, result);
    ExploreStopsOrCloses(g, terminate, stack[..|stack| - 1], result);
  }

  /**
   * `dfs(graph, start_in, terminate_in)`: the visit order from `start`, or
   * `None` when `start` is not a key. `terminate` is `Some(t)` for a target
   * vertex `t`; the Python default `terminate_in = -1` is `Some(-1)`.
   */
  function Dfs(g: Graph, start: int, terminate: Option<int>): (r: Option<seq<int>>)
    requires WellFormed(g)
    ensures r.None? <==> start !in g.adj
    ensures r.Some? ==> |r.value| >= 1 && r.value[0] == start
    ensures r.Some? ==> Distinct(r.value) && forall x :: x in r.value ==> x in g.adj
    ensures r.Some? ==> DiscoveredFromEarlier(g, r.value)
    ensures r.Some? ==> forall i :: 0 < i < |r.value| - 1 ==> Some(r.value[i]) != terminate
    ensures r.Some? ==>
              || SuccessorClosed(g, r.value)
              || (|r.value| >= 2 && Some(r.value[|r.value| - 1]) == terminate)
  {
    if start !in g.adj then
      None
    else
      assert SearchState(g, [start], [start]);
      ExploreVisitsOnce(g, terminate, [start], [start]);
      ExploreStopsOrCloses(g, terminate, [start], [start]);
      Some(Explore(g, terminate, [start], [start]))
  }

  lemma {:induction false} DiscoveredAreReachable(g: Graph, s: seq<int>, i: int)
    requires DiscoveredFromEarlier(g, s) && |s| >= 1
    requires forall x :: x in s ==> x in g.adj
    requires 0 <= i < |s|
    ensures Reachable(g, s[0], s[i])
    decreases i
  {
    if i == 0 {
      assert s[0] in s;
      ReachableRefl(g, s[0]);
    } else {
      assert DiscoveredAt(g, s, i);
      var j :| 0 <= j < i && s[j] in g.adj && s[i] in g.adj[s[j]];
      DiscoveredAreReachable(g, s, j);
      assert s[i] in s;
      ReachableStep(g, s[0], s[j], s[i]);
    }
  }

  /** Every vertex the search visits, early stop or not, is reachable from the start. */
  lemma DfsVisitsOnlyReachable(g: Graph, start: int, terminate: Option<int>)
    requires WellFormed(g) && start in g.adj
    ensures Dfs(g, start, terminate).Some?
    ensures forall v :: v in Dfs(g, start, terminate).value ==> Reachable(g, start, v)
  {
    var s := Dfs(g, start, terminate).value;
    forall v | v in s
      ensures Reachable(g, start, v)
    {
      var i :| 0 <= i < |s| && s[i] == v;
      DiscoveredAreReachable(g, s, i);
    }
  }

  /** Without a target the search visits exactly the vertices reachable from the start. */
  lemma DfsWithoutTargetIsReachableSet(g: Graph, start: int)
    requires WellFormed(g) && start in g.adj
    ensures Dfs(g, start, None).Some?
    ensures forall v :: v in Dfs(g, start, None).value <==> Reachable(g, start, v)
  {
    var s := Dfs(g, start, None).value;
    DfsVisitsOnlyReachable(g, start, None);
    assert SuccessorClosed(g, s);
    forall v | Reachable(g, start, v)
      ensures v in s
    {
      ClosedContainsReachable(g, s, start, v);
    }
  }

  /** `w` is the first entry of `succ`, in list order, that is not in `seen`. */
  ghost predicate FirstFresh(succ: seq<int>, seen: seq<int>, w: int)
  {
    exists k :: 0 <= k < |succ| && succ[k] == w && w !in seen && forall l :: 0 <= l < k ==> succ[l] in seen
  }

  /**
   * `s[i]` is the first fresh successor of an earlier `s[j]`, and every
   * vertex visited after `s[j]` and before `s[i]` had no fresh successor
   * left: the search had backtracked to `s[j]` when it took `s[i]`.
   */
  ghost predicate DepthFirstAt(g: Graph, s: seq<int>, i: int)
    requires 0 <= i < |s|
  {
    exists j :: 0 <= j < i && s[j] in g.adj && FirstFresh(g.adj[s[j]], s[..i], s[i])
                && forall m, y :: j < m < i && s[m] in g.adj && y in g.adj[s[m]] ==> y in s[..i]
  }

  /** A visit order that a depth-first search taking successors in list order produces. */
  ghost predicate DepthFirstOrder(g: Graph, s: seq<int>)
  {
    forall i :: 0 < i < |s| ==> DepthFirstAt(g, s, i)
  }

  /** The stack holds its vertices in the order in which they were visited. */
  ghost predicate StackInVisitOrder(stack: seq<int>, result: seq<int>)
  {
    forall a, b, p, q ::
      (0 <= a < b < |stack| && 0 <= p < |result| && 0 <= q < |result|
       && stack[a] == result[p] && stack[b] == result[q]) ==> p < q
  }

  lemma DepthFirstAtExtend(g: Graph, s: seq<int>, w: int, i: int)
    requires 0 <= i < |s| && DepthFirstAt(g, s, i)
    ensures DepthFirstAt(g, s + [w], i)
  {
    var t := s + [w];
    var j :| 0 <= j < i && s[j] in g.adj && FirstFresh(g.adj[s[j]], s[..i], s[i])
             && forall m, y :: j < m < i && s[m] in g.adj && y in g.adj[s[m]] ==> y in s[..i];
    assert t[..i] == s[..i] && t[i] == s[i] && t[j] == s[j];
    forall m, y | j < m < i && t[m] in g.adj && y in g.adj[t[m]]
      ensures y in t[..i]
    {
      assert t[m] == s[m];
    }
  }

  lemma PushKeepsVisitOrder(stack: seq<int>, result: seq<int>, w: int)
    requires StackInVisitOrder(stack, result)
    requires (forall x :: x in stack ==> x in result) && w !in result
    ensures StackInVisitOrder(stack + [w], result + [w])
  {
    var st, rs := stack + [w], result + [w];
    assert rs[|result|] == w && st[|stack|] == w;
    assert forall i :: 0 <= i < |result| ==> rs[i] == result[i];
    assert forall i :: 0 <= i < |stack| ==> st[i] == stack[i] && stack[i] in stack;
  }

  lemma PopKeepsVisitOrder(stack: seq<int>, result: seq<int>)
    requires StackInVisitOrder(stack, result) && stack != []
    ensures StackInVisitOrder(stack[..|stack| - 1], result)
  {
    var st := stack[..|stack| - 1];
    assert forall a :: 0 <= a < |st| ==> st[a] == stack[a];
  }

  /** Taking the first fresh successor of the top extends a depth-first visit order. */
  lemma PushKeepsDepthFirst(g: Graph, stack: seq<int>, result: seq<int>)
    requires WellFormed(g) && SearchState(g, stack, result) && StackInVisitOrder(stack, result)
    requires DepthFirstOrder(g, result)
    requires stack != [] && stack[|stack| - 1] in g.adj
    requires FirstUnvisited(g.adj[stack[|stack| - 1]], result) < |g.adj[stack[|stack| - 1]]|
    ensures var succ := g.adj[stack[|stack| - 1]];
            DepthFirstOrder(g, result + [succ[FirstUnvisited(succ, result)]])
  {
    var n := |stack| - 1;
    var top := stack[n];
    var succ := g.adj[top];
    var k := FirstUnvisited(succ, result);
    var w := succ[k];
    var t := result + [w];
    assert top in stack;
    var j :| 0 <= j < |result| && result[j] == top;
    forall m, y | j < m < |result| && result[m] in g.adj && y in g.adj[result[m]]
      ensures y in result
    {
      forall a | 0 <= a < |stack|
        ensures stack[a] != result[m]
      {
        if a == n {
          assert result[m] != result[j];
        } else {
          assert stack[n] == result[j];
        }
      }
      assert result[m] in result;
    }
    assert t[..|result|] == result && t[j] == top && t[|result|] == w;
    assert FirstFresh(succ, result, w);
    forall m, y | j < m < |result| && t[m] in g.adj && y in g.adj[t[m]]
      ensures y in t[..|result|]
    {
      assert t[m] == result[m];
    }
    assert DepthFirstAt(g, t, |result|);
    forall i | 0 < i < |t|
      ensures DepthFirstAt(g, t, i)
    {
      if i < |result| {
        DepthFirstAtExtend(g, result, w, i);
      }
    }
  }

  /** From a depth-first state, the loop only ever extends the visit order depth-first. */
  lemma {:induction false} ExploreDepthFirst(g: Graph, terminate: Option<int>, stack: seq<int>, result: seq<int>)
    requires WellFormed(g) && SearchState(g, stack, result) && StackInVisitOrder(stack, result)
    requires DepthFirstOrder(g, result)
    ensures StackInGraph(g, stack)
    ensures DepthFirstOrder(g, Explore(g, terminate, stack, result))
    decreases g.adj.Keys - Elems(result), |stack|
  {
    assert StackInGraph(g, stack);
    if stack != [] {
      var top := stack[|stack| - 1];
      assert top in stack;
      var succ := g.adj[top];
      var k := FirstUnvisited(succ, result);
      if k < |succ| {
        var w := succ[k];
        PushKeepsState(g, stack, result, w);
        PushKeepsVisitOrder(stack, result, w);
        PushKeepsDepthFirst(g, stack, result);
        if Some(w) != terminate {
          assert w in g.adj - Elems(result) && w !in g.adj.Keys - Elems(result + [w]);
          ExploreDepthFirst(g, terminate, stack + [w], result + [w]);
        }
      } else {
        PopKeepsState(g, stack, result);
        PopKeepsVisitOrder(stack, result);
        ExploreDepthFirst(g, terminate, stack[..|stack| - 1], result);
      }
    }
  }

  /**
   * The visit order of `dfs` is depth-first in list order: each vertex after
   * the start is the first unvisited successor of the most recent visited
   * vertex that still had one.
   */
  lemma DfsIsDepthFirst(g: Graph, start: int, terminate: Option<int>)
    requires WellFormed(g) && start in g.adj
    ensures Dfs(g, start, terminate).Some?
    ensures DepthFirstOrder(g, Dfs(g, start, terminate).value)
  {
    assert SearchState(g, [start], [start]);
    ExploreDepthFirst(g, terminate, [start], [start]);
  }

  /**
   * On `{0: [1, 2], 1: [3], 2: [], 3: []}` the breadth-first order
   * `[0, 1, 2, 3]` is not depth-first (1 still has the fresh successor 3
   * when 2 is taken), and neither is `[0, 2]` (2 is not the first fresh
   * successor of 0).
   */
  lemma OnlyDepthFirstOrders(g: Graph)
    requires g.adj.Keys == {0, 1, 2, 3}
    requires g.adj[0] == [1, 2] && g.adj[1] == [3] && g.adj[2] == [] && g.adj[3] == []
    ensures !DepthFirstOrder(g, [0, 1, 2, 3])
    ensures !DepthFirstOrder(g, [0, 2])
    ensures DepthFirstOrder(g, [0, 1, 3, 2])
  {
    var s := [0, 1, 2, 3];
    assert s[..2] == [0, 1] && s[1] == 1;
    assert 3 in g.adj[s[1]] && 3 !in s[..2];
    assert !FirstFresh(g.adj[s[1]], s[..2], 2);
    assert !DepthFirstAt(g, s, 2);
    assert [0, 2][..1] == [0];
    assert g.adj[0][0] == 1 && g.adj[0][1] == 2 && 1 !in [0];
    assert !FirstFresh(g.adj[0], [0], 2);
    assert !DepthFirstAt(g, [0, 2], 1);
    var d := [0, 1, 3, 2];
    assert d[..1] == [0] && d[..2] == [0, 1] && d[..3] == [0, 1, 3];
    assert g.adj[1][0] == 3 && 1 in d[..3];
    assert d[0] == 0 && d[1] == 1 && d[2] == 3 && d[3] == 2;
    assert FirstFresh(g.adj[0], d[..1], 1);
    assert DepthFirstAt(g, d, 1);
    assert FirstFresh(g.adj[1], d[..2], 3);
    assert DepthFirstAt(g, d, 2);
    assert FirstFresh(g.adj[0], d[..3], 2);
    assert DepthFirstAt(g, d, 3);
  }

  /** A target the search can never discover, because it is not a vertex or is already visited. */
  lemma {:induction false} ExploreIgnoresAbsentTarget(g: Graph, t: int, stack: seq<int>, result: seq<int>)
    requires WellFormed(g) && StackInGraph(g, stack)
    requires t !in g.adj || t in result
    ensures Explore(g, Some(t), stack, result) == Explore(g, None, stack, result)
    decreases g.adj.Keys - Elems(result), |stack|
  {
    if stack != [] {
      var top := stack[|stack| - 1];
      assert top in stack;
      var succ := g.adj[top];
      var k := FirstUnvisited(succ, result);
      if k < |succ| {
        var w := succ[k];
        assert w in g.adj - Elems(result) && w !in g.adj.Keys - Elems(result + [w]);
        ExploreIgnoresAbsentTarget(g, t, stack + [w], result + [w]);
      } else {
        ExploreIgnoresAbsentTarget(g, t, stack[..|stack| - 1], result);
      }
    }
  }

  /** A target that is not a vertex changes nothing: the search runs to completion. */
  lemma DfsIgnoresAbsentTarget(g: Graph, start: int, t: int)
    requires WellFormed(g) && t !in g.adj
    ensures Dfs(g, start, Some(t)) == Dfs(g, start, None)
  {
    if start in g.adj {
      ExploreIgnoresAbsentTarget(g, t, [start], [start]);
    }
  }

  /**
   * The start is never compared with the target, so a search whose target
   * is its own start runs to completion.
   */
  lemma DfsIgnoresTargetAtStart(g: Graph, start: int)
    requires WellFormed(g)
    ensures Dfs(g, start, Some(start)) == Dfs(g, start, None)
  {
    if start in g.adj {
      ExploreIgnoresAbsentTarget(g, start, [start], [start]);
    }
  }

  /** The scan stops at `k` exactly when `k` is the first unvisited position. */
  lemma FirstUnvisitedAt(succ: seq<int>, visited: seq<int>, k: nat)
    requires k < |succ| && succ[k] !in visited
    requires forall j :: 0 <= j < k ==> succ[j] in visited
    ensures FirstUnvisited(succ, visited) == k
  {
  }

  /** One iteration that visits and pushes the `k`-th successor of the top. */
  lemma PushStep(g: Graph, terminate: Option<int>, stack: seq<int>, result: seq<int>,
                 succ: seq<int>, k: nat, stack': seq<int>, result': seq<int>)
    requires WellFormed(g) && StackInGraph(g, stack) && stack != []
    requires stack[|stack| - 1] in g.adj && g.adj[stack[|stack| - 1]] == succ
    requires k < |succ| && succ[k] !in result && Some(succ[k]) != terminate
    requires forall j :: 0 <= j < k ==> succ[j] in result
    requires stack' == stack + [succ[k]] && result' == result + [succ[k]]
    ensures StackInGraph(g, stack')
    ensures Explore(g, terminate, stack, result) == Explore(g, terminate, stack', result')
  {
    var top, w := stack[|stack| - 1], succ[k];
    assert top in stack && w in g.adj[top];
    assert StackInGraph(g, stack') by {
      forall x | x in stack' ensures x in g.adj {
        assert x in stack || x == w;
      }
    }
    FirstUnvisitedAt(succ, result, k);
  }

  /** The eight-vertex graph of the `dfs` doctest. */
  function DoctestGraph(): Graph
  {
    Graph([0, 1, 2, 3, 4, 5, 6, 7],
          map[0 := [2, 5, 7], 1 := [2, 6, 7], 2 := [0, 1, 4, 5, 6, 7],
              3 := [6, 7], 4 := [2, 5, 7], 5 := [0, 2, 4, 7],
              6 := [1, 2, 3, 7], 7 := [0, 1, 2, 3, 4, 5, 6]])
  }

  lemma DoctestGraphWellFormed()
    ensures WellFormed(DoctestGraph())
  {
    var g := DoctestGraph();
    forall u, v | u in g.adj && v in g.adj[u]
      ensures v in g.adj
    {
      assert 0 <= v < 8;
    }
    assert Distinct(g.keys);
  }

  lemma DoctestGraphKeys()
    ensures forall v :: v in DoctestGraph().adj <==> 0 <= v < 8
    ensures DoctestGraph().adj[0] == [2, 5, 7] && DoctestGraph().adj[2] == [0, 1, 4, 5, 6, 7]
    ensures DoctestGraph().adj[1] == [2, 6, 7] && DoctestGraph().adj[6] == [1, 2, 3, 7]
    ensures DoctestGraph().adj[3] == [6, 7] && DoctestGraph().adj[7] == [0, 1, 2, 3, 4, 5, 6]
    ensures DoctestGraph().adj[4] == [2, 5, 7]
  {
  }

  /**
   * From the state with `stack` and visit order `result`, the loop visits
   * `rest` by pushes alone: each next vertex is the first entry of the top's
   * list not yet visited, and none of them is the target.
   */
  ghost predicate PushesFrom(g: Graph, terminate: Option<int>, stack: seq<int>, result: seq<int>, rest: seq<int>)
    decreases |rest|
  {
    rest == [] ||
      (&& stack != [] && stack[|stack| - 1] in g.adj
       && FirstFresh(g.adj[stack[|stack| - 1]], result, rest[0]) && Some(rest[0]) != terminate
       && PushesFrom(g, terminate, stack + [rest[0]], result + [rest[0]], rest[1..]))
  }

  /** The first push of a run of pushes, and the run that follows it. */
  lemma PushesFromFirst(g: Graph, terminate: Option<int>, stack: seq<int>, result: seq<int>, rest: seq<int>)
    requires rest != [] && PushesFrom(g, terminate, stack, result, rest)
    ensures stack != [] && stack[|stack| - 1] in g.adj
    ensures FirstFresh(g.adj[stack[|stack| - 1]], result, rest[0]) && Some(rest[0]) != terminate
    ensures PushesFrom(g, terminate, stack + [rest[0]], result + [rest[0]], rest[1..])
    ensures (stack + [rest[0]]) + rest[1..] == stack + rest
    ensures (result + [rest[0]]) + rest[1..] == result + rest
  {
    assert rest == [rest[0]] + rest[1..];
  }

  /** Pushing the first fresh successor of the top, when it is not the target. */
  lemma PushFresh(g: Graph, terminate: Option<int>, stack: seq<int>, result: seq<int>, w: int)
    requires WellFormed(g) && StackInGraph(g, stack) && stack != [] && stack[|stack| - 1] in g.adj
    requires FirstFresh(g.adj[stack[|stack| - 1]], result, w) && Some(w) != terminate
    ensures StackInGraph(g, stack + [w])
    ensures Explore(g, terminate, stack, result) == Explore(g, terminate, stack + [w], result + [w])
  {
    var succ := g.adj[stack[|stack| - 1]];
    var k :| 0 <= k < |succ| && succ[k] == w && w !in result && forall l :: 0 <= l < k ==> succ[l] in result;
    PushStep(g, terminate, stack, result, succ, k, stack + [w], result + [w]);
  }

  /** A run of pushes takes the loop from `stack` and `result` to `stack + rest` and `result + rest`. */
  lemma {:induction false} PushRun(g: Graph, terminate: Option<int>, stack: seq<int>, result: seq<int>, rest: seq<int>)
    requires WellFormed(g) && StackInGraph(g, stack) && PushesFrom(g, terminate, stack, result, rest)
    ensures StackInGraph(g, stack + rest)
    ensures Explore(g, terminate, stack, result) == Explore(g, terminate, stack + rest, result + rest)
    decreases |rest|
  {
    if rest == [] {
      assert stack + rest == stack && result + rest == result;
    } else {
      PushesFromFirst(g, terminate, stack, result, rest);
      PushFresh(g, terminate, stack, result, rest[0]);
      PushRun(g, terminate, stack + [rest[0]], result + [rest[0]], rest[1..]);
    }
  }

  /** `w`, found at position `k` of `succ`, is its first entry not in `seen`. */
  lemma FirstFreshAt(succ: seq<int>, seen: seq<int>, k: nat, w: int)
    requires k < |succ| && succ[k] == w && w !in seen
    requires forall l :: 0 <= l < k ==> succ[l] in seen
    ensures FirstFresh(succ, seen, w)
  {
  }

  /** A push in front of a run of pushes. */
  lemma PushesFromCons(g: Graph, terminate: Option<int>, stack: seq<int>, result: seq<int>, w: int, rest: seq<int>)
    requires stack != [] && stack[|stack| - 1] in g.adj
    requires FirstFresh(g.adj[stack[|stack| - 1]], result, w) && Some(w) != terminate
    requires PushesFrom(g, terminate, stack + [w], result + [w], rest)
    ensures PushesFrom(g, terminate, stack, result, [w] + rest)
  {
    assert ([w] + rest)[0] == w && ([w] + rest)[1..] == rest;
  }

  /** The last four pushes of the doctest run: 3, 7, 4 and 5. */
  lemma DoctestLatePushes(g: Graph, t: Option<int>)
    requires t == Some(-1) && {3, 4, 6, 7} <= g.adj.Keys
    requires g.adj[6] == [1, 2, 3, 7] && g.adj[3] == [6, 7]
    requires g.adj[7] == [0, 1, 2, 3, 4, 5, 6] && g.adj[4] == [2, 5, 7]
    ensures PushesFrom(g, t, [0, 2, 1, 6], [0, 2, 1, 6], [3, 7, 4, 5])
  {
    // The stack after each push, and the pushes still to come after it.
    var s3 := [0, 2, 1, 6];
    var s4 := s3 + [3];
    var s5 := s4 + [7];
    var s6 := s5 + [4];
    var q6: seq<int> := [];
    var q5 := [5] + q6;
    var q4 := [4] + q5;
    var q3 := [7] + q4;
    FirstFreshAt(g.adj[4], s6, 1, 5);
    PushesFromCons(g, t, s6, s6, 5, q6);
    FirstFreshAt(g.adj[7], s5, 4, 4);
    PushesFromCons(g, t, s5, s5, 4, q5);
    FirstFreshAt(g.adj[3], s4, 1, 7);
    PushesFromCons(g, t, s4, s4, 7, q4);
    FirstFreshAt(g.adj[6], s3, 2, 3);
    PushesFromCons(g, t, s3, s3, 3, q3);
    assert [3] + q3 == [3, 7, 4, 5];
  }

  /**
   * The doctest run pushes 2, 1, 6, 3, 7, 4 and 5, in that order; each is
   * found at the given position of its predecessor's list.
   */
  lemma DoctestPushes(g: Graph, t: Option<int>)
    requires t == Some(-1) && {0, 1, 2, 3, 4, 6, 7} <= g.adj.Keys
    requires g.adj[0] == [2, 5, 7] && g.adj[2] == [0, 1, 4, 5, 6, 7]
    requires g.adj[1] == [2, 6, 7] && g.adj[6] == [1, 2, 3, 7] && g.adj[3] == [6, 7]
    requires g.adj[7] == [0, 1, 2, 3, 4, 5, 6] && g.adj[4] == [2, 5, 7]
    ensures PushesFrom(g, t, [0], [0], [2, 1, 6, 3, 7, 4, 5])
  {
    var s0 := [0];
    var s1 := s0 + [2];
    var s2 := s1 + [1];
    var q2 := [3, 7, 4, 5];
    var q1 := [6] + q2;
    var q0 := [1] + q1;
    DoctestLatePushes(g, t);
    assert s2 + [6] == [0, 2, 1, 6];
    FirstFreshAt(g.adj[1], s2, 1, 6);
    PushesFromCons(g, t, s2, s2, 6, q2);
    FirstFreshAt(g.adj[2], s1, 1, 1);
    PushesFromCons(g, t, s1, s1, 1, q1);
    FirstFreshAt(g.adj[0], s0, 0, 2);
    PushesFromCons(g, t, s0, s0, 2, q0);
    assert [2] + q0 == [2, 1, 6, 3, 7, 4, 5];
  }

  /**
   * The doctest run, on any well-formed graph over 0..7 whose lists of the
   * vertices the search pushes are those of the doctest graph.
   */
  lemma DoctestTrace(g: Graph, t: Option<int>)
    requires WellFormed(g) && t == Some(-1)
    requires forall v :: v in g.adj <==> 0 <= v < 8
    requires g.adj[0] == [2, 5, 7] && g.adj[2] == [0, 1, 4, 5, 6, 7]
    requires g.adj[1] == [2, 6, 7] && g.adj[6] == [1, 2, 3, 7] && g.adj[3] == [6, 7]
    requires g.adj[7] == [0, 1, 2, 3, 4, 5, 6] && g.adj[4] == [2, 5, 7]
    ensures Dfs(g, 0, t) == Some([0, 2, 1, 6, 3, 7, 4, 5])
  {
    var order := [0, 2, 1, 6, 3, 7, 4, 5];
    assert [0] + [2, 1, 6, 3, 7, 4, 5] == order;
    assert StackInGraph(g, [0]);
    assert StackInGraph(g, order) && Explore(g, t, [0], [0]) == Explore(g, t, order, order) by {
      DoctestPushes(g, t);
      PushRun(g, t, [0], [0], [2, 1, 6, 3, 7, 4, 5]);
    }
    assert Dfs(g, 0, t) == Some(Explore(g, t, [0], [0]));
    DoctestPopsOnly(g, t);
  }

  /** After the last visit every vertex is in the visit order and the stack only pops. */
  lemma DoctestPopsOnly(g: Graph, t: Option<int>)
    requires WellFormed(g) && StackInGraph(g, [0, 2, 1, 6, 3, 7, 4, 5])
    requires forall v :: v in g.adj <==> 0 <= v < 8
    ensures Explore(g, t, [0, 2, 1, 6, 3, 7, 4, 5], [0, 2, 1, 6, 3, 7, 4, 5]) == [0, 2, 1, 6, 3, 7, 4, 5]
  {
    var r := [0, 2, 1, 6, 3, 7, 4, 5];
    forall v | v in g.adj
      ensures v in r
    {
      assert 0 <= v < 8;
    }
    ExploreAllVisited(g, t, r, r);
  }

  lemma NothingLeftToVisit(g: Graph, top: int, result: seq<int>)
    requires WellFormed(g) && top in g.adj
    requires forall v :: v in g.adj ==> v in result
    ensures FirstUnvisited(g.adj[top], result) == |g.adj[top]|
  {
    var succ := g.adj[top];
    forall j | 0 <= j < |succ|
      ensures succ[j] in result
    {
      var y := succ[j];
      assert y in succ;
      assert y in g.adj;
    }
  }

  /** Once every vertex is visited, the remaining iterations only pop. */
  lemma {:induction false} ExploreAllVisited(g: Graph, terminate: Option<int>, stack: seq<int>, result: seq<int>)
    requires WellFormed(g) && StackInGraph(g, stack)
    requires forall v :: v in g.adj ==> v in result
    ensures Explore(g, terminate, stack, result) == result
    decreases |stack|
  {
    if stack != [] {
      var top := stack[|stack| - 1];
      assert top in stack;
      NothingLeftToVisit(g, top, result);
      assert StackInGraph(g, stack[..|stack| - 1]);
      ExploreAllVisited(g, terminate, stack[..|stack| - 1], result);
    }
  }

  /** `dfs(graph)` with the default start 0 and target -1 on the doctest graph. */
  lemma DfsDoctest()
    ensures WellFormed(DoctestGraph())
    ensures Dfs(DoctestGraph(), 0, Some(-1)) == Some([0, 2, 1, 6, 3, 7, 4, 5])
  {
    var g := DoctestGraph();
    DoctestGraphWellFormed();
    DoctestGraphKeys();
    DoctestTrace(g, Some(-1));
  }
}
