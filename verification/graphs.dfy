/**
 * Directed graphs in adjacency-list form, the shape every utility of
 * util_functions.py receives: a dictionary from integer vertex to the list of
 * its successors. Duplicate successors are parallel edges.
 *
 * The dictionary is split into its key order (`keys`, the order in which a
 * Python dict iterates) and the key-to-list mapping (`adj`).
 */
module Graphs {

  /** The "absent" result of a utility (Python's `None`). */
  datatype Option<+T> = None | Some(value: T)

  datatype Graph = Graph(keys: seq<int>, adj: map<int, seq<int>>)

  ghost predicate Distinct(s: seq<int>)
  {
    forall i, j :: 0 <= i < j < |s| ==> s[i] != s[j]
  }

  /** The key order lists every key of the mapping exactly once. */
  ghost predicate Valid(g: Graph)
  {
    && Distinct(g.keys)
    && forall v :: v in g.keys <==> v in g.adj
  }

  /** The closure invariant: every successor is itself a key. */
  ghost predicate WellFormed(g: Graph)
  {
    && Valid(g)
    && forall u, v :: u in g.adj && v in g.adj[u] ==> v in g.adj
  }

  lemma DistinctAppend(s: seq<int>, w: int)
    requires Distinct(s) && w !in s
    ensures Distinct(s + [w])
  {
    var t := s + [w];
    forall a, b | 0 <= a < b < |t|
      ensures t[a] != t[b]
    {
      assert t[a] == s[a];
      if b == |s| {
        assert s[a] in s;
      } else {
        assert t[b] == s[b];
      }
    }
  }

  function Elems(s: seq<int>): set<int>
  {
    set x | x in s
  }

  /** Number of occurrences of `x` in `s`. */
  function Count(s: seq<int>, x: int): nat
  {
    multiset(s)[x]
  }

  /** The list of `v`, or the empty list a `defaultdict(list)` would supply. */
  function Entry(m: map<int, seq<int>>, v: int): seq<int>
  {
    if v in m then m[v] else []
  }

  /** Some key lists `v` among its successors. */
  ghost predicate HasInEdge(g: Graph, v: int)
  {
    exists u :: u in g.adj && v in g.adj[u]
  }

  /** Every successor of a vertex of `s` is in `s`. */
  ghost predicate SuccessorClosed(g: Graph, s: seq<int>)
  {
    forall x, y :: x in s && x in g.adj && y in g.adj[x] ==> y in s
  }

  /** A non-empty walk along edges of `g`. */
  ghost predicate IsPath(g: Graph, p: seq<int>)
  {
    && |p| >= 1
    && (forall i :: 0 <= i < |p| ==> p[i] in g.adj)
    && (forall i :: 0 <= i < |p| - 1 ==> p[i + 1] in g.adj[p[i]])
  }

  ghost predicate Reachable(g: Graph, u: int, v: int)
  {
    exists p :: IsPath(g, p) && p[0] == u && p[|p| - 1] == v
  }

  lemma ReachableRefl(g: Graph, u: int)
    requires u in g.adj
    ensures Reachable(g, u, u)
  {
    assert IsPath(g, [u]);
  }

  lemma ReachableStep(g: Graph, u: int, v: int, w: int)
    requires Reachable(g, u, v)
    requires v in g.adj && w in g.adj[v] && w in g.adj
    ensures Reachable(g, u, w)
  {
    var p :| IsPath(g, p) && p[0] == u && p[|p| - 1] == v;
    var q := p + [w];
    assert forall i :: 0 <= i < |p| ==> q[i] == p[i];
    assert IsPath(g, q);
  }

  lemma ReachableTrans(g: Graph, u: int, v: int, w: int)
    requires Reachable(g, u, v) && Reachable(g, v, w)
    ensures Reachable(g, u, w)
  {
    var p :| IsPath(g, p) && p[0] == u && p[|p| - 1] == v;
    var q :| IsPath(g, q) && q[0] == v && q[|q| - 1] == w;
    var r := p + q[1..];
    forall i | 0 <= i < |r|
      ensures r[i] in g.adj
    {
      if i >= |p| {
        assert r[i] == q[i - |p| + 1];
      }
    }
    forall i | 0 <= i < |r| - 1
      ensures r[i + 1] in g.adj[r[i]]
    {
      if i < |p| - 1 {
        assert r[i] == p[i] && r[i + 1] == p[i + 1];
      } else {
        var k := i - |p| + 1;
        assert r[i] == q[k] && r[i + 1] == q[k + 1];
      }
    }
    assert IsPath(g, r);
  }

  /** Every vertex of a path that starts inside a successor-closed sequence lies in it. */
  lemma {:induction false} PathStaysIn(g: Graph, s: seq<int>, p: seq<int>, i: int)
    requires SuccessorClosed(g, s)
    requires IsPath(g, p) && p[0] in s
    requires 0 <= i < |p|
    ensures p[i] in s
    decreases i
  {
    if i > 0 {
      PathStaysIn(g, s, p, i - 1);
      var x, y := p[i - 1], p[i];
      assert x in s && x in g.adj && y in g.adj[x];
    }
  }

  lemma ClosedContainsReachable(g: Graph, s: seq<int>, u: int, v: int)
    requires SuccessorClosed(g, s)
    requires u in s && Reachable(g, u, v)
    ensures v in s
  {
    var p :| IsPath(g, p) && p[0] == u && p[|p| - 1] == v;
    PathStaysIn(g, s, p, |p| - 1);
  }
}
