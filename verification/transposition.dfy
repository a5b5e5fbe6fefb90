/**
 * `get_transposed` of util_functions.py: the graph with every edge reversed.
 *
 * The result is built in a `defaultdict(list)`. For each key `u`, in key
 * order, an absent or empty entry for `u` is set to `[]`, and then `u` is
 * appended to the entry of each successor of `u`, in list order. A vertex
 * that first appears as a successor becomes a key at that moment.
 */
module Transposition {
  import opened Graphs

  /** The dictionary assignment `result[v] = l`: a new key goes to the end of the key order. */
  function Assign(acc: Graph, v: int, l: seq<int>): Graph
  {
    if v in acc.adj then Graph(acc.keys, acc.adj[v := l]) else Graph(acc.keys + [v], acc.adj[v := l])
  }

  /** `if not result.get(key, []): result[key] = []`. */
  function InitKey(acc: Graph, u: int): Graph
  {
    if Entry(acc.adj, u) != [] then acc else Assign(acc, u, [])
  }

  /** `result[v].append(u)`, creating the entry of `v` when it is absent. */
  function AppendTo(acc: Graph, v: int, u: int): Graph
  {
    Assign(acc, v, Entry(acc.adj, v) + [u])
  }

  /** The inner loop `for ver in value: result[ver].append(key)` for key `u`. */
  function AddReversed(acc: Graph, u: int, succ: seq<int>): Graph
    decreases |succ|
  {
    if succ == [] then acc else AddReversed(AppendTo(acc, succ[0], u), u, succ[1..])
  }

  /** The outer loop `for key, value in graph.items()` over the keys `rest`. */
  function TransposeFrom(g: Graph, rest: seq<int>, acc: Graph): Graph
    requires forall u :: u in rest ==> u in g.adj
    decreases |rest|
  {
    if rest == [] then acc
    else
      assert rest[0] in rest;
      TransposeFrom(g, rest[1..], AddReversed(InitKey(acc, rest[0]), rest[0], g.adj[rest[0]]))
  }

  /** `get_transposed(graph)`. */
  function Transpose(g: Graph): (r: Graph)
    requires Valid(g)
    ensures Valid(r)
  {
    TransposeFromValid(g, g.keys, Graph([], map[]));
    TransposeFrom(g, g.keys, Graph([], map[]))
  }

  /** An assignment keeps the key order and the mapping in step. */
  lemma AssignValid(acc: Graph, v: int, l: seq<int>)
    requires Valid(acc)
    ensures Valid(Assign(acc, v, l))
  {
    if v !in acc.adj {
      DistinctAppend(acc.keys, v);
    }
  }

  /**
   * The guard only touches an absent or empty entry: every list reads the
   * same afterwards, and `u` is a key.
   */
  lemma InitKeyFacts(acc: Graph, u: int)
    ensures Valid(acc) ==> Valid(InitKey(acc, u))
    ensures InitKey(acc, u).adj.Keys == acc.adj.Keys + {u}
    ensures forall v :: Entry(InitKey(acc, u).adj, v) == Entry(acc.adj, v)
  {
    if Valid(acc) && Entry(acc.adj, u) == [] {
      AssignValid(acc, u, []);
    }
  }

  /** Only the list of `v` changes, and it gains `u` at its end. */
  lemma AppendToFacts(acc: Graph, v: int, u: int)
    ensures Valid(acc) ==> Valid(AppendTo(acc, v, u))
    ensures AppendTo(acc, v, u).adj.Keys == acc.adj.Keys + {v}
  {
    if Valid(acc) {
      AssignValid(acc, v, Entry(acc.adj, v) + [u]);
    }
  }

  lemma AppendToEntry(acc: Graph, v: int, u: int, x: int)
    ensures Entry(AppendTo(acc, v, u).adj, x) == Entry(acc.adj, x) + (if x == v then [u] else [])
  {
  }

  lemma {:induction false} AddReversedFacts(acc: Graph, u: int, succ: seq<int>)
    ensures Valid(acc) ==> Valid(AddReversed(acc, u, succ))
    ensures AddReversed(acc, u, succ).adj.Keys == acc.adj.Keys + Elems(succ)
    decreases |succ|
  {
    if succ != [] {
      AppendToFacts(acc, succ[0], u);
      AddReversedFacts(AppendTo(acc, succ[0], u), u, succ[1..]);
      assert succ == [succ[0]] + succ[1..];
    }
  }

  /** Each list only grows: what it held before is a prefix of what it holds after. */
  lemma {:induction false} AddReversedExtends(acc: Graph, u: int, succ: seq<int>, v: int)
    ensures Entry(acc.adj, v) <= Entry(AddReversed(acc, u, succ).adj, v)
    decreases |succ|
  {
    if succ != [] {
      var next := AppendTo(acc, succ[0], u);
      AppendToEntry(acc, succ[0], u, v);
      AddReversedExtends(next, u, succ[1..], v);
    }
  }

  /** Entry `v` gains one copy of `u` per occurrence of `v` in `succ`, and nothing else. */
  lemma {:induction false} AddReversedEntry(acc: Graph, u: int, succ: seq<int>, v: int, x: int)
    ensures Count(Entry(AddReversed(acc, u, succ).adj, v), x)
            == Count(Entry(acc.adj, v), x) + (if x == u then Count(succ, v) else 0)
    decreases |succ|
  {
    if succ != [] {
      var next := AppendTo(acc, succ[0], u);
      AppendToEntry(acc, succ[0], u, v);
      AddReversedEntry(next, u, succ[1..], v, x);
      assert succ == [succ[0]] + succ[1..];
    }
  }

  /** Some key of `rest` lists `v` among its successors. */
  ghost predicate ListedBy(g: Graph, rest: seq<int>, v: int)
  {
    exists i :: 0 <= i < |rest| && rest[i] in g.adj && v in g.adj[rest[i]]
  }

  lemma {:induction false} TransposeFromValid(g: Graph, rest: seq<int>, acc: Graph)
    requires forall u :: u in rest ==> u in g.adj
    requires Valid(acc)
    ensures Valid(TransposeFrom(g, rest, acc))
    decreases |rest|
  {
    if rest != [] {
      var u := rest[0];
      assert u in rest;
      InitKeyFacts(acc, u);
      AddReversedFacts(InitKey(acc, u), u, g.adj[u]);
      TransposeFromValid(g, rest[1..], AddReversed(InitKey(acc, u), u, g.adj[u]));
    }
  }

  lemma {:induction false} TransposeFromKeys(g: Graph, rest: seq<int>, acc: Graph, v: int)
    requires forall u :: u in rest ==> u in g.adj
    ensures v in TransposeFrom(g, rest, acc).adj <==> v in acc.adj || v in rest || ListedBy(g, rest, v)
    decreases |rest|
  {
    if rest != [] {
      var u := rest[0];
      assert u in rest;
      InitKeyFacts(acc, u);
      AddReversedFacts(InitKey(acc, u), u, g.adj[u]);
      var next := AddReversed(InitKey(acc, u), u, g.adj[u]);
      TransposeFromKeys(g, rest[1..], next, v);
      assert rest == [u] + rest[1..];
      if ListedBy(g, rest[1..], v) {
        var i :| 0 <= i < |rest[1..]| && rest[1..][i] in g.adj && v in g.adj[rest[1..][i]];
        assert rest[i + 1] == rest[1..][i];
      }
      if ListedBy(g, rest, v) && v !in g.adj[u] {
        var i :| 0 <= i < |rest| && rest[i] in g.adj && v in g.adj[rest[i]];
        assert i != 0 && rest[1..][i - 1] == rest[i];
      }
      if v in g.adj[u] {
        assert rest[0] == u;
      }
    }
  }

  /** No list the loop has built is ever shortened or rewritten by a later key. */
  lemma {:induction false} TransposeFromExtends(g: Graph, rest: seq<int>, acc: Graph, v: int)
    requires forall u :: u in rest ==> u in g.adj
    ensures Entry(acc.adj, v) <= Entry(TransposeFrom(g, rest, acc).adj, v)
    decreases |rest|
  {
    if rest != [] {
      var u := rest[0];
      assert u in rest;
      var init := InitKey(acc, u);
      InitKeyFacts(acc, u);
      AddReversedExtends(init, u, g.adj[u], v);
      TransposeFromExtends(g, rest[1..], AddReversed(init, u, g.adj[u]), v);
    }
  }

  /** Entry `v` gains one copy of each key `x` of `rest` per occurrence of `v` in the list of `x`. */
  lemma {:induction false} TransposeFromEntry(g: Graph, rest: seq<int>, acc: Graph, v: int, x: int)
    requires Distinct(rest) && forall u :: u in rest ==> u in g.adj
    ensures Count(Entry(TransposeFrom(g, rest, acc).adj, v), x)
            == Count(Entry(acc.adj, v), x) + (if x in rest then Count(g.adj[x], v) else 0)
    decreases |rest|
  {
    if rest != [] {
      var u := rest[0];
      assert u in rest;
      var init := InitKey(acc, u);
      InitKeyFacts(acc, u);
      AddReversedEntry(init, u, g.adj[u], v, x);
      assert u !in rest[1..] && (x in rest <==> x == u || x in rest[1..]) by {
        assert rest == [u] + rest[1..];
        forall i | 0 <= i < |rest[1..]|
          ensures rest[1..][i] != u
        {
          assert rest[1..][i] == rest[i + 1];
        }
      }
      assert Distinct(rest[1..]);
      TransposeFromEntry(g, rest[1..], AddReversed(init, u, g.adj[u]), v, x);
    }
  }

  /** The transpose has the input keys and every successor as keys, and no other. */
  lemma TransposeKeys(g: Graph, v: int)
    requires Valid(g)
    ensures v in Transpose(g).adj <==> v in g.adj || HasInEdge(g, v)
  {
    TransposeFromKeys(g, g.keys, Graph([], map[]), v);
    if HasInEdge(g, v) {
      var u :| u in g.adj && v in g.adj[u];
      var i :| 0 <= i < |g.keys| && g.keys[i] == u;
      assert ListedBy(g, g.keys, v);
    }
  }

  /** Edge `u -> v` occurs in the transpose as `v -> u`, as many times as in the input. */
  lemma TransposeCounts(g: Graph, u: int, v: int)
    requires Valid(g)
    ensures Count(Entry(Transpose(g).adj, v), u) == Count(Entry(g.adj, u), v)
  {
    TransposeFromEntry(g, g.keys, Graph([], map[]), v, u);
  }

  /** The outer loop over `p + q` is the loop over `p` followed by the loop over `q`. */
  lemma {:induction false} TransposeFromSplit(g: Graph, p: seq<int>, q: seq<int>, acc: Graph)
    requires forall u :: u in p ==> u in g.adj
    requires forall u :: u in q ==> u in g.adj
    ensures TransposeFrom(g, p + q, acc) == TransposeFrom(g, q, TransposeFrom(g, p, acc))
    decreases |p|
  {
    if p == [] {
      assert p + q == q;
    } else {
      var u := p[0];
      assert u in p && (p + q)[0] == u && (p + q)[1..] == p[1..] + q;
      TransposeFromSplit(g, p[1..], q, AddReversed(InitKey(acc, u), u, g.adj[u]));
    }
  }

  /** The outer loop reads only the lists of the keys it visits. */
  lemma {:induction false} TransposeFromAgree(g: Graph, h: Graph, rest: seq<int>, acc: Graph)
    requires forall u :: u in rest ==> u in g.adj && u in h.adj && g.adj[u] == h.adj[u]
    ensures TransposeFrom(g, rest, acc) == TransposeFrom(h, rest, acc)
    decreases |rest|
  {
    if rest != [] {
      var u := rest[0];
      assert u in rest;
      TransposeFromAgree(g, h, rest[1..], AddReversed(InitKey(acc, u), u, g.adj[u]));
    }
  }

  /**
   * A key's list in the input is never reset: whatever the keys up to any
   * point of the key order have put into a transposed list stays a prefix
   * of that list in the finished transpose.
   */
  lemma TransposeKeepsEarlierEntries(g: Graph, prefix: seq<int>, rest: seq<int>, v: int)
    requires Valid(g) && g.keys == prefix + rest
    ensures Entry(TransposeFrom(g, prefix, Graph([], map[])).adj, v) <= Entry(Transpose(g).adj, v)
  {
    var acc := TransposeFrom(g, prefix, Graph([], map[]));
    TransposeFromSplit(g, prefix, rest, Graph([], map[]));
    TransposeFromExtends(g, rest, acc, v);
  }

  /** `n` copies of `u`. */
  function Repeat(u: int, n: nat): (r: seq<int>)
    ensures |r| == n && forall i :: 0 <= i < n ==> r[i] == u
  {
    if n == 0 then [] else [u] + Repeat(u, n - 1)
  }

  /**
   * The predecessors of `v` among the keys `rest`, in key order: each key
   * `u` once per occurrence of `v` in its list.
   */
  function Preds(g: Graph, rest: seq<int>, v: int): seq<int>
    requires forall u :: u in rest ==> u in g.adj
    decreases |rest|
  {
    if rest == [] then []
    else
      assert rest[0] in rest;
      Repeat(rest[0], Count(g.adj[rest[0]], v)) + Preds(g, rest[1..], v)
  }

  /** The inner loop appends `u` to `v`'s list once per occurrence of `v`, in place. */
  lemma {:induction false} AddReversedList(acc: Graph, u: int, succ: seq<int>, v: int)
    ensures Entry(AddReversed(acc, u, succ).adj, v) == Entry(acc.adj, v) + Repeat(u, Count(succ, v))
    decreases |succ|
  {
    if succ != [] {
      var next := AppendTo(acc, succ[0], u);
      AppendToEntry(acc, succ[0], u, v);
      AddReversedList(next, u, succ[1..], v);
      assert succ == [succ[0]] + succ[1..];
      assert Count(succ, v) == (if succ[0] == v then 1 else 0) + Count(succ[1..], v);
      if succ[0] == v {
        assert Repeat(u, Count(succ, v)) == [u] + Repeat(u, Count(succ[1..], v));
      }
    }
  }

  /** One iteration of the outer loop, for key `u` with list `succ`. */
  lemma KeyList(acc: Graph, u: int, succ: seq<int>, v: int)
    ensures Entry(AddReversed(InitKey(acc, u), u, succ).adj, v) == Entry(acc.adj, v) + Repeat(u, Count(succ, v))
  {
    InitKeyFacts(acc, u);
    AddReversedList(InitKey(acc, u), u, succ, v);
  }

  /** The outer loop over `rest` appends `Preds(g, rest, v)` to `v`'s list. */
  lemma {:induction false} TransposeFromList(g: Graph, rest: seq<int>, acc: Graph, v: int)
    requires forall u :: u in rest ==> u in g.adj
    ensures Entry(TransposeFrom(g, rest, acc).adj, v) == Entry(acc.adj, v) + Preds(g, rest, v)
    decreases |rest|
  {
    if rest != [] {
      var u := rest[0];
      assert u in rest;
      var next := AddReversed(InitKey(acc, u), u, g.adj[u]);
      var front, here, later := Entry(acc.adj, v), Repeat(u, Count(g.adj[u], v)), Preds(g, rest[1..], v);
      KeyList(acc, u, g.adj[u], v);
      TransposeFromList(g, rest[1..], next, v);
      assert (front + here) + later == front + (here + later);
    }
  }

  /**
   * The order of a transposed list: `v`'s list names the keys in key order,
   * each key as many times as its own list names `v`.
   */
  lemma TransposeList(g: Graph, v: int)
    requires Valid(g)
    ensures Entry(Transpose(g).adj, v) == Preds(g, g.keys, v)
  {
    TransposeFromList(g, g.keys, Graph([], map[]), v);
  }

  /** `v -> u` is an edge of the transpose exactly when `u -> v` is an edge of the input. */
  lemma TransposeEdge(g: Graph, u: int, v: int)
    requires Valid(g)
    ensures u in Entry(Transpose(g).adj, v) <==> v in Entry(g.adj, u)
  {
    TransposeCounts(g, u, v);
  }

  /** Under the closure invariant the transpose has the same keys and is closed too. */
  lemma TransposeWellFormed(g: Graph)
    requires WellFormed(g)
    ensures Transpose(g).adj.Keys == g.adj.Keys
    ensures WellFormed(Transpose(g))
  {
    var t := Transpose(g);
    forall v
      ensures v in t.adj <==> v in g.adj
    {
      TransposeKeys(g, v);
    }
    forall v, u | v in t.adj && u in t.adj[v]
      ensures u in t.adj
    {
      TransposeEdge(g, u, v);
    }
  }

  /** Transposing twice gives back every list as the same multiset of successors. */
  lemma TransposeTwice(g: Graph, u: int)
    requires Valid(g)
    ensures multiset(Entry(Transpose(Transpose(g)).adj, u)) == multiset(Entry(g.adj, u))
  {
    var t := Transpose(g);
    forall v
      ensures multiset(Entry(Transpose(t).adj, u))[v] == multiset(Entry(g.adj, u))[v]
    {
      TransposeCounts(t, v, u);
      TransposeCounts(g, u, v);
    }
  }

  /** With the closure invariant, transposing twice also gives back exactly the keys. */
  lemma TransposeTwiceKeys(g: Graph)
    requires WellFormed(g)
    ensures Transpose(Transpose(g)).adj.Keys == g.adj.Keys
  {
    TransposeWellFormed(g);
    TransposeWellFormed(Transpose(g));
  }

  /** Every edge of `g` appears reversed in `h`, over the same vertices. */
  ghost predicate Reverses(g: Graph, h: Graph)
  {
    && g.adj.Keys == h.adj.Keys
    && forall a, b :: a in g.adj && b in g.adj[a] ==> b in h.adj && a in h.adj[b]
  }

  function Reverse(p: seq<int>): (q: seq<int>)
    ensures |q| == |p| && forall i :: 0 <= i < |p| ==> q[i] == p[|p| - 1 - i]
  {
    if p == [] then [] else Reverse(p[1..]) + [p[0]]
  }

  lemma ReversePath(g: Graph, h: Graph, p: seq<int>)
    requires Reverses(g, h) && IsPath(g, p)
    ensures IsPath(h, Reverse(p))
  {
    var q := Reverse(p);
    var n := |p|;
    forall i | 0 <= i < n - 1
      ensures q[i + 1] in h.adj[q[i]]
    {
      var a, b := p[n - 2 - i], p[n - 1 - i];
      assert b in g.adj[a];
    }
  }

  lemma ReversesReachable(g: Graph, h: Graph, u: int, v: int)
    requires Reverses(g, h) && Reachable(g, u, v)
    ensures Reachable(h, v, u)
  {
    var p :| IsPath(g, p) && p[0] == u && p[|p| - 1] == v;
    ReversePath(g, h, p);
    assert Reverse(p)[0] == v;
  }

  /** A vertex reaches another in the transpose exactly when the second reaches the first in the input. */
  lemma TransposeReversesReachability(g: Graph, u: int, v: int)
    requires WellFormed(g)
    ensures Reachable(Transpose(g), u, v) <==> Reachable(g, v, u)
  {
    var t := Transpose(g);
    TransposeWellFormed(g);
    forall a, b | a in g.adj && b in g.adj[a]
      ensures b in t.adj && a in t.adj[b]
    {
      TransposeEdge(g, a, b);
    }
    forall a, b | a in t.adj && b in t.adj[a]
      ensures b in g.adj && a in g.adj[b]
    {
      TransposeEdge(g, b, a);
    }
    assert Reverses(g, t) && Reverses(t, g);
    if Reachable(g, v, u) {
      ReversesReachable(g, t, v, u);
    }
    if Reachable(t, u, v) {
      ReversesReachable(t, g, u, v);
    }
  }

  /** The doctest input of `get_transposed`: a 4-cycle and a vertex with no edges. */
  function CycleWithIsolated(): Graph
  {
    Graph([0, 1, 2, 3, 4], map[0 := [1], 1 := [2], 2 := [3], 3 := [0], 4 := []])
  }

  /** One iteration of the outer loop, for the first key of `rest`. */
  lemma TransposeFromStep(g: Graph, rest: seq<int>, acc: Graph, next: Graph)
    requires rest != [] && forall u :: u in rest ==> u in g.adj
    requires AddReversed(InitKey(acc, rest[0]), rest[0], g.adj[rest[0]]) == next
    ensures TransposeFrom(g, rest, acc) == TransposeFrom(g, rest[1..], next)
  {
    assert rest[0] in rest;
  }

  /**
   * The dictionary the doctest run builds: each key of the doctest graph has
   * at most one successor, so its iteration is `InitKey` and at most one
   * `AppendTo`.
   */
  lemma TransposeDoctestState()
    ensures InitKey(AppendTo(InitKey(AppendTo(InitKey(AppendTo(InitKey(AppendTo(InitKey(
              Graph([], map[]), 0), 1, 0), 1), 2, 1), 2), 3, 2), 3), 0, 3), 4)
            == Graph([0, 1, 2, 3, 4], map[0 := [3], 1 := [0], 2 := [1], 3 := [2], 4 := []])
  {
    var a0 := InitKey(Graph([], map[]), 0);
    var a1 := AppendTo(a0, 1, 0);
    assert a1 == Graph([0, 1], map[0 := [], 1 := [0]]) by {
      assert a0 == Graph([0], map[0 := []]) && [0] + [1] == [0, 1];
    }
    var a2 := AppendTo(InitKey(a1, 1), 2, 1);
    assert a2 == Graph([0, 1, 2], map[0 := [], 1 := [0], 2 := [1]]) by {
      assert InitKey(a1, 1) == a1 && Entry(a1.adj, 2) + [1] == [1] && [0, 1] + [2] == [0, 1, 2];
    }
    var a3 := AppendTo(InitKey(a2, 2), 3, 2);
    assert a3 == Graph([0, 1, 2, 3], map[0 := [], 1 := [0], 2 := [1], 3 := [2]]) by {
      assert InitKey(a2, 2) == a2 && Entry(a2.adj, 3) + [2] == [2] && [0, 1, 2] + [3] == [0, 1, 2, 3];
    }
    var a4 := AppendTo(InitKey(a3, 3), 0, 3);
    assert a4 == Graph([0, 1, 2, 3], map[0 := [3], 1 := [0], 2 := [1], 3 := [2]]) by {
      assert InitKey(a3, 3) == a3 && Entry(a3.adj, 0) + [3] == [3];
    }
    assert [0, 1, 2, 3] + [4] == [0, 1, 2, 3, 4];
  }

  /** The doctest run, on any graph with the doctest's keys and lists. */
  lemma TransposeDoctestRun(g: Graph)
    requires Valid(g) && g.keys == [0, 1, 2, 3, 4]
    requires g.adj[0] == [1] && g.adj[1] == [2] && g.adj[2] == [3] && g.adj[3] == [0] && g.adj[4] == []
    ensures Transpose(g) == Graph([0, 1, 2, 3, 4], map[0 := [3], 1 := [0], 2 := [1], 3 := [2], 4 := []])
  {
    var a0 := Graph([], map[]);
    var a1 := AppendTo(InitKey(a0, 0), 1, 0);
    var a2 := AppendTo(InitKey(a1, 1), 2, 1);
    var a3 := AppendTo(InitKey(a2, 2), 3, 2);
    var a4 := AppendTo(InitKey(a3, 3), 0, 3);
    assert forall u :: u in g.keys ==> u in g.adj;
    assert [1][1..] == [2][1..] == [3][1..] == [0][1..] == [];
    TransposeFromStep(g, [0, 1, 2, 3, 4], a0, a1);
    TransposeFromStep(g, [1, 2, 3, 4], a1, a2);
    TransposeFromStep(g, [2, 3, 4], a2, a3);
    TransposeFromStep(g, [3, 4], a3, a4);
    TransposeFromStep(g, [4], a4, InitKey(a4, 4));
    TransposeDoctestState();
  }

  /** The `get_transposed` doctest. */
  lemma TransposeDoctest()
    ensures Transpose(CycleWithIsolated())
            == Graph([0, 1, 2, 3, 4], map[0 := [3], 1 := [0], 2 := [1], 3 := [2], 4 := []])
  {
    var g := CycleWithIsolated();
    assert Valid(g);
    TransposeDoctestRun(g);
  }
}
