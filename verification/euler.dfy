/**
 * `has_euler_cycle`: the degree-balance test. One counter per vertex (a
 * `defaultdict` starting at 0) gains the length of the vertex's own list and
 * loses one for every occurrence of the vertex in any list; the graph passes
 * when no counter is non-zero.
 *
 * Unlike `dfs`, this utility needs no closure: a successor that is not a key
 * simply gets a counter of its own.
 */
module EulerCycle {
  import opened Graphs

  /** Reading a `defaultdict(lambda: 0)`: a missing vertex counts as 0. */
  function Lookup(deg: map<int, int>, v: int): int
  {
    if v in deg then deg[v] else 0
  }

  /** `deg[v] += d` on the defaultdict. */
  function Bump(deg: map<int, int>, v: int, d: int): map<int, int>
  {
    deg[v := Lookup(deg, v) + d]
  }

  /** The inner loop: one decrement per entry of a successor list. */
  function Discount(deg: map<int, int>, succ: seq<int>): map<int, int>
    decreases |succ|
  {
    if succ == [] then deg else Discount(Bump(deg, succ[0], -1), succ[1..])
  }

  /** The outer loop over the remaining keys, in key order. */
  function TallyFrom(g: Graph, rest: seq<int>, deg: map<int, int>): map<int, int>
    requires forall u :: u in rest ==> u in g.adj
  {
    if rest == [] then deg
    else
      var u := rest[0];
      TallyFrom(g, rest[1..], Discount(Bump(deg, u, |g.adj[u]|), g.adj[u]))
  }

  /** The counter the utility has built when its loops finish. */
  function DegreeBalance(g: Graph): map<int, int>
    requires Valid(g)
  {
    TallyFrom(g, g.keys, map[])
  }

  /** `not any(vertices_degree.values())`. */
  function HasEulerCycle(g: Graph): bool
    requires Valid(g)
  {
    var deg := DegreeBalance(g);
    forall v :: v in deg ==> deg[v] == 0
  }

  // Reference degrees, defined without any counter.

  function OutDegree(g: Graph, v: int): nat
  {
    |Entry(g.adj, v)|
  }

  /** Occurrences of `v` in the lists of the vertices of `rest`. */
  function InDegreeOver(g: Graph, rest: seq<int>, v: int): nat
    requires forall u :: u in rest ==> u in g.adj
  {
    if rest == [] then 0
    else
      var u := rest[0];
      Count(g.adj[u], v) + InDegreeOver(g, rest[1..], v)
  }

  function InDegree(g: Graph, v: int): nat
    requires Valid(g)
  {
    InDegreeOver(g, g.keys, v)
  }

  ghost predicate Balanced(g: Graph)
    requires Valid(g)
  {
    forall v :: OutDegree(g, v) == InDegree(g, v)
  }

  lemma {:induction false} DiscountLookup(deg: map<int, int>, succ: seq<int>, v: int)
    ensures Lookup(Discount(deg, succ), v) == Lookup(deg, v) - Count(succ, v)
    decreases |succ|
  {
    if succ != [] {
      DiscountLookup(Bump(deg, succ[0], -1), succ[1..], v);
      assert succ == [succ[0]] + succ[1..];
      assert multiset(succ) == multiset{succ[0]} + multiset(succ[1..]);
    }
  }

  /** Each counter of the outer loop moves by the vertex's own out-degree minus what the lists add up to. */
  lemma {:induction false} TallyFromLookup(g: Graph, rest: seq<int>, deg: map<int, int>, v: int)
    requires forall u :: u in rest ==> u in g.adj
    requires Distinct(rest)
    ensures Lookup(TallyFrom(g, rest, deg), v)
         == Lookup(deg, v) + (if v in rest then |g.adj[v]| else 0) - InDegreeOver(g, rest, v)
    decreases |rest|
  {
    if rest != [] {
      var u := rest[0];
      var deg' := Discount(Bump(deg, u, |g.adj[u]|), g.adj[u]);
      DiscountLookup(Bump(deg, u, |g.adj[u]|), g.adj[u], v);
      assert Distinct(rest[1..]) by {
        forall i, j | 0 <= i < j < |rest[1..]|
          ensures rest[1..][i] != rest[1..][j]
        {
          assert rest[1..][i] == rest[i + 1] && rest[1..][j] == rest[j + 1];
        }
      }
      TallyFromLookup(g, rest[1..], deg', v);
      if v == u {
        assert v !in rest[1..] by {
          forall j | 0 <= j < |rest[1..]|
            ensures rest[1..][j] != u
          {
            assert rest[1..][j] == rest[j + 1];
          }
        }
      } else {
        assert v in rest <==> v in rest[1..] by {
          assert rest == [u] + rest[1..];
        }
      }
    }
  }

  /** The counter of every vertex is its out-degree minus its in-degree. */
  lemma BalanceIsNet(g: Graph, v: int)
    requires Valid(g)
    ensures Lookup(DegreeBalance(g), v) == OutDegree(g, v) - InDegree(g, v)
  {
    TallyFromLookup(g, g.keys, map[], v);
  }

  /** The verdict holds exactly when every vertex has equal in- and out-degree. */
  lemma HasEulerCycleIffBalanced(g: Graph)
    requires Valid(g)
    ensures HasEulerCycle(g) <==> Balanced(g)
  {
    var deg := DegreeBalance(g);
    if HasEulerCycle(g) {
      forall v
        ensures OutDegree(g, v) == InDegree(g, v)
      {
        BalanceIsNet(g, v);
      }
    }
    if Balanced(g) {
      forall v | v in deg
        ensures deg[v] == 0
      {
        BalanceIsNet(g, v);
      }
    }
  }

  lemma {:induction false} InDegreeOverEdgeless(g: Graph, rest: seq<int>, v: int)
    requires forall u :: u in rest ==> u in g.adj && g.adj[u] == []
    ensures InDegreeOver(g, rest, v) == 0
    decreases |rest|
  {
    if rest != [] {
      assert rest[0] in rest;
      InDegreeOverEdgeless(g, rest[1..], v);
    }
  }

  /** Without edges every counter stays 0; the empty graph is the smallest case. */
  lemma EdgelessHasEulerCycle(g: Graph)
    requires Valid(g)
    requires forall u :: u in g.adj ==> g.adj[u] == []
    ensures HasEulerCycle(g)
  {
    forall v
      ensures OutDegree(g, v) == InDegree(g, v)
    {
      InDegreeOverEdgeless(g, g.keys, v);
    }
    HasEulerCycleIffBalanced(g);
  }

  lemma {:induction false} InDegreeOverAppend(g: Graph, a: seq<int>, b: seq<int>, v: int)
    requires forall u :: u in a ==> u in g.adj
    requires forall u :: u in b ==> u in g.adj
    ensures forall u :: u in a + b ==> u in g.adj
    ensures InDegreeOver(g, a + b, v) == InDegreeOver(g, a, v) + InDegreeOver(g, b, v)
    decreases |a|
  {
    if a != [] {
      assert (a + b)[0] == a[0] && (a + b)[1..] == a[1..] + b;
      InDegreeOverAppend(g, a[1..], b, v);
    } else {
      assert a + b == b;
    }
  }

  /** Taking one key out of the order takes its list's share out of the in-degree. */
  lemma InDegreeOverRemove(g: Graph, t: seq<int>, i: int, v: int)
    requires forall u :: u in t ==> u in g.adj
    requires 0 <= i < |t|
    ensures forall u :: u in t[..i] + t[i + 1..] ==> u in g.adj
    ensures multiset(t[..i] + t[i + 1..]) == multiset(t) - multiset{t[i]}
    ensures InDegreeOver(g, t, v) == Count(g.adj[t[i]], v) + InDegreeOver(g, t[..i] + t[i + 1..], v)
  {
    var a, b := t[..i], t[i + 1..];
    assert t == a + ([t[i]] + b);
    assert forall u :: u in a + b ==> u in t;
    assert multiset(t) == multiset(a) + multiset{t[i]} + multiset(b);
    InDegreeOverAppend(g, a, b, v);
    InDegreeOverAppend(g, a, [t[i]] + b, v);
    assert ([t[i]] + b)[1..] == b;
  }

  /** In-degrees depend only on which keys there are, not on their order. */
  lemma {:induction false} InDegreeOverPermutation(g: Graph, h: Graph, s: seq<int>, t: seq<int>, v: int)
    requires forall u :: u in s ==> u in g.adj
    requires forall u :: u in t ==> u in h.adj
    requires multiset(s) == multiset(t)
    requires forall u :: u in g.adj ==> u in h.adj && multiset(g.adj[u]) == multiset(h.adj[u])
    ensures InDegreeOver(g, s, v) == InDegreeOver(h, t, v)
    decreases |s|
  {
    if s == [] {
      assert |t| == |multiset(t)| == 0;
    } else {
      var u := s[0];
      assert u in multiset(t) by {
        assert s == [u] + s[1..];
      }
      var i :| 0 <= i < |t| && t[i] == u;
      var t' := t[..i] + t[i + 1..];
      InDegreeOverRemove(h, t, i, v);
      assert multiset(s[1..]) == multiset(s) - multiset{u} by {
        assert s == [u] + s[1..];
      }
      InDegreeOverPermutation(g, h, s[1..], t', v);
      assert Count(g.adj[u], v) == Count(h.adj[u], v);
    }
  }

  /**
   * Reordering the keys, or the entries of any list, leaves the verdict
   * unchanged: only the counts matter.
   */
  lemma EulerVerdictIgnoresOrder(g: Graph, h: Graph)
    requires Valid(g) && Valid(h)
    requires multiset(g.keys) == multiset(h.keys)
    requires forall u :: u in g.adj ==> u in h.adj && multiset(g.adj[u]) == multiset(h.adj[u])
    ensures HasEulerCycle(g) == HasEulerCycle(h)
  {
    forall v
      ensures OutDegree(g, v) == OutDegree(h, v) && InDegree(g, v) == InDegree(h, v)
    {
      if v in g.adj {
        assert |g.adj[v]| == |multiset(g.adj[v])| == |multiset(h.adj[v])| == |h.adj[v]|;
      } else {
        assert v !in multiset(g.keys);
        assert v !in h.adj;
      }
      InDegreeOverPermutation(g, h, g.keys, h.keys, v);
    }
    HasEulerCycleIffBalanced(g);
    HasEulerCycleIffBalanced(h);
  }

  /** The 4-cycle 0 -> 1 -> 2 -> 3 -> 0. */
  function FourCycle(): Graph
  {
    Graph([0, 1, 2, 3], map[0 := [1], 1 := [2], 2 := [3], 3 := [0]])
  }

  /** The 4-cycle with the extra edge 1 -> 3. */
  function FourCycleWithChord(): Graph
  {
    Graph([0, 1, 2, 3], map[0 := [1], 1 := [2, 3], 2 := [3], 3 := [0]])
  }

  /** The in-degree over the key order 0, 1, 2, 3, written out. */
  lemma FourKeysInDegree(g: Graph, v: int)
    requires g.keys == [0, 1, 2, 3] && g.adj.Keys == {0, 1, 2, 3}
    requires Valid(g)
    ensures InDegree(g, v)
         == Count(g.adj[0], v) + Count(g.adj[1], v) + Count(g.adj[2], v) + Count(g.adj[3], v)
  {
    var k := g.keys;
    assert k[1..] == [1, 2, 3] && k[1..][1..] == [2, 3] && k[1..][1..][1..] == [3];
    assert InDegreeOver(g, [3], v) == Count(g.adj[3], v) + InDegreeOver(g, [], v);
    assert InDegreeOver(g, [2, 3], v) == Count(g.adj[2], v) + InDegreeOver(g, [3], v);
    assert InDegreeOver(g, [1, 2, 3], v) == Count(g.adj[1], v) + InDegreeOver(g, [2, 3], v);
  }

  lemma FourCycleBalanced(g: Graph)
    requires g.keys == [0, 1, 2, 3] && g.adj.Keys == {0, 1, 2, 3}
    requires g.adj[0] == [1] && g.adj[1] == [2] && g.adj[2] == [3] && g.adj[3] == [0]
    requires Valid(g)
    ensures Balanced(g)
  {
    forall v
      ensures OutDegree(g, v) == InDegree(g, v)
    {
      FourKeysInDegree(g, v);
      assert Count([1], v) == if v == 1 then 1 else 0;
      assert Count([2], v) == if v == 2 then 1 else 0;
      assert Count([3], v) == if v == 3 then 1 else 0;
      assert Count([0], v) == if v == 0 then 1 else 0;
    }
  }

  /** Vertex 3 has two incoming edges and one outgoing edge. */
  lemma ChordUnbalanced(g: Graph)
    requires g.keys == [0, 1, 2, 3] && g.adj.Keys == {0, 1, 2, 3}
    requires g.adj[0] == [1] && g.adj[1] == [2, 3] && g.adj[2] == [3] && g.adj[3] == [0]
    requires Valid(g)
    ensures OutDegree(g, 3) == 1 && InDegree(g, 3) == 2
  {
    FourKeysInDegree(g, 3);
    assert multiset([2, 3])[3] == 1;
  }

  /** The two `has_euler_cycle` doctests. */
  lemma EulerDoctest()
    ensures Valid(FourCycle()) && HasEulerCycle(FourCycle())
    ensures Valid(FourCycleWithChord()) && !HasEulerCycle(FourCycleWithChord())
  {
    var g, h := FourCycle(), FourCycleWithChord();
    assert Distinct(g.keys) && Distinct(h.keys);
    FourCycleBalanced(g);
    HasEulerCycleIffBalanced(g);
    ChordUnbalanced(h);
    HasEulerCycleIffBalanced(h);
  }
}
