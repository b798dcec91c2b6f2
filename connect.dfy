/**
 * check_connect: are all islands joined by the built bridges? The adjacency
 * lists are built from the solution, then a depth-first search from the
 * smallest island id marks what it reaches.
 */
module Connect {
  import opened Interpret

  /** The ids 1..k of the island table. */
  function Ids(k: nat): set<int>
  {
    if k == 0 then {} else Ids(k - 1) + {k}
  }

  lemma {:induction false} IdsSpec(k: nat)
    ensures forall id :: id in Ids(k) <==> 1 <= id <= k
    ensures |Ids(k)| == k
  {
    if k > 0 {
      IdsSpec(k - 1);
    }
  }

  /** The keys of the adjacency map are the island ids 1..k. */
  ghost predicate IdsOf(graph: map<int, seq<int>>, k: nat)
  {
    forall u :: u in graph <==> 1 <= u <= k
  }

  /** Islands u and w are joined by an entry of sol with a positive count. */
  predicate Edge(sol: seq<Built>, u: int, w: int)
  {
    exists k :: 0 <= k < |sol| && sol[k].count > 0 &&
      ((sol[k].i == u && sol[k].j == w) || (sol[k].i == w && sol[k].j == u))
  }

  /** A walk along built bridges. */
  predicate IsPath(sol: seq<Built>, p: seq<int>)
  {
    |p| > 0 && forall k :: 0 <= k < |p| - 1 ==> Edge(sol, p[k], p[k + 1])
  }

  ghost predicate Reachable(sol: seq<Built>, u: int, w: int)
  {
    exists p :: IsPath(sol, p) && p[0] == u && p[|p| - 1] == w
  }

  /** Every island 1..k can be reached from island 1. */
  ghost predicate Connected(sol: seq<Built>, k: nat)
  {
    forall w :: 1 <= w <= k ==> Reachable(sol, 1, w)
  }

  lemma ReachableRefl(sol: seq<Built>, u: int)
    ensures Reachable(sol, u, u)
  {
    assert IsPath(sol, [u]);
  }

  lemma ReachableStep(sol: seq<Built>, u: int, v: int, w: int)
    requires Edge(sol, u, v) && Reachable(sol, v, w)
    ensures Reachable(sol, u, w)
  {
    var p :| IsPath(sol, p) && p[0] == v && p[|p| - 1] == w;
    var q := [u] + p;
    forall k | 0 <= k < |q| - 1 ensures Edge(sol, q[k], q[k + 1]) {
      if k > 0 {
        assert q[k] == p[k - 1] && q[k + 1] == p[k];
      }
    }
    assert IsPath(sol, q);
  }

  /** A set that holds u and is closed under built bridges holds every island reachable from u. */
  lemma {:induction false} ClosedHoldsReachable(sol: seq<Built>, s: set<int>, p: seq<int>)
    requires IsPath(sol, p) && p[0] in s
    requires forall x, y :: x in s && Edge(sol, x, y) ==> y in s
    ensures p[|p| - 1] in s
    decreases |p|
  {
    if |p| > 1 {
      var init := p[..|p| - 1];
      assert IsPath(sol, init) by {
        forall k | 0 <= k < |init| - 1 ensures Edge(sol, init[k], init[k + 1]) {
          assert init[k] == p[k] && init[k + 1] == p[k + 1];
        }
      }
      ClosedHoldsReachable(sol, s, init);
      assert Edge(sol, p[|p| - 2], p[|p| - 1]);
    }
  }

  /** graph[u] after the first n entries of the solution: j for each (u, j), then i for each (i, u). */
  function Adjacency(sol: seq<Built>, n: nat, u: int): seq<int>
    requires n <= |sol|
  {
    if n == 0 then []
    else
      var e := sol[n - 1];
      var afterI := Adjacency(sol, n - 1, u) + (if e.count > 0 && e.i == u then [e.j] else []);
      afterI + (if e.count > 0 && e.j == u then [e.i] else [])
  }

  lemma AdjacencyNext(sol: seq<Built>, n: nat, u: int)
    requires n < |sol|
    ensures var e := sol[n];
      Adjacency(sol, n + 1, u) == Adjacency(sol, n, u) +
        (if e.count > 0 && e.i == u then [e.j] else []) + (if e.count > 0 && e.j == u then [e.i] else [])
  {
  }

  /** Islands u and w are joined by one of the first n entries. */
  predicate EdgeIn(sol: seq<Built>, n: nat, u: int, w: int)
    requires n <= |sol|
  {
    exists k :: 0 <= k < n && sol[k].count > 0 &&
      ((sol[k].i == u && sol[k].j == w) || (sol[k].i == w && sol[k].j == u))
  }

  /** The adjacency list of u holds exactly the islands u shares a built bridge with. */
  lemma {:induction false} AdjacencyEdges(sol: seq<Built>, n: nat, u: int)
    requires n <= |sol|
    ensures forall w :: w in Adjacency(sol, n, u) <==> EdgeIn(sol, n, u, w)
  {
    if n > 0 {
      AdjacencyEdges(sol, n - 1, u);
      var e := sol[n - 1];
      forall w ensures w in Adjacency(sol, n, u) <==> EdgeIn(sol, n, u, w) {
        if EdgeIn(sol, n, u, w) && !EdgeIn(sol, n - 1, u, w) {
          var k :| 0 <= k < n && sol[k].count > 0 &&
            ((sol[k].i == u && sol[k].j == w) || (sol[k].i == w && sol[k].j == u));
          assert k == n - 1;
        }
      }
    }
  }

  /** Every solution entry with a positive count joins two islands of 1..k. */
  predicate EndsAreIslands(sol: seq<Built>, k: nat)
  {
    forall t :: 0 <= t < |sol| && sol[t].count > 0 ==> 1 <= sol[t].i <= k && 1 <= sol[t].j <= k
  }

  /** The adjacency map after the first n entries: island ids 1..k, each with its list. */
  function GraphOf(sol: seq<Built>, n: nat, k: nat): map<int, seq<int>>
    requires n <= |sol|
  {
    map u | u in Ids(k) :: Adjacency(sol, n, u)
  }

  /**
   * graph = {i: [] for i in islands}; for each (i, j) with count > 0:
   * graph[i].append(j); graph[j].append(i). An endpoint outside the table
   * would raise KeyError; the table's ids are 1..k.
   */
  method BuildGraph(sol: seq<Built>, k: nat) returns (graph: map<int, seq<int>>)
    requires EndsAreIslands(sol, k)
    ensures graph == GraphOf(sol, |sol|, k)
  {
    graph := map id | id in Ids(k) :: [];
    assert graph == GraphOf(sol, 0, k);
    for n := 0 to |sol|
      invariant graph == GraphOf(sol, n, k)
    {
      graph := AddEntry(graph, sol, n, k);
    }
  }

  /** One iteration: the entry sol[n] extends the adjacency lists when its count is positive. */
  method AddEntry(graph: map<int, seq<int>>, sol: seq<Built>, n: nat, k: nat) returns (graph': map<int, seq<int>>)
    requires n < |sol| && EndsAreIslands(sol, k)
    requires graph == GraphOf(sol, n, k)
    ensures graph' == GraphOf(sol, n + 1, k)
  {
    var e := sol[n];
    graph' := graph;
    if e.count > 0 {
      IdsSpec(k);
      graph' := AddEdge(graph, e.i, e.j);
    }
    forall u | u in graph' ensures graph'[u] == GraphOf(sol, n + 1, k)[u] {
      AdjacencyNext(sol, n, u);
    }
  }

  /** graph[i].append(j); graph[j].append(i) */
  method AddEdge(graph: map<int, seq<int>>, i: int, j: int) returns (graph': map<int, seq<int>>)
    requires i in graph && j in graph
    ensures graph'.Keys == graph.Keys
    ensures forall u :: u in graph ==>
      graph'[u] == graph[u] + (if i == u then [j] else []) + (if j == u then [i] else [])
  {
    graph' := graph[i := graph[i] + [j]];
    graph' := graph'[j := graph'[j] + [i]];
  }

  /** Every listed neighbour is an island of the graph joined by a built bridge. */
  predicate ListsEdges(graph: map<int, seq<int>>, sol: seq<Built>)
  {
    forall u, w :: u in graph && w in graph[u] ==> w in graph && Edge(sol, u, w)
  }

  /**
   * dfs(u): visited.add(u), then dfs(v) for each neighbour v not yet
   * visited. The nodes it adds are reachable from u, and every node it adds
   * has all its neighbours visited when it returns.
   */
  method Dfs(graph: map<int, seq<int>>, ghost sol: seq<Built>, u: int, visited: set<int>) returns (visited': set<int>)
    requires ListsEdges(graph, sol)
    requires u in graph && u !in visited && visited <= graph.Keys
    ensures visited + {u} <= visited' <= graph.Keys
    ensures forall w :: w in visited' - visited ==> Reachable(sol, u, w)
    ensures forall w, x :: w in visited' - visited && x in graph[w] ==> x in visited'
    decreases graph.Keys - visited
  {
    visited' := visited + {u};
    ReachableRefl(sol, u);
    var adj := graph[u];
    for k := 0 to |adj|
      invariant visited + {u} <= visited' <= graph.Keys
      invariant forall w :: w in visited' - visited ==> Reachable(sol, u, w)
      invariant forall w, x :: w in visited' - visited && w != u && x in graph[w] ==> x in visited'
      invariant forall x :: x in adj[..k] ==> x in visited'
    {
      var v := adj[k];
      assert adj[..k + 1] == adj[..k] + [v];
      if v !in visited' {
        ghost var before := visited';
        visited' := Dfs(graph, sol, v, visited');
        forall w | w in visited' - before ensures Reachable(sol, u, w) {
          ReachableStep(sol, u, v, w);
        }
      }
    }
    assert adj[..|adj|] == adj;
  }

  /**
   * check_connect: DFS from min(islands) = 1 and compare the number of
   * visited islands with the number of islands. An empty table would make
   * min raise ValueError.
   */
  method CheckConnect(sol: seq<Built>, k: nat) returns (connected: bool)
    requires k > 0 && EndsAreIslands(sol, k)
    ensures connected <==> Connected(sol, k)
  {
    var graph := BuildGraph(sol, k);
    GraphKeys(sol, |sol|, k);
    GraphListsEdges(sol, k);
    GraphHasEdges(sol, k);
    var start := 1;
    var visited := Dfs(graph, sol, start, {});
    connected := |visited| == k;
    CountDecides(graph, sol, k, visited);
  }

  lemma GraphKeys(sol: seq<Built>, n: nat, k: nat)
    requires n <= |sol|
    ensures IdsOf(GraphOf(sol, n, k), k)
  {
    IdsSpec(k);
  }

  /** Every island on an adjacency list is joined to the island of that list. */
  lemma GraphListsEdges(sol: seq<Built>, k: nat)
    requires EndsAreIslands(sol, k)
    ensures ListsEdges(GraphOf(sol, |sol|, k), sol)
  {
    var graph := GraphOf(sol, |sol|, k);
    IdsSpec(k);
    forall u, w | u in graph && w in graph[u] ensures w in graph && Edge(sol, u, w) {
      AdjacencyListed(sol, k, u, w);
    }
  }

  /** Every island joined to an island of the graph is on its adjacency list. */
  lemma GraphHasEdges(sol: seq<Built>, k: nat)
    ensures var graph := GraphOf(sol, |sol|, k);
      forall x, y :: x in graph && Edge(sol, x, y) ==> y in graph[x]
  {
    var graph := GraphOf(sol, |sol|, k);
    forall x, y | x in graph && Edge(sol, x, y) ensures y in graph[x] {
      EdgeListed(sol, x, y);
    }
  }

  /** An island on the adjacency list of u is an island joined to u. */
  lemma AdjacencyListed(sol: seq<Built>, k: nat, u: int, w: int)
    requires EndsAreIslands(sol, k) && w in Adjacency(sol, |sol|, u)
    ensures 1 <= w <= k && Edge(sol, u, w)
  {
    AdjacencyEdges(sol, |sol|, u);
    var t :| 0 <= t < |sol| && sol[t].count > 0 &&
      ((sol[t].i == u && sol[t].j == w) || (sol[t].i == w && sol[t].j == u));
  }

  /** An island joined to x is on the adjacency list of x. */
  lemma EdgeListed(sol: seq<Built>, x: int, y: int)
    requires Edge(sol, x, y)
    ensures y in Adjacency(sol, |sol|, x)
  {
    AdjacencyEdges(sol, |sol|, x);
    var t :| 0 <= t < |sol| && sol[t].count > 0 &&
      ((sol[t].i == x && sol[t].j == y) || (sol[t].i == y && sol[t].j == x));
    assert EdgeIn(sol, |sol|, x, y);
  }

  /**
   * The visited set holds island 1, only islands reachable from it, and is
   * closed under built bridges; so it has k elements exactly when every
   * island is reachable.
   */
  lemma CountDecides(graph: map<int, seq<int>>, sol: seq<Built>, k: nat, visited: set<int>)
    requires IdsOf(graph, k) && 1 in visited && visited <= graph.Keys
    requires forall w :: w in visited ==> Reachable(sol, 1, w)
    requires forall w, x :: w in visited && x in graph[w] ==> x in visited
    requires forall x, y :: x in graph && Edge(sol, x, y) ==> y in graph[x]
    ensures |visited| == k <==> Connected(sol, k)
  {
    IdsSpec(k);
    forall w | w in visited ensures w in Ids(k) {
      assert w in graph;
    }
    if visited != Ids(k) {
      var w := Missing(visited, Ids(k));
      MissingShrinks(visited, Ids(k), w);
      if Reachable(sol, 1, w) {
        var p :| IsPath(sol, p) && p[0] == 1 && p[|p| - 1] == w;
        ClosedHoldsReachable(sol, visited, p);
      }
    }
  }

  lemma MissingShrinks(a: set<int>, b: set<int>, w: int)
    requires a <= b && w in b && w !in a
    ensures |a| < |b|
  {
    var rest := b - {w};
    SubsetSize(a, rest);
    assert b == rest + {w};
  }

  lemma SubsetSize(a: set<int>, b: set<int>)
    requires a <= b
    ensures |a| <= |b|
    decreases |b|
  {
    if b != {} {
      if forall y :: y !in b {
        assert false;
      }
      var x :| x in b;
      var b', a' := b - {x}, a - {x};
      assert b == b' + {x};
      SubsetSize(a', b');
      if x in a {
        assert a == a' + {x};
      } else {
        assert a == a';
      }
    } else {
      assert a == {};
    }
  }

  /** An element of the larger of two different nested sets that the smaller lacks. */
  lemma Missing(a: set<int>, b: set<int>) returns (w: int)
    requires a <= b && a != b
    ensures w in b && w !in a
  {
    if forall y :: y in b ==> y in a {
      assert false;
    }
    w :| w in b && w !in a;
  }
}
