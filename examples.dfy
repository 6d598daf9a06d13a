// The concrete scenarios of tests/test_algorithms.py, stated about the model:
// the undirected graphs the tests build with `add_edge`, the distances the
// shortest-path test expects, and the breadth-first and depth-first print
// orders.
module Scenarios {
  import opened Common
  import opened Paths
  import opened GraphOps
  import DepthFirst
  import BreadthFirst
  import DijkstraSearch

  /** `add_edge(1, 2, 2)`, `add_edge(1, 3, 4)`, `add_edge(2, 3, 1)` and
      `add_edge(2, 4, 7)` on an empty undirected graph. */
  function WeightedGraph(): Adjacency
  {
    AddedEdge(AddedEdge(AddedEdge(AddedEdge(map[], false, 1, 2, 2), false, 1, 3, 4), false, 2, 3, 1), false, 2, 4, 7)
  }

  /** An undirected `add_edge` between two different nodes appends one entry to
      each endpoint's list. */
  lemma AddedEdgeUndirected(adj: Adjacency, a: Id, b: Id, w: Weight)
    requires a != b
    ensures AddedEdge(adj, false, a, b, w)
         == adj[a := Common.GetNeighbors(adj, a) + [(b, w)]][b := Common.GetNeighbors(adj, b) + [(a, w)]]
  {
  }

  /** The lists `add_edge` builds, in insertion order. */
  function WeightedLists(): Adjacency
  {
    map[1 := [(2, 2), (3, 4)], 2 := [(1, 2), (3, 1), (4, 7)], 3 := [(1, 4), (2, 1)], 4 := [(2, 7)]]
  }

  /** One undirected `add_edge(a, b, w)` step on concrete lists. */
  lemma AddStep(adj: Adjacency, a: Id, b: Id, w: Weight, la: Neighbours, lb: Neighbours, adj': Adjacency)
    requires a != b
    requires Common.GetNeighbors(adj, a) + [(b, w)] == la
    requires Common.GetNeighbors(adj[a := la], b) + [(a, w)] == lb
    requires adj' == adj[a := la][b := lb]
    ensures AddedEdge(adj, false, a, b, w) == adj'
  {
    AddedEdgeUndirected(adj, a, b, w);
  }

  /** The first two `add_edge` calls of the shortest-path test. */
  lemma WeightedFirstEdges()
    ensures AddedEdge(AddedEdge(map[], false, 1, 2, 2), false, 1, 3, 4)
         == map[1 := [(2, 2), (3, 4)], 2 := [(1, 2)], 3 := [(1, 4)]]
  {
    var g0: Adjacency := map[];
    var g1 := map[1 := [(2, 2)], 2 := [(1, 2)]];
    var g2 := map[1 := [(2, 2), (3, 4)], 2 := [(1, 2)], 3 := [(1, 4)]];
    assert Common.GetNeighbors(g0, 1) == [] && Common.GetNeighbors(g0[1 := [(2, 2)]], 2) == [];
    AddStep(g0, 1, 2, 2, [(2, 2)], [(1, 2)], g1);
    assert Common.GetNeighbors(g1, 1) == [(2, 2)] && Common.GetNeighbors(g1[1 := [(2, 2), (3, 4)]], 3) == [];
    AddStep(g1, 1, 3, 4, [(2, 2), (3, 4)], [(1, 4)], g2);
  }

  lemma WeightedGraphLists()
    ensures WeightedGraph() == WeightedLists()
  {
    var g2 := map[1 := [(2, 2), (3, 4)], 2 := [(1, 2)], 3 := [(1, 4)]];
    var g3 := map[1 := [(2, 2), (3, 4)], 2 := [(1, 2), (3, 1)], 3 := [(1, 4), (2, 1)]];
    WeightedFirstEdges();
    assert Common.GetNeighbors(g2, 2) == [(1, 2)] && Common.GetNeighbors(g2[2 := [(1, 2), (3, 1)]], 3) == [(1, 4)];
    AddStep(g2, 2, 3, 1, [(1, 2), (3, 1)], [(1, 4), (2, 1)], g3);
    assert Common.GetNeighbors(g3, 2) == [(1, 2), (3, 1)] && Common.GetNeighbors(g3[2 := [(1, 2), (3, 1), (4, 7)]], 4) == [];
    AddStep(g3, 2, 4, 7, [(1, 2), (3, 1), (4, 7)], [(2, 7)], WeightedLists());
  }

  /** The distances the test expects from node 1. */
  function Expected(): map<Id, Dist>
  {
    map[1 := Fin(0), 2 := Fin(2), 3 := Fin(3), 4 := Fin(9)]
  }

  /** Every expected distance is the weight of a walk from node 1. */
  lemma ExpectedIsSound()
    ensures Sound(WeightedLists(), Expected(), 1)
  {
    var adj := WeightedLists();
    assert IsWalk(adj, 1, [], 1) && Paths.Weight([]) == 0;
    assert IsWalk(adj, 1, [(2, 2)], 2) by {
      assert StepOk(adj, 1, [(2, 2)], 0);
    }
    assert Paths.Weight([(2, 2)]) == 2;
    assert IsWalk(adj, 1, [(2, 2), (3, 1)], 3) by {
      assert StepOk(adj, 1, [(2, 2), (3, 1)], 0);
      assert StepOk(adj, 1, [(2, 2), (3, 1)], 1);
    }
    assert Paths.Weight([(2, 2), (3, 1)]) == 3 by {
      assert [(2, 2), (3, 1)][..1] == [(2, 2)];
    }
    assert IsWalk(adj, 1, [(2, 2), (4, 7)], 4) by {
      assert StepOk(adj, 1, [(2, 2), (4, 7)], 0);
      assert StepOk(adj, 1, [(2, 2), (4, 7)], 1);
    }
    assert Paths.Weight([(2, 2), (4, 7)]) == 9 by {
      assert [(2, 2), (4, 7)][..1] == [(2, 2)];
    }
  }

  /** No edge of the test graph can lower an expected distance. */
  lemma ExpectedIsRelaxed()
    ensures AllRelaxed(WeightedLists(), Expected())
  {
    var adj, dist := WeightedLists(), Expected();
    assert Relaxed(adj, dist, 1);
    assert Relaxed(adj, dist, 2);
    assert Relaxed(adj, dist, 3);
    assert Relaxed(adj, dist, 4);
  }

  /** Each expected distance is the least walk weight from node 1. */
  lemma ExpectedIsShortest()
    ensures forall t :: t in Expected() ==> Shortest(WeightedLists(), 1, t, Expected()[t])
  {
    ExpectedIsSound();
    ExpectedIsRelaxed();
    forall t | t in Expected()
      ensures Shortest(WeightedLists(), 1, t, Expected()[t])
    {
      RelaxedIsShortest(WeightedLists(), Expected(), 1, t);
    }
  }

  /** Any map of least walk weights from node 1 over the test graph's nodes
      (what both Dijkstras return) is `{1: 0, 2: 2, 3: 3, 4: 9}`. */
  lemma DijkstraScenario(d: map<Id, Dist>)
    requires d.Keys == WeightedGraph().Keys
    requires forall t :: t in d ==> Shortest(WeightedGraph(), 1, t, d[t])
    ensures d == Expected()
  {
    WeightedGraphLists();
    ExpectedIsShortest();
    forall t | t in d
      ensures d[t] == Expected()[t]
    {
      ShortestUnique(WeightedLists(), 1, t, d[t], Expected()[t]);
    }
  }

  /** The test graph's weights are non-negative. */
  lemma WeightedGraphNonNegative()
    ensures NonNegative(WeightedGraph())
  {
    WeightedListsNonNegative(WeightedLists());
    WeightedGraphLists();
  }

  lemma WeightedListsNonNegative(adj: Adjacency)
    requires adj == WeightedLists()
    ensures NonNegative(adj)
  {
  }

  /** Read through `graph.nodes` and `graph.get_edges`, the test graph has the
      same adjacency, so `dijkstra` of src/algorithms, whose result is the least
      walk weights on non-negative weights, returns the expected distances. */
  lemma AlgorithmsDijkstraScenario(gr: DijkstraSearch.EdgeGraph, d: map<Id, Dist>)
    requires gr == DijkstraSearch.FromAdjacency(WeightedGraph(), false)
    requires d.Keys == gr.nodes
    requires NonNegative(DijkstraSearch.Adj(gr)) ==>
      forall t :: t in d ==> Shortest(DijkstraSearch.Adj(gr), 1, t, d[t])
    ensures d == Expected()
  {
    DijkstraSearch.FromAdjacencyAgrees(WeightedGraph(), false);
    WeightedGraphNonNegative();
    DijkstraScenario(d);
  }

  /** `add_edge(1, 2)`, `add_edge(1, 3)`, `add_edge(2, 4)` and `add_edge(3, 5)`
      on an empty undirected graph. */
  function TreeGraph(): Adjacency
  {
    AddedEdge(AddedEdge(AddedEdge(AddedEdge(map[], false, 1, 2, 1), false, 1, 3, 1), false, 2, 4, 1), false, 3, 5, 1)
  }

  /** The lists `add_edge` builds for the traversal tests. */
  function TreeLists(): Adjacency
  {
    map[1 := [(2, 1), (3, 1)], 2 := [(1, 1), (4, 1)], 3 := [(1, 1), (5, 1)], 4 := [(2, 1)], 5 := [(3, 1)]]
  }

  /** The first two `add_edge` calls of the traversal tests. */
  lemma TreeFirstEdges()
    ensures AddedEdge(AddedEdge(map[], false, 1, 2, 1), false, 1, 3, 1)
         == map[1 := [(2, 1), (3, 1)], 2 := [(1, 1)], 3 := [(1, 1)]]
  {
    var g0: Adjacency := map[];
    var g1 := map[1 := [(2, 1)], 2 := [(1, 1)]];
    var g2 := map[1 := [(2, 1), (3, 1)], 2 := [(1, 1)], 3 := [(1, 1)]];
    assert Common.GetNeighbors(g0, 1) == [] && Common.GetNeighbors(g0[1 := [(2, 1)]], 2) == [];
    AddStep(g0, 1, 2, 1, [(2, 1)], [(1, 1)], g1);
    assert Common.GetNeighbors(g1, 1) == [(2, 1)] && Common.GetNeighbors(g1[1 := [(2, 1), (3, 1)]], 3) == [];
    AddStep(g1, 1, 3, 1, [(2, 1), (3, 1)], [(1, 1)], g2);
  }

  lemma TreeGraphLists()
    ensures TreeGraph() == TreeLists()
  {
    var g2 := map[1 := [(2, 1), (3, 1)], 2 := [(1, 1)], 3 := [(1, 1)]];
    var g3 := map[1 := [(2, 1), (3, 1)], 2 := [(1, 1), (4, 1)], 3 := [(1, 1)], 4 := [(2, 1)]];
    TreeFirstEdges();
    assert Common.GetNeighbors(g2, 2) == [(1, 1)] && Common.GetNeighbors(g2[2 := [(1, 1), (4, 1)]], 4) == [];
    AddStep(g2, 2, 4, 1, [(1, 1), (4, 1)], [(2, 1)], g3);
    assert Common.GetNeighbors(g3, 3) == [(1, 1)] && Common.GetNeighbors(g3[3 := [(1, 1), (5, 1)]], 5) == [];
    AddStep(g3, 3, 5, 1, [(1, 1), (5, 1)], [(3, 1)], TreeLists());
  }

  /** The helper call on 4, reached from 2. */
  lemma VisitFour()
    ensures DepthFirst.Visit(TreeLists(), 4, {1, 2}) == ({1, 2, 4}, [4])
  {
    var adj := TreeLists();
    var ns := [(2, 1)];
    assert Common.GetNeighbors(adj, 4) == ns && ns[0].0 == 2 && ns[1..] == [];
    DepthFirst.NeighboursAreIds(adj, 4);
    var f := DepthFirst.Visit(adj, 2, {1, 2, 4});
    var r := DepthFirst.VisitAll(adj, [], {1, 2, 4});
    assert f == ({1, 2, 4}, []) && r == ({1, 2, 4}, []);
    assert f.1 + r.1 == [];
    assert DepthFirst.VisitAll(adj, ns, {1, 2, 4}) == (r.0, f.1 + r.1);
    assert {1, 2} + {4} == {1, 2, 4} && [4] + [] == [4];
    assert DepthFirst.VisitAll(adj, Common.GetNeighbors(adj, 4), {1, 2} + {4}) == ({1, 2, 4}, []);
  }

  /** The helper call on 2, the first neighbour of 1. */
  lemma VisitTwo()
    ensures DepthFirst.Visit(TreeLists(), 2, {1}) == ({1, 2, 4}, [2, 4])
  {
    var adj := TreeLists();
    var ns := [(1, 1), (4, 1)];
    var ms := ns[1..];
    assert Common.GetNeighbors(adj, 2) == ns && ns[0].0 == 1 && ms == [(4, 1)] && ms[0].0 == 4 && ms[1..] == [];
    DepthFirst.NeighboursAreIds(adj, 2);
    VisitFour();
    var f1 := DepthFirst.Visit(adj, 1, {1, 2});
    var f2 := DepthFirst.Visit(adj, 4, {1, 2});
    var r := DepthFirst.VisitAll(adj, [], {1, 2, 4});
    assert f1 == ({1, 2}, []) && f2 == ({1, 2, 4}, [4]) && r == ({1, 2, 4}, []);
    assert DepthFirst.VisitAll(adj, ms, {1, 2}) == ({1, 2, 4}, [4] + []);
    assert [4] + [] == [4] && [] + [4] == [4];
    assert DepthFirst.VisitAll(adj, ns, {1, 2}) == ({1, 2, 4}, [] + [4]);
    assert {1} + {2} == {1, 2} && [2] + [4] == [2, 4];
    assert DepthFirst.VisitAll(adj, Common.GetNeighbors(adj, 2), {1} + {2}) == ({1, 2, 4}, [4]);
  }

  /** The helper call on 5, reached from 3. */
  lemma VisitFive()
    ensures DepthFirst.Visit(TreeLists(), 5, {1, 2, 3, 4}) == ({1, 2, 3, 4, 5}, [5])
  {
    var adj := TreeLists();
    var ns := [(3, 1)];
    assert Common.GetNeighbors(adj, 5) == ns && ns[0].0 == 3 && ns[1..] == [];
    DepthFirst.NeighboursAreIds(adj, 5);
    var f := DepthFirst.Visit(adj, 3, {1, 2, 3, 4, 5});
    var r := DepthFirst.VisitAll(adj, [], {1, 2, 3, 4, 5});
    assert f == ({1, 2, 3, 4, 5}, []) && r == ({1, 2, 3, 4, 5}, []);
    assert f.1 + r.1 == [];
    assert DepthFirst.VisitAll(adj, ns, {1, 2, 3, 4, 5}) == (r.0, f.1 + r.1);
    assert {1, 2, 3, 4} + {5} == {1, 2, 3, 4, 5} && [5] + [] == [5];
    assert DepthFirst.VisitAll(adj, Common.GetNeighbors(adj, 5), {1, 2, 3, 4} + {5}) == ({1, 2, 3, 4, 5}, []);
  }

  /** The helper call on 3, the second neighbour of 1. */
  lemma VisitThree()
    ensures DepthFirst.Visit(TreeLists(), 3, {1, 2, 4}) == ({1, 2, 3, 4, 5}, [3, 5])
  {
    var adj := TreeLists();
    var ns := [(1, 1), (5, 1)];
    var ms := ns[1..];
    assert Common.GetNeighbors(adj, 3) == ns && ns[0].0 == 1 && ms == [(5, 1)] && ms[0].0 == 5 && ms[1..] == [];
    DepthFirst.NeighboursAreIds(adj, 3);
    VisitFive();
    var f1 := DepthFirst.Visit(adj, 1, {1, 2, 3, 4});
    var f2 := DepthFirst.Visit(adj, 5, {1, 2, 3, 4});
    var r := DepthFirst.VisitAll(adj, [], {1, 2, 3, 4, 5});
    assert f1 == ({1, 2, 3, 4}, []) && f2 == ({1, 2, 3, 4, 5}, [5]) && r == ({1, 2, 3, 4, 5}, []);
    assert DepthFirst.VisitAll(adj, ms, {1, 2, 3, 4}) == ({1, 2, 3, 4, 5}, [5] + []);
    assert [5] + [] == [5] && [] + [5] == [5];
    assert DepthFirst.VisitAll(adj, ns, {1, 2, 3, 4}) == ({1, 2, 3, 4, 5}, [] + [5]);
    assert {1, 2, 4} + {3} == {1, 2, 3, 4} && [3] + [5] == [3, 5];
    assert DepthFirst.VisitAll(adj, Common.GetNeighbors(adj, 3), {1, 2, 4} + {3}) == ({1, 2, 3, 4, 5}, [5]);
  }

  /** The outer call on 1. */
  lemma VisitOne()
    ensures DepthFirst.Visit(TreeLists(), 1, {}) == ({1, 2, 3, 4, 5}, [1, 2, 4, 3, 5])
  {
    var adj := TreeLists();
    var ns := [(2, 1), (3, 1)];
    var ms := ns[1..];
    assert Common.GetNeighbors(adj, 1) == ns && ns[0].0 == 2 && ms == [(3, 1)] && ms[0].0 == 3 && ms[1..] == [];
    DepthFirst.NeighboursAreIds(adj, 1);
    VisitTwo();
    VisitThree();
    var f1 := DepthFirst.Visit(adj, 2, {1});
    var f2 := DepthFirst.Visit(adj, 3, {1, 2, 4});
    var r := DepthFirst.VisitAll(adj, [], {1, 2, 3, 4, 5});
    assert f1 == ({1, 2, 4}, [2, 4]) && f2 == ({1, 2, 3, 4, 5}, [3, 5]) && r == ({1, 2, 3, 4, 5}, []);
    assert DepthFirst.VisitAll(adj, ms, {1, 2, 4}) == ({1, 2, 3, 4, 5}, [3, 5] + []);
    assert [3, 5] + [] == [3, 5] && [2, 4] + [3, 5] == [2, 4, 3, 5];
    assert DepthFirst.VisitAll(adj, ns, {1}) == ({1, 2, 3, 4, 5}, [2, 4] + [3, 5]);
    assert {} + {1} == {1} && [1] + [2, 4, 3, 5] == [1, 2, 4, 3, 5];
    assert DepthFirst.VisitAll(adj, Common.GetNeighbors(adj, 1), {} + {1}) == ({1, 2, 3, 4, 5}, [2, 4, 3, 5]);
    assert DepthFirst.Visit(adj, 1, {}) == ({1, 2, 3, 4, 5}, [1, 2, 4, 3, 5]);
  }

  /** With lists in insertion order, `dfs(g, 1)` prints `1 2 4 3 5`, the first
      of the two orders the test accepts. */
  lemma DfsScenario()
    ensures DepthFirst.Order(TreeGraph(), 1) == [1, 2, 4, 3, 5]
  {
    TreeGraphLists();
    VisitOne();
  }

  // ---------------------------------------------------------------------------
  // `test_bfs`: the same graph, breadth first

  /** One round that prints an unvisited front `x` whose list is `ns`, leaving
      `queue'` and `visited'`. */
  lemma BfsEmits(adj: Adjacency, queue: seq<Id>, visited: set<Id>, ns: Neighbours,
                 queue': seq<Id>, visited': set<Id>)
    requires queue != [] && queue[0] !in visited && Common.GetNeighbors(adj, queue[0]) == ns
    requires visited' == visited + {queue[0]}
    requires queue' == queue[1..] + BreadthFirst.Unvisited(ns, visited')
    ensures BreadthFirst.Emitted(adj, queue, visited) == [queue[0]] + BreadthFirst.Emitted(adj, queue', visited')
  {
  }

  /** The lists of the traversal tests' graph, one node at a time. */
  ghost predicate TreeNeighbours(adj: Adjacency)
  {
    && Common.GetNeighbors(adj, 1) == [(2, 1), (3, 1)]
    && Common.GetNeighbors(adj, 2) == [(1, 1), (4, 1)]
    && Common.GetNeighbors(adj, 3) == [(1, 1), (5, 1)]
    && Common.GetNeighbors(adj, 4) == [(2, 1)]
    && Common.GetNeighbors(adj, 5) == [(3, 1)]
  }

  lemma TreeListsNeighbours()
    ensures TreeNeighbours(TreeLists())
  {
  }

  /** The rounds that print 4 and 5: neither has an unvisited neighbour. */
  lemma BfsLeaves(adj: Adjacency)
    requires TreeNeighbours(adj)
    ensures BreadthFirst.Emitted(adj, [4, 5], {1, 2, 3}) == [4, 5]
  {
    assert [4] + [5] == [4, 5];
    assert BreadthFirst.Unvisited([(2, 1)], {1, 2, 3, 4}) == [];
    assert BreadthFirst.Unvisited([(3, 1)], {1, 2, 3, 4, 5}) == [];
    BfsEmits(adj, [5], {1, 2, 3, 4}, [(3, 1)], [], {1, 2, 3, 4, 5});
    BfsEmits(adj, [4, 5], {1, 2, 3}, [(2, 1)], [5], {1, 2, 3, 4});
  }

  /** The round that prints 3 and queues 5. */
  lemma BfsThree(adj: Adjacency)
    requires TreeNeighbours(adj)
    ensures BreadthFirst.Emitted(adj, [3, 4], {1, 2}) == [3, 4, 5]
  {
    assert [3] + [4, 5] == [3, 4, 5];
    assert BreadthFirst.Unvisited([(1, 1), (5, 1)], {1, 2, 3}) == [5];
    BfsLeaves(adj);
    BfsEmits(adj, [3, 4], {1, 2}, [(1, 1), (5, 1)], [4, 5], {1, 2, 3});
  }

  /** The round that prints 2 and queues 4. */
  lemma BfsTwo(adj: Adjacency)
    requires TreeNeighbours(adj)
    ensures BreadthFirst.Emitted(adj, [2, 3], {1}) == [2, 3, 4, 5]
  {
    assert [2] + [3, 4, 5] == [2, 3, 4, 5];
    assert BreadthFirst.Unvisited([(1, 1), (4, 1)], {1, 2}) == [4];
    BfsThree(adj);
    BfsEmits(adj, [2, 3], {1}, [(1, 1), (4, 1)], [3, 4], {1, 2});
  }

  /** The round that prints 1 and queues both its neighbours. */
  lemma BfsRoot(adj: Adjacency)
    requires TreeNeighbours(adj)
    ensures BreadthFirst.Emitted(adj, [1], {}) == [1, 2, 3, 4, 5]
  {
    assert [1] + [2, 3, 4, 5] == [1, 2, 3, 4, 5];
    assert BreadthFirst.Unvisited([(2, 1), (3, 1)], {1}) == [2, 3];
    BfsTwo(adj);
    BfsEmits(adj, [1], {}, [(2, 1), (3, 1)], [2, 3], {1});
  }

  /** `bfs(g, 1)` prints `1 2 3 4 5`, as the test expects. */
  lemma BfsScenario()
    ensures BreadthFirst.Order(TreeGraph(), 1) == [1, 2, 3, 4, 5]
  {
    TreeGraphLists();
    TreeListsNeighbours();
    BfsRoot(TreeGraph());
  }
}
