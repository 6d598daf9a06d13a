// The `Graph` class of src/graph.py: a `directed` flag and an adjacency map that
// the four mutators update in place, the `get_neighbors` lookup, and the four
// searches written as methods of the class. `dijkstra` here is the lazy-deletion
// variant: a popped heap entry above the recorded distance is stale and skipped.
module Graphs {
  import opened Common
  import opened Paths
  import opened Frontier
  import opened GraphOps
  import BreadthFirst
  import DepthFirst
  import AStarSearch

  // ---------------------------------------------------------------------------
  // Lazy-deletion Dijkstra (the loop of `Graph.dijkstra`)

  /** Every finite node outside `skip` still has its current distance queued, or
      has had all its out-edges relaxed at that distance. */
  ghost predicate Settled(adj: Adjacency, dist: map<Id, Dist>, heap: Heap, skip: set<Id>)
  {
    forall v {:trigger Relaxed(adj, dist, v)} :: v in dist && dist[v].Fin? && v !in skip ==>
      (dist[v].n, v) in heap || Relaxed(adj, dist, v)
  }

  /** The state the outer loop keeps. */
  ghost predicate Searching(adj: Adjacency, start: Id, dist: map<Id, Dist>, heap: Heap)
  {
    && dist.Keys == adj.Keys && start in dist && dist[start] == Fin(0)
    && NonNegativeEntries(dist)
    && HeapAbove(dist, heap)
    && Sound(adj, dist, start)
  }

  /** The distances `Graph.dijkstra` returns when `start` is a key. */
  method LazyDijkstra(adj: Adjacency, start: Id) returns (dist: map<Id, Dist>)
    requires Closed(adj) && NonNegative(adj) && start in adj
    ensures dist.Keys == adj.Keys && dist[start] == Fin(0)
    ensures forall t :: t in dist ==> Shortest(adj, start, t, dist[t])
    ensures AllRelaxed(adj, dist)
  {
    var init: map<Id, Dist> := map k | k in adj :: Inf;
    dist := init[start := Fin(0)];
    var heap: Heap := multiset{(0, start)};
    WalkNil(adj, start);
    while |heap| > 0
      invariant Searching(adj, start, dist, heap)
      invariant Settled(adj, dist, heap, {})
      decreases InfKeys(dist), FinSum(dist), |heap|
    {
      FinSumNonNegative(dist);
      dist, heap := PopAndRelax(adj, start, dist, heap);
      FinSumNonNegative(dist);
    }
    forall t | t in dist
      ensures Shortest(adj, start, t, dist[t])
    {
      RelaxedIsShortest(adj, dist, start, t);
    }
  }

  /** One round of the `while priority_queue` loop: pop an entry of least
      distance, skip it when it is stale, else relax the node's list. */
  method PopAndRelax(adj: Adjacency, start: Id, dist: map<Id, Dist>, heap: Heap)
    returns (dist': map<Id, Dist>, heap': Heap)
    requires Closed(adj) && NonNegative(adj) && |heap| > 0
    requires Searching(adj, start, dist, heap) && Settled(adj, dist, heap, {})
    ensures Searching(adj, start, dist', heap') && Settled(adj, dist', heap', {})
    ensures NoWorse(dist, dist') && (Better(dist, dist') || (dist' == dist && |heap'| < |heap|))
  {
    MinEntryExists(heap);
    var e :| IsMinEntry(heap, e);
    var cd := e.0;
    var u := e.1;
    heap' := heap - multiset{e};
    if dist[u].Fin? && dist[u].n < cd {
      PopKeepsSettled(adj, dist, heap, e, heap', {});
      dist' := dist;
      return;
    }
    PopKeepsSettled(adj, dist, heap, e, heap', {u});
    dist', heap' := RelaxAll(adj, start, u, cd, dist, heap');
  }

  /** Taking entry `e` off the heap keeps every other node's queued distance, and
      `e`'s node's too when `e` is stale. */
  lemma PopKeepsSettled(adj: Adjacency, dist: map<Id, Dist>, heap: Heap, e: (int, Id), heap': Heap, skip: set<Id>)
    requires e in heap && HeapAbove(dist, heap) && heap' == heap - multiset{e}
    requires Settled(adj, dist, heap, {})
    requires skip == {} ==> dist[e.1].n < e.0
    requires skip != {} ==> skip == {e.1}
    ensures HeapAbove(dist, heap')
    ensures Settled(adj, dist, heap', skip)
  {
    forall v | v in dist && dist[v].Fin? && v !in skip && (dist[v].n, v) in heap
      ensures (dist[v].n, v) in heap'
    {
      assert (dist[v].n, v) != e;
    }
  }

  /** The loop over the popped node's list: afterwards every finite node is
      queued at its distance or relaxed, and the distances went down in the
      measure unless nothing changed at all. */
  method RelaxAll(adj: Adjacency, start: Id, u: Id, cd: int, dist: map<Id, Dist>, heap: Heap)
    returns (dist': map<Id, Dist>, heap': Heap)
    requires Closed(adj) && NonNegative(adj)
    requires Searching(adj, start, dist, heap) && Settled(adj, dist, heap, {u})
    requires u in dist && dist[u] == Fin(cd)
    ensures Searching(adj, start, dist', heap') && Settled(adj, dist', heap', {})
    ensures NoWorse(dist, dist') && (Better(dist, dist') || (dist' == dist && heap' == heap))
  {
    dist', heap' := dist, heap;
    var nbrs := adj[u];
    for i := 0 to |nbrs|
      invariant Relaxing(adj, start, u, cd, nbrs, i, dist, heap, dist', heap')
    {
      dist', heap' := RelaxEdge(adj, start, u, cd, nbrs, i, dist, heap, dist', heap');
    }
    assert Relaxed(adj, dist', u);
  }

  /** The state of the loop over `u`'s list after `i` of its entries: `u` is at
      its popped distance, the first `i` entries are relaxed, and the distances
      either went down in the measure or, together with the heap, stayed put. */
  ghost predicate Relaxing(adj: Adjacency, start: Id, u: Id, cd: int, nbrs: Neighbours, i: int,
                           d0: map<Id, Dist>, h0: Heap, dist: map<Id, Dist>, heap: Heap)
  {
    && 0 <= i <= |nbrs|
    && Searching(adj, start, dist, heap)
    && u in dist && dist[u] == Fin(cd)
    && Settled(adj, dist, heap, {u})
    && (forall j :: 0 <= j < i ==> nbrs[j].0 in dist && LessEq(dist[nbrs[j].0], Fin(cd + nbrs[j].1)))
    && NoWorse(d0, dist) && (Better(d0, dist) || (dist == d0 && heap == h0))
  }

  /** One pass of `for neighbor, weight in self.adj_list[current_node]`: a
      shorter distance through `u` is recorded and pushed. */
  method RelaxEdge(adj: Adjacency, start: Id, u: Id, cd: int, nbrs: Neighbours, i: int,
                   ghost d0: map<Id, Dist>, ghost h0: Heap, dist: map<Id, Dist>, heap: Heap)
    returns (dist': map<Id, Dist>, heap': Heap)
    requires Closed(adj) && NonNegative(adj) && u in adj && nbrs == adj[u]
    requires Relaxing(adj, start, u, cd, nbrs, i, d0, h0, dist, heap) && i < |nbrs|
    ensures Relaxing(adj, start, u, cd, nbrs, i + 1, d0, h0, dist', heap')
  {
    dist', heap' := dist, heap;
    var neighbor := nbrs[i].0;
    var distance := cd + nbrs[i].1;
    if Improves(distance, dist[neighbor]) {
      dist' := dist[neighbor := Fin(distance)];
      heap' := heap + multiset{(distance, neighbor)};
    }
    RelaxStep(adj, start, u, cd, nbrs, i, d0, h0, dist, heap, dist', heap');
  }

  /** One pass of the loop over `u`'s list keeps the loop's state. */
  lemma RelaxStep(adj: Adjacency, start: Id, u: Id, cd: int, nbrs: Neighbours, i: int,
                  d0: map<Id, Dist>, h0: Heap, dist: map<Id, Dist>, heap: Heap,
                  dist': map<Id, Dist>, heap': Heap)
    requires Closed(adj) && NonNegative(adj) && u in adj && nbrs == adj[u]
    requires Relaxing(adj, start, u, cd, nbrs, i, d0, h0, dist, heap) && i < |nbrs|
    requires if Improves(cd + nbrs[i].1, dist[nbrs[i].0]) then
        dist' == dist[nbrs[i].0 := Fin(cd + nbrs[i].1)] && heap' == heap + multiset{(cd + nbrs[i].1, nbrs[i].0)}
      else
        dist' == dist && heap' == heap
    ensures Relaxing(adj, start, u, cd, nbrs, i + 1, d0, h0, dist', heap')
  {
    if Improves(cd + nbrs[i].1, dist[nbrs[i].0]) {
      LowerStep(adj, start, u, cd, nbrs, i, d0, h0, dist, heap, dist', heap');
    }
  }

  /** An entry of `u`'s list that gives its neighbour a shorter distance. */
  lemma LowerStep(adj: Adjacency, start: Id, u: Id, cd: int, nbrs: Neighbours, i: int,
                  d0: map<Id, Dist>, h0: Heap, dist: map<Id, Dist>, heap: Heap,
                  dist': map<Id, Dist>, heap': Heap)
    requires Closed(adj) && NonNegative(adj) && u in adj && nbrs == adj[u]
    requires Relaxing(adj, start, u, cd, nbrs, i, d0, h0, dist, heap) && i < |nbrs|
    requires nbrs[i].0 in dist && Improves(cd + nbrs[i].1, dist[nbrs[i].0])
    requires dist' == dist[nbrs[i].0 := Fin(cd + nbrs[i].1)] && heap' == heap + multiset{(cd + nbrs[i].1, nbrs[i].0)}
    ensures Relaxing(adj, start, u, cd, nbrs, i + 1, d0, h0, dist', heap')
  {
    assert nbrs[i] in adj[u];
    LowerKeepsPrefix(nbrs, i, cd, dist, dist');
    LowerKeepsProgress(d0, dist, nbrs[i].0, cd + nbrs[i].1, dist');
    LowerKeepsSettled(adj, dist, heap, u, nbrs[i].0, cd + nbrs[i].1, dist', heap');
    LowerKeepsSearching(adj, start, dist, heap, u, cd, nbrs[i], dist', heap');
  }

  /** After the entry `i` of the list lowers its neighbour, the first `i + 1`
      entries are relaxed. */
  lemma LowerKeepsPrefix(nbrs: Neighbours, i: int, cd: int, dist: map<Id, Dist>, dist': map<Id, Dist>)
    requires 0 <= i < |nbrs|
    requires forall j :: 0 <= j < i ==> nbrs[j].0 in dist && LessEq(dist[nbrs[j].0], Fin(cd + nbrs[j].1))
    requires nbrs[i].0 in dist && Improves(cd + nbrs[i].1, dist[nbrs[i].0])
    requires dist' == dist[nbrs[i].0 := Fin(cd + nbrs[i].1)]
    ensures forall j :: 0 <= j < i + 1 ==> nbrs[j].0 in dist' && LessEq(dist'[nbrs[j].0], Fin(cd + nbrs[j].1))
  {
    forall j | 0 <= j < i + 1
      ensures nbrs[j].0 in dist' && LessEq(dist'[nbrs[j].0], Fin(cd + nbrs[j].1))
    {
      if j < i {
        assert nbrs[j].0 in dist && LessEq(dist[nbrs[j].0], Fin(cd + nbrs[j].1));
      }
    }
  }

  /** Recording a shorter distance to a neighbour of `u`, reached through `u`, and
      pushing it keeps every distance the weight of a walk and every heap entry
      above its node's distance. */
  lemma LowerKeepsSearching(adj: Adjacency, start: Id, dist: map<Id, Dist>, heap: Heap,
                            u: Id, cd: int, edge: (Id, Weight), dist': map<Id, Dist>, heap': Heap)
    requires Closed(adj) && NonNegative(adj)
    requires Searching(adj, start, dist, heap)
    requires u in adj && edge in adj[u] && dist[u] == Fin(cd)
    requires Improves(cd + edge.1, dist[edge.0])
    requires dist' == dist[edge.0 := Fin(cd + edge.1)] && heap' == heap + multiset{(cd + edge.1, edge.0)}
    ensures Searching(adj, start, dist', heap')
    ensures edge.0 != u && dist'[u] == Fin(cd)
  {
    var k :| 0 <= k < |adj[u]| && adj[u][k] == edge;
    assert edge.1 >= 0 && edge.0 in adj;
    var hops :| IsWalk(adj, start, hops, u) && Paths.Weight(hops) == cd;
    WalkExtend(adj, start, hops, u, edge);
  }

  /** Lowering `x` and pushing it keeps every other finite node queued at its
      distance or relaxed. */
  lemma LowerKeepsSettled(adj: Adjacency, dist: map<Id, Dist>, heap: Heap, u: Id, x: Id, t: int,
                          dist': map<Id, Dist>, heap': Heap)
    requires Settled(adj, dist, heap, {u})
    requires x in dist && Improves(t, dist[x])
    requires dist' == dist[x := Fin(t)] && heap' == heap + multiset{(t, x)}
    ensures Settled(adj, dist', heap', {u})
  {
    forall v | v in dist' && dist'[v].Fin? && v != u && (dist'[v].n, v) !in heap'
      ensures Relaxed(adj, dist', v)
    {
      assert v != x && (dist[v].n, v) !in heap;
      RelaxedAfterLower(adj, dist, v, x, t);
    }
  }

  // ---------------------------------------------------------------------------
  // The class

  class Graph {
    /** Fixed at construction. */
    const directed: bool
    /** `adj_list`. */
    var adj: Adjacency

    /** What every mutator keeps: all neighbours are keys, and an undirected
        graph lists each edge under both endpoints. */
    ghost predicate Valid()
      reads this
    {
      Closed(adj) && (!directed ==> Symmetric(adj))
    }

    constructor (directed: bool := false)
      ensures this.directed == directed && adj == map[]
      ensures Valid()
    {
      this.directed := directed;
      adj := map[];
    }

    /** `add_node`: a new key gets an empty list; nothing else changes. */
    method AddNode(node: Id)
      modifies this
      ensures adj.Keys == old(adj).Keys + {node}
      ensures node !in old(adj) ==> adj[node] == []
      ensures forall k :: k in old(adj) ==> adj[k] == old(adj)[k]
      ensures adj == AddedNode(old(adj), node)
      ensures old(Valid()) ==> Valid()
    {
      if node !in adj {
        adj := adj[node := []];
      }
      if old(Valid()) {
        AddNodeKeepsInvariants(old(adj), node);
      }
    }

    /** `add_edge`: both ends become keys; `(node2, weight)` is appended to
        `node1`'s list, and when undirected `(node1, weight)` to `node2`'s. */
    method AddEdge(node1: Id, node2: Id, weight: Weight := 1)
      modifies this
      ensures adj == AddedEdge(old(adj), directed, node1, node2, weight)
      ensures adj.Keys == old(adj).Keys + {node1, node2}
      ensures directed || node1 != node2 ==> adj[node1] == Common.GetNeighbors(old(adj), node1) + [(node2, weight)]
      ensures !directed && node1 != node2 ==> adj[node2] == Common.GetNeighbors(old(adj), node2) + [(node1, weight)]
      ensures !directed && node1 == node2 ==>
        adj[node1] == Common.GetNeighbors(old(adj), node1) + [(node1, weight), (node1, weight)]
      ensures forall k :: k in old(adj) && k != node1 && (directed || k != node2) ==> adj[k] == old(adj)[k]
      ensures old(Valid()) ==> Valid()
    {
      AddNode(node1);
      AddNode(node2);
      adj := adj[node1 := adj[node1] + [(node2, weight)]];
      if !directed {
        adj := adj[node2 := adj[node2] + [(node1, weight)]];
      }
      AddEdgeEffect(old(adj), directed, node1, node2, weight);
      if old(Valid()) {
        AddEdgeKeepsClosed(old(adj), directed, node1, node2, weight);
        if !directed {
          AddEdgeKeepsSymmetric(old(adj), node1, node2, weight);
        }
      }
    }

    /** `remove_edge`: filters `node2` out of `node1`'s list and, when
        undirected, `node1` out of `node2`'s. Indexing a missing key raises
        `KeyError`; in the undirected case the first list has been filtered by
        then. */
    method RemoveEdge(node1: Id, node2: Id) returns (r: Result<()>)
      modifies this
      ensures node1 !in old(adj) ==> r == Err(KeyError(node1)) && adj == old(adj)
      ensures node1 in old(adj) && !directed && node2 !in old(adj) ==>
        r == Err(KeyError(node2)) && adj == old(adj)[node1 := Without(old(adj)[node1], node2)]
      ensures node1 in old(adj) && (directed || node2 in old(adj)) ==>
        r == Ok(()) && adj == RemovedEdge(old(adj), directed, node1, node2)
      ensures r.Ok? ==> adj.Keys == old(adj).Keys && forall e :: e in adj[node1] ==> e.0 != node2
      ensures old(Valid()) ==> Valid() && (r.Err? ==> adj == old(adj))
    {
      if node1 !in adj {
        return Err(KeyError(node1));
      }
      if !directed && node2 !in adj && Valid() {
        FilterUnknownIsIdentity(adj, node1, node2);
      }
      adj := adj[node1 := Without(adj[node1], node2)];
      if !directed {
        if node2 !in adj {
          return Err(KeyError(node2));
        }
        adj := adj[node2 := Without(adj[node2], node1)];
      }
      RemoveEdgeEffect(old(adj), directed, node1, node2);
      if old(Valid()) {
        RemoveEdgeKeepsInvariants(old(adj), directed, node1, node2);
      }
      return Ok(());
    }

    /** `remove_node`: drops the key, then filters it out of every remaining
        list; an absent node changes nothing. */
    method RemoveNode(node: Id)
      modifies this
      ensures adj == RemovedNode(old(adj), node)
      ensures adj.Keys == old(adj).Keys - {node}
      ensures node in old(adj) ==> forall k :: k in adj ==> adj[k] == Without(old(adj)[k], node)
      ensures node !in old(adj) ==> adj == old(adj)
      ensures old(Valid()) ==> Valid()
    {
      if node in adj {
        adj := adj - {node};
        ghost var base := adj;
        var keys := adj.Keys;
        while keys != {}
          invariant keys <= base.Keys && adj.Keys == base.Keys
          invariant forall k :: k in adj ==> adj[k] == if k in keys then base[k] else Without(base[k], node)
          decreases keys
        {
          NonEmptySet(keys);
          var key :| key in keys;
          adj := adj[key := Without(adj[key], node)];
          keys := keys - {key};
        }
        assert adj == RemovedNode(old(adj), node);
      }
      if old(Valid()) {
        RemoveNodeKeepsInvariants(old(adj), node);
      }
    }

    /** `get_neighbors`: the stored list, or `[]` for an unknown id. In a valid
        graph every entry names a key. */
    function GetNeighbors(node: Id): (r: Neighbours)
      reads this
      ensures node in adj ==> r == adj[node]
      ensures node !in adj ==> r == []
      ensures Valid() ==> forall e :: e in r ==> e.0 in adj
    {
      Common.GetNeighbors(adj, node)
    }

    /** `Graph.bfs`: `adj_list[start]` raises `KeyError` for an unknown start;
        otherwise the print order of breadth-first search. */
    method Bfs(start: Id) returns (r: Result<seq<Id>>)
      requires Valid()
      ensures start !in adj <==> r == Err(KeyError(start))
      ensures r.Ok? ==> r.value == BreadthFirst.Order(adj, start)
      ensures r.Ok? ==> BreadthFirst.VisitsReachableOnce(adj, start, r.value)
      ensures r.Ok? ==> BreadthFirst.InHopOrder(adj, start, r.value)
    {
      if start !in adj {
        return Err(KeyError(start));
      }
      var order := BreadthFirst.Bfs(adj, start);
      return Ok(order);
    }

    /** `Graph.dfs`: `KeyError` for an unknown start; otherwise the print order
        of depth-first search. */
    method Dfs(start: Id) returns (r: Result<seq<Id>>)
      requires Valid()
      ensures start !in adj <==> r == Err(KeyError(start))
      ensures r.Ok? ==> r.value == DepthFirst.Order(adj, start)
      ensures r.Ok? ==> DepthFirst.VisitsReachable(adj, start, r.value)
    {
      if start !in adj {
        return Err(KeyError(start));
      }
      var order := DepthFirst.Dfs(adj, start);
      return Ok(order);
    }

    /** `Graph.dijkstra`: for a known start, every key mapped to its least walk
        weight (`Inf` when unreachable); `KeyError` for an unknown start. */
    method Dijkstra(start: Id) returns (r: Result<map<Id, Dist>>)
      requires Valid() && NonNegative(adj)
      ensures start !in adj <==> r == Err(KeyError(start))
      ensures r.Ok? ==> r.value.Keys == adj.Keys && start in r.value && r.value[start] == Fin(0)
      ensures r.Ok? ==> forall t :: t in r.value ==> Shortest(adj, start, t, r.value[t])
    {
      if start !in adj {
        return Err(KeyError(start));
      }
      var dist := LazyDijkstra(adj, start);
      return Ok(dist);
    }

    /** `Graph.a_star`: the search of `AStarSearch`, except that a start with no
        list raises `KeyError` once it is expanded (it is not the goal). */
    method AStar(start: Id, goal: Id, heuristic: map<Id, int>) returns (r: Result<seq<Id>>)
      requires Valid() && NonNegative(adj)
      ensures start !in heuristic ==> r == Err(KeyError(start))
      ensures start in heuristic && start == goal ==> r == Ok([start])
      ensures start in heuristic && start != goal && start !in adj ==> r == Err(KeyError(start))
      ensures r.Ok? && r.value != [] ==>
        r.value[0] == start && r.value[|r.value| - 1] == goal && IsPath(adj, r.value)
      ensures r.Ok? && r.value != [] && AStarSearch.Admissible(adj, heuristic, goal) ==>
        AStarSearch.LeastPath(adj, start, goal, r.value)
      ensures r.Err? ==> r.error.KeyError? && (r.error.key !in heuristic || r.error.key == start)
      ensures start in adj && (forall n :: n in adj ==> n in heuristic) ==> r.Ok?
      ensures r.Ok? ==> (r.value == [] <==> !Reachable(adj, start, goal))
    {
      if start in heuristic && start != goal && start !in adj {
        return Err(KeyError(start));
      }
      r := AStarSearch.AStar(adj, start, goal, heuristic);
    }
  }
}
