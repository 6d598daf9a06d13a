// src/algorithms/dijkstra.py: Dijkstra's algorithm over a read-only graph seen
// through `graph.nodes` and `graph.get_edges`, with a heap of `(distance, node)`
// entries and a `visited` set that makes every node expanded at most once.
module DijkstraSearch {
  import opened Common
  import opened Paths
  import opened Frontier
  import opened Edges

  // ---------------------------------------------------------------------------
  // The graph the function reads

  /** The node ids (`graph.nodes`, also the ids of `graph.node_list`) and, per
      node, the edges `graph.get_edges` lists for it. */
  datatype EdgeGraph = EdgeGraph(nodes: set<Id>, out: map<Id, seq<Edge>>)

  /** `graph.get_edges(u)`; a node without a listing has no edges. */
  function GetEdges(gr: EdgeGraph, u: Id): seq<Edge>
  {
    if u in gr.out then gr.out[u] else []
  }

  /** Every edge leads to a node of the graph, so `distances[neighbor]` is
      defined for every edge the loop meets. */
  ghost predicate WellFormed(gr: EdgeGraph)
  {
    forall u, i :: u in gr.nodes && 0 <= i < |GetEdges(gr, u)| ==> GetEdges(gr, u)[i].target in gr.nodes
  }

  /** The `(target, weight)` pairs of a list of edges. */
  function Pairs(es: seq<Edge>): (r: Neighbours)
    ensures |r| == |es| && forall i :: 0 <= i < |es| ==> r[i] == (es[i].target, es[i].weight)
  {
    seq(|es|, i requires 0 <= i < |es| => (es[i].target, es[i].weight))
  }

  /** The adjacency the edges describe, keyed by the graph's nodes. */
  function Adj(gr: EdgeGraph): (adj: Adjacency)
    ensures adj.Keys == gr.nodes
    ensures forall u :: u in gr.nodes ==> adj[u] == Pairs(GetEdges(gr, u))
  {
    map u | u in gr.nodes :: Pairs(GetEdges(gr, u))
  }

  /** An edge graph is well formed exactly when its adjacency is closed. */
  lemma WellFormedIsClosed(gr: EdgeGraph)
    ensures WellFormed(gr) <==> Closed(Adj(gr))
  {
    var adj: Adjacency := Adj(gr);
    if WellFormed(gr) {
      forall u: Id, i: int | u in adj && 0 <= i < |adj[u]|
        ensures adj[u][i].0 in adj
      {
        assert adj[u][i] == (GetEdges(gr, u)[i].target, GetEdges(gr, u)[i].weight);
      }
    }
    if Closed(adj) {
      forall u, i | u in gr.nodes && 0 <= i < |GetEdges(gr, u)|
        ensures GetEdges(gr, u)[i].target in gr.nodes
      {
        assert adj[u][i] == (GetEdges(gr, u)[i].target, GetEdges(gr, u)[i].weight);
      }
    }
  }

  /** The edge graph of an adjacency map such as `Graph.adj_list`: each entry
      `(v, w)` under `u` becomes `Edge(u, v, w, directed)`. */
  function FromAdjacency(adj: Adjacency, directed: bool): (gr: EdgeGraph)
    ensures gr.nodes == adj.Keys
    ensures forall u :: u in adj ==> |GetEdges(gr, u)| == |adj[u]|
    ensures forall u, i :: u in adj && 0 <= i < |adj[u]| ==>
      GetEdges(gr, u)[i].source == u && GetEdges(gr, u)[i].directed == directed
  {
    EdgeGraph(adj.Keys, map u | u in adj :: seq(|adj[u]|, i requires 0 <= i < |adj[u]| =>
      NewEdge(u, adj[u][i].0, adj[u][i].1, directed)))
  }

  /** Reading an adjacency map as an edge graph loses nothing: its adjacency is
      the map itself, and it is well formed exactly when the map is closed. */
  lemma FromAdjacencyAgrees(adj: Adjacency, directed: bool)
    ensures Adj(FromAdjacency(adj, directed)) == adj
    ensures WellFormed(FromAdjacency(adj, directed)) <==> Closed(adj)
  {
    var gr := FromAdjacency(adj, directed);
    forall u | u in adj
      ensures Adj(gr)[u] == adj[u]
    {
      assert Pairs(GetEdges(gr, u)) == adj[u];
    }
    assert Adj(gr) == adj;
    WellFormedIsClosed(gr);
  }

  // ---------------------------------------------------------------------------
  // What the loop keeps

  /** Some walk from `s` to `u` weighs `n`. */
  ghost predicate WalkTo(adj: Adjacency, s: Id, u: Id, n: int)
  {
    exists hops :: IsWalk(adj, s, hops, u) && Paths.Weight(hops) == n
  }

  /** Every finite node not yet visited has its distance queued. */
  ghost predicate Queued(dist: map<Id, Dist>, heap: Heap, visited: set<Id>)
  {
    forall v :: v in dist && dist[v].Fin? && v !in visited ==> (dist[v].n, v) in heap
  }

  /** No entry of `d` is above the entry of `d0` for the same key. */
  ghost predicate Lowered(d0: map<Id, Dist>, d: map<Id, Dist>)
  {
    d.Keys == d0.Keys && forall k :: k in d0 ==> LessEq(d[k], d0[k])
  }

  /** The state the loop keeps whatever the weights: one distance per node,
      each finite one the weight of a walk from the start and queued until its
      node is visited; `expanded` lists the visited nodes in visiting order. */
  ghost predicate Searching(adj: Adjacency, start: Id, dist: map<Id, Dist>, heap: Heap,
                            visited: set<Id>, expanded: seq<Id>)
  {
    && dist.Keys == adj.Keys && start in dist
    && HeapAbove(dist, heap)
    && Sound(adj, dist, start)
    && Queued(dist, heap, visited)
    && (forall v :: v in visited <==> v in expanded)
    && NoDuplicates(expanded)
    && (forall v :: v in visited ==> v in dist && dist[v].Fin?)
  }

  /** The visited nodes' distances are at most `level`, which no heap entry is
      below: `level` is the distance of the last visited node. */
  ghost predicate Behind(dist: map<Id, Dist>, heap: Heap, visited: set<Id>, level: int)
  {
    && (forall v :: v in visited ==> v in dist && dist[v].Fin? && dist[v].n <= level)
    && (forall e :: e in heap ==> level <= e.0)
  }

  /** What non-negative weights add: the start stays at 0, and every visited
      node outside `skip` has had all its edges relaxed. */
  ghost predicate Settled(adj: Adjacency, start: Id, dist: map<Id, Dist>, heap: Heap,
                          visited: set<Id>, skip: set<Id>, level: int)
  {
    && start in dist && dist[start] == Fin(0)
    && NonNegativeEntries(dist)
    && VisitedRelaxed(adj, dist, visited, skip)
    && Behind(dist, heap, visited, level)
  }

  /** Every visited node outside `skip` has had all its edges relaxed. */
  ghost predicate VisitedRelaxed(adj: Adjacency, dist: map<Id, Dist>, visited: set<Id>, skip: set<Id>)
  {
    forall v :: v in visited && v !in skip ==>
      v in dist && dist[v].Fin? && Relaxed(adj, dist, v)
  }

  /** The invariant of the `while priority_queue` loop. */
  ghost predicate Inv(adj: Adjacency, start: Id, dist: map<Id, Dist>, heap: Heap,
                      visited: set<Id>, expanded: seq<Id>, level: int)
  {
    && Searching(adj, start, dist, heap, visited, expanded)
    && (NonNegative(adj) ==> Settled(adj, start, dist, heap, visited, {}, level))
  }

  /** The first `i` entries of the list can lower nothing below `cd` plus
      their weight. */
  ghost predicate PrefixRelaxed(dist: map<Id, Dist>, cd: int, nbrs: Neighbours, i: int)
    requires 0 <= i <= |nbrs|
  {
    forall j :: 0 <= j < i ==> nbrs[j].0 in dist && LessEq(dist[nbrs[j].0], Fin(cd + nbrs[j].1))
  }

  /** The invariant of the loop over the edges of `u`, visited at distance `cd`,
      after its first `i` edges; `d0` holds the distances before the loop. */
  ghost predicate Relaxing(adj: Adjacency, start: Id, u: Id, cd: int, nbrs: Neighbours, i: int,
                           d0: map<Id, Dist>, dist: map<Id, Dist>, heap: Heap,
                           visited: set<Id>, expanded: seq<Id>)
  {
    && 0 <= i <= |nbrs|
    && Searching(adj, start, dist, heap, visited, expanded)
    && u in visited && WalkTo(adj, start, u, cd)
    && Lowered(d0, dist)
    && (NonNegative(adj) ==>
          && dist[u] == Fin(cd)
          && Settled(adj, start, dist, heap, visited, {u}, cd)
          && PrefixRelaxed(dist, cd, nbrs, i))
  }

  // ---------------------------------------------------------------------------
  // The function

  /** `dijkstra(graph, start_node)`. An unknown start is a `ValueError`.
      Otherwise every node gets a distance: a finite one is the weight of a
      walk from the start, so an unreachable node stays infinite, and every
      node given a finite distance was expanded exactly once. With
      non-negative weights the start is at 0, no edge can lower a distance
      any more, and each distance is the least walk weight. */
  method Dijkstra(gr: EdgeGraph, start: Id) returns (r: Result<map<Id, Dist>>, ghost expanded: seq<Id>)
    requires WellFormed(gr)
    ensures r.Err? <==> start !in gr.nodes
    ensures r.Err? ==> r.error == ValueError(start)
    ensures r.Ok? ==> r.value.Keys == gr.nodes && Sound(Adj(gr), r.value, start)
    ensures r.Ok? ==> forall v :: v in r.value && !Reachable(Adj(gr), start, v) ==> r.value[v] == Inf
    ensures r.Ok? ==> NoDuplicates(expanded)
    ensures r.Ok? ==> forall v :: v in expanded <==> v in r.value && r.value[v].Fin?
    ensures r.Ok? && NonNegative(Adj(gr)) ==>
      && r.value[start] == Fin(0)
      && AllRelaxed(Adj(gr), r.value)
      && forall t :: t in r.value ==> Shortest(Adj(gr), start, t, r.value[t])
  {
    if start !in gr.nodes {
      return Err(ValueError(start)), [];
    }
    var dist, heap, visited;
    ghost var level;
    dist, heap, visited, expanded, level := Initial(gr, start);
    while |heap| > 0
      invariant Inv(Adj(gr), start, dist, heap, visited, expanded, level)
      decreases gr.nodes - visited, |heap|
    {
      dist, heap, visited, expanded, level := Round(gr, start, dist, heap, visited, expanded, level);
    }
    Finished(Adj(gr), start, dist, visited, expanded, level);
    return Ok(dist), expanded;
  }

  /** Lines 19-27: every node at infinity but the start at 0, the start queued,
      nothing visited. */
  method Initial(gr: EdgeGraph, start: Id)
    returns (dist: map<Id, Dist>, heap: Heap, visited: set<Id>, ghost expanded: seq<Id>, ghost level: int)
    requires start in gr.nodes
    ensures dist.Keys == gr.nodes && dist[start] == Fin(0)
    ensures forall v :: v in dist && v != start ==> dist[v] == Inf
    ensures heap == multiset{(0, start)} && visited == {}
    ensures Inv(Adj(gr), start, dist, heap, visited, expanded, level)
  {
    var init: map<Id, Dist> := map v | v in gr.nodes :: Inf;
    dist := init[start := Fin(0)];
    heap := multiset{(0, start)};
    visited := {};
    expanded := [];
    level := 0;
    WalkNil(Adj(gr), start);
  }

  /** One pass of the outer loop: pop an entry of least distance; skip it when
      its node is visited, else visit the node and relax its edges. Either a
      node joins `visited` or the heap shrinks, and no distance goes up. */
  method Round(gr: EdgeGraph, start: Id, dist: map<Id, Dist>, heap: Heap, visited: set<Id>,
               ghost expanded: seq<Id>, ghost level: int)
    returns (dist': map<Id, Dist>, heap': Heap, visited': set<Id>, ghost expanded': seq<Id>, ghost level': int)
    requires WellFormed(gr) && |heap| > 0
    requires Inv(Adj(gr), start, dist, heap, visited, expanded, level)
    ensures Inv(Adj(gr), start, dist', heap', visited', expanded', level')
    ensures Lowered(dist, dist') && visited <= visited'
    ensures gr.nodes - visited' < gr.nodes - visited
      || (gr.nodes - visited' == gr.nodes - visited && |heap'| < |heap|)
  {
    MinEntryExists(heap);
    var e :| IsMinEntry(heap, e);
    var cd, u := e.0, e.1;
    heap' := heap - multiset{e};
    if u in visited {
      SkipKeepsInv(Adj(gr), start, dist, heap, visited, expanded, level, e, heap');
      dist', visited', expanded', level' := dist, visited, expanded, level;
      return;
    }
    visited' := visited + {u};
    expanded' := expanded + [u];
    level' := cd;
    VisitStarts(Adj(gr), start, dist, heap, visited, expanded, level, e, heap', visited', expanded');
    dist', heap' := RelaxEdges(gr, start, u, cd, dist, heap', visited', expanded');
  }

  /** Lines 39-46: relax every edge of the visited node `u`. */
  method RelaxEdges(gr: EdgeGraph, start: Id, u: Id, cd: int, dist: map<Id, Dist>, heap: Heap,
                    visited: set<Id>, ghost expanded: seq<Id>)
    returns (dist': map<Id, Dist>, heap': Heap)
    requires WellFormed(gr) && u in gr.nodes
    requires Relaxing(Adj(gr), start, u, cd, Adj(gr)[u], 0, dist, dist, heap, visited, expanded)
    ensures Inv(Adj(gr), start, dist', heap', visited, expanded, cd)
    ensures Lowered(dist, dist')
  {
    var es := GetEdges(gr, u);
    WellFormedIsClosed(gr);
    dist', heap' := dist, heap;
    for i := 0 to |es|
      invariant Relaxing(Adj(gr), start, u, cd, Adj(gr)[u], i, dist, dist', heap', visited, expanded)
    {
      dist', heap' := RelaxNext(gr, start, u, cd, es, i, dist, dist', heap', visited, expanded);
    }
    RelaxingDone(Adj(gr), start, u, cd, Adj(gr)[u], dist, dist', heap', visited, expanded);
  }

  /** Lines 40-46 for edge `i` of `u`'s edges `es`. */
  method RelaxNext(gr: EdgeGraph, start: Id, u: Id, cd: int, es: seq<Edge>, i: int, ghost d0: map<Id, Dist>,
                   dist: map<Id, Dist>, heap: Heap, visited: set<Id>, ghost expanded: seq<Id>)
    returns (dist': map<Id, Dist>, heap': Heap)
    requires Closed(Adj(gr)) && u in gr.nodes && es == GetEdges(gr, u) && 0 <= i < |es|
    requires Relaxing(Adj(gr), start, u, cd, Adj(gr)[u], i, d0, dist, heap, visited, expanded)
    ensures Relaxing(Adj(gr), start, u, cd, Adj(gr)[u], i + 1, d0, dist', heap', visited, expanded)
  {
    var neighbor, distance := es[i].target, cd + es[i].weight;
    ghost var adj: Adjacency := Adj(gr);
    ghost var w := es[i].weight;
    assert adj[u][i].0 == neighbor && adj[u][i].1 == w;
    assert neighbor in dist;
    dist', heap' := RelaxEdge(dist, heap, neighbor, distance);
    RelaxStep(adj, start, u, cd, adj[u], i, d0, dist, heap, visited, expanded, neighbor, w, distance, dist', heap');
  }

  /** Lines 43-46: a strictly shorter distance replaces the recorded one and
      is pushed, once; otherwise nothing changes. */
  method RelaxEdge(dist: map<Id, Dist>, heap: Heap, neighbor: Id, distance: int)
    returns (dist': map<Id, Dist>, heap': Heap)
    requires neighbor in dist
    ensures Lowered(dist, dist')
    ensures if Improves(distance, dist[neighbor]) then
        dist' == dist[neighbor := Fin(distance)] && heap' == heap + multiset{(distance, neighbor)}
      else
        dist' == dist && heap' == heap
  {
    dist', heap' := dist, heap;
    if Improves(distance, dist[neighbor]) {
      dist' := dist[neighbor := Fin(distance)];
      heap' := heap + multiset{(distance, neighbor)};
    }
  }

  // ---------------------------------------------------------------------------
  // Proof steps

  /** Popping an entry of a visited node (lines 33-34) keeps the invariant. */
  lemma SkipKeepsInv(adj: Adjacency, start: Id, dist: map<Id, Dist>, heap: Heap, visited: set<Id>,
                     expanded: seq<Id>, level: int, e: (int, Id), heap': Heap)
    requires Inv(adj, start, dist, heap, visited, expanded, level)
    requires e in heap && e.1 in visited && heap' == heap - multiset{e}
    ensures Inv(adj, start, dist, heap', visited, expanded, level)
  {
    forall v | v in dist && dist[v].Fin? && v !in visited
      ensures (dist[v].n, v) in heap'
    {
      assert (dist[v].n, v) in heap && (dist[v].n, v) != e;
    }
    assert heap' <= heap;
  }

  /** Popping a least entry of an unvisited node `u` (line 36): its distance is
      the entry's, the node becomes visited, and the edge loop can start. */
  lemma VisitStarts(adj: Adjacency, start: Id, dist: map<Id, Dist>, heap: Heap, visited: set<Id>,
                    expanded: seq<Id>, level: int, e: (int, Id), heap': Heap,
                    visited': set<Id>, expanded': seq<Id>)
    requires Inv(adj, start, dist, heap, visited, expanded, level)
    requires IsMinEntry(heap, e) && e.1 !in visited && heap' == heap - multiset{e}
    requires visited' == visited + {e.1} && expanded' == expanded + [e.1]
    ensures e.1 in adj && dist[e.1] == Fin(e.0)
    ensures Relaxing(adj, start, e.1, e.0, adj[e.1], 0, dist, dist, heap', visited', expanded')
  {
    var u := e.1;
    assert dist[u].Fin? && dist[u].n <= e.0;
    assert (dist[u].n, u) in heap;
    VisitKeepsSearching(adj, start, dist, heap, visited, expanded, e, heap', visited', expanded');
    if NonNegative(adj) {
      VisitKeepsSettled(adj, start, dist, heap, visited, level, e, heap', visited');
    }
  }

  lemma VisitKeepsSearching(adj: Adjacency, start: Id, dist: map<Id, Dist>, heap: Heap, visited: set<Id>,
                            expanded: seq<Id>, e: (int, Id), heap': Heap,
                            visited': set<Id>, expanded': seq<Id>)
    requires Searching(adj, start, dist, heap, visited, expanded)
    requires e in heap && e.1 !in visited && heap' == heap - multiset{e}
    requires e.1 in dist && dist[e.1] == Fin(e.0)
    requires visited' == visited + {e.1} && expanded' == expanded + [e.1]
    ensures Searching(adj, start, dist, heap', visited', expanded')
    ensures WalkTo(adj, start, e.1, e.0)
  {
    PopKeepsQueued(dist, heap, visited, e, heap', visited');
    AppendVisited(visited, expanded, e.1, visited', expanded');
  }

  /** Taking `e` off the heap while its node becomes visited keeps every
      other unvisited finite node queued. */
  lemma PopKeepsQueued(dist: map<Id, Dist>, heap: Heap, visited: set<Id>, e: (int, Id), heap': Heap,
                       visited': set<Id>)
    requires HeapAbove(dist, heap) && Queued(dist, heap, visited)
    requires e in heap && heap' == heap - multiset{e} && visited' == visited + {e.1}
    ensures HeapAbove(dist, heap') && Queued(dist, heap', visited')
  {
    forall v | v in dist && dist[v].Fin? && v !in visited'
      ensures (dist[v].n, v) in heap'
    {
      assert (dist[v].n, v) in heap && (dist[v].n, v) != e;
    }
    assert heap' <= heap;
  }

  /** Appending a node not yet visited keeps `expanded` free of repeats and
      in step with `visited`. */
  lemma AppendVisited(visited: set<Id>, expanded: seq<Id>, x: Id, visited': set<Id>, expanded': seq<Id>)
    requires (forall v :: v in visited <==> v in expanded) && NoDuplicates(expanded)
    requires x !in visited && visited' == visited + {x} && expanded' == expanded + [x]
    ensures (forall v :: v in visited' <==> v in expanded') && NoDuplicates(expanded')
  {
    forall i, j | 0 <= i < j < |expanded'|
      ensures expanded'[i] != expanded'[j]
    {
      if j == |expanded| {
        assert expanded'[i] == expanded[i] && expanded[i] in visited;
      } else {
        assert expanded'[i] == expanded[i] && expanded'[j] == expanded[j];
      }
    }
    forall v
      ensures v in visited' <==> v in expanded'
    {
      assert v in expanded' <==> v in expanded || v == x;
    }
  }

  lemma VisitKeepsSettled(adj: Adjacency, start: Id, dist: map<Id, Dist>, heap: Heap, visited: set<Id>,
                          level: int, e: (int, Id), heap': Heap, visited': set<Id>)
    requires Settled(adj, start, dist, heap, visited, {}, level)
    requires IsMinEntry(heap, e) && heap' == heap - multiset{e}
    requires e.1 in dist && dist[e.1] == Fin(e.0)
    requires visited' == visited + {e.1}
    ensures Settled(adj, start, dist, heap', visited', {e.1}, e.0)
  {
    assert level <= e.0;
    forall v | v in visited'
      ensures v in dist && dist[v].Fin? && dist[v].n <= e.0
    {
      if v != e.1 {
        assert v in visited;
        assert dist[v].n <= level;
      }
    }
    forall f | f in heap'
      ensures e.0 <= f.0
    {
      assert f in heap;
    }
    VisitKeepsRelaxed(adj, dist, visited, e.1, visited');
  }

  /** The node just visited is skipped, and the others were relaxed before. */
  lemma VisitKeepsRelaxed(adj: Adjacency, dist: map<Id, Dist>, visited: set<Id>, x: Id, visited': set<Id>)
    requires VisitedRelaxed(adj, dist, visited, {}) && visited' == visited + {x}
    ensures VisitedRelaxed(adj, dist, visited', {x})
  {
    forall v | v in visited' && v !in {x}
      ensures v in dist && dist[v].Fin? && Relaxed(adj, dist, v)
    {
      assert v in visited && v !in {};
    }
  }

  /** One edge of the loop, entry `i` = `(x, w)` reached at `t = cd + w`, keeps
      the loop's invariant, whether or not it lowers `x`. */
  lemma RelaxStep(adj: Adjacency, start: Id, u: Id, cd: int, nbrs: Neighbours, i: int,
                  d0: map<Id, Dist>, dist: map<Id, Dist>, heap: Heap, visited: set<Id>, expanded: seq<Id>,
                  x: Id, w: Weight, t: int, dist': map<Id, Dist>, heap': Heap)
    requires Closed(adj) && u in adj && nbrs == adj[u]
    requires Relaxing(adj, start, u, cd, nbrs, i, d0, dist, heap, visited, expanded) && i < |nbrs|
    requires nbrs[i].0 == x && nbrs[i].1 == w && t == cd + w && x in dist
    requires if Improves(t, dist[x]) then
        dist' == dist[x := Fin(t)] && heap' == heap + multiset{(t, x)}
      else
        dist' == dist && heap' == heap
    ensures Relaxing(adj, start, u, cd, nbrs, i + 1, d0, dist', heap', visited, expanded)
  {
    if Improves(t, dist[x]) {
      LowerStep(adj, start, u, cd, nbrs, i, d0, dist, heap, visited, expanded, x, w, t, dist', heap');
    }
  }

  /** An edge that lowers its target keeps the loop's invariant. */
  lemma LowerStep(adj: Adjacency, start: Id, u: Id, cd: int, nbrs: Neighbours, i: int,
                  d0: map<Id, Dist>, dist: map<Id, Dist>, heap: Heap, visited: set<Id>, expanded: seq<Id>,
                  x: Id, w: Weight, t: int, dist': map<Id, Dist>, heap': Heap)
    requires Closed(adj) && u in adj && nbrs == adj[u]
    requires Relaxing(adj, start, u, cd, nbrs, i, d0, dist, heap, visited, expanded) && i < |nbrs|
    requires nbrs[i].0 == x && nbrs[i].1 == w && t == cd + w
    requires x in dist && Improves(t, dist[x])
    requires dist' == dist[x := Fin(t)] && heap' == heap + multiset{(t, x)}
    ensures Relaxing(adj, start, u, cd, nbrs, i + 1, d0, dist', heap', visited, expanded)
  {
    LowerKeepsSearching(adj, start, dist, heap, visited, expanded, u, cd, i, x, w, t, dist', heap');
    LowerKeepsLowered(d0, dist, x, t, dist');
    if NonNegative(adj) {
      assert w >= 0;
      LowerKeepsSettled(adj, start, dist, heap, visited, u, cd, x, w, t, dist', heap');
      LowerKeepsPrefix(nbrs, i, cd, x, t, dist, dist');
    }
  }

  /** Lowering one more entry keeps every entry at or below where it started. */
  lemma LowerKeepsLowered(d0: map<Id, Dist>, dist: map<Id, Dist>, x: Id, t: int, dist': map<Id, Dist>)
    requires Lowered(d0, dist) && x in dist && Improves(t, dist[x]) && dist' == dist[x := Fin(t)]
    ensures Lowered(d0, dist')
  {
  }

  /** Recording a shorter distance to a neighbour of `u` (entry `k` of its
      list) and pushing it keeps every finite distance the weight of a walk and
      every node queued. */
  lemma LowerKeepsSearching(adj: Adjacency, start: Id, dist: map<Id, Dist>, heap: Heap,
                            visited: set<Id>, expanded: seq<Id>,
                            u: Id, cd: int, k: int, x: Id, w: Weight, t: int, dist': map<Id, Dist>, heap': Heap)
    requires Searching(adj, start, dist, heap, visited, expanded)
    requires u in adj && 0 <= k < |adj[u]| && adj[u][k].0 == x && adj[u][k].1 == w && t == cd + w
    requires WalkTo(adj, start, u, cd)
    requires x in dist && Improves(t, dist[x])
    requires dist' == dist[x := Fin(t)] && heap' == heap + multiset{(t, x)}
    ensures Searching(adj, start, dist', heap', visited, expanded)
  {
    LowerKeepsSound(adj, start, dist, u, cd, k, x, w, t, dist');
    LowerKeepsQueued(dist, heap, visited, x, t, dist', heap');
  }

  /** The lowered distance is the weight of the walk to `u` plus the edge. */
  lemma LowerKeepsSound(adj: Adjacency, start: Id, dist: map<Id, Dist>,
                        u: Id, cd: int, k: int, x: Id, w: Weight, t: int, dist': map<Id, Dist>)
    requires Sound(adj, dist, start)
    requires u in adj && 0 <= k < |adj[u]| && adj[u][k].0 == x && adj[u][k].1 == w && t == cd + w
    requires WalkTo(adj, start, u, cd)
    requires dist' == dist[x := Fin(t)]
    ensures Sound(adj, dist', start)
  {
    var hops :| IsWalk(adj, start, hops, u) && Paths.Weight(hops) == cd;
    WalkExtend(adj, start, hops, u, adj[u][k]);
  }

  /** The pushed entry queues the lowered node and sits at its distance. */
  lemma LowerKeepsQueued(dist: map<Id, Dist>, heap: Heap, visited: set<Id>, x: Id, t: int,
                         dist': map<Id, Dist>, heap': Heap)
    requires HeapAbove(dist, heap) && Queued(dist, heap, visited)
    requires x in dist && Improves(t, dist[x])
    requires dist' == dist[x := Fin(t)] && heap' == heap + multiset{(t, x)}
    ensures HeapAbove(dist', heap') && Queued(dist', heap', visited)
  {
  }

  /** With non-negative weights the lowered node is neither visited nor the
      start, so every visited node other than `u` stays relaxed. */
  lemma LowerKeepsSettled(adj: Adjacency, start: Id, dist: map<Id, Dist>, heap: Heap, visited: set<Id>,
                          u: Id, cd: int, x: Id, w: Weight, t: int, dist': map<Id, Dist>, heap': Heap)
    requires Settled(adj, start, dist, heap, visited, {u}, cd)
    requires u in visited && u in dist && dist[u] == Fin(cd) && w >= 0 && t == cd + w
    requires x in dist && Improves(t, dist[x])
    requires dist' == dist[x := Fin(t)] && heap' == heap + multiset{(t, x)}
    ensures Settled(adj, start, dist', heap', visited, {u}, cd)
    ensures dist'[u] == Fin(cd)
  {
    assert x !in visited;
    assert x != start;
    LowerKeepsRelaxed(adj, dist, visited, u, x, t, dist');
    forall v | v in visited
      ensures v in dist' && dist'[v].Fin? && dist'[v].n <= cd
    {
      assert v != x;
    }
    forall f | f in heap'
      ensures cd <= f.0
    {
      if f != (t, x) {
        assert f in heap;
      }
    }
  }

  /** Lowering a node that is not visited keeps every visited node relaxed. */
  lemma LowerKeepsRelaxed(adj: Adjacency, dist: map<Id, Dist>, visited: set<Id>, u: Id, x: Id, t: int,
                          dist': map<Id, Dist>)
    requires VisitedRelaxed(adj, dist, visited, {u}) && x !in visited
    requires x in dist && Improves(t, dist[x]) && dist' == dist[x := Fin(t)]
    ensures VisitedRelaxed(adj, dist', visited, {u})
  {
    forall v | v in visited && v !in {u}
      ensures v in dist' && dist'[v].Fin? && Relaxed(adj, dist', v)
    {
      assert v in dist && dist[v].Fin? && Relaxed(adj, dist, v);
      RelaxedAfterLower(adj, dist, v, x, t);
    }
  }

  /** After entry `i` lowers its target, the first `i + 1` entries are relaxed. */
  lemma LowerKeepsPrefix(nbrs: Neighbours, i: int, cd: int, x: Id, t: int, dist: map<Id, Dist>, dist': map<Id, Dist>)
    requires 0 <= i < |nbrs| && PrefixRelaxed(dist, cd, nbrs, i)
    requires nbrs[i].0 == x && t == cd + nbrs[i].1
    requires x in dist && Improves(t, dist[x])
    requires dist' == dist[x := Fin(t)]
    ensures PrefixRelaxed(dist', cd, nbrs, i + 1)
  {
    forall j | 0 <= j < i + 1
      ensures nbrs[j].0 in dist' && LessEq(dist'[nbrs[j].0], Fin(cd + nbrs[j].1))
    {
      if j < i {
        assert nbrs[j].0 in dist && LessEq(dist[nbrs[j].0], Fin(cd + nbrs[j].1));
      }
    }
  }

  /** After the last edge, `u` is relaxed as well. */
  lemma RelaxingDone(adj: Adjacency, start: Id, u: Id, cd: int, nbrs: Neighbours,
                     d0: map<Id, Dist>, dist: map<Id, Dist>, heap: Heap, visited: set<Id>, expanded: seq<Id>)
    requires u in adj && nbrs == adj[u]
    requires Relaxing(adj, start, u, cd, nbrs, |nbrs|, d0, dist, heap, visited, expanded)
    ensures Inv(adj, start, dist, heap, visited, expanded, cd)
    ensures Lowered(d0, dist)
  {
    if NonNegative(adj) {
      assert Relaxed(adj, dist, u);
    }
  }

  /** An empty heap leaves every finite node visited, hence relaxed when the
      weights are non-negative, and so at its least walk weight. */
  lemma Finished(adj: Adjacency, start: Id, dist: map<Id, Dist>, visited: set<Id>, expanded: seq<Id>, level: int)
    requires Inv(adj, start, dist, multiset{}, visited, expanded, level)
    ensures forall v :: v in dist && !Reachable(adj, start, v) ==> dist[v] == Inf
    ensures forall v :: v in expanded <==> v in dist && dist[v].Fin?
    ensures NonNegative(adj) ==>
      && AllRelaxed(adj, dist)
      && forall t :: t in dist ==> Shortest(adj, start, t, dist[t])
  {
    forall v | v in dist && dist[v].Fin?
      ensures v in visited && Reachable(adj, start, v)
    {
    }
    if NonNegative(adj) {
      assert AllRelaxed(adj, dist);
      forall t | t in dist
        ensures Shortest(adj, start, t, dist[t])
      {
        RelaxedIsShortest(adj, dist, start, t);
      }
    }
  }
}
