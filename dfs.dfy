// Depth-first traversal (src/algorithms/dfs.py): a recursive helper threads one
// visited set through the calls and prints each id the first time it is met.
// `Visit`/`VisitAll` define the outcome of a call (the visited set afterwards and
// the ids printed); `DfsHelper` is the recursion itself, proved to produce it.
module DepthFirst {
  import opened Common
  import opened Paths

  /** Every id the map mentions, as a key or as a neighbour. */
  function AllIds(adj: Adjacency): set<Id>
  {
    adj.Keys + Targets(adj)
  }

  lemma NeighboursAreIds(adj: Adjacency, u: Id)
    ensures forall i :: 0 <= i < |GetNeighbors(adj, u)| ==> GetNeighbors(adj, u)[i].0 in AllIds(adj)
  {
    forall i | 0 <= i < |GetNeighbors(adj, u)|
      ensures GetNeighbors(adj, u)[i].0 in Targets(adj)
    {
      assert adj[u][i].0 == GetNeighbors(adj, u)[i].0;
    }
  }

  /** What `_dfs_helper(node)` leaves in the visited set, and what it prints. */
  function Visit(adj: Adjacency, node: Id, visited: set<Id>): (res: (set<Id>, seq<Id>))
    ensures visited <= res.0
    decreases (AllIds(adj) + {node}) - visited, 0
  {
    if node in visited then (visited, [])
    else
      NeighboursAreIds(adj, node);
      var r := VisitAll(adj, GetNeighbors(adj, node), visited + {node});
      (r.0, [node] + r.1)
  }

  /** The loop over a suffix `ns` of a neighbour list: one helper call per entry,
      in list order. */
  function VisitAll(adj: Adjacency, ns: Neighbours, visited: set<Id>): (res: (set<Id>, seq<Id>))
    requires forall i :: 0 <= i < |ns| ==> ns[i].0 in AllIds(adj)
    ensures visited <= res.0
    decreases AllIds(adj) - visited, 1, |ns|
  {
    if ns == [] then (visited, [])
    else
      var first := Visit(adj, ns[0].0, visited);
      var rest := VisitAll(adj, ns[1..], first.0);
      (rest.0, first.1 + rest.1)
  }

  /** `_dfs_helper(graph, node, visited)`: returns the updated visited set and the
      ids printed, in order. */
  method DfsHelper(adj: Adjacency, node: Id, visited: set<Id>) returns (after: set<Id>, out: seq<Id>)
    ensures (after, out) == Visit(adj, node, visited)
    decreases (AllIds(adj) + {node}) - visited, 0
  {
    if node in visited {
      return visited, [];
    }
    out := [node];
    after := visited + {node};
    var nbrs := GetNeighbors(adj, node);
    NeighboursAreIds(adj, node);
    ghost var whole := VisitAll(adj, nbrs, visited + {node});
    assert nbrs[0..] == nbrs && out[1..] == [];
    assert out[1..] + whole.1 == whole.1;
    var i := 0;
    while i < |nbrs|
      invariant 0 <= i <= |nbrs|
      invariant visited + {node} <= after
      invariant |out| >= 1 && out[0] == node
      invariant Pending(adj, nbrs, i, after, out, whole)
      decreases |nbrs| - i
    {
      var after', more := DfsHelper(adj, nbrs[i].0, after);
      PendingStep(adj, nbrs, i, after, out, whole, after', more);
      after, out := after', out + more;
      i := i + 1;
    }
    assert nbrs[i..] == [];
    assert out == [node] + whole.1;
  }

  /** What the loop over `nbrs` still owes after `i` entries: the calls for
      `nbrs[i..]`, from the current visited set, complete `whole`. */
  ghost predicate Pending(adj: Adjacency, nbrs: Neighbours, i: int, after: set<Id>, out: seq<Id>,
                          whole: (set<Id>, seq<Id>))
    requires forall j :: 0 <= j < |nbrs| ==> nbrs[j].0 in AllIds(adj)
    requires 0 <= i <= |nbrs| && |out| >= 1
  {
    && whole.0 == VisitAll(adj, nbrs[i..], after).0
    && whole.1 == out[1..] + VisitAll(adj, nbrs[i..], after).1
  }

  /** The call for entry `i` pays off the first part of what is owed. */
  lemma PendingStep(adj: Adjacency, nbrs: Neighbours, i: int, after: set<Id>, out: seq<Id>,
                    whole: (set<Id>, seq<Id>), after': set<Id>, more: seq<Id>)
    requires forall j :: 0 <= j < |nbrs| ==> nbrs[j].0 in AllIds(adj)
    requires 0 <= i < |nbrs| && |out| >= 1
    requires Pending(adj, nbrs, i, after, out, whole)
    requires (after', more) == Visit(adj, nbrs[i].0, after)
    ensures Pending(adj, nbrs, i + 1, after', out + more, whole)
  {
    assert nbrs[i..][1..] == nbrs[i + 1..] && nbrs[i..][0] == nbrs[i];
    var tail := VisitAll(adj, nbrs[i + 1..], after');
    assert VisitAll(adj, nbrs[i..], after) == (tail.0, more + tail.1);
    assert (out + more)[1..] + tail.1 == out[1..] + (more + tail.1);
  }

  /** `dfs(graph, start)`: the ids in the order they are printed. */
  method Dfs(adj: Adjacency, start: Id) returns (order: seq<Id>)
    ensures order == Order(adj, start)
    ensures VisitsReachable(adj, start, order)
  {
    var visited;
    visited, order := DfsHelper(adj, start, {});
    OrderVisitsReachable(adj, start);
  }

  /** The print order of `dfs(graph, start)`. */
  function Order(adj: Adjacency, start: Id): (r: seq<Id>)
    ensures |r| >= 1 && r[0] == start
  {
    Visit(adj, start, {}).1
  }

  /** The start first, no id twice, exactly the reachable ids, and every later id
      an out-neighbour of an earlier one (it was discovered through it). */
  ghost predicate VisitsReachable(adj: Adjacency, start: Id, order: seq<Id>)
  {
    && |order| > 0 && order[0] == start
    && NoDuplicates(order)
    && (forall x :: x in order <==> Reachable(adj, start, x))
    && Discovered(adj, order)
  }

  /** Each id after the first has an edge into it from an earlier one. */
  ghost predicate Discovered(adj: Adjacency, out: seq<Id>)
  {
    forall k :: 0 < k < |out| ==> HasParent(adj, out, k)
  }

  /** Some id before position `k` has an edge into `out[k]`. */
  ghost predicate HasParent(adj: Adjacency, out: seq<Id>, k: int)
    requires 0 <= k < |out|
  {
    exists p :: 0 <= p < k && HasEdge(adj, out[p], out[k])
  }

  /** `x` is named by some entry of `ns`. */
  ghost predicate Names(ns: Neighbours, x: Id)
  {
    exists i :: 0 <= i < |ns| && ns[i].0 == x
  }

  // ---------------------------------------------------------------------------
  // Properties of one call, by mutual induction

  /** The facts both functions share: the ids printed are the ids newly visited,
      each once; and every newly visited id has all its neighbours visited. */
  ghost predicate Grows(adj: Adjacency, visited: set<Id>, after: set<Id>, out: seq<Id>)
  {
    && visited <= after
    && (forall x :: x in after <==> x in visited || x in out)
    && (forall x :: x in out ==> x !in visited)
    && NoDuplicates(out)
    && (forall u, i :: u in after && u !in visited && u in adj && 0 <= i < |adj[u]| ==> adj[u][i].0 in after)
  }

  /** Two calls in a row grow the visited set as one call would. */
  lemma GrowsConcat(adj: Adjacency, v0: set<Id>, v1: set<Id>, v2: set<Id>, o1: seq<Id>, o2: seq<Id>)
    requires Grows(adj, v0, v1, o1) && Grows(adj, v1, v2, o2)
    ensures Grows(adj, v0, v2, o1 + o2)
  {
    var out := o1 + o2;
    forall x
      ensures x in out <==> x in o1 || x in o2
    {
    }
    assert NoDuplicates(out) by {
      forall a, b | 0 <= a < b < |out|
        ensures out[a] != out[b]
      {
        if b >= |o1| {
          assert out[b] == o2[b - |o1|] && out[b] in o2;
          if a < |o1| {
            assert out[a] == o1[a] && out[a] in o1;
          } else {
            assert out[a] == o2[a - |o1|];
          }
        } else {
          assert out[a] == o1[a] && out[b] == o1[b];
        }
      }
    }
  }

  /** Each printed id is named by `ns` or has an edge into it from an earlier one. */
  ghost predicate DiscoveredFrom(adj: Adjacency, ns: Neighbours, out: seq<Id>)
  {
    forall k :: 0 <= k < |out| ==> Names(ns, out[k]) || HasParent(adj, out, k)
  }

  /** Printing `node` and then its neighbours' traversals grows the visited set
      by `node` and theirs. */
  lemma GrowsCons(adj: Adjacency, visited: set<Id>, node: Id, after: set<Id>, rest: seq<Id>)
    requires node !in visited
    requires Grows(adj, visited + {node}, after, rest)
    requires forall i :: 0 <= i < |GetNeighbors(adj, node)| ==> GetNeighbors(adj, node)[i].0 in after
    ensures Grows(adj, visited, after, [node] + rest)
  {
    var out := [node] + rest;
    forall u, i | u in after && u !in visited && u in adj && 0 <= i < |adj[u]|
      ensures adj[u][i].0 in after
    {
      if u == node {
        assert adj[u][i].0 == GetNeighbors(adj, node)[i].0;
      }
    }
    assert NoDuplicates(out) by {
      forall a, b | 0 <= a < b < |out|
        ensures out[a] != out[b]
      {
        if a > 0 {
          assert out[a] == rest[a - 1];
        }
        assert out[b] == rest[b - 1] && out[b] in rest;
      }
    }
  }

  lemma DiscoveredCons(adj: Adjacency, node: Id, rest: seq<Id>)
    requires DiscoveredFrom(adj, GetNeighbors(adj, node), rest)
    ensures Discovered(adj, [node] + rest)
  {
    forall k | 0 < k < |[node] + rest|
      ensures HasParent(adj, [node] + rest, k)
    {
      assert Names(GetNeighbors(adj, node), rest[k - 1]) || HasParent(adj, rest, k - 1);
      ParentInCons(adj, node, rest, k);
    }
  }

  /** In `[node] + rest`, an id named by `node`'s list has `node` as parent, and
      any other keeps the parent it has in `rest`. */
  lemma ParentInCons(adj: Adjacency, node: Id, rest: seq<Id>, k: int)
    requires 0 < k <= |rest|
    requires Names(GetNeighbors(adj, node), rest[k - 1]) || HasParent(adj, rest, k - 1)
    ensures HasParent(adj, [node] + rest, k)
  {
    var out := [node] + rest;
    assert out[k] == rest[k - 1] && out[0] == node;
    if Names(GetNeighbors(adj, node), rest[k - 1]) {
      var i :| 0 <= i < |GetNeighbors(adj, node)| && GetNeighbors(adj, node)[i].0 == rest[k - 1];
      EdgeFromWitness(adj, node, i, out[k]);
      assert HasEdge(adj, out[0], out[k]);
    } else {
      var p :| 0 <= p < k - 1 && HasEdge(adj, rest[p], rest[k - 1]);
      assert out[p + 1] == rest[p];
      assert HasEdge(adj, out[p + 1], out[k]);
    }
  }

  lemma EdgeFromWitness(adj: Adjacency, u: Id, i: int, v: Id)
    requires 0 <= i < |GetNeighbors(adj, u)| && GetNeighbors(adj, u)[i].0 == v
    ensures HasEdge(adj, u, v)
  {
    assert u in adj && adj[u][i].0 == v;
  }

  lemma DiscoveredConcat(adj: Adjacency, ns: Neighbours, first: seq<Id>, rest: seq<Id>)
    requires ns != []
    requires first != [] ==> first[0] == ns[0].0
    requires Discovered(adj, first) && DiscoveredFrom(adj, ns[1..], rest)
    ensures DiscoveredFrom(adj, ns, first + rest)
  {
    var out := first + rest;
    forall k | 0 <= k < |out|
      ensures Names(ns, out[k]) || HasParent(adj, out, k)
    {
      if k < |first| {
        assert out[k] == first[k];
        if k == 0 {
          assert Names(ns, out[k]);
        } else {
          assert HasParent(adj, first, k);
          var p :| 0 <= p < k && HasEdge(adj, first[p], first[k]);
          assert out[p] == first[p];
        }
      } else {
        var k' := k - |first|;
        assert out[k] == rest[k'];
        if Names(ns[1..], rest[k']) {
          var i :| 0 <= i < |ns[1..]| && ns[1..][i].0 == rest[k'];
          assert ns[i + 1].0 == out[k];
        } else {
          assert HasParent(adj, rest, k');
          var p :| 0 <= p < k' && HasEdge(adj, rest[p], rest[k']);
          assert out[p + |first|] == rest[p];
        }
      }
    }
  }

  lemma {:induction false} VisitFacts(adj: Adjacency, node: Id, visited: set<Id>)
    ensures var r := Visit(adj, node, visited);
      && Grows(adj, visited, r.0, r.1)
      && node in r.0
      && (node in visited ==> r.1 == [] && r.0 == visited)
      && (node !in visited ==> |r.1| > 0 && r.1[0] == node)
      && Discovered(adj, r.1)
    decreases (AllIds(adj) + {node}) - visited, 0
  {
    if node !in visited {
      NeighboursAreIds(adj, node);
      var nbrs := GetNeighbors(adj, node);
      VisitAllFacts(adj, nbrs, visited + {node});
      var rest := VisitAll(adj, nbrs, visited + {node});
      GrowsCons(adj, visited, node, rest.0, rest.1);
      DiscoveredCons(adj, node, rest.1);
    }
  }

  lemma {:induction false} VisitAllFacts(adj: Adjacency, ns: Neighbours, visited: set<Id>)
    requires forall i :: 0 <= i < |ns| ==> ns[i].0 in AllIds(adj)
    ensures var r := VisitAll(adj, ns, visited);
      && Grows(adj, visited, r.0, r.1)
      && (forall i :: 0 <= i < |ns| ==> ns[i].0 in r.0)
      && DiscoveredFrom(adj, ns, r.1)
    decreases AllIds(adj) - visited, 1, |ns|
  {
    if ns != [] {
      VisitFacts(adj, ns[0].0, visited);
      var first := Visit(adj, ns[0].0, visited);
      VisitAllFacts(adj, ns[1..], first.0);
      var rest := VisitAll(adj, ns[1..], first.0);
      forall i | 0 <= i < |ns|
        ensures ns[i].0 in rest.0
      {
        if i > 0 {
          assert ns[i].0 == ns[1..][i - 1].0;
        }
      }
      DiscoveredConcat(adj, ns, first.1, rest.1);
      GrowsConcat(adj, visited, first.0, rest.0, first.1, rest.1);
    }
  }

  // ---------------------------------------------------------------------------
  // The whole traversal

  /** An id discovered through reachable ids is reachable. */
  lemma {:induction false} DiscoveredReachable(adj: Adjacency, start: Id, out: seq<Id>, k: nat)
    requires |out| > 0 && out[0] == start && Discovered(adj, out)
    requires k < |out|
    ensures Reachable(adj, start, out[k])
    decreases k
  {
    if k == 0 {
      WalkNil(adj, start);
    } else {
      assert HasParent(adj, out, k);
      var p :| 0 <= p < k && HasEdge(adj, out[p], out[k]);
      DiscoveredReachable(adj, start, out, p);
      var i :| 0 <= i < |adj[out[p]]| && adj[out[p]][i].0 == out[k];
      ReachableStep(adj, start, out[p], i);
    }
  }

  /** `dfs` prints the start first, no id twice, exactly the reachable ids, each
      after an id with an edge into it; and the visited set it ends with is the
      set of reachable ids. */
  lemma OrderVisitsReachable(adj: Adjacency, start: Id)
    ensures VisitsReachable(adj, start, Order(adj, start))
    ensures forall x :: x in Visit(adj, start, {}).0 <==> Reachable(adj, start, x)
  {
    VisitFacts(adj, start, {});
    var after, out := Visit(adj, start, {}).0, Visit(adj, start, {}).1;
    forall x
      ensures x in out <==> Reachable(adj, start, x)
    {
      if Reachable(adj, start, x) {
        ReachableInside(adj, after, start, x);
      }
      if x in out {
        var k :| 0 <= k < |out| && out[k] == x;
        DiscoveredReachable(adj, start, out, k);
      }
    }
  }
}
