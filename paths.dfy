// Walks through an adjacency list, reachability, hop distance and least walk
// weight: the yardsticks against which the traversals and the shortest-path
// searches are specified.
module Paths {
  import opened Common

  /** The node a walk from `s` stands on after its first `i` hops. */
  function At(s: Id, hops: Neighbours, i: nat): Id
    requires i <= |hops|
  {
    if i == 0 then s else hops[i - 1].0
  }

  /** Hop `i` of a walk from `s` is an entry of the list of the node it leaves. */
  ghost predicate StepOk(adj: Adjacency, s: Id, hops: Neighbours, i: nat)
    requires i < |hops|
  {
    At(s, hops, i) in adj && hops[i] in adj[At(s, hops, i)]
  }

  /** `hops` leads from `s` to `t`, following adjacency entries. */
  ghost predicate IsWalk(adj: Adjacency, s: Id, hops: Neighbours, t: Id)
  {
    At(s, hops, |hops|) == t && forall i :: 0 <= i < |hops| ==> StepOk(adj, s, hops, i)
  }

  /** The total weight of a walk. */
  function Weight(hops: Neighbours): int
  {
    if hops == [] then 0 else Weight(hops[..|hops| - 1]) + hops[|hops| - 1].1
  }

  ghost predicate Reachable(adj: Adjacency, s: Id, t: Id)
  {
    exists hops :: IsWalk(adj, s, hops, t)
  }

  /** `t` can be reached from `s` in at most `k` hops. */
  ghost predicate ReachableWithin(adj: Adjacency, s: Id, t: Id, k: nat)
  {
    exists hops :: |hops| <= k && IsWalk(adj, s, hops, t)
  }

  /** `k` is the least number of hops from `s` to `t`. */
  ghost predicate HopDistance(adj: Adjacency, s: Id, t: Id, k: nat)
  {
    ReachableWithin(adj, s, t, k) && (k == 0 || !ReachableWithin(adj, s, t, k - 1))
  }

  /** `p` is a sequence of nodes each joined to the next by an edge. */
  ghost predicate IsPath(adj: Adjacency, p: seq<Id>)
  {
    |p| >= 1 && forall i :: 0 <= i < |p| - 1 ==> HasEdge(adj, p[i], p[i + 1])
  }

  /** `p` lists the nodes the walk `hops` from `s` stands on, in order. */
  predicate Traces(p: seq<Id>, s: Id, hops: Neighbours)
  {
    |p| == |hops| + 1 && forall i :: 0 <= i < |p| ==> p[i] == At(s, hops, i)
  }

  /** `d` is the least weight of a walk from `s` to `t`, or `Inf` when there is none. */
  ghost predicate Shortest(adj: Adjacency, s: Id, t: Id, d: Dist)
  {
    match d
    case Inf => !Reachable(adj, s, t)
    case Fin(n) =>
      && (exists hops :: IsWalk(adj, s, hops, t) && Weight(hops) == n)
      && (forall hops :: IsWalk(adj, s, hops, t) ==> n <= Weight(hops))
  }

  /** Every finite entry of `dist` is the weight of some walk from `s`. */
  ghost predicate Sound(adj: Adjacency, dist: map<Id, Dist>, s: Id)
  {
    forall v :: v in dist && dist[v].Fin? ==>
      exists hops :: IsWalk(adj, s, hops, v) && Weight(hops) == dist[v].n
  }

  /** No edge out of `u` can lower a recorded distance any more. */
  ghost predicate Relaxed(adj: Adjacency, dist: map<Id, Dist>, u: Id)
    requires u in dist && dist[u].Fin?
  {
    forall i :: 0 <= i < |GetNeighbors(adj, u)| ==>
      GetNeighbors(adj, u)[i].0 in dist &&
      LessEq(dist[GetNeighbors(adj, u)[i].0], Fin(dist[u].n + GetNeighbors(adj, u)[i].1))
  }

  ghost predicate AllRelaxed(adj: Adjacency, dist: map<Id, Dist>)
  {
    forall u :: u in dist && dist[u].Fin? ==> Relaxed(adj, dist, u)
  }

  // ---------------------------------------------------------------------------
  // Walk surgery

  lemma WalkExtend(adj: Adjacency, s: Id, hops: Neighbours, t: Id, e: (Id, Weight))
    requires IsWalk(adj, s, hops, t)
    requires t in adj && e in adj[t]
    ensures IsWalk(adj, s, hops + [e], e.0)
    ensures Weight(hops + [e]) == Weight(hops) + e.1
  {
    var h := hops + [e];
    assert h[..|h| - 1] == hops;
    forall i | 0 <= i < |h|
      ensures StepOk(adj, s, h, i)
    {
      if i < |hops| {
        assert StepOk(adj, s, hops, i);
        assert At(s, h, i) == At(s, hops, i);
      }
    }
  }

  lemma WalkSplitLast(adj: Adjacency, s: Id, hops: Neighbours, t: Id)
    requires IsWalk(adj, s, hops, t) && |hops| > 0
    ensures var prev := At(s, hops, |hops| - 1);
      && IsWalk(adj, s, hops[..|hops| - 1], prev)
      && prev in adj && hops[|hops| - 1] in adj[prev]
      && hops[|hops| - 1].0 == t
  {
    var h := hops[..|hops| - 1];
    assert StepOk(adj, s, hops, |hops| - 1);
    forall i | 0 <= i < |h|
      ensures StepOk(adj, s, h, i)
    {
      assert StepOk(adj, s, hops, i);
      assert At(s, h, i) == At(s, hops, i);
    }
  }

  /** Weights add up over the two halves of a walk. */
  lemma {:induction false} WeightSplit(a: Neighbours, b: Neighbours)
    ensures Weight(a + b) == Weight(a) + Weight(b)
    decreases |b|
  {
    if b == [] {
      assert a + b == a;
    } else {
      var c := b[..|b| - 1];
      WeightSplit(a, c);
      assert (a + b)[..|a + b| - 1] == a + c;
    }
  }

  /** A hop into `s` put in front of a walk from `s`. */
  lemma WalkPrepend(adj: Adjacency, u: Id, e: (Id, Weight), s: Id, hops: Neighbours, t: Id)
    requires u in adj && e in adj[u] && e.0 == s
    requires IsWalk(adj, s, hops, t)
    ensures IsWalk(adj, u, [e] + hops, t)
    ensures Weight([e] + hops) == e.1 + Weight(hops)
    ensures forall i :: 1 <= i <= |hops| + 1 ==> At(u, [e] + hops, i) == At(s, hops, i - 1)
  {
    var w := [e] + hops;
    forall i | 0 <= i < |w|
      ensures StepOk(adj, u, w, i)
    {
      if i > 0 {
        assert StepOk(adj, s, hops, i - 1);
      }
    }
    WeightSplit([e], hops);
    assert [e][..0] == [];
  }

  /** The tail of a walk after its first `i` hops is a walk from where it stands. */
  lemma WalkSuffix(adj: Adjacency, s: Id, hops: Neighbours, t: Id, i: nat)
    requires IsWalk(adj, s, hops, t) && i <= |hops|
    ensures IsWalk(adj, At(s, hops, i), hops[i..], t)
    ensures Weight(hops) == Weight(hops[..i]) + Weight(hops[i..])
  {
    var w := hops[i..];
    forall k | 0 <= k < |w|
      ensures StepOk(adj, At(s, hops, i), w, k)
    {
      assert StepOk(adj, s, hops, i + k);
      assert At(At(s, hops, i), w, k) == At(s, hops, i + k);
    }
    assert hops[..i] + w == hops;
    WeightSplit(hops[..i], w);
  }

  /** The empty walk. */
  lemma WalkNil(adj: Adjacency, s: Id)
    ensures IsWalk(adj, s, [], s) && Weight([]) == 0
  {
  }

  // ---------------------------------------------------------------------------
  // Reachability

  /** A set that holds `s` and is closed under taking neighbours holds every node
      reachable from `s`. */
  lemma {:induction false} WalkStaysInside(adj: Adjacency, inside: set<Id>, s: Id, hops: Neighbours, t: Id)
    requires s in inside
    requires forall u, i :: u in inside && u in adj && 0 <= i < |adj[u]| ==> adj[u][i].0 in inside
    requires IsWalk(adj, s, hops, t)
    ensures t in inside
    decreases |hops|
  {
    if hops != [] {
      var prev := At(s, hops, |hops| - 1);
      WalkSplitLast(adj, s, hops, t);
      WalkStaysInside(adj, inside, s, hops[..|hops| - 1], prev);
      var e := hops[|hops| - 1];
      var i :| 0 <= i < |adj[prev]| && adj[prev][i] == e;
    }
  }

  lemma ReachableInside(adj: Adjacency, inside: set<Id>, s: Id, t: Id)
    requires s in inside
    requires forall u, i :: u in inside && u in adj && 0 <= i < |adj[u]| ==> adj[u][i].0 in inside
    requires Reachable(adj, s, t)
    ensures t in inside
  {
    var hops :| IsWalk(adj, s, hops, t);
    WalkStaysInside(adj, inside, s, hops, t);
  }

  /** One more edge keeps a node reachable. */
  lemma ReachableStep(adj: Adjacency, s: Id, u: Id, i: int)
    requires Reachable(adj, s, u)
    requires u in adj && 0 <= i < |adj[u]|
    ensures Reachable(adj, s, adj[u][i].0)
  {
    var hops :| IsWalk(adj, s, hops, u);
    WalkExtend(adj, s, hops, u, adj[u][i]);
  }

  lemma ReachableWithinStep(adj: Adjacency, s: Id, u: Id, k: nat, i: int)
    requires ReachableWithin(adj, s, u, k)
    requires u in adj && 0 <= i < |adj[u]|
    ensures ReachableWithin(adj, s, adj[u][i].0, k + 1)
  {
    var hops :| |hops| <= k && IsWalk(adj, s, hops, u);
    WalkExtend(adj, s, hops, u, adj[u][i]);
  }

  /** A walk of at least one hop ends at a neighbour of a node one hop closer. */
  lemma ReachableWithinLast(adj: Adjacency, s: Id, t: Id, k: nat) returns (prev: Id, i: int)
    requires ReachableWithin(adj, s, t, k + 1) && !ReachableWithin(adj, s, t, 0)
    ensures ReachableWithin(adj, s, prev, k)
    ensures prev in adj && 0 <= i < |adj[prev]| && adj[prev][i].0 == t
  {
    var hops :| |hops| <= k + 1 && IsWalk(adj, s, hops, t);
    if hops == [] {
      assert false;
    }
    prev := At(s, hops, |hops| - 1);
    WalkSplitLast(adj, s, hops, t);
    i :| 0 <= i < |adj[prev]| && adj[prev][i] == hops[|hops| - 1];
  }

  /** Zero hops reach only the start. */
  lemma WithinZero(adj: Adjacency, s: Id, t: Id)
    requires ReachableWithin(adj, s, t, 0)
    ensures t == s
  {
    var hops :| |hops| <= 0 && IsWalk(adj, s, hops, t);
  }

  lemma WithinMono(adj: Adjacency, s: Id, t: Id, k: nat, k': nat)
    requires ReachableWithin(adj, s, t, k) && k <= k'
    ensures ReachableWithin(adj, s, t, k')
  {
    var hops :| |hops| <= k && IsWalk(adj, s, hops, t);
  }

  /** The hop distance is at most any hop bound that reaches the node. */
  lemma HopAtMost(adj: Adjacency, s: Id, t: Id, d: nat, k: nat)
    requires HopDistance(adj, s, t, d) && ReachableWithin(adj, s, t, k)
    ensures d <= k
  {
  }

  /** Nothing but the start itself is reachable from an id that has no list. */
  lemma {:induction false} UnknownStartReachesOnlyItself(adj: Adjacency, s: Id, t: Id)
    requires s !in adj
    ensures Reachable(adj, s, t) <==> t == s
  {
    if t == s {
      WalkNil(adj, s);
    }
    if Reachable(adj, s, t) {
      ReachableInside(adj, {s}, s, t);
    }
  }

  /** The nodes of a path form a walk from its first to its last node. */
  lemma {:induction false} PathIsWalk(adj: Adjacency, p: seq<Id>)
    requires IsPath(adj, p)
    ensures Reachable(adj, p[0], p[|p| - 1])
    decreases |p|
  {
    if |p| == 1 {
      WalkNil(adj, p[0]);
    } else {
      var q := p[..|p| - 1];
      assert IsPath(adj, q) by {
        forall i | 0 <= i < |q| - 1 ensures HasEdge(adj, q[i], q[i + 1]) {
          assert HasEdge(adj, p[i], p[i + 1]);
        }
      }
      PathIsWalk(adj, q);
      assert HasEdge(adj, p[|p| - 2], p[|p| - 1]);
      var i :| 0 <= i < |adj[p[|p| - 2]]| && adj[p[|p| - 2]][i].0 == p[|p| - 1];
      ReachableStep(adj, p[0], p[|p| - 2], i);
    }
  }

  // ---------------------------------------------------------------------------
  // Least walk weight

  /** Along a walk, relaxed distances grow by at most the weight of each hop. */
  lemma {:induction false} RelaxedBound(adj: Adjacency, dist: map<Id, Dist>, s: Id, hops: Neighbours, t: Id)
    requires AllRelaxed(adj, dist)
    requires s in dist && dist[s].Fin?
    requires IsWalk(adj, s, hops, t)
    ensures t in dist && dist[t].Fin? && dist[t].n <= dist[s].n + Weight(hops)
    decreases |hops|
  {
    if hops != [] {
      var prev := At(s, hops, |hops| - 1);
      WalkSplitLast(adj, s, hops, t);
      RelaxedBound(adj, dist, s, hops[..|hops| - 1], prev);
      var i :| 0 <= i < |adj[prev]| && adj[prev][i] == hops[|hops| - 1];
      assert Relaxed(adj, dist, prev);
      assert GetNeighbors(adj, prev)[i] == hops[|hops| - 1];
    }
  }

  /** When every finite distance is relaxed and witnessed by a walk, and the start
      is at distance 0, each recorded distance is the least walk weight. */
  lemma RelaxedIsShortest(adj: Adjacency, dist: map<Id, Dist>, s: Id, t: Id)
    requires AllRelaxed(adj, dist) && Sound(adj, dist, s)
    requires s in dist && dist[s] == Fin(0)
    requires t in dist
    ensures Shortest(adj, s, t, dist[t])
  {
    match dist[t]
    case Inf =>
      if Reachable(adj, s, t) {
        var hops :| IsWalk(adj, s, hops, t);
        RelaxedBound(adj, dist, s, hops, t);
      }
    case Fin(n) =>
      forall hops | IsWalk(adj, s, hops, t)
        ensures n <= Weight(hops)
      {
        RelaxedBound(adj, dist, s, hops, t);
      }
  }

  /** Lowering another node's distance cannot undo `v`'s relaxation. */
  lemma RelaxedAfterLower(adj: Adjacency, dist: map<Id, Dist>, v: Id, x: Id, nd: int)
    requires v in dist && dist[v].Fin? && v != x && Relaxed(adj, dist, v)
    requires x in dist && Improves(nd, dist[x])
    ensures Relaxed(adj, dist[x := Fin(nd)], v)
  {
  }

  /** Least walk weights are unique. */
  lemma ShortestUnique(adj: Adjacency, s: Id, t: Id, d1: Dist, d2: Dist)
    requires Shortest(adj, s, t, d1) && Shortest(adj, s, t, d2)
    ensures d1 == d2
  {
    if d1.Fin? && d2.Fin? {
      var h1 :| IsWalk(adj, s, h1, t) && Weight(h1) == d1.n;
      var h2 :| IsWalk(adj, s, h2, t) && Weight(h2) == d2.n;
    } else if d1.Fin? || d2.Fin? {
      assert false;
    }
  }
}
