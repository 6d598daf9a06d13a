// The effect of `Graph`'s four mutators (src/graph.py) on the adjacency map,
// as functions of the old map, and the two invariants they all keep: every
// neighbour is a key, and an undirected graph stores each edge both ways.
module GraphOps {
  import opened Common

  /** `[(n, w) for n, w in ns if n != x]`. */
  function Without(ns: Neighbours, x: Id): (r: Neighbours)
    ensures |r| <= |ns|
    ensures forall e :: e in r <==> e in ns && e.0 != x
    decreases |ns|
  {
    if ns == [] then []
    else
      assert ns == [ns[0]] + ns[1..];
      (if ns[0].0 == x then [] else [ns[0]]) + Without(ns[1..], x)
  }

  /** How many `(v, w)` entries `u`'s list holds. */
  function Count(adj: Adjacency, u: Id, v: Id, w: Weight): nat
  {
    if u in adj then multiset(adj[u])[(v, w)] else 0
  }

  /** An undirected graph lists every edge under both of its endpoints, with the
      same weight and as often. */
  ghost predicate Symmetric(adj: Adjacency)
  {
    forall u, v, w :: Count(adj, u, v, w) == Count(adj, v, u, w)
  }

  // ---------------------------------------------------------------------------
  // The mutators on values

  /** `add_node`. */
  function AddedNode(adj: Adjacency, n: Id): Adjacency
  {
    if n in adj then adj else adj[n := []]
  }

  /** `add_edge`: both endpoints become keys, `(b, w)` goes to the end of `a`'s
      list and, when undirected, `(a, w)` to the end of `b`'s. */
  function AddedEdge(adj: Adjacency, directed: bool, a: Id, b: Id, w: Weight): Adjacency
  {
    var m := AddedNode(AddedNode(adj, a), b);
    var m1 := m[a := m[a] + [(b, w)]];
    if directed then m1 else m1[b := m1[b] + [(a, w)]]
  }

  /** `remove_edge`, for endpoints the method can index. */
  function RemovedEdge(adj: Adjacency, directed: bool, a: Id, b: Id): (r: Adjacency)
    requires a in adj && (!directed ==> b in adj)
    ensures r.Keys == adj.Keys
    ensures forall e :: e in r[a] ==> e.0 != b
    ensures !directed ==> forall e :: e in r[b] ==> e.0 != a
  {
    var m := adj[a := Without(adj[a], b)];
    if directed then m else m[b := Without(m[b], a)]
  }

  /** `remove_node`. */
  function RemovedNode(adj: Adjacency, n: Id): (r: Adjacency)
    ensures r.Keys == adj.Keys - {n}
    ensures n !in adj ==> r == adj
    ensures n in adj ==> forall k, e :: k in r && e in r[k] ==> e.0 != n
  {
    if n in adj then map k | k in adj && k != n :: Without(adj[k], n) else adj
  }

  // ---------------------------------------------------------------------------
  // The filter keeps survivors in order

  /** Filtering distributes over concatenation: survivors keep their order. */
  lemma {:induction false} WithoutConcat(s: Neighbours, t: Neighbours, x: Id)
    ensures Without(s + t, x) == Without(s, x) + Without(t, x)
    decreases |s|
  {
    if s != [] {
      assert (s + t)[1..] == s[1..] + t;
      WithoutConcat(s[1..], t, x);
    } else {
      assert s + t == t;
    }
  }

  /** A list that does not name `x` is left as it is. */
  lemma {:induction false} WithoutNothingToRemove(s: Neighbours, x: Id)
    requires forall e :: e in s ==> e.0 != x
    ensures Without(s, x) == s
    decreases |s|
  {
    if s != [] {
      WithoutNothingToRemove(s[1..], x);
      assert s == [s[0]] + s[1..];
    }
  }

  /** In a closed adjacency map no list names an id that is not a key, so
      filtering such an id out of a list changes nothing. */
  lemma FilterUnknownIsIdentity(adj: Adjacency, a: Id, b: Id)
    requires Closed(adj) && a in adj && b !in adj
    ensures adj[a := Without(adj[a], b)] == adj
  {
    forall e | e in adj[a]
      ensures e.0 != b
    {
      var i :| 0 <= i < |adj[a]| && adj[a][i] == e;
    }
    WithoutNothingToRemove(adj[a], b);
  }

  /** Filtering drops every copy of an entry naming `x` and keeps every copy of
      the others. */
  lemma {:induction false} WithoutCount(s: Neighbours, x: Id, e: (Id, Weight))
    ensures multiset(Without(s, x))[e] == if e.0 == x then 0 else multiset(s)[e]
    decreases |s|
  {
    if s != [] {
      WithoutCount(s[1..], x, e);
      assert s == [s[0]] + s[1..];
    }
  }

  // ---------------------------------------------------------------------------
  // Invariant preservation

  /** Appending one entry to a list adds one to its count. */
  lemma CountAfterAppend(adj: Adjacency, k: Id, e: (Id, Weight), u: Id, v: Id, x: Weight)
    requires k in adj
    ensures Count(adj[k := adj[k] + [e]], u, v, x) == Count(adj, u, v, x) + (if u == k && e == (v, x) then 1 else 0)
  {
  }

  /** Filtering a list zeroes the counts of the entries naming the removed id. */
  lemma CountAfterFilter(adj: Adjacency, k: Id, y: Id, u: Id, v: Id, x: Weight)
    requires k in adj
    ensures Count(adj[k := Without(adj[k], y)], u, v, x) == if u == k && v == y then 0 else Count(adj, u, v, x)
  {
    WithoutCount(adj[k], y, (v, x));
  }

  /** An id that is not a key appears in no list of a closed map. */
  lemma AbsentIsUnmentioned(adj: Adjacency, n: Id, u: Id, w: Weight)
    requires Closed(adj) && n !in adj
    ensures Count(adj, u, n, w) == 0
  {
  }

  lemma AddNodeKeepsInvariants(adj: Adjacency, n: Id)
    requires Closed(adj)
    ensures Closed(AddedNode(adj, n))
    ensures Symmetric(adj) ==> Symmetric(AddedNode(adj, n))
  {
    var r: Adjacency := AddedNode(adj, n);
    if n !in adj && Symmetric(adj) {
      forall u, v, w
        ensures Count(r, u, v, w) == Count(r, v, u, w)
      {
        if u == n || v == n {
          AbsentIsUnmentioned(adj, n, u, w);
          AbsentIsUnmentioned(adj, n, v, w);
        }
        assert Count(adj, u, v, w) == Count(adj, v, u, w);
      }
    }
  }

  /** What `add_edge` does to each list. */
  lemma AddEdgeEffect(adj: Adjacency, directed: bool, a: Id, b: Id, w: Weight)
    ensures var r := AddedEdge(adj, directed, a, b, w);
      && r.Keys == adj.Keys + {a, b}
      && (directed || a != b ==> r[a] == GetNeighbors(adj, a) + [(b, w)])
      && (!directed && a != b ==> r[b] == GetNeighbors(adj, b) + [(a, w)])
      && (!directed && a == b ==> r[a] == GetNeighbors(adj, a) + [(a, w), (a, w)])
      && (forall k :: k in r && k != a && (directed || k != b) ==> r[k] == GetNeighbors(adj, k))
  {
  }

  lemma AddEdgeKeepsClosed(adj: Adjacency, directed: bool, a: Id, b: Id, w: Weight)
    requires Closed(adj)
    ensures Closed(AddedEdge(adj, directed, a, b, w))
  {
    var r: Adjacency := AddedEdge(adj, directed, a, b, w);
    AddEdgeEffect(adj, directed, a, b, w);
    forall u: Id, i: int | u in r && 0 <= i < |r[u]|
      ensures r[u][i].0 in r
    {
      var old_u := GetNeighbors(adj, u);
      if i < |old_u| {
        assert r[u][i] == old_u[i];
      }
    }
  }

  lemma AddEdgeKeepsSymmetric(adj: Adjacency, a: Id, b: Id, w: Weight)
    requires Closed(adj) && Symmetric(adj)
    ensures Symmetric(AddedEdge(adj, false, a, b, w))
  {
    var m := AddedNode(AddedNode(adj, a), b);
    AddNodeKeepsInvariants(adj, a);
    AddNodeKeepsInvariants(AddedNode(adj, a), b);
    var m1 := m[a := m[a] + [(b, w)]];
    var r := m1[b := m1[b] + [(a, w)]];
    assert r == AddedEdge(adj, false, a, b, w);
    forall u, v, x
      ensures Count(r, u, v, x) == Count(r, v, u, x)
    {
      CountAfterAppend(m, a, (b, w), u, v, x);
      CountAfterAppend(m1, b, (a, w), u, v, x);
      CountAfterAppend(m, a, (b, w), v, u, x);
      CountAfterAppend(m1, b, (a, w), v, u, x);
      assert Count(m, u, v, x) == Count(m, v, u, x);
    }
  }

  /** What `remove_edge` does to each list. */
  lemma RemoveEdgeEffect(adj: Adjacency, directed: bool, a: Id, b: Id)
    requires a in adj && (!directed ==> b in adj)
    ensures var r := RemovedEdge(adj, directed, a, b);
      && r.Keys == adj.Keys
      && (forall e :: e in r[a] ==> e.0 != b)
      && (!directed ==> forall e :: e in r[b] ==> e.0 != a)
      && (a != b ==> r[a] == Without(adj[a], b))
      && (!directed && a != b ==> r[b] == Without(adj[b], a))
      && (forall k :: k in r && k != a && (directed || k != b) ==> r[k] == adj[k])
  {
  }

  lemma RemoveEdgeKeepsInvariants(adj: Adjacency, directed: bool, a: Id, b: Id)
    requires a in adj && (!directed ==> b in adj)
    requires Closed(adj)
    ensures Closed(RemovedEdge(adj, directed, a, b))
    ensures !directed && Symmetric(adj) ==> Symmetric(RemovedEdge(adj, directed, a, b))
  {
    var m := adj[a := Without(adj[a], b)];
    var r: Adjacency := RemovedEdge(adj, directed, a, b);
    forall u: Id, i: int | u in r && 0 <= i < |r[u]|
      ensures r[u][i].0 in r
    {
      assert r[u][i] in r[u];
    }
    if !directed && Symmetric(adj) {
      assert r == m[b := Without(m[b], a)];
      forall u, v, x
        ensures Count(r, u, v, x) == Count(r, v, u, x)
      {
        CountAfterFilter(adj, a, b, u, v, x);
        CountAfterFilter(m, b, a, u, v, x);
        CountAfterFilter(adj, a, b, v, u, x);
        CountAfterFilter(m, b, a, v, u, x);
        assert Count(adj, u, v, x) == Count(adj, v, u, x);
      }
    }
  }

  /** What `remove_node` does: the key goes, and so does every entry naming it. */
  lemma RemoveNodeEffect(adj: Adjacency, n: Id)
    requires Closed(adj)
    ensures var r := RemovedNode(adj, n);
      && (n !in adj ==> r == adj)
      && r.Keys == adj.Keys - {n}
      && (forall k, e :: k in r && e in r[k] ==> e.0 != n)
      && (forall k :: k in r ==> r[k] == Without(adj[k], n))
  {
    if n !in adj {
      forall k | k in adj
        ensures adj[k] == Without(adj[k], n)
      {
        WithoutNothingToRemove(adj[k], n);
      }
    }
  }

  lemma RemoveNodeKeepsInvariants(adj: Adjacency, n: Id)
    requires Closed(adj)
    ensures Closed(RemovedNode(adj, n))
    ensures Symmetric(adj) ==> Symmetric(RemovedNode(adj, n))
  {
    var r: Adjacency := RemovedNode(adj, n);
    if n in adj {
      forall u: Id, i: int | u in r && 0 <= i < |r[u]|
        ensures r[u][i].0 in r
      {
        assert r[u][i] in r[u];
      }
      if Symmetric(adj) {
        forall u, v, x
          ensures Count(r, u, v, x) == Count(r, v, u, x)
        {
          if u in r {
            WithoutCount(adj[u], n, (v, x));
          }
          if v in r {
            WithoutCount(adj[v], n, (u, x));
          }
          if u == n || v == n {
            AbsentIsUnmentioned(r, n, u, x);
            AbsentIsUnmentioned(r, n, v, x);
          } else {
            assert Count(adj, u, v, x) == Count(adj, v, u, x);
          }
        }
      }
    }
  }
}
