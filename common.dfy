// Shared vocabulary of the graph library: node ids, weights, distances with an
// explicit infinity, the adjacency-list shape and the error values that the
// Python code raises as exceptions.
module Common {

  /** Node identifiers. The library keys `adj_list` by int. */
  type Id = int

  /** Edge weights. The library uses floats; the model uses integers. */
  type Weight = int

  /** A node's ordered adjacency list: `(neighbour, weight)` pairs. */
  type Neighbours = seq<(Id, Weight)>

  /** The shape of `Graph.adj_list`. */
  type Adjacency = map<Id, Neighbours>

  datatype Option<T> = None | Some(value: T)

  /** A value of a node's or an edge's user data (a small tagged variant
      standing for the arbitrary Python objects a `dict` can hold). */
  datatype Value = Str(s: string) | Num(n: int) | Bool(b: bool)

  /** User data attached to a node or an edge. */
  type Data = map<string, Value>

  /** Python's `data or {}`: a missing (or empty) mapping becomes the empty one. */
  function DataOrEmpty(data: Option<Data>): (r: Data)
    ensures data.None? ==> r == map[]
    ensures data.Some? ==> r == data.value
  {
    match data
    case None => map[]
    case Some(d) => d
  }

  /** The exceptions the core can raise. */
  datatype Error =
    | KeyError(key: Id)        // a dict lookup of a missing key
    | ValueError(node: Id)     // `dijkstra` in algorithms/ rejects an unknown start

  datatype Result<T> = Ok(value: T) | Err(error: Error)

  /** A tentative or final distance; `Inf` plays the role of `float("inf")`. */
  datatype Dist = Inf | Fin(n: int)

  /** Python's `x < d` for a finite `x` and a distance that may be infinite. */
  predicate Improves(x: int, d: Dist)
  {
    d.Inf? || x < d.n
  }

  /** `a <= b` on distances, with `Inf` the largest. */
  predicate LessEq(a: Dist, b: Dist)
  {
    b.Inf? || (a.Fin? && a.n <= b.n)
  }

  /** `adj_list.get(node, [])`. */
  function GetNeighbors(adj: Adjacency, node: Id): Neighbours
  {
    if node in adj then adj[node] else []
  }

  /** Every neighbour id mentioned in any list is itself a key. */
  ghost predicate Closed(adj: Adjacency)
  {
    forall u, i :: u in adj && 0 <= i < |adj[u]| ==> adj[u][i].0 in adj
  }

  /** No edge has a negative weight (the documented precondition of the
      shortest-path algorithms). */
  ghost predicate NonNegative(adj: Adjacency)
  {
    forall u, i :: u in adj && 0 <= i < |adj[u]| ==> adj[u][i].1 >= 0
  }

  /** `u -> v` is an edge: some entry of `u`'s list names `v`. */
  ghost predicate HasEdge(adj: Adjacency, u: Id, v: Id)
  {
    u in adj && exists i :: 0 <= i < |adj[u]| && adj[u][i].0 == v
  }

  /** Every id some list mentions. */
  function Targets(adj: Adjacency): set<Id>
  {
    set u, i | u in adj && 0 <= i < |adj[u]| :: adj[u][i].0
  }

  /** The ids a traversal from `start` can meet. */
  function Universe(adj: Adjacency, start: Id): set<Id>
  {
    adj.Keys + Targets(adj) + {start}
  }

  /** No id occurs twice. */
  predicate NoDuplicates(s: seq<Id>)
  {
    forall i, j :: 0 <= i < j < |s| ==> s[i] != s[j]
  }

  /** A non-empty set has a member. */
  lemma NonEmptySet(s: set<Id>)
    requires s != {}
    ensures exists x :: x in s
  {
    assert (forall x :: x !in s) ==> s == {};
  }

  /** A non-empty bag has a member. */
  lemma NonEmptyBag(b: multiset<(int, Id)>)
    requires |b| > 0
    ensures exists x :: x in b
  {
    assert (forall x :: x !in b) ==> b == multiset{};
  }
}
