// Breadth-first traversal (src/algorithms/bfs.py): a FIFO queue that may hold
// duplicates, and a visited set checked when a node is dequeued. The printed
// visit order is the method's result.
module BreadthFirst {
  import opened Common
  import opened Paths

  /** The neighbours of a list that are not yet visited, in list order: what the
      generator handed to `queue.extend` yields. */
  function Unvisited(ns: Neighbours, visited: set<Id>): (r: seq<Id>)
    ensures forall j :: 0 <= j < |r| ==> r[j] !in visited && exists m :: 0 <= m < |ns| && ns[m].0 == r[j]
    ensures forall m :: 0 <= m < |ns| && ns[m].0 !in visited ==> ns[m].0 in r
  {
    if ns == [] then []
    else (if ns[0].0 in visited then [] else [ns[0].0]) + Unvisited(ns[1..], visited)
  }

  /** Filtering a list piecewise filters the whole: `Unvisited` keeps the
      list's order and its repeats. */
  lemma {:induction false} UnvisitedConcat(a: Neighbours, b: Neighbours, visited: set<Id>)
    ensures Unvisited(a + b, visited) == Unvisited(a, visited) + Unvisited(b, visited)
    decreases |a|
  {
    if a != [] {
      var head: seq<Id> := if a[0].0 in visited then [] else [a[0].0];
      assert (a + b)[0] == a[0] && (a + b)[1..] == a[1..] + b;
      assert Unvisited(a + b, visited) == head + Unvisited(a[1..] + b, visited);
      UnvisitedConcat(a[1..], b, visited);
      assert Unvisited(a, visited) == head + Unvisited(a[1..], visited);
    } else {
      assert a + b == b;
    }
  }

  /** The unvisited neighbours of a node are ids some list mentions. */
  lemma UnvisitedTargets(adj: Adjacency, u: Id, visited: set<Id>)
    ensures forall x :: x in Unvisited(GetNeighbors(adj, u), visited) ==> x in Targets(adj)
  {
    forall x | x in Unvisited(GetNeighbors(adj, u), visited)
      ensures x in Targets(adj)
    {
      var r := Unvisited(GetNeighbors(adj, u), visited);
      var j :| 0 <= j < |r| && r[j] == x;
      var m :| 0 <= m < |GetNeighbors(adj, u)| && GetNeighbors(adj, u)[m].0 == r[j];
      assert adj[u][m].0 == x;
    }
  }

  function Elems(s: seq<Id>): set<Id>
  {
    set x | x in s
  }

  /** What the loop prints from a state with `queue` waiting and `visited`
      already printed: a visited front is dropped; an unvisited one is printed,
      marked, and its unvisited neighbours are queued behind the rest. */
  function Emitted(adj: Adjacency, queue: seq<Id>, visited: set<Id>): seq<Id>
    decreases Targets(adj) + Elems(queue) - visited, |queue|
  {
    if queue == [] then []
    else if queue[0] in visited then
      assert Targets(adj) + Elems(queue[1..]) - visited == Targets(adj) + Elems(queue) - visited;
      Emitted(adj, queue[1..], visited)
    else
      var seen := visited + {queue[0]};
      var unseen := Unvisited(GetNeighbors(adj, queue[0]), seen);
      UnvisitedTargets(adj, queue[0], seen);
      assert Targets(adj) + Elems(queue[1..] + unseen) - seen < Targets(adj) + Elems(queue) - visited;
      [queue[0]] + Emitted(adj, queue[1..] + unseen, seen)
  }

  /** Nothing is printed twice, nothing already visited is printed, and every
      printed id was queued or is the target of some edge. */
  lemma {:induction false} EmittedFresh(adj: Adjacency, queue: seq<Id>, visited: set<Id>)
    ensures NoDuplicates(Emitted(adj, queue, visited))
    ensures forall x :: x in Emitted(adj, queue, visited) ==>
      x !in visited && (x in queue || x in Targets(adj))
    decreases Targets(adj) + Elems(queue) - visited, |queue|
  {
    if queue == [] {
    } else if queue[0] in visited {
      assert Targets(adj) + Elems(queue[1..]) - visited == Targets(adj) + Elems(queue) - visited;
      EmittedFresh(adj, queue[1..], visited);
      forall x | x in queue[1..] ensures x in queue { }
    } else {
      var seen := visited + {queue[0]};
      var unseen := Unvisited(GetNeighbors(adj, queue[0]), seen);
      UnvisitedTargets(adj, queue[0], seen);
      assert Targets(adj) + Elems(queue[1..] + unseen) - seen < Targets(adj) + Elems(queue) - visited;
      EmittedFresh(adj, queue[1..] + unseen, seen);
      var rest := Emitted(adj, queue[1..] + unseen, seen);
      assert Emitted(adj, queue, visited) == [queue[0]] + rest;
      forall x | x in rest ensures x in queue || x in Targets(adj)
      {
        if x in queue[1..] {
          assert x in queue;
        }
      }
    }
  }

  /** The order `bfs(start)` prints: the start first, no id twice. */
  function Order(adj: Adjacency, start: Id): (r: seq<Id>)
    ensures |r| >= 1 && r[0] == start && NoDuplicates(r)
  {
    EmittedFresh(adj, [start], {});
    Emitted(adj, [start], {})
  }

  /** Every id in the order is emitted once, the start first, and the emitted ids
      are exactly the reachable ones. */
  ghost predicate VisitsReachableOnce(adj: Adjacency, start: Id, order: seq<Id>)
  {
    && |order| > 0 && order[0] == start
    && NoDuplicates(order)
    && (forall x :: x in order <==> Reachable(adj, start, x))
  }

  /** Ids come out in non-decreasing hop distance: any bound on the hops to a later
      id also bounds the hops to every earlier one. */
  ghost predicate InHopOrder(adj: Adjacency, start: Id, order: seq<Id>)
  {
    forall i, j, k: nat :: 0 <= i < j < |order| && ReachableWithin(adj, start, order[j], k) ==>
      ReachableWithin(adj, start, order[i], k)
  }

  /** `n` copies of `x`. */
  function Repeat(x: nat, n: nat): (r: seq<nat>)
    ensures |r| == n && forall i :: 0 <= i < n ==> r[i] == x
  {
    if n == 0 then [] else [x] + Repeat(x, n - 1)
  }

  ghost predicate Sorted(s: seq<nat>)
  {
    forall i, j :: 0 <= i <= j < |s| ==> s[i] <= s[j]
  }

  /** `v` is visited, or waits in the queue with a level of at most `k`. */
  ghost predicate Covered(v: Id, k: nat, visited: set<Id>, queue: seq<Id>, ql: seq<nat>)
    requires |ql| == |queue|
  {
    v in visited || exists j :: 0 <= j < |queue| && queue[j] == v && ql[j] <= k
  }

  /** Bookkeeping: `visited` is the set of emitted ids, none twice, the start
      first; `lvl` and `ql` run alongside `order` and `queue`. */
  ghost predicate Shape(start: Id, order: seq<Id>, lvl: seq<nat>,
                        visited: set<Id>, queue: seq<Id>, ql: seq<nat>)
  {
    && |lvl| == |order| && |ql| == |queue|
    && visited == (set x | x in order)
    && NoDuplicates(order)
    && (order == [] ==> queue == [start] && ql == [0])
    && (order != [] ==> order[0] == start)
    && (forall j :: 0 <= j < |queue| && ql[j] == 0 ==> queue[j] == start)
  }

  /** `lvl` holds the hop distance of each emitted id and `ql` a hop bound for
      each queued one. */
  ghost predicate Levels(adj: Adjacency, start: Id, order: seq<Id>, lvl: seq<nat>,
                         queue: seq<Id>, ql: seq<nat>)
    requires |lvl| == |order| && |ql| == |queue|
  {
    QueueReach(adj, start, queue, ql) && OrderHops(adj, start, order, lvl)
  }

  ghost predicate QueueReach(adj: Adjacency, start: Id, queue: seq<Id>, ql: seq<nat>)
    requires |ql| == |queue|
  {
    forall j :: 0 <= j < |queue| ==>
      queue[j] in Universe(adj, start) && ReachableWithin(adj, start, queue[j], ql[j])
  }

  ghost predicate OrderHops(adj: Adjacency, start: Id, order: seq<Id>, lvl: seq<nat>)
    requires |lvl| == |order|
  {
    forall i :: 0 <= i < |order| ==> HopDistance(adj, start, order[i], lvl[i])
  }

  /** Both level sequences ascend, the emitted ones stay behind the queue, and the
      queue spans at most two levels. */
  ghost predicate Ascending(lvl: seq<nat>, ql: seq<nat>)
  {
    && Sorted(lvl) && Sorted(ql)
    && (ql != [] ==> ql[|ql| - 1] <= ql[0] + 1)
    && (ql != [] && lvl != [] ==> lvl[|lvl| - 1] <= ql[0])
  }

  /** Every neighbour of an emitted id is visited or queued one level further on. */
  ghost predicate Cover(adj: Adjacency, order: seq<Id>, lvl: seq<nat>,
                        visited: set<Id>, queue: seq<Id>, ql: seq<nat>)
    requires |lvl| == |order| && |ql| == |queue|
  {
    forall i, m :: 0 <= i < |order| && 0 <= m < |GetNeighbors(adj, order[i])| ==>
      Covered(GetNeighbors(adj, order[i])[m].0, lvl[i] + 1, visited, queue, ql)
  }

  /** Everything closer than the front of the queue has been visited. */
  ghost predicate Front(adj: Adjacency, start: Id, visited: set<Id>, queue: seq<Id>, ql: seq<nat>)
    requires |ql| == |queue|
  {
    queue != [] && ql[0] > 0 ==>
      forall y :: ReachableWithin(adj, start, y, ql[0] - 1) ==> y in visited
  }

  /** The loop invariant. */
  ghost predicate Inv(adj: Adjacency, start: Id, order: seq<Id>, lvl: seq<nat>,
                      visited: set<Id>, queue: seq<Id>, ql: seq<nat>)
  {
    && Shape(start, order, lvl, visited, queue, ql)
    && Levels(adj, start, order, lvl, queue, ql)
    && Ascending(lvl, ql)
    && Cover(adj, order, lvl, visited, queue, ql)
    && Front(adj, start, visited, queue, ql)
  }

  /** `bfs`: the ids in the order they are printed. */
  method Bfs(adj: Adjacency, start: Id) returns (order: seq<Id>)
    ensures order == Order(adj, start)
    ensures VisitsReachableOnce(adj, start, order)
    ensures InHopOrder(adj, start, order)
  {
    var visited: set<Id> := {};
    var queue: seq<Id> := [start];
    ghost var ql: seq<nat> := [0];
    ghost var lvl: seq<nat> := [];
    order := [];
    Init(adj, start);
    while queue != []
      invariant Inv(adj, start, order, lvl, visited, queue, ql)
      invariant order + Emitted(adj, queue, visited) == Order(adj, start)
      decreases Universe(adj, start) - visited, |queue|
    {
      var node := queue[0];
      if node !in visited {
        var seen := visited + {node};
        var unseen := Unvisited(GetNeighbors(adj, node), seen);
        var order', queue' := order + [node], queue[1..] + unseen;
        ghost var lvl', ql' := lvl + [ql[0]], ql[1..] + Repeat(ql[0] + 1, |unseen|);
        EmitKeepsInv(adj, start, order, lvl, visited, queue, ql, unseen, order', lvl', seen, queue', ql');
        EmittedEmit(adj, order, queue, visited);
        order, lvl, visited, queue, ql := order', lvl', seen, queue', ql';
      } else {
        SkipKeepsInv(adj, start, order, lvl, visited, queue, ql);
        EmittedSkip(adj, order, queue, visited);
        queue := queue[1..];
        ql := ql[1..];
      }
    }
    EmittedNone(adj, order, visited);
    Finish(adj, start, order, lvl, visited);
  }

  // ---------------------------------------------------------------------------
  // Proof of the loop

  /** Printing an unvisited front moves it from what is still to come to what
      has been printed. */
  lemma EmittedEmit(adj: Adjacency, order: seq<Id>, queue: seq<Id>, visited: set<Id>)
    requires queue != [] && queue[0] !in visited
    ensures order + Emitted(adj, queue, visited)
      == (order + [queue[0]])
         + Emitted(adj, queue[1..] + Unvisited(GetNeighbors(adj, queue[0]), visited + {queue[0]}), visited + {queue[0]})
  {
  }

  /** Dropping a visited front prints nothing. */
  lemma EmittedSkip(adj: Adjacency, order: seq<Id>, queue: seq<Id>, visited: set<Id>)
    requires queue != [] && queue[0] in visited
    ensures order + Emitted(adj, queue, visited) == order + Emitted(adj, queue[1..], visited)
  {
  }

  /** An empty queue prints nothing more. */
  lemma EmittedNone(adj: Adjacency, order: seq<Id>, visited: set<Id>)
    ensures order + Emitted(adj, [], visited) == order
  {
  }

  /** Before the loop: nothing printed, the start queued at level 0. */
  lemma Init(adj: Adjacency, start: Id)
    ensures Inv(adj, start, [], [], {}, [start], [0])
    ensures Emitted(adj, [start], {}) == Order(adj, start)
  {
    WalkNil(adj, start);
  }

  /** Everything within `k <= ql[0]` hops is visited or queued at level `k` or less. */
  lemma Reached(adj: Adjacency, start: Id, order: seq<Id>, lvl: seq<nat>,
                visited: set<Id>, queue: seq<Id>, ql: seq<nat>, y: Id, k: nat)
    requires Inv(adj, start, order, lvl, visited, queue, ql)
    requires queue != [] && k <= ql[0] && ReachableWithin(adj, start, y, k)
    ensures Covered(y, k, visited, queue, ql)
  {
    if ReachableWithin(adj, start, y, 0) {
      WithinZero(adj, start, y);
      if order == [] {
        assert queue[0] == y && ql[0] == 0;
      } else {
        assert order[0] == y;
      }
    } else {
      var prev, m := ReachableWithinLast(adj, start, y, k - 1);
      WithinMono(adj, start, prev, k - 1, ql[0] - 1);
      assert prev in visited;
      var p :| 0 <= p < |order| && order[p] == prev;
      HopAtMost(adj, start, prev, lvl[p], k - 1);
      assert GetNeighbors(adj, order[p])[m].0 == y;
    }
  }

  /** Once the front level moves on, everything within the old one is visited. */
  lemma FrontAdvances(adj: Adjacency, start: Id, order: seq<Id>, lvl: seq<nat>,
                      visited: set<Id>, queue: seq<Id>, ql: seq<nat>, visited': set<Id>, y: Id)
    requires Inv(adj, start, order, lvl, visited, queue, ql)
    requires queue != [] && (|queue| > 1 ==> ql[1] > ql[0])
    requires visited + {queue[0]} <= visited'
    requires ReachableWithin(adj, start, y, ql[0])
    ensures y in visited'
  {
    Reached(adj, start, order, lvl, visited, queue, ql, y, ql[0]);
  }

  lemma SkipKeepsInv(adj: Adjacency, start: Id, order: seq<Id>, lvl: seq<nat>,
                     visited: set<Id>, queue: seq<Id>, ql: seq<nat>)
    requires Inv(adj, start, order, lvl, visited, queue, ql)
    requires queue != [] && queue[0] in visited
    ensures Inv(adj, start, order, lvl, visited, queue[1..], ql[1..])
  {
    SkipShape(start, order, lvl, visited, queue, ql);
    SkipAscending(lvl, ql);
    SkipCover(adj, order, lvl, visited, queue, ql);
    SkipFront(adj, start, order, lvl, visited, queue, ql);
  }

  lemma SkipShape(start: Id, order: seq<Id>, lvl: seq<nat>,
                  visited: set<Id>, queue: seq<Id>, ql: seq<nat>)
    requires Shape(start, order, lvl, visited, queue, ql)
    requires queue != [] && queue[0] in visited
    ensures Shape(start, order, lvl, visited, queue[1..], ql[1..])
  {
    var q, l := queue[1..], ql[1..];
    forall j | 0 <= j < |q| && l[j] == 0
      ensures q[j] == start
    {
      assert q[j] == queue[j + 1] && l[j] == ql[j + 1];
    }
  }

  lemma SkipAscending(lvl: seq<nat>, ql: seq<nat>)
    requires Ascending(lvl, ql) && ql != []
    ensures Ascending(lvl, ql[1..])
  {
    SortedTail(ql);
    if |ql| > 1 {
      assert ql[0] <= ql[1];
    }
  }

  lemma SkipCover(adj: Adjacency, order: seq<Id>, lvl: seq<nat>,
                  visited: set<Id>, queue: seq<Id>, ql: seq<nat>)
    requires |lvl| == |order| && |ql| == |queue|
    requires Cover(adj, order, lvl, visited, queue, ql)
    requires queue != [] && queue[0] in visited
    ensures Cover(adj, order, lvl, visited, queue[1..], ql[1..])
  {
    var q, l := queue[1..], ql[1..];
    forall i, m | 0 <= i < |order| && 0 <= m < |GetNeighbors(adj, order[i])|
      ensures Covered(GetNeighbors(adj, order[i])[m].0, lvl[i] + 1, visited, q, l)
    {
      var v := GetNeighbors(adj, order[i])[m].0;
      assert Covered(v, lvl[i] + 1, visited, queue, ql);
      if v !in visited {
        var j :| 0 <= j < |queue| && queue[j] == v && ql[j] <= lvl[i] + 1;
        assert q[j - 1] == v && l[j - 1] == ql[j];
      }
    }
  }

  lemma SkipFront(adj: Adjacency, start: Id, order: seq<Id>, lvl: seq<nat>,
                  visited: set<Id>, queue: seq<Id>, ql: seq<nat>)
    requires Inv(adj, start, order, lvl, visited, queue, ql)
    requires queue != [] && queue[0] in visited
    ensures Front(adj, start, visited, queue[1..], ql[1..])
  {
    var q, l := queue[1..], ql[1..];
    if q != [] && l[0] > 0 {
      forall y | ReachableWithin(adj, start, y, l[0] - 1)
        ensures y in visited
      {
        if l[0] > ql[0] {
          FrontAdvances(adj, start, order, lvl, visited, queue, ql, visited, y);
        }
      }
    }
  }

  lemma EmitKeepsInv(adj: Adjacency, start: Id, order: seq<Id>, lvl: seq<nat>,
                     visited: set<Id>, queue: seq<Id>, ql: seq<nat>, unseen: seq<Id>,
                     o': seq<Id>, lv': seq<nat>, v': set<Id>, q': seq<Id>, l': seq<nat>)
    requires Inv(adj, start, order, lvl, visited, queue, ql)
    requires queue != [] && queue[0] !in visited
    requires unseen == Unvisited(GetNeighbors(adj, queue[0]), visited + {queue[0]})
    requires o' == order + [queue[0]] && lv' == lvl + [ql[0]] && v' == visited + {queue[0]}
    requires q' == queue[1..] + unseen && l' == ql[1..] + Repeat(ql[0] + 1, |unseen|)
    ensures Inv(adj, start, o', lv', v', q', l')
  {
    EmitShape(start, order, lvl, visited, queue, ql, unseen, o', lv', v', q', l');
    EmitLevels(adj, start, order, lvl, visited, queue, ql, unseen, o', lv', v', q', l');
    EmitAscending(lvl, ql, |unseen|, lv', l');
    EmitCover(adj, start, order, lvl, visited, queue, ql, unseen, o', lv', v', q', l');
    EmitFront(adj, start, order, lvl, visited, queue, ql, unseen, o', lv', v', q', l');
  }

  lemma EmitFront(adj: Adjacency, start: Id, order: seq<Id>, lvl: seq<nat>,
                  visited: set<Id>, queue: seq<Id>, ql: seq<nat>, unseen: seq<Id>,
                  o': seq<Id>, lv': seq<nat>, v': set<Id>, q': seq<Id>, l': seq<nat>)
    requires Inv(adj, start, order, lvl, visited, queue, ql)
    requires queue != [] && queue[0] !in visited
    requires o' == order + [queue[0]] && lv' == lvl + [ql[0]] && v' == visited + {queue[0]}
    requires q' == queue[1..] + unseen && l' == ql[1..] + Repeat(ql[0] + 1, |unseen|)
    requires |q'| == |l'|
    ensures Front(adj, start, v', q', l')
  {
    if q' != [] && l'[0] > 0 {
      forall y | ReachableWithin(adj, start, y, l'[0] - 1)
        ensures y in v'
      {
        if l'[0] > ql[0] {
          FrontAdvances(adj, start, order, lvl, visited, queue, ql, v', y);
        }
      }
    }
  }

  lemma EmitShape(start: Id, order: seq<Id>, lvl: seq<nat>,
                  visited: set<Id>, queue: seq<Id>, ql: seq<nat>, unseen: seq<Id>,
                  o': seq<Id>, lv': seq<nat>, v': set<Id>, q': seq<Id>, l': seq<nat>)
    requires Shape(start, order, lvl, visited, queue, ql)
    requires queue != [] && queue[0] !in visited
    requires o' == order + [queue[0]] && lv' == lvl + [ql[0]] && v' == visited + {queue[0]}
    requires q' == queue[1..] + unseen && l' == ql[1..] + Repeat(ql[0] + 1, |unseen|)
    ensures Shape(start, o', lv', v', q', l')
  {
    forall j | 0 <= j < |q'| && l'[j] == 0
      ensures q'[j] == start
    {
      if j < |queue| - 1 {
        assert q'[j] == queue[j + 1] && l'[j] == ql[j + 1];
      }
    }
  }

  lemma EmitAscending(lvl: seq<nat>, ql: seq<nat>, n: nat, lvl': seq<nat>, ql': seq<nat>)
    requires Ascending(lvl, ql) && ql != []
    requires lvl' == lvl + [ql[0]] && ql' == ql[1..] + Repeat(ql[0] + 1, n)
    ensures Ascending(lvl', ql')
  {
    LevelsWithin(ql);
    SortedTail(ql);
    SortedAppendLevel(ql[1..], Repeat(ql[0] + 1, n), ql[0] + 1);
    SortedSnoc(lvl, ql[0]);
    if ql' != [] {
      if |ql| > 1 {
        assert ql'[0] == ql[1];
      }
      assert ql[0] <= ql'[0] && ql'[|ql'| - 1] <= ql[0] + 1;
    }
  }

  /** A queue that spans two levels holds only those two levels. */
  lemma LevelsWithin(ql: seq<nat>)
    requires Sorted(ql) && ql != [] && ql[|ql| - 1] <= ql[0] + 1
    ensures forall i :: 0 <= i < |ql| ==> ql[0] <= ql[i] <= ql[0] + 1
  {
  }

  lemma SortedTail(s: seq<nat>)
    requires Sorted(s) && s != []
    ensures Sorted(s[1..])
  {
    forall i, j | 0 <= i <= j < |s[1..]|
      ensures s[1..][i] <= s[1..][j]
    {
      assert s[1..][i] == s[i + 1] && s[1..][j] == s[j + 1];
    }
  }

  /** Appending copies of a level no smaller than any entry keeps a sequence sorted. */
  lemma SortedAppendLevel(s: seq<nat>, ext: seq<nat>, c: nat)
    requires Sorted(s) && (forall i :: 0 <= i < |s| ==> s[i] <= c)
    requires forall i :: 0 <= i < |ext| ==> ext[i] == c
    ensures Sorted(s + ext)
    ensures forall i :: 0 <= i < |s + ext| ==> (s + ext)[i] <= c
  {
    var t := s + ext;
    forall i, j | 0 <= i <= j < |t|
      ensures t[i] <= t[j]
    {
      if j < |s| {
        assert t[i] == s[i] && t[j] == s[j];
      } else {
        assert t[j] == ext[j - |s|];
      }
    }
  }

  lemma SortedSnoc(s: seq<nat>, x: nat)
    requires Sorted(s) && (s != [] ==> s[|s| - 1] <= x)
    ensures Sorted(s + [x])
  {
    var t := s + [x];
    forall i, j | 0 <= i <= j < |t|
      ensures t[i] <= t[j]
    {
      if j < |s| {
        assert t[i] == s[i] && t[j] == s[j];
      } else if i < |s| {
        assert t[i] == s[i] && s[i] <= s[|s| - 1];
      }
    }
  }

  lemma EmitLevels(adj: Adjacency, start: Id, order: seq<Id>, lvl: seq<nat>,
                   visited: set<Id>, queue: seq<Id>, ql: seq<nat>, unseen: seq<Id>,
                   o': seq<Id>, lv': seq<nat>, v': set<Id>, q': seq<Id>, l': seq<nat>)
    requires |lvl| == |order| && |ql| == |queue|
    requires Levels(adj, start, order, lvl, queue, ql)
    requires Front(adj, start, visited, queue, ql)
    requires queue != [] && queue[0] !in visited
    requires unseen == Unvisited(GetNeighbors(adj, queue[0]), visited + {queue[0]})
    requires o' == order + [queue[0]] && lv' == lvl + [ql[0]] && v' == visited + {queue[0]}
    requires q' == queue[1..] + unseen && l' == ql[1..] + Repeat(ql[0] + 1, |unseen|)
    ensures |lv'| == |o'| && |l'| == |q'|
    ensures Levels(adj, start, o', lv', q', l')
  {
    var x, L := queue[0], ql[0];
    var ext := Repeat(L + 1, |unseen|);
    assert ReachableWithin(adj, start, x, L);
    forall t | 0 <= t < |unseen|
      ensures unseen[t] in Universe(adj, start) && ReachableWithin(adj, start, unseen[t], ext[t])
    {
      var ns := GetNeighbors(adj, x);
      var m :| 0 <= m < |ns| && ns[m].0 == unseen[t];
      assert x in adj;
      ReachableWithinStep(adj, start, x, L, m);
    }
    QueueReachShift(adj, start, queue, ql, unseen, ext);
    OrderHopsExtend(adj, start, order, lvl, x, L);
  }

  lemma QueueReachShift(adj: Adjacency, start: Id, queue: seq<Id>, ql: seq<nat>,
                        more: seq<Id>, ml: seq<nat>)
    requires |ql| == |queue| && |ml| == |more| && queue != []
    requires QueueReach(adj, start, queue, ql)
    requires forall t :: 0 <= t < |more| ==>
      more[t] in Universe(adj, start) && ReachableWithin(adj, start, more[t], ml[t])
    ensures QueueReach(adj, start, queue[1..] + more, ql[1..] + ml)
  {
    var q', l' := queue[1..] + more, ql[1..] + ml;
    forall j | 0 <= j < |q'|
      ensures q'[j] in Universe(adj, start) && ReachableWithin(adj, start, q'[j], l'[j])
    {
      if j < |queue| - 1 {
        assert q'[j] == queue[j + 1] && l'[j] == ql[j + 1];
      } else {
        assert q'[j] == more[j - (|queue| - 1)] && l'[j] == ml[j - (|queue| - 1)];
      }
    }
  }

  lemma OrderHopsExtend(adj: Adjacency, start: Id, order: seq<Id>, lvl: seq<nat>, x: Id, L: nat)
    requires |lvl| == |order|
    requires OrderHops(adj, start, order, lvl) && HopDistance(adj, start, x, L)
    ensures OrderHops(adj, start, order + [x], lvl + [L])
  {
    var o', lv' := order + [x], lvl + [L];
    forall i | 0 <= i < |o'|
      ensures HopDistance(adj, start, o'[i], lv'[i])
    {
      if i < |order| {
        assert o'[i] == order[i] && lv'[i] == lvl[i];
      }
    }
  }

  /** Dequeuing the front into the visited set and appending keeps an id covered. */
  lemma CoveredShift(v: Id, k: nat, visited: set<Id>, queue: seq<Id>, ql: seq<nat>,
                     more: seq<Id>, ml: seq<nat>)
    requires |ql| == |queue| && |ml| == |more| && queue != []
    requires Covered(v, k, visited, queue, ql)
    ensures Covered(v, k, visited + {queue[0]}, queue[1..] + more, ql[1..] + ml)
  {
    if v !in visited + {queue[0]} {
      var j :| 0 <= j < |queue| && queue[j] == v && ql[j] <= k;
      assert (queue[1..] + more)[j - 1] == v && (ql[1..] + ml)[j - 1] == ql[j];
    }
  }

  /** An id appended at level `k` is covered at level `k`. */
  lemma CoveredAppended(v: Id, k: nat, visited: set<Id>, queue: seq<Id>, ql: seq<nat>, more: seq<Id>)
    requires |ql| == |queue| && v in more
    ensures Covered(v, k, visited, queue + more, ql + Repeat(k, |more|))
  {
    var t :| 0 <= t < |more| && more[t] == v;
    assert (queue + more)[|queue| + t] == v;
    assert (ql + Repeat(k, |more|))[|queue| + t] == Repeat(k, |more|)[t] == k;
  }

  lemma EmitCover(adj: Adjacency, start: Id, order: seq<Id>, lvl: seq<nat>,
                  visited: set<Id>, queue: seq<Id>, ql: seq<nat>, unseen: seq<Id>,
                  o': seq<Id>, lv': seq<nat>, v': set<Id>, q': seq<Id>, l': seq<nat>)
    requires |lvl| == |order| && |ql| == |queue|
    requires Cover(adj, order, lvl, visited, queue, ql)
    requires queue != [] && queue[0] !in visited
    requires unseen == Unvisited(GetNeighbors(adj, queue[0]), visited + {queue[0]})
    requires o' == order + [queue[0]] && lv' == lvl + [ql[0]] && v' == visited + {queue[0]}
    requires q' == queue[1..] + unseen && l' == ql[1..] + Repeat(ql[0] + 1, |unseen|)
    ensures |lv'| == |o'| && |l'| == |q'|
    ensures Cover(adj, o', lv', v', q', l')
  {
    forall i, m | 0 <= i < |o'| && 0 <= m < |GetNeighbors(adj, o'[i])|
      ensures Covered(GetNeighbors(adj, o'[i])[m].0, lv'[i] + 1, v', q', l')
    {
      EmitCoverAt(adj, order, lvl, visited, queue, ql, unseen, o', lv', i, m);
    }
  }

  /** One neighbour entry of the cover after an id is emitted. */
  lemma EmitCoverAt(adj: Adjacency, order: seq<Id>, lvl: seq<nat>, visited: set<Id>,
                    queue: seq<Id>, ql: seq<nat>, unseen: seq<Id>,
                    o': seq<Id>, lv': seq<nat>, i: int, m: int)
    requires |lvl| == |order| && |ql| == |queue|
    requires Cover(adj, order, lvl, visited, queue, ql)
    requires queue != [] && queue[0] !in visited
    requires unseen == Unvisited(GetNeighbors(adj, queue[0]), visited + {queue[0]})
    requires o' == order + [queue[0]] && lv' == lvl + [ql[0]]
    requires 0 <= i < |o'| && 0 <= m < |GetNeighbors(adj, o'[i])|
    ensures Covered(GetNeighbors(adj, o'[i])[m].0, lv'[i] + 1, visited + {queue[0]},
                    queue[1..] + unseen, ql[1..] + Repeat(ql[0] + 1, |unseen|))
  {
    var v := GetNeighbors(adj, o'[i])[m].0;
    if i < |order| {
      assert o'[i] == order[i] && lv'[i] == lvl[i];
      assert Covered(v, lvl[i] + 1, visited, queue, ql);
      CoveredShift(v, lvl[i] + 1, visited, queue, ql, unseen, Repeat(ql[0] + 1, |unseen|));
    } else if v !in visited + {queue[0]} {
      assert o'[i] == queue[0] && lv'[i] == ql[0];
      CoveredAppended(v, ql[0] + 1, visited + {queue[0]}, queue[1..], ql[1..], unseen);
    }
  }

  /** With the queue drained, the visited set is closed under neighbours, so it
      holds every reachable id. */
  lemma Finish(adj: Adjacency, start: Id, order: seq<Id>, lvl: seq<nat>, visited: set<Id>)
    requires Inv(adj, start, order, lvl, visited, [], [])
    ensures VisitsReachableOnce(adj, start, order)
    ensures InHopOrder(adj, start, order)
  {
    forall u, m | u in visited && u in adj && 0 <= m < |adj[u]|
      ensures adj[u][m].0 in visited
    {
      var p :| 0 <= p < |order| && order[p] == u;
      assert Covered(GetNeighbors(adj, order[p])[m].0, lvl[p] + 1, visited, [], []);
    }
    forall x
      ensures x in order <==> Reachable(adj, start, x)
    {
      if Reachable(adj, start, x) {
        ReachableInside(adj, visited, start, x);
      }
      if x in order {
        var p :| 0 <= p < |order| && order[p] == x;
        assert HopDistance(adj, start, order[p], lvl[p]);
      }
    }
    forall i, j, k: nat | 0 <= i < j < |order| && ReachableWithin(adj, start, order[j], k)
      ensures ReachableWithin(adj, start, order[i], k)
    {
      HopAtMost(adj, start, order[j], lvl[j], k);
      WithinMono(adj, start, order[i], lvl[i], k);
    }
  }
}
