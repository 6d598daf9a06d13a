// The invariants of the A* loops, kept in a module of their own.
module AStarInvariants {
  import opened Common
  import opened Paths
  import opened Frontier

  /** Every `came_from` link is an edge into the node, from a node whose
      `g_score` is smaller, or equal and fixed earlier (`stamp` records when each
      score was last set), and the edge weighs no more than the difference of the
      two scores; `start` has no link and every other node with a finite score
      has one. */
  ghost predicate Links(adj: Adjacency, start: Id, g: map<Id, Dist>, came: map<Id, Id>, stamp: map<Id, nat>)
  {
    && stamp.Keys == g.Keys
    && start !in came
    && (forall b {:trigger came[b]} :: b in came ==> Link(adj, g, stamp, came[b], b))
    && (forall n :: n in g && g[n].Fin? && n != start ==> n in came)
  }

  ghost predicate Link(adj: Adjacency, g: map<Id, Dist>, stamp: map<Id, nat>, a: Id, b: Id)
  {
    && a in g && b in g && a in stamp && b in stamp && g[a].Fin? && g[b].Fin?
    && EdgeWithin(adj, a, b, g[b].n - g[a].n)
    && (g[a].n < g[b].n || (g[a].n == g[b].n && stamp[a] < stamp[b]))
  }

  /** Some entry of `a`'s list leads to `b` with a weight of at most `w`. */
  ghost predicate EdgeWithin(adj: Adjacency, a: Id, b: Id, w: int)
  {
    a in adj && exists k :: 0 <= k < |adj[a]| && adj[a][k].0 == b && adj[a][k].1 <= w
  }

  /** Every stamp is older than the clock. */
  ghost predicate Clocked(stamp: map<Id, nat>, clock: nat)
  {
    forall n :: n in stamp ==> stamp[n] < clock
  }

  /** The score maps of the search: `g_score` and `f_score` cover the graph's
      keys and `start`, `start` keeps 0, an open node has a finite `g_score`, a
      heuristic, and an `f_score` that is their sum, and a goal with a finite
      score is open. */
  ghost predicate Scores(adj: Adjacency, start: Id, goal: Id, h: map<Id, int>,
                         g: map<Id, Dist>, f: map<Id, Dist>, open: set<Id>)
  {
    && g.Keys == adj.Keys + {start} && f.Keys == g.Keys
    && g[start] == Fin(0)
    && NonNegativeEntries(g)
    && (forall o :: o in open ==> o in g && g[o].Fin? && o in h && f[o] == Fin(g[o].n + h[o]))
    && (goal in g && g[goal].Fin? ==> goal in open)
  }

  /** Every node with a finite score outside `skip` is open, or relaxed. */
  ghost predicate Expanded(adj: Adjacency, g: map<Id, Dist>, open: set<Id>, skip: set<Id>)
  {
    forall v {:trigger Relaxed(adj, g, v)} :: v in g && g[v].Fin? && v !in skip ==> v in open || Relaxed(adj, g, v)
  }

  /** The state the `while open_set` loop keeps between rounds. */
  ghost predicate Searching(adj: Adjacency, start: Id, goal: Id, h: map<Id, int>,
                           open: set<Id>, came: map<Id, Id>, g: map<Id, Dist>, f: map<Id, Dist>,
                           stamp: map<Id, nat>, clock: nat)
  {
    && Scores(adj, start, goal, h, g, f, open) && Expanded(adj, g, open, {})
    && Links(adj, start, g, came, stamp) && Clocked(stamp, clock)
    && (start == goal ==> open == {start})
  }

  /** The state of the loop over `current`'s neighbours after `i` of them. */
  ghost predicate Expanding(adj: Adjacency, start: Id, goal: Id, h: map<Id, int>, current: Id, gc: int,
                            nbrs: Neighbours, i: int, g0: map<Id, Dist>, open0: set<Id>,
                            open: set<Id>, came: map<Id, Id>, g: map<Id, Dist>, f: map<Id, Dist>,
                            stamp: map<Id, nat>, clock: nat)
  {
    && 0 <= i <= |nbrs|
    && ExpandState(adj, start, goal, h, current, gc, g0, open0, open, came, g, f, stamp, clock)
    && (forall j :: 0 <= j < i ==> nbrs[j].0 in g && LessEq(g[nbrs[j].0], Fin(gc + nbrs[j].1)))
  }

  /** The part of `Expanding` that does not depend on the position in the list. */
  ghost predicate ExpandState(adj: Adjacency, start: Id, goal: Id, h: map<Id, int>, current: Id, gc: int,
                              g0: map<Id, Dist>, open0: set<Id>,
                              open: set<Id>, came: map<Id, Id>, g: map<Id, Dist>, f: map<Id, Dist>,
                              stamp: map<Id, nat>, clock: nat)
  {
    && Scores(adj, start, goal, h, g, f, open)
    && current in g && g[current] == Fin(gc)
    && Expanded(adj, g, open, {current})
    && Links(adj, start, g, came, stamp) && Clocked(stamp, clock)
    && NoWorse(g0, g) && (Better(g0, g) || (g == g0 && open == open0))
  }
}

// A* search (src/algorithms/astar.py): an open set, `g_score`, `f_score` and
// `came_from` maps, the open node of least `f_score` expanded next, and the path
// read back through `came_from` once the goal is selected. Heuristic lookups
// raise `KeyError` for a missing entry.
module AStarSearch {
  import opened Common
  import opened Paths
  import opened Frontier
  import opened AStarInvariants

  /** `s[::-1]`. */
  function Reversed(s: seq<Id>): (r: seq<Id>)
    ensures |r| == |s| && forall i :: 0 <= i < |s| ==> r[i] == s[|s| - 1 - i]
  {
    if s == [] then [] else Reversed(s[1..]) + [s[0]]
  }

  /** A heuristic that never overestimates: no node's estimate exceeds the
      goal's by more than the weight of a walk from that node to the goal. */
  ghost predicate Admissible(adj: Adjacency, h: map<Id, int>, goal: Id)
  {
    goal in h && forall v, hops :: v in h && IsWalk(adj, v, hops, goal) ==> h[v] <= Paths.Weight(hops) + h[goal]
  }

  /** `p` lists the nodes of a walk from `start` to `goal` of least weight. */
  ghost predicate LeastPath(adj: Adjacency, start: Id, goal: Id, p: seq<Id>)
  {
    exists hops :: IsWalk(adj, start, hops, goal) && Traces(p, start, hops) && Shortest(adj, start, goal, Fin(Paths.Weight(hops)))
  }

  /** What `a_star` answers: a missing heuristic is a `KeyError` for an id that
      has none (the start's first); a start equal to the goal is its own path;
      with every heuristic present the answer is a path; a non-empty path runs
      from the start to the goal along edges, and is a least one when the
      heuristic is admissible; and the empty path is returned exactly when the
      goal is unreachable. */
  ghost predicate Answer(adj: Adjacency, start: Id, goal: Id, h: map<Id, int>, r: Result<seq<Id>>)
  {
    && (start !in h ==> r == Err(KeyError(start)))
    && (start in h && start == goal ==> r == Ok([start]))
    && (r.Err? ==> r.error.KeyError? && r.error.key !in h)
    && (start in h && (forall n :: n in adj ==> n in h) ==> r.Ok?)
    && (r.Ok? && r.value != [] ==>
      r.value[0] == start && r.value[|r.value| - 1] == goal && IsPath(adj, r.value))
    && (r.Ok? && r.value != [] && Admissible(adj, h, goal) ==> LeastPath(adj, start, goal, r.value))
    && (r.Ok? ==> (r.value == [] <==> !Reachable(adj, start, goal)))
  }

  /** `a_star(graph, start, goal, heuristic)`. */
  method AStar(adj: Adjacency, start: Id, goal: Id, h: map<Id, int>) returns (r: Result<seq<Id>>)
    requires Closed(adj) && NonNegative(adj)
    ensures Answer(adj, start, goal, h, r)
  {
    if start !in h {
      return Err(KeyError(start));
    }
    var open, came, g, f, stamp, clock := StartSearch(adj, start, goal, h);
    while open != {}
      invariant Searching(adj, start, goal, h, open, came, g, f, stamp, clock)
      decreases InfKeys(g), FinSum(g), open
    {
      FinSumNonNegative(g);
      var done;
      done, open, came, g, f, stamp, clock := Round(adj, start, goal, h, open, came, g, f, stamp, clock);
      if done.Some? {
        r := done.value;
        RoundAnswer(adj, start, goal, h, r);
        return;
      }
      FinSumNonNegative(g);
    }
    SearchExhausted(adj, start, goal, h, came, g, f, stamp, clock);
    return Ok([]);
  }

  /** The search's initial state: only the start is open, nothing has a
      predecessor, the start scores zero (its heuristic, for `f_score`) and
      every other node of the graph infinity. */
  method StartSearch(adj: Adjacency, start: Id, goal: Id, h: map<Id, int>)
    returns (open: set<Id>, came: map<Id, Id>, g: map<Id, Dist>, f: map<Id, Dist>,
             ghost stamp: map<Id, nat>, ghost clock: nat)
    requires start in h
    ensures open == {start} && came == map[]
    ensures start in g && g[start] == Fin(0) && start in f && f[start] == Fin(h[start])
    ensures forall n :: n in adj && n != start ==> n in g && g[n] == Inf && n in f && f[n] == Inf
    ensures Searching(adj, start, goal, h, open, came, g, f, stamp, clock)
  {
    open := {start};
    came := map[];
    g := (map n | n in adj :: Inf)[start := Fin(0)];
    f := (map n | n in adj :: Inf)[start := Fin(h[start])];
    stamp := map n | n in g :: 0;
    clock := 1;
  }

  /** With the open set empty and every closed node relaxed, the goal cannot be
      reachable: its walk would give it a finite `g_score`, and a finite goal
      would still be open. */
  lemma SearchExhausted(adj: Adjacency, start: Id, goal: Id, h: map<Id, int>,
                        came: map<Id, Id>, g: map<Id, Dist>, f: map<Id, Dist>,
                        stamp: map<Id, nat>, clock: nat)
    requires Closed(adj) && NonNegative(adj)
    requires start in h && Searching(adj, start, goal, h, {}, came, g, f, stamp, clock)
    ensures Answer(adj, start, goal, h, Ok([]))
  {
    assert AllRelaxed(adj, g);
    if Reachable(adj, start, goal) {
      var hops :| IsWalk(adj, start, hops, goal);
      RelaxedBound(adj, g, start, hops, goal);
      assert false;
    }
  }

  /** What a round that ends the search hands back is the search's answer. */
  lemma RoundAnswer(adj: Adjacency, start: Id, goal: Id, h: map<Id, int>, r: Result<seq<Id>>)
    requires start in h && (start == goal ==> r == Ok([start]))
    requires r.Ok? ==>
      && |r.value| >= 1 && r.value[0] == start && r.value[|r.value| - 1] == goal && IsPath(adj, r.value)
    requires r.Err? ==> r.error.KeyError? && r.error.key !in h && r.error.key in adj
    requires r.Ok? && Admissible(adj, h, goal) ==> LeastPath(adj, start, goal, r.value)
    ensures Answer(adj, start, goal, h, r)
  {
    if r.Ok? {
      PathIsWalk(adj, r.value);
    }
  }

  /** One round of `while open_set`: the open node of least `f_score` is taken;
      the goal ends the search with the path read back from `came_from`, any
      other node is closed and its neighbours expanded. `done` holds the search's
      answer when the round ends it. */
  method Round(adj: Adjacency, start: Id, goal: Id, h: map<Id, int>,
               open: set<Id>, came: map<Id, Id>, g: map<Id, Dist>, f: map<Id, Dist>,
               ghost stamp: map<Id, nat>, ghost clock: nat)
    returns (done: Option<Result<seq<Id>>>, open': set<Id>, came': map<Id, Id>, g': map<Id, Dist>,
             f': map<Id, Dist>, ghost stamp': map<Id, nat>, ghost clock': nat)
    requires Closed(adj) && NonNegative(adj) && open != {}
    requires Searching(adj, start, goal, h, open, came, g, f, stamp, clock)
    ensures start == goal ==> done == Some(Ok([start]))
    ensures done.Some? && done.value.Ok? ==>
      && |done.value.value| >= 1 && done.value.value[0] == start
      && done.value.value[|done.value.value| - 1] == goal && IsPath(adj, done.value.value)
    ensures done.Some? && done.value.Err? ==>
      done.value.error.KeyError? && done.value.error.key !in h && done.value.error.key in adj
    ensures done.Some? && done.value.Ok? && Admissible(adj, h, goal) ==>
      LeastPath(adj, start, goal, done.value.value)
    ensures done.None? ==>
      && Searching(adj, start, goal, h, open', came', g', f', stamp', clock')
      && NoWorse(g, g') && (Better(g, g') || (g' == g && open' < open))
    ensures done.None? ==>
      || InfKeys(g') < InfKeys(g)
      || (InfKeys(g') == InfKeys(g) && (FinSum(g') < FinSum(g) || (FinSum(g') == FinSum(g) && open' < open)))
  {
    done, open', came', g', f', stamp', clock' := None, open, came, g, f, stamp, clock;
    assert open <= f.Keys by {
      forall o | o in open
        ensures o in f
      {
        assert o in g;
      }
    }
    MinByExists(open, f);
    var current :| IsMinBy(open, f, current);
    if current == goal {
      ghost var hops;
      var path;
      path, hops := Reconstruct(adj, start, goal, came, g, stamp);
      if Admissible(adj, h, goal) {
        FoundLeast(adj, start, goal, h, open, g, f, path, hops);
      }
      return Some(Ok(path)), open', came', g', f', stamp', clock';
    }
    var missing;
    missing, open', came', g', f', stamp', clock' :=
      ExpandNeighbours(adj, start, goal, h, current, open - {current}, came, g, f, stamp, clock);
    if missing.Some? {
      return Some(Err(KeyError(missing.value))), open', came', g', f', stamp', clock';
    }
  }

  /** The `for neighbor, weight in graph.get_neighbors(current)` loop. Returns
      the neighbour whose heuristic lookup fails, if any. */
  method ExpandNeighbours(adj: Adjacency, start: Id, goal: Id, h: map<Id, int>, current: Id,
                          open: set<Id>, came: map<Id, Id>, g: map<Id, Dist>, f: map<Id, Dist>,
                          ghost stamp: map<Id, nat>, ghost clock: nat)
    returns (missing: Option<Id>, open': set<Id>, came': map<Id, Id>, g': map<Id, Dist>,
             f': map<Id, Dist>, ghost stamp': map<Id, nat>, ghost clock': nat)
    requires Closed(adj) && NonNegative(adj)
    requires Scores(adj, start, goal, h, g, f, open) && Expanded(adj, g, open, {current})
    requires Links(adj, start, g, came, stamp) && Clocked(stamp, clock)
    requires current in g && g[current].Fin?
    ensures missing.Some? ==> missing.value !in h && missing.value in adj
    ensures missing.None? ==>
      && Scores(adj, start, goal, h, g', f', open') && Expanded(adj, g', open', {})
      && Links(adj, start, g', came', stamp') && Clocked(stamp', clock')
      && NoWorse(g, g') && (Better(g, g') || (g' == g && open' == open))
  {
    missing, open', came', g', f', stamp', clock' := None, open, came, g, f, stamp, clock;
    var nbrs := GetNeighbors(adj, current);
    var gc := g[current].n;
    for i := 0 to |nbrs|
      invariant missing.None?
      invariant Expanding(adj, start, goal, h, current, gc, nbrs, i, g, open, open', came', g', f', stamp', clock')
    {
      missing, open', came', g', f', stamp', clock' :=
        ExpandOne(adj, start, goal, h, current, gc, nbrs, i, g, open, open', came', g', f', stamp', clock');
      if missing.Some? {
        return;
      }
    }
    assert Relaxed(adj, g', current);
  }

  /** One pass of the neighbour loop: a strictly better tentative score rewrites
      `came_from`, `g_score` and `f_score` for the neighbour and opens it; a
      neighbour missing from the heuristic is returned instead. */
  method ExpandOne(adj: Adjacency, start: Id, goal: Id, h: map<Id, int>, current: Id, gc: int,
                   nbrs: Neighbours, i: int, ghost g0: map<Id, Dist>, ghost open0: set<Id>,
                   open: set<Id>, came: map<Id, Id>, g: map<Id, Dist>, f: map<Id, Dist>,
                   ghost stamp: map<Id, nat>, ghost clock: nat)
    returns (missing: Option<Id>, open': set<Id>, came': map<Id, Id>, g': map<Id, Dist>,
             f': map<Id, Dist>, ghost stamp': map<Id, nat>, ghost clock': nat)
    requires Closed(adj) && NonNegative(adj) && nbrs == GetNeighbors(adj, current)
    requires Expanding(adj, start, goal, h, current, gc, nbrs, i, g0, open0, open, came, g, f, stamp, clock)
    requires i < |nbrs|
    ensures missing.Some? ==> missing.value == nbrs[i].0 && missing.value !in h && missing.value in adj
    ensures missing.None? ==>
      Expanding(adj, start, goal, h, current, gc, nbrs, i + 1, g0, open0, open', came', g', f', stamp', clock')
  {
    missing, open', came', g', f', stamp', clock' := None, open, came, g, f, stamp, clock;
    var neighbor := nbrs[i].0;
    var tentative := gc + nbrs[i].1;
    EdgeOfNeighbours(adj, current, i);
    if Improves(tentative, g[neighbor]) && neighbor !in h {
      missing := Some(neighbor);
      return;
    }
    if Improves(tentative, g[neighbor]) {
      came' := came[neighbor := current];
      g' := g[neighbor := Fin(tentative)];
      stamp' := stamp[neighbor := clock];
      clock' := clock + 1;
      f' := f[neighbor := Fin(tentative + h[neighbor])];
      open' := open + {neighbor};
    }
    Step(adj, start, goal, h, current, gc, nbrs, i, g0, open0, open, came, g, f, stamp, clock,
         open', came', g', f', stamp', clock');
  }

  /** One pass of the neighbour loop keeps the loop's invariant. */
  lemma Step(adj: Adjacency, start: Id, goal: Id, h: map<Id, int>, current: Id, gc: int,
             nbrs: Neighbours, i: int, g0: map<Id, Dist>, open0: set<Id>,
             open: set<Id>, came: map<Id, Id>, g: map<Id, Dist>, f: map<Id, Dist>,
             stamp: map<Id, nat>, clock: nat,
             open': set<Id>, came': map<Id, Id>, g': map<Id, Dist>, f': map<Id, Dist>,
             stamp': map<Id, nat>, clock': nat)
    requires Closed(adj) && NonNegative(adj) && nbrs == GetNeighbors(adj, current)
    requires Expanding(adj, start, goal, h, current, gc, nbrs, i, g0, open0, open, came, g, f, stamp, clock)
    requires i < |nbrs| && nbrs[i].0 in g
    requires if Improves(gc + nbrs[i].1, g[nbrs[i].0]) then
        && nbrs[i].0 in h
        && came' == came[nbrs[i].0 := current] && g' == g[nbrs[i].0 := Fin(gc + nbrs[i].1)]
        && stamp' == stamp[nbrs[i].0 := clock] && clock' == clock + 1
        && f' == f[nbrs[i].0 := Fin(gc + nbrs[i].1 + h[nbrs[i].0])] && open' == open + {nbrs[i].0}
      else
        open' == open && came' == came && g' == g && f' == f && stamp' == stamp && clock' == clock
    ensures Expanding(adj, start, goal, h, current, gc, nbrs, i + 1, g0, open0, open', came', g', f', stamp', clock')
  {
    if Improves(gc + nbrs[i].1, g[nbrs[i].0]) {
      ImproveStep(adj, start, goal, h, current, gc, nbrs, i, nbrs[i].0, nbrs[i].1, g0, open0,
                  open, came, g, f, stamp, clock, open', came', g', f', stamp', clock');
    } else {
      SkipStep(adj, start, goal, h, current, gc, nbrs, i, g0, open0, open, came, g, f, stamp, clock);
    }
  }

  /** One neighbour whose tentative score is no better. */
  lemma SkipStep(adj: Adjacency, start: Id, goal: Id, h: map<Id, int>, current: Id, gc: int,
                 nbrs: Neighbours, i: int, g0: map<Id, Dist>, open0: set<Id>,
                 open: set<Id>, came: map<Id, Id>, g: map<Id, Dist>, f: map<Id, Dist>,
                 stamp: map<Id, nat>, clock: nat)
    requires Expanding(adj, start, goal, h, current, gc, nbrs, i, g0, open0, open, came, g, f, stamp, clock)
    requires i < |nbrs| && nbrs[i].0 in g && !Improves(gc + nbrs[i].1, g[nbrs[i].0])
    ensures Expanding(adj, start, goal, h, current, gc, nbrs, i + 1, g0, open0, open, came, g, f, stamp, clock)
  {
  }

  /** One neighbour whose tentative score is better. */
  lemma ImproveStep(adj: Adjacency, start: Id, goal: Id, h: map<Id, int>, current: Id, gc: int,
                    nbrs: Neighbours, i: int, x: Id, w: int, g0: map<Id, Dist>, open0: set<Id>,
                    open: set<Id>, came: map<Id, Id>, g: map<Id, Dist>, f: map<Id, Dist>,
                    stamp: map<Id, nat>, clock: nat,
                    open': set<Id>, came': map<Id, Id>, g': map<Id, Dist>, f': map<Id, Dist>,
                    stamp': map<Id, nat>, clock': nat)
    requires Closed(adj) && NonNegative(adj) && nbrs == GetNeighbors(adj, current)
    requires Expanding(adj, start, goal, h, current, gc, nbrs, i, g0, open0, open, came, g, f, stamp, clock)
    requires i < |nbrs| && nbrs[i] == (x, w) && x in h && x in g && Improves(gc + w, g[x])
    requires came' == came[x := current] && g' == g[x := Fin(gc + w)]
    requires stamp' == stamp[x := clock] && clock' == clock + 1
    requires f' == f[x := Fin(gc + w + h[x])] && open' == open + {x}
    ensures Expanding(adj, start, goal, h, current, gc, nbrs, i + 1, g0, open0, open', came', g', f', stamp', clock')
  {
    EdgeOfNeighbours(adj, current, i);
    ImproveState(adj, start, goal, h, current, gc, x, w, gc + w, g0, open0,
                 open, came, g, f, stamp, clock, open', came', g', f', stamp', clock');
    ImprovePrefix(nbrs, i, gc, g, g');
  }

  /** Lowering the score of the neighbour `x` to `t`, reached from `current`
      by an edge of weight at most `w`, keeps the loop's state. */
  lemma ImproveState(adj: Adjacency, start: Id, goal: Id, h: map<Id, int>, current: Id, gc: int,
                     x: Id, w: int, t: int, g0: map<Id, Dist>, open0: set<Id>,
                     open: set<Id>, came: map<Id, Id>, g: map<Id, Dist>, f: map<Id, Dist>,
                     stamp: map<Id, nat>, clock: nat,
                     open': set<Id>, came': map<Id, Id>, g': map<Id, Dist>, f': map<Id, Dist>,
                     stamp': map<Id, nat>, clock': nat)
    requires ExpandState(adj, start, goal, h, current, gc, g0, open0, open, came, g, f, stamp, clock)
    requires x in adj && x in h && x in g && EdgeWithin(adj, current, x, w) && w >= 0 && t == gc + w
    requires Improves(t, g[x])
    requires came' == came[x := current] && g' == g[x := Fin(t)]
    requires stamp' == stamp[x := clock] && clock' == clock + 1
    requires f' == f[x := Fin(t + h[x])] && open' == open + {x}
    ensures ExpandState(adj, start, goal, h, current, gc, g0, open0, open', came', g', f', stamp', clock')
  {
    assert gc >= 0;
    LowerKeepsProgress(g0, g, x, t, g');
    LowerKeepsScores(adj, start, goal, h, g, f, open, x, t, g', f', open');
    LowerKeepsExpanded(adj, g, open, current, x, t, g', open');
    LowerKeepsLinks(adj, start, g, came, stamp, clock, current, x, w, t, g', came', stamp');
  }

  /** Lowering the score of entry `i` extends the relaxed prefix of the list by one. */
  lemma ImprovePrefix(nbrs: Neighbours, i: int, gc: int, g: map<Id, Dist>, g': map<Id, Dist>)
    requires 0 <= i < |nbrs| && nbrs[i].0 in g && Improves(gc + nbrs[i].1, g[nbrs[i].0])
    requires forall j :: 0 <= j < i ==> nbrs[j].0 in g && LessEq(g[nbrs[j].0], Fin(gc + nbrs[j].1))
    requires g' == g[nbrs[i].0 := Fin(gc + nbrs[i].1)]
    ensures forall j :: 0 <= j < i + 1 ==> nbrs[j].0 in g' && LessEq(g'[nbrs[j].0], Fin(gc + nbrs[j].1))
  {
    forall j | 0 <= j < i + 1
      ensures nbrs[j].0 in g' && LessEq(g'[nbrs[j].0], Fin(gc + nbrs[j].1))
    {
      if j < i {
        assert nbrs[j].0 in g && LessEq(g[nbrs[j].0], Fin(gc + nbrs[j].1));
      }
    }
  }

  /** An entry of `u`'s list is an edge out of `u`, to a key, of non-negative weight. */
  lemma EdgeOfNeighbours(adj: Adjacency, u: Id, i: int)
    requires Closed(adj) && NonNegative(adj)
    requires 0 <= i < |GetNeighbors(adj, u)|
    ensures u in adj && GetNeighbors(adj, u)[i] in adj[u]
    ensures GetNeighbors(adj, u)[i].0 in adj && GetNeighbors(adj, u)[i].1 >= 0
    ensures HasEdge(adj, u, GetNeighbors(adj, u)[i].0)
    ensures EdgeWithin(adj, u, GetNeighbors(adj, u)[i].0, GetNeighbors(adj, u)[i].1)
  {
    assert adj[u][i] == GetNeighbors(adj, u)[i];
  }

  /** Lowering the score of a node `x` of the graph (whose heuristic is known) to
      a non-negative value, and opening it, keeps the score maps' shape. */
  lemma LowerKeepsScores(adj: Adjacency, start: Id, goal: Id, h: map<Id, int>,
                         g: map<Id, Dist>, f: map<Id, Dist>, open: set<Id>, x: Id, t: int,
                         g': map<Id, Dist>, f': map<Id, Dist>, open': set<Id>)
    requires Scores(adj, start, goal, h, g, f, open)
    requires x in adj && x in h && t >= 0 && Improves(t, g[x])
    requires g' == g[x := Fin(t)] && f' == f[x := Fin(t + h[x])] && open' == open + {x}
    ensures Scores(adj, start, goal, h, g', f', open')
  {
  }

  /** Lowering the score of `x` and opening it keeps every other finite node
      open or relaxed. */
  lemma LowerKeepsExpanded(adj: Adjacency, g: map<Id, Dist>, open: set<Id>, u: Id, x: Id, t: int,
                           g': map<Id, Dist>, open': set<Id>)
    requires Expanded(adj, g, open, {u})
    requires x in g && Improves(t, g[x])
    requires g' == g[x := Fin(t)] && open' == open + {x}
    ensures Expanded(adj, g', open', {u})
  {
    forall v | v in g' && g'[v].Fin? && v != u && v !in open'
      ensures Relaxed(adj, g', v)
    {
      RelaxedAfterLower(adj, g, v, x, t);
    }
  }

  /** Setting `came_from[x] = u` along with `x`'s new score and a new stamp keeps
      every link pointing to an older or smaller score. */
  lemma LowerKeepsLinks(adj: Adjacency, start: Id, g: map<Id, Dist>, came: map<Id, Id>,
                        stamp: map<Id, nat>, clock: nat, u: Id, x: Id, w: int, t: int,
                        g': map<Id, Dist>, came': map<Id, Id>, stamp': map<Id, nat>)
    requires Links(adj, start, g, came, stamp) && Clocked(stamp, clock)
    requires start in g && g[start] == Fin(0) && NonNegativeEntries(g)
    requires u in g && g[u].Fin? && x in g && EdgeWithin(adj, u, x, w) && w >= 0 && t == g[u].n + w
    requires Improves(t, g[x])
    requires g' == g[x := Fin(t)] && came' == came[x := u] && stamp' == stamp[x := clock]
    ensures Links(adj, start, g', came', stamp') && Clocked(stamp', clock + 1)
  {
    assert x != start && x != u;
    forall b | b in came'
      ensures Link(adj, g', stamp', came'[b], b)
    {
      if b != x {
        assert Link(adj, g, stamp, came[b], b);
      }
    }
  }

  /** `trail` lists, from the goal back, the nodes the walk `hops` from
      `current` to the goal stands on after leaving `current`. */
  ghost predicate TrailOf(adj: Adjacency, current: Id, goal: Id, trail: seq<Id>, hops: Neighbours)
  {
    && IsWalk(adj, current, hops, goal) && |hops| == |trail|
    && forall j :: 0 <= j < |trail| ==> trail[j] == At(current, hops, |hops| - j)
  }

  /** The `while current in came_from` loop: the nodes from the goal back to
      the start, each entered by an edge from the next, and the walk they trace
      forwards, which weighs no more than the goal's `g_score`. */
  method WalkBack(adj: Adjacency, start: Id, goal: Id, came: map<Id, Id>,
                  ghost g: map<Id, Dist>, ghost stamp: map<Id, nat>) returns (trail: seq<Id>, ghost hops: Neighbours)
    requires Links(adj, start, g, came, stamp) && NonNegativeEntries(g)
    requires start in g && g[start] == Fin(0)
    requires goal in g && g[goal].Fin?
    ensures |trail| == |hops| + 1 && trail[0] == goal && trail[|trail| - 1] == start
    ensures forall i :: 0 <= i < |trail| - 1 ==> HasEdge(adj, trail[i + 1], trail[i])
    ensures forall j :: 0 <= j < |trail| ==> trail[j] == At(start, hops, |hops| - j)
    ensures IsWalk(adj, start, hops, goal) && Paths.Weight(hops) <= g[goal].n
    ensures goal == start ==> trail == [start]
  {
    trail := [];
    var current := goal;
    hops := [];
    while current in came
      invariant current in g && g[current].Fin?
      invariant trail != [] ==> goal in came
      invariant TrailOf(adj, current, goal, trail, hops) && g[current].n + Paths.Weight(hops) <= g[goal].n
      decreases g[current].n, stamp[current]
    {
      hops := StepBack(adj, start, goal, came, g, stamp, current, trail, hops);
      trail := trail + [current];
      current := came[current];
    }
    TrailEnd(adj, start, goal, trail, hops);
    trail := trail + [start];
  }

  /** One step back along `came_from[current]`: the link's edge, put in front of
      the walk, keeps the trail and its weight bound, and the score or stamp
      goes down. */
  lemma StepBack(adj: Adjacency, start: Id, goal: Id, came: map<Id, Id>, g: map<Id, Dist>, stamp: map<Id, nat>,
                 current: Id, trail: seq<Id>, hops: Neighbours) returns (hops': Neighbours)
    requires Links(adj, start, g, came, stamp) && current in came && current in g && g[current].Fin?
    requires goal in g && g[goal].Fin?
    requires TrailOf(adj, current, goal, trail, hops) && g[current].n + Paths.Weight(hops) <= g[goal].n
    ensures came[current] in g && g[came[current]].Fin? && came[current] in stamp && current in stamp
    ensures TrailOf(adj, came[current], goal, trail + [current], hops')
    ensures g[came[current]].n + Paths.Weight(hops') <= g[goal].n
    ensures g[came[current]].n < g[current].n
      || (g[came[current]].n == g[current].n && stamp[came[current]] < stamp[current])
  {
    var prev := came[current];
    assert Link(adj, g, stamp, prev, current);
    var k :| 0 <= k < |adj[prev]| && adj[prev][k].0 == current && adj[prev][k].1 <= g[current].n - g[prev].n;
    WalkPrepend(adj, prev, adj[prev][k], current, hops, goal);
    hops' := [adj[prev][k]] + hops;
  }

  /** The trail back to the start, closed with the start, joins each node to
      the one before it by an edge. */
  lemma TrailEnd(adj: Adjacency, start: Id, goal: Id, trail: seq<Id>, hops: Neighbours)
    requires TrailOf(adj, start, goal, trail, hops)
    ensures forall i :: 0 <= i < |trail| ==> HasEdge(adj, (trail + [start])[i + 1], (trail + [start])[i])
    ensures forall j :: 0 <= j < |trail| + 1 ==> (trail + [start])[j] == At(start, hops, |hops| - j)
  {
    var t := trail + [start];
    forall i | 0 <= i < |trail|
      ensures HasEdge(adj, t[i + 1], t[i])
    {
      assert StepOk(adj, start, hops, |hops| - i - 1);
    }
  }

  /** The path handed back once the goal is selected: the trail read back
      from it, reversed (`path[::-1]`). */
  method Reconstruct(adj: Adjacency, start: Id, goal: Id, came: map<Id, Id>,
                     ghost g: map<Id, Dist>, ghost stamp: map<Id, nat>) returns (path: seq<Id>, ghost hops: Neighbours)
    requires Links(adj, start, g, came, stamp) && NonNegativeEntries(g)
    requires start in g && g[start] == Fin(0)
    requires goal in g && g[goal].Fin?
    ensures |path| >= 1 && path[0] == start && path[|path| - 1] == goal
    ensures IsPath(adj, path)
    ensures goal == start ==> path == [start]
    ensures IsWalk(adj, start, hops, goal) && Traces(path, start, hops) && Paths.Weight(hops) <= g[goal].n
  {
    var trail;
    trail, hops := WalkBack(adj, start, goal, came, g, stamp);
    path := Reversed(trail);
    forall k | 0 <= k < |path| - 1
      ensures HasEdge(adj, path[k], path[k + 1])
    {
      var i := |trail| - 2 - k;
      assert path[k] == trail[i + 1] && path[k + 1] == trail[i];
    }
    forall i | 0 <= i < |path|
      ensures path[i] == At(start, hops, i)
    {
      assert path[i] == trail[|hops| - i];
    }
  }

  // ---------------------------------------------------------------------------
  // Why the path read back is a least one

  /** Along a walk from the start whose first `j` nodes are all closed, the node
      reached after them has a finite `g_score` of at most the weight walked so
      far: each closed node has relaxed its edges. */
  lemma {:induction false} ClosedPrefix(adj: Adjacency, g: map<Id, Dist>, open: set<Id>, start: Id,
                                        hops: Neighbours, t: Id, j: nat)
    requires Expanded(adj, g, open, {}) && start in g && g[start] == Fin(0)
    requires IsWalk(adj, start, hops, t) && j <= |hops|
    requires forall k :: 0 <= k < j ==> At(start, hops, k) !in open
    ensures At(start, hops, j) in g && g[At(start, hops, j)].Fin?
    ensures g[At(start, hops, j)].n <= Paths.Weight(hops[..j])
    decreases j
  {
    if j == 0 {
      assert hops[..0] == [];
    } else {
      ClosedPrefix(adj, g, open, start, hops, t, j - 1);
      var v := At(start, hops, j - 1);
      assert v !in open;
      assert Relaxed(adj, g, v);
      assert StepOk(adj, start, hops, j - 1);
      var k :| 0 <= k < |adj[v]| && adj[v][k] == hops[j - 1];
      assert GetNeighbors(adj, v)[k] == hops[j - 1];
      assert hops[..j][..j - 1] == hops[..j - 1];
    }
  }

  /** A walk from the start to an open node meets a first open node, whose
      `g_score` is at most the weight of the walk up to it. */
  lemma {:induction false} FirstOpen(adj: Adjacency, g: map<Id, Dist>, open: set<Id>, start: Id,
                                     hops: Neighbours, t: Id, j: nat) returns (i: nat)
    requires Expanded(adj, g, open, {}) && start in g && g[start] == Fin(0)
    requires IsWalk(adj, start, hops, t) && t in open && j <= |hops|
    requires forall k :: 0 <= k < j ==> At(start, hops, k) !in open
    ensures i <= |hops| && At(start, hops, i) in open
    ensures At(start, hops, i) in g && g[At(start, hops, i)].Fin?
    ensures g[At(start, hops, i)].n <= Paths.Weight(hops[..i])
    decreases |hops| - j
  {
    if At(start, hops, j) in open {
      ClosedPrefix(adj, g, open, start, hops, t, j);
      i := j;
    } else {
      i := FirstOpen(adj, g, open, start, hops, t, j + 1);
    }
  }

  /** When the goal is the open node of least `f_score` and the heuristic is
      admissible, no walk from the start to the goal weighs less than the goal's
      `g_score`: the walk's first open node scores no more than the walk. */
  lemma GoalIsLeast(adj: Adjacency, start: Id, goal: Id, h: map<Id, int>,
                    open: set<Id>, g: map<Id, Dist>, f: map<Id, Dist>, hops: Neighbours)
    requires Scores(adj, start, goal, h, g, f, open) && Expanded(adj, g, open, {})
    requires open <= f.Keys && IsMinBy(open, f, goal) && Admissible(adj, h, goal)
    requires IsWalk(adj, start, hops, goal)
    ensures g[goal].Fin? && g[goal].n <= Paths.Weight(hops)
  {
    var i := FirstOpen(adj, g, open, start, hops, goal, 0);
    var v := At(start, hops, i);
    WalkSuffix(adj, start, hops, goal, i);
    assert h[v] <= Paths.Weight(hops[i..]) + h[goal];
    assert LessEq(f[goal], f[v]);
  }

  /** The path read back once the goal is selected is a least one. */
  lemma FoundLeast(adj: Adjacency, start: Id, goal: Id, h: map<Id, int>,
                   open: set<Id>, g: map<Id, Dist>, f: map<Id, Dist>, path: seq<Id>, hops: Neighbours)
    requires Scores(adj, start, goal, h, g, f, open) && Expanded(adj, g, open, {})
    requires open <= f.Keys && IsMinBy(open, f, goal) && Admissible(adj, h, goal)
    requires IsWalk(adj, start, hops, goal) && Traces(path, start, hops) && Paths.Weight(hops) <= g[goal].n
    ensures LeastPath(adj, start, goal, path)
  {
    forall w | IsWalk(adj, start, w, goal)
      ensures Paths.Weight(hops) <= Paths.Weight(w)
    {
      GoalIsLeast(adj, start, goal, h, open, g, f, w);
    }
    GoalIsLeast(adj, start, goal, h, open, g, f, hops);
    assert Shortest(adj, start, goal, Fin(Paths.Weight(hops)));
  }
}
