// Facts shared by the priority-driven searches (both Dijkstras and A*): that a
// non-empty heap or open set has a minimal entry, and a termination measure for
// distance maps whose entries only ever decrease.
module Frontier {
  import opened Common

  /** A heap of `(distance, node)` entries, as `heapq` keeps them, seen as a bag. */
  type Heap = multiset<(int, Id)>

  /** `e` is an entry of `heap` with the least distance. */
  predicate IsMinEntry(heap: Heap, e: (int, Id))
  {
    e in heap && forall f :: f in heap ==> e.0 <= f.0
  }

  lemma {:induction false} MinEntryExists(heap: Heap)
    requires |heap| > 0
    ensures exists e :: IsMinEntry(heap, e)
    decreases |heap|
  {
    NonEmptyBag(heap);
    var x :| x in heap;
    var rest := heap - multiset{x};
    if |rest| == 0 {
      assert heap == multiset{x};
      assert IsMinEntry(heap, x);
    } else {
      MinEntryExists(rest);
      var m :| IsMinEntry(rest, m);
      assert heap == rest + multiset{x};
      var best := if x.0 <= m.0 then x else m;
      forall f | f in heap
        ensures best.0 <= f.0
      {
        if f != x {
          assert f in rest;
        }
      }
      assert IsMinEntry(heap, best);
    }
  }

  /** Every heap entry names a key whose recorded distance is finite and no
      larger than the entry's. */
  ghost predicate HeapAbove(dist: map<Id, Dist>, heap: Heap)
  {
    forall e :: e in heap ==> e.1 in dist && dist[e.1].Fin? && dist[e.1].n <= e.0
  }

  /** `c` is a member of `open` whose score is least (`min(open, key=score)`). */
  predicate IsMinBy(open: set<Id>, score: map<Id, Dist>, c: Id)
    requires open <= score.Keys
  {
    c in open && forall o :: o in open ==> LessEq(score[c], score[o])
  }

  lemma {:induction false} MinByExists(open: set<Id>, score: map<Id, Dist>)
    requires open != {} && open <= score.Keys
    ensures exists c :: IsMinBy(open, score, c)
    decreases open
  {
    NonEmptySet(open);
    var x :| x in open;
    var rest := open - {x};
    if rest == {} {
      assert open == {x};
      assert IsMinBy(open, score, x);
    } else {
      MinByExists(rest, score);
      var m :| IsMinBy(rest, score, m);
      if LessEq(score[x], score[m]) {
        assert IsMinBy(open, score, x);
      } else {
        assert IsMinBy(open, score, m);
      }
    }
  }

  // ---------------------------------------------------------------------------
  // Termination measure: the set of keys still at infinity, then the sum of the
  // finite entries. Lowering one entry makes the pair strictly smaller.

  function Val(d: map<Id, Dist>, k: Id): int
  {
    if k in d && d[k].Fin? then d[k].n else 0
  }

  ghost function SumOver(d: map<Id, Dist>, ks: set<Id>): int
    decreases ks
  {
    if ks == {} then 0 else NonEmptySet(ks); var k :| k in ks; Val(d, k) + SumOver(d, ks - {k})
  }

  ghost function FinSum(d: map<Id, Dist>): int
  {
    SumOver(d, d.Keys)
  }

  ghost function InfKeys(d: map<Id, Dist>): set<Id>
  {
    set k | k in d && d[k].Inf?
  }

  /** The sum does not depend on which key it takes first. */
  lemma {:induction false} SumOverPick(d: map<Id, Dist>, ks: set<Id>, x: Id)
    requires x in ks
    ensures SumOver(d, ks) == Val(d, x) + SumOver(d, ks - {x})
    decreases ks
  {
    var j :| j in ks && SumOver(d, ks) == Val(d, j) + SumOver(d, ks - {j});
    if j != x {
      SumOverPick(d, ks - {j}, x);
      SumOverPick(d, ks - {x}, j);
      assert ks - {j} - {x} == ks - {x} - {j};
    }
  }

  lemma {:induction false} SumOverAgree(d1: map<Id, Dist>, d2: map<Id, Dist>, ks: set<Id>)
    requires forall k :: k in ks ==> Val(d1, k) == Val(d2, k)
    ensures SumOver(d1, ks) == SumOver(d2, ks)
    decreases ks
  {
    if ks != {} {
      NonEmptySet(ks);
      var j :| j in ks;
      SumOverPick(d1, ks, j);
      SumOverPick(d2, ks, j);
      SumOverAgree(d1, d2, ks - {j});
    }
  }

  lemma {:induction false} SumOverNonNegative(d: map<Id, Dist>, ks: set<Id>)
    requires forall k :: k in d && d[k].Fin? ==> d[k].n >= 0
    ensures SumOver(d, ks) >= 0
    decreases ks
  {
    if ks != {} {
      NonEmptySet(ks);
      var j :| j in ks;
      SumOverPick(d, ks, j);
      SumOverNonNegative(d, ks - {j});
    }
  }

  /** Every finite entry is non-negative. */
  ghost predicate NonNegativeEntries(d: map<Id, Dist>)
  {
    forall k :: k in d && d[k].Fin? ==> d[k].n >= 0
  }

  lemma FinSumNonNegative(d: map<Id, Dist>)
    requires NonNegativeEntries(d)
    ensures FinSum(d) >= 0
  {
    SumOverNonNegative(d, d.Keys);
  }

  /** `d` is no larger than `d0` in the measure. */
  ghost predicate NoWorse(d0: map<Id, Dist>, d: map<Id, Dist>)
  {
    InfKeys(d) <= InfKeys(d0) && (InfKeys(d) == InfKeys(d0) ==> FinSum(d) <= FinSum(d0))
  }

  /** `d` is strictly smaller than `d0` in the measure. */
  ghost predicate Better(d0: map<Id, Dist>, d: map<Id, Dist>)
  {
    InfKeys(d) < InfKeys(d0) || (InfKeys(d) == InfKeys(d0) && FinSum(d) < FinSum(d0))
  }

  /** Lowering one entry to a strictly smaller finite value is strict progress. */
  lemma LowerIsBetter(d: map<Id, Dist>, k: Id, x: int)
    requires k in d && Improves(x, d[k])
    ensures Better(d, d[k := Fin(x)])
  {
    var d' := d[k := Fin(x)];
    if d[k].Inf? {
      assert k in InfKeys(d) && k !in InfKeys(d');
      assert InfKeys(d') < InfKeys(d);
    } else {
      assert InfKeys(d') == InfKeys(d);
      SumOverPick(d, d.Keys, k);
      SumOverPick(d', d'.Keys, k);
      assert d'.Keys == d.Keys;
      SumOverAgree(d, d', d.Keys - {k});
    }
  }

  /** A run of lowerings, one entry at a time, keeps making progress. */
  lemma LowerKeepsProgress(d0: map<Id, Dist>, d: map<Id, Dist>, k: Id, x: int, d': map<Id, Dist>)
    requires NoWorse(d0, d) && (d == d0 || Better(d0, d))
    requires k in d && Improves(x, d[k]) && d' == d[k := Fin(x)]
    ensures NoWorse(d0, d') && Better(d0, d')
  {
    LowerIsBetter(d, k, x);
  }
}
