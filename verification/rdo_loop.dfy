/** The joint CDEF and loop-restoration decision: the two searches alternate, each with the
    other's latest choice, until nothing changes. Every cost comes from an oracle. */
module RdoLoop {
  datatype Restoration = NoFilter | Sgrproj(set_: nat, xqd0: int, xqd1: int)

  /** Costs as any rate-distortion function might return them, pass by pass. */
  datatype Oracle = Oracle(
    /** Coding a superblock with a CDEF index. */
    cdef: (nat, nat, nat) -> nat,
    /** Leaving a restoration unit unfiltered. */
    none: (nat, nat) -> nat,
    /** The solver's answer for a parameter set, and its cost. */
    solve: (nat, nat, nat) -> Restoration,
    sgr: (nat, nat, nat) -> nat)

  const UNVISITED := -1

  // What shrinks ----------------------------------------------------------------

  function Unvisited(costs: seq<int>): nat {
    if costs == [] then 0
    else Unvisited(costs[1..]) + (if costs[0] < 0 then 1 else 0)
  }

  function Spent(costs: seq<int>): nat {
    if costs == [] then 0
    else (if costs[0] < 0 then 0 else costs[0]) + Spent(costs[1..])
  }

  ghost predicate Improves(a: seq<int>, b: seq<int>) {
    |a| == |b| && forall u :: 0 <= u < |a| ==> 0 <= b[u] && (a[u] < 0 || b[u] <= a[u])
  }

  /** When no recorded cost rises and one of them is new or falls, the pair
      (units never visited, total recorded cost) falls lexicographically. */
  lemma {:induction false} PotentialFalls(a: seq<int>, b: seq<int>, u: nat)
    requires Improves(a, b) && u < |a| && (a[u] < 0 || b[u] < a[u])
    ensures Unvisited(b) < Unvisited(a) || (Unvisited(b) == Unvisited(a) && Spent(b) < Spent(a))
  {
    PotentialNeverRises(a[1..], b[1..]);
    if u > 0 {
      PotentialFalls(a[1..], b[1..], u - 1);
    }
  }

  lemma {:induction false} PotentialNeverRises(a: seq<int>, b: seq<int>)
    requires Improves(a, b)
    ensures Unvisited(b) == 0 <= Unvisited(a)
    ensures Unvisited(a) == 0 ==> Spent(b) <= Spent(a)
  {
    if a != [] {
      PotentialNeverRises(a[1..], b[1..]);
    }
  }

  // What has been learnt -----------------------------------------------------------

  /** The recorded choice and cost of a unit come from one evaluation. */
  ghost predicate Attained(o: Oracle, passes: nat, sets: nat, u: nat, filter: Restoration, cost: int) {
    || (filter == NoFilter && exists p :: 0 <= p < passes && cost == o.none(p, u))
    || (exists p, k :: 0 <= p < passes && 0 <= k < sets && filter == o.solve(p, u, k) && cost == o.sgr(p, u, k))
  }

  /** The recorded cost is at most every cost evaluated so far. */
  ghost predicate LowerBound(o: Oracle, passes: nat, sets: nat, u: nat, cost: int) {
    && (forall p :: 0 <= p < passes ==> cost <= o.none(p, u))
    && (forall p, k :: 0 <= p < passes && 0 <= k < sets ==> cost <= o.sgr(p, u, k))
  }

  ghost predicate Best(o: Oracle, passes: nat, sets: nat, u: nat, filter: Restoration, cost: int) {
    cost >= 0 && Attained(o, passes, sets, u, filter, cost) && LowerBound(o, passes, sets, u, cost)
  }

  lemma AttainedLater(o: Oracle, passes: nat, sets: nat, u: nat, filter: Restoration, cost: int)
    requires Attained(o, passes, sets, u, filter, cost)
    ensures Attained(o, passes + 1, sets, u, filter, cost)
  {
  }

  /** One unit of one pass: compare the recorded choice with no filter and every parameter set. */
  method DecideUnit(o: Oracle, p: nat, sets: nat, u: nat, filter: Restoration, cost: int)
      returns (newFilter: Restoration, newCost: int)
    requires (p == 0 && filter == NoFilter && cost == UNVISITED) || (p > 0 && Best(o, p, sets, u, filter, cost))
    ensures Best(o, p + 1, sets, u, newFilter, newCost)
    ensures cost >= 0 ==> newCost <= cost
    ensures newFilter != filter ==> cost < 0 || newCost < cost
  {
    newFilter, newCost := filter, cost;
    if p > 0 {
      AttainedLater(o, p, sets, u, filter, cost);
    }
    var c := o.none(p, u);
    if newCost < 0 || c < newCost {
      newCost := c;
      newFilter := NoFilter;
    }
    assert Attained(o, p + 1, sets, u, newFilter, newCost);
    for k := 0 to sets
      invariant newCost >= 0 && Attained(o, p + 1, sets, u, newFilter, newCost)
      invariant newCost <= o.none(p, u) && forall j :: 0 <= j < k ==> newCost <= o.sgr(p, u, j)
      invariant cost >= 0 ==> newCost <= cost
      invariant newFilter != filter ==> cost < 0 || newCost < cost
    {
      var current := o.solve(p, u, k);
      var c := o.sgr(p, u, k);
      if c < newCost {
        newCost := c;
        newFilter := current;
        assert Attained(o, p + 1, sets, u, newFilter, newCost);
      }
    }
    if p > 0 {
      assert LowerBound(o, p, sets, u, cost);
    }
  }

  /** One restoration pass over all units. It reports a change only if some unit's recorded
      cost was set for the first time or strictly lowered. */
  method DecideRestoration(o: Oracle, p: nat, sets: nat, lrf: array<Restoration>, costs: array<int>)
      returns (changed: bool)
    requires lrf.Length == costs.Length
    requires forall u :: 0 <= u < lrf.Length ==>
      (p == 0 && lrf[u] == NoFilter && costs[u] == UNVISITED) || (p > 0 && Best(o, p, sets, u, lrf[u], costs[u]))
    modifies lrf, costs
    ensures forall u :: 0 <= u < lrf.Length ==> Best(o, p + 1, sets, u, lrf[u], costs[u])
    ensures Improves(old(costs[..]), costs[..])
    ensures changed <==> exists u :: 0 <= u < lrf.Length && lrf[u] != old(lrf[u])
    ensures changed ==> exists u :: 0 <= u < lrf.Length && (old(costs[u]) < 0 || costs[u] < old(costs[u]))
  {
    hide Best;
    changed := false;
    ghost var moved: int := -1;
    for u := 0 to lrf.Length
      invariant forall v :: 0 <= v < u ==> Best(o, p + 1, sets, v, lrf[v], costs[v])
      invariant forall v :: 0 <= v < u ==> 0 <= costs[v] && (old(costs[v]) < 0 || costs[v] <= old(costs[v]))
      invariant forall v :: u <= v < lrf.Length ==> lrf[v] == old(lrf[v]) && costs[v] == old(costs[v])
      invariant changed <==> exists v :: 0 <= v < u && lrf[v] != old(lrf[v])
      invariant changed ==> 0 <= moved < u && (old(costs[moved]) < 0 || costs[moved] < old(costs[moved]))
    {
      var f, c := DecideUnit(o, p, sets, u, lrf[u], costs[u]);
      BestNonNegative(o, p + 1, sets, u, f, c);
      costs[u] := c;
      if lrf[u] != f {
        lrf[u] := f;
        changed := true;
        moved := u;
      }
    }
  }

  lemma BestNonNegative(o: Oracle, passes: nat, sets: nat, u: nat, filter: Restoration, cost: int)
    requires Best(o, passes, sets, u, filter, cost)
    ensures cost >= 0
  {
  }

  /** The first of a superblock's cheapest indices in a pass. */
  ghost predicate Cheapest(o: Oracle, p: nat, indices: nat, sb: nat, index: int) {
    && 0 <= index < indices
    && (forall i :: 0 <= i < indices ==> o.cdef(p, sb, index) <= o.cdef(p, sb, i))
    && (forall i :: 0 <= i < index ==> o.cdef(p, sb, index) < o.cdef(p, sb, i))
  }

  /** The CDEF search of one pass. */
  method DecideCdef(o: Oracle, p: nat, indices: nat, best: array<int>) returns (changed: bool)
    requires indices > 0
    modifies best
    ensures forall sb :: 0 <= sb < best.Length ==> Cheapest(o, p, indices, sb, best[sb])
    ensures changed <==> exists sb :: 0 <= sb < best.Length && best[sb] != old(best[sb])
  {
    changed := false;
    for sb := 0 to best.Length
      invariant forall b :: 0 <= b < sb ==> Cheapest(o, p, indices, b, best[b])
      invariant forall b :: sb <= b < best.Length ==> best[b] == old(best[b])
      invariant changed <==> exists b :: 0 <= b < sb && best[b] != old(best[b])
    {
      var bestCost, bestNew := -1, -1;
      for i := 0 to indices
        invariant i == 0 ==> bestCost == -1
        invariant i > 0 ==> 0 <= bestNew < i && bestCost == o.cdef(p, sb, bestNew)
        invariant forall j :: 0 <= j < i ==> bestCost <= o.cdef(p, sb, j)
        invariant forall j :: 0 <= j < bestNew ==> bestCost < o.cdef(p, sb, j)
      {
        var cost := o.cdef(p, sb, i);
        if bestCost < 0 || cost < bestCost {
          bestCost, bestNew := cost, i;
        }
      }
      if best[sb] != bestNew {
        changed := true;
        best[sb] := bestNew;
      }
    }
  }

  /** A unit's choice after so many passes. */
  ghost predicate ChosenBy(o: Oracle, passes: nat, sets: nat, u: nat, filter: Restoration) {
    if passes == 0 then filter == NoFilter else exists cost :: Best(o, passes, sets, u, filter, cost)
  }

  /** Alternates until one of the searches changes nothing. It stops for every oracle, because a
      further round needs a restoration choice to have changed. With restoration on, each
      unit ends with the cheapest of all the choices it was ever offered, and its cost. The
      indices are those of the last CDEF search; if a further one stopped the loop, it chose
      them again, and otherwise the last restoration search chose what was there before. */
  method Decide(o: Oracle, cdefOn: bool, lrfOn: bool, superblocks: nat, units: nat, indices: nat, sets: nat)
      returns (cdef: array<int>, lrf: array<Restoration>, costs: array<int>, ghost passes: nat, ghost byCdef: bool)
    requires indices > 0
    ensures cdef.Length == superblocks && lrf.Length == units == costs.Length && passes >= 1
    ensures cdefOn ==> forall sb :: 0 <= sb < superblocks ==> Cheapest(o, passes - 1, indices, sb, cdef[sb])
    ensures cdefOn && byCdef ==> forall sb :: 0 <= sb < superblocks ==> Cheapest(o, passes, indices, sb, cdef[sb])
    ensures lrfOn ==> forall u :: 0 <= u < units ==> Best(o, passes, sets, u, lrf[u], costs[u])
    ensures lrfOn && !byCdef ==> forall u :: 0 <= u < units ==> ChosenBy(o, passes - 1, sets, u, lrf[u])
  {
    hide Best, Unvisited, Spent, Improves, Cheapest, ChosenBy;
    byCdef := false;
    cdef := new int[superblocks](_ => -1);
    lrf := new Restoration[units](_ => NoFilter);
    costs := new int[units](_ => UNVISITED);
    var cdefChange, lrfChange := true, true;
    var p := 0;
    while cdefChange || lrfChange
      invariant fresh(cdef) && fresh(lrf) && fresh(costs)
      invariant cdef.Length == superblocks && lrf.Length == units == costs.Length
      invariant p == 0 ==> cdefChange
      invariant !byCdef && (p > 0 ==> !cdefChange)
      invariant cdefOn && p > 0 ==> forall sb :: 0 <= sb < superblocks ==> Cheapest(o, p - 1, indices, sb, cdef[sb])
      invariant lrfOn && !cdefChange && !lrfChange ==> forall u :: 0 <= u < units ==>
        ChosenBy(o, p - 1, sets, u, lrf[u])
      invariant lrfOn ==> forall u :: 0 <= u < units ==>
        (p == 0 && lrf[u] == NoFilter && costs[u] == UNVISITED) || (p > 0 && Best(o, p, sets, u, lrf[u], costs[u]))
      decreases Unvisited(costs[..]), Spent(costs[..]), cdefChange || lrfChange
    {
      if cdefOn {
        var changed := DecideCdef(o, p, indices, cdef);
        cdefChange := cdefChange || changed;
      }
      if !cdefChange {
        byCdef := true;
        break;
      }
      cdefChange, lrfChange := false, false;
      if lrfOn {
        ghost var before, choices := costs[..], lrf[..];
        ChosenNow(o, p, sets, choices, before);
        lrfChange := DecideRestoration(o, p, sets, lrf, costs);
        PotentialAfter(before, costs[..], lrfChange);
      }
      p := p + 1;
    }
    passes := p;
  }

  lemma ChosenNow(o: Oracle, p: nat, sets: nat, lrf: seq<Restoration>, costs: seq<int>)
    requires |lrf| == |costs|
    requires forall u :: 0 <= u < |lrf| ==>
      (p == 0 && lrf[u] == NoFilter && costs[u] == UNVISITED) || (p > 0 && Best(o, p, sets, u, lrf[u], costs[u]))
    ensures forall u :: 0 <= u < |lrf| ==> ChosenBy(o, p, sets, u, lrf[u])
  {
    hide Best;
  }

  lemma PotentialAfter(a: seq<int>, b: seq<int>, changed: bool)
    requires Improves(a, b)
    requires changed ==> exists u :: 0 <= u < |a| && (a[u] < 0 || b[u] < a[u])
    ensures Unvisited(b) < Unvisited(a) || (Unvisited(b) == Unvisited(a) && Spent(b) < Spent(a))
         || (!changed && Unvisited(b) == Unvisited(a) && Spent(b) == Spent(a))
  {
    if u :| 0 <= u < |a| && (a[u] < 0 || b[u] < a[u]) {
      PotentialFalls(a, b, u);
    } else {
      assert a == b;
    }
  }
}
