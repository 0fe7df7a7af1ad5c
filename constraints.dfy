/** The routing constraints handed to the solver, stated as predicates over a
    valuation, and what they imply about arcs, degrees and ranks. */
module Constraints {
  import opened Problem

  /** The maximum, over vehicles k in [from, vehicles), of the boolean x[i][j][k]. */
  function UsedByAnyFrom(inst: Instance, v: Valuation, i: nat, j: nat, from: nat): (r: bool)
    requires Fits(inst, v) && i < inst.nodes && j < inst.nodes
    ensures r <==> exists k :: from <= k < inst.vehicles && v.x[i][j][k]
    decreases inst.vehicles - from
  {
    if from >= inst.vehicles then false
    else v.x[i][j][from] || UsedByAnyFrom(inst, v, i, j, from + 1)
  }

  /** The value the max-equality constraint gives the aggregated arc i -> j. */
  function UsedByAny(inst: Instance, v: Valuation, i: nat, j: nat): bool
    requires Fits(inst, v) && i < inst.nodes && j < inst.nodes
  {
    UsedByAnyFrom(inst, v, i, j, 0)
  }

  /** Number of arcs i -> j with j in [from, nodes) and j != i that vehicle k uses. */
  function OutDegreeFrom(inst: Instance, v: Valuation, i: nat, k: nat, from: nat): nat
    requires Fits(inst, v) && i < inst.nodes && k < inst.vehicles
    decreases inst.nodes - from
  {
    if from >= inst.nodes then 0
    else (if from != i && v.x[i][from][k] then 1 else 0) + OutDegreeFrom(inst, v, i, k, from + 1)
  }

  function OutDegree(inst: Instance, v: Valuation, i: nat, k: nat): nat
    requires Fits(inst, v) && i < inst.nodes && k < inst.vehicles
  {
    OutDegreeFrom(inst, v, i, k, 0)
  }

  /** Number of arcs j -> i with j in [from, nodes) and j != i that vehicle k uses. */
  function InDegreeFrom(inst: Instance, v: Valuation, i: nat, k: nat, from: nat): nat
    requires Fits(inst, v) && i < inst.nodes && k < inst.vehicles
    decreases inst.nodes - from
  {
    if from >= inst.nodes then 0
    else (if from != i && v.x[from][i][k] then 1 else 0) + InDegreeFrom(inst, v, i, k, from + 1)
  }

  function InDegree(inst: Instance, v: Valuation, i: nat, k: nat): nat
    requires Fits(inst, v) && i < inst.nodes && k < inst.vehicles
  {
    InDegreeFrom(inst, v, i, k, 0)
  }

  /** Arcs entering node i, summed over vehicles k in [from, vehicles). */
  function VisitsFrom(inst: Instance, v: Valuation, i: nat, from: nat): nat
    requires Fits(inst, v) && i < inst.nodes
    decreases inst.vehicles - from
  {
    if from >= inst.vehicles then 0
    else InDegree(inst, v, i, from) + VisitsFrom(inst, v, i, from + 1)
  }

  function Visits(inst: Instance, v: Valuation, i: nat): nat
    requires Fits(inst, v) && i < inst.nodes
  {
    VisitsFrom(inst, v, i, 0)
  }

  /** xtot[i][j] is the maximum (logical or) of x[i][j][k] over the vehicles. */
  predicate AggregateLinked(inst: Instance, v: Valuation)
    requires Fits(inst, v)
  {
    forall i, j :: 0 <= i < inst.nodes && 0 <= j < inst.nodes && i != j ==>
      v.xtot[i][j] == UsedByAny(inst, v, i, j)
  }

  /** Every vehicle uses exactly one arc out of the depot and exactly one arc into it. */
  predicate DepotDegrees(inst: Instance, v: Valuation)
    requires Fits(inst, v)
  {
    forall k :: 0 <= k < inst.vehicles ==>
      OutDegree(inst, v, DEPOT, k) == 1 && InDegree(inst, v, DEPOT, k) == 1
  }

  /** At every customer, every vehicle enters as often as it leaves. */
  predicate FlowConserved(inst: Instance, v: Valuation)
    requires Fits(inst, v)
  {
    forall k, c :: 0 <= k < inst.vehicles && 0 < c < inst.nodes ==>
      InDegree(inst, v, c, k) == OutDegree(inst, v, c, k)
  }

  /** Every customer is entered exactly once, summed over all vehicles. */
  predicate VisitedOnce(inst: Instance, v: Valuation)
    requires Fits(inst, v)
  {
    forall c :: 0 < c < inst.nodes ==> Visits(inst, v, c) == 1
  }

  /** The domain of the rank variables: 1 <= u[c] <= number of customers. */
  predicate RanksInRange(inst: Instance, v: Valuation)
    requires Fits(inst, v)
  {
    forall c :: 0 < c < inst.nodes ==> 1 <= v.u[c] <= MaxRank(inst)
  }

  /** The Miller-Tucker-Zemlin inequality over every ordered pair of distinct customers. */
  predicate Mtz(inst: Instance, v: Valuation)
    requires Fits(inst, v)
  {
    forall i, j :: 0 < i < inst.nodes && 0 < j < inst.nodes && i != j ==>
      v.u[i] - v.u[j] + MaxRank(inst) * (if v.xtot[i][j] then 1 else 0) <= MaxRank(inst) - 1
  }

  /** All the constraints the model hands to the solver. */
  predicate Valid(inst: Instance, v: Valuation)
  {
    && Fits(inst, v)
    && AggregateLinked(inst, v)
    && DepotDegrees(inst, v)
    && FlowConserved(inst, v)
    && VisitedOnce(inst, v)
    && RanksInRange(inst, v)
    && Mtz(inst, v)
  }

  // ---------------------------------------------------------------------
  // Degrees count arcs

  lemma {:induction false} OutDegreeCounts(inst: Instance, v: Valuation, i: nat, j: nat, k: nat, from: nat)
    requires Fits(inst, v) && i < inst.nodes && j < inst.nodes && k < inst.vehicles
    requires i != j && v.x[i][j][k] && from <= j
    ensures OutDegreeFrom(inst, v, i, k, from) >= 1
    decreases j - from
  {
    if from < j {
      OutDegreeCounts(inst, v, i, j, k, from + 1);
    }
  }

  lemma {:induction false} InDegreeCounts(inst: Instance, v: Valuation, i: nat, j: nat, k: nat, from: nat)
    requires Fits(inst, v) && i < inst.nodes && j < inst.nodes && k < inst.vehicles
    requires i != j && v.x[i][j][k] && from <= i
    ensures InDegreeFrom(inst, v, j, k, from) >= 1
    decreases i - from
  {
    if from < i {
      InDegreeCounts(inst, v, i, j, k, from + 1);
    }
  }

  /** An arc i -> j used by vehicle k counts towards k's out-degree at i and in-degree at j. */
  lemma UsedArcCounted(inst: Instance, v: Valuation, i: nat, j: nat, k: nat)
    requires Fits(inst, v) && i < inst.nodes && j < inst.nodes && k < inst.vehicles
    requires i != j && v.x[i][j][k]
    ensures OutDegree(inst, v, i, k) >= 1 && InDegree(inst, v, j, k) >= 1
  {
    OutDegreeCounts(inst, v, i, j, k, 0);
    InDegreeCounts(inst, v, i, j, k, 0);
  }

  /** A positive out-degree is witnessed by a used arc. */
  lemma {:induction false} OutArcOf(inst: Instance, v: Valuation, i: nat, k: nat, from: nat) returns (j: nat)
    requires Fits(inst, v) && i < inst.nodes && k < inst.vehicles
    requires OutDegreeFrom(inst, v, i, k, from) >= 1
    ensures from <= j < inst.nodes && j != i && v.x[i][j][k]
    decreases inst.nodes - from
  {
    if from != i && v.x[i][from][k] {
      j := from;
    } else {
      j := OutArcOf(inst, v, i, k, from + 1);
    }
  }

  /** A positive in-degree is witnessed by a used arc. */
  lemma {:induction false} InArcOf(inst: Instance, v: Valuation, i: nat, k: nat, from: nat) returns (p: nat)
    requires Fits(inst, v) && i < inst.nodes && k < inst.vehicles
    requires InDegreeFrom(inst, v, i, k, from) >= 1
    ensures from <= p < inst.nodes && p != i && v.x[p][i][k]
    decreases inst.nodes - from
  {
    if from != i && v.x[from][i][k] {
      p := from;
    } else {
      p := InArcOf(inst, v, i, k, from + 1);
    }
  }

  // ---------------------------------------------------------------------
  // Visits split over vehicles

  lemma {:induction false} VisitsIncludeVehicle(inst: Instance, v: Valuation, c: nat, k: nat, from: nat)
    requires Fits(inst, v) && c < inst.nodes && from <= k < inst.vehicles
    ensures VisitsFrom(inst, v, c, from) >= InDegree(inst, v, c, k)
    decreases k - from
  {
    if from < k {
      VisitsIncludeVehicle(inst, v, c, k, from + 1);
    }
  }

  lemma {:induction false} VisitsIncludeTwoVehicles(inst: Instance, v: Valuation, c: nat, k1: nat, k2: nat, from: nat)
    requires Fits(inst, v) && c < inst.nodes && from <= k1 < k2 < inst.vehicles
    ensures VisitsFrom(inst, v, c, from) >= InDegree(inst, v, c, k1) + InDegree(inst, v, c, k2)
    decreases k1 - from
  {
    if from < k1 {
      VisitsIncludeTwoVehicles(inst, v, c, k1, k2, from + 1);
    } else {
      VisitsIncludeVehicle(inst, v, c, k2, from + 1);
    }
  }

  /** A customer that vehicle k enters is entered by k exactly once, left by k exactly
      once, and neither entered nor left by any other vehicle. */
  lemma CustomerServedOnce(inst: Instance, v: Valuation, c: nat, k: nat)
    requires Valid(inst, v) && 0 < c < inst.nodes && k < inst.vehicles
    requires InDegree(inst, v, c, k) >= 1
    ensures InDegree(inst, v, c, k) == 1 && OutDegree(inst, v, c, k) == 1
    ensures forall k' :: 0 <= k' < inst.vehicles && k' != k ==>
      InDegree(inst, v, c, k') == 0 && OutDegree(inst, v, c, k') == 0
  {
    assert Visits(inst, v, c) == 1;
    VisitsIncludeVehicle(inst, v, c, k, 0);
    assert InDegree(inst, v, c, k) == OutDegree(inst, v, c, k);
    forall k' | 0 <= k' < inst.vehicles && k' != k
      ensures InDegree(inst, v, c, k') == 0 && OutDegree(inst, v, c, k') == 0
    {
      assert InDegree(inst, v, c, k') == OutDegree(inst, v, c, k');
      if k < k' {
        VisitsIncludeTwoVehicles(inst, v, c, k, k', 0);
      } else {
        VisitsIncludeTwoVehicles(inst, v, c, k', k, 0);
      }
    }
  }

  // ---------------------------------------------------------------------
  // Subtour elimination

  /** A used aggregated arc between two customers raises the rank by at least one. */
  lemma MtzRaisesRank(inst: Instance, v: Valuation, i: nat, j: nat)
    requires Fits(inst, v) && Mtz(inst, v)
    requires 0 < i < inst.nodes && 0 < j < inst.nodes && i != j && v.xtot[i][j]
    ensures v.u[j] >= v.u[i] + 1
  {
  }

  /** An arc between two customers used by any vehicle raises the rank by at least one. */
  lemma VehicleArcRaisesRank(inst: Instance, v: Valuation, i: nat, j: nat, k: nat)
    requires Fits(inst, v) && AggregateLinked(inst, v) && Mtz(inst, v)
    requires 0 < i < inst.nodes && 0 < j < inst.nodes && i != j && k < inst.vehicles && v.x[i][j][k]
    ensures v.u[j] >= v.u[i] + 1
  {
    assert UsedByAny(inst, v, i, j);
    MtzRaisesRank(inst, v, i, j);
  }

  /** A walk p[0] -> p[1] -> ... over used aggregated arcs between customers. */
  predicate IsCustomerWalk(inst: Instance, v: Valuation, p: seq<nat>)
    requires Fits(inst, v)
  {
    && (forall t :: 0 <= t < |p| ==> 0 < p[t] < inst.nodes)
    && (forall t :: 0 <= t < |p| - 1 ==> p[t] != p[t + 1] && v.xtot[p[t]][p[t + 1]])
  }

  /** A subtour: a closed customer walk that never passes through the depot. */
  predicate IsSubtour(inst: Instance, v: Valuation, p: seq<nat>)
    requires Fits(inst, v)
  {
    |p| >= 2 && p[0] == p[|p| - 1] && IsCustomerWalk(inst, v, p)
  }

  /** Along a customer walk, the rank grows by at least one per arc. */
  lemma {:induction false} RanksRiseAlongWalk(inst: Instance, v: Valuation, p: seq<nat>)
    requires Fits(inst, v) && Mtz(inst, v)
    requires |p| >= 1 && IsCustomerWalk(inst, v, p)
    ensures v.u[p[|p| - 1]] >= v.u[p[0]] + |p| - 1
    decreases |p|
  {
    if |p| > 1 {
      var rest := p[1..];
      assert IsCustomerWalk(inst, v, rest) by {
        forall t | 0 <= t < |rest| - 1
          ensures rest[t] != rest[t + 1] && v.xtot[rest[t]][rest[t + 1]]
        {
          assert rest[t] == p[t + 1] && rest[t + 1] == p[t + 2];
        }
      }
      RanksRiseAlongWalk(inst, v, rest);
      MtzRaisesRank(inst, v, p[0], p[1]);
    }
  }

  /** Subtour elimination: the inequality alone rules out every customer-only cycle. */
  lemma NoSubtour(inst: Instance, v: Valuation, p: seq<nat>)
    requires Fits(inst, v) && Mtz(inst, v)
    ensures !IsSubtour(inst, v, p)
  {
    if IsSubtour(inst, v, p) {
      RanksRiseAlongWalk(inst, v, p);
    }
  }
}
