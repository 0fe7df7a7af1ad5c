/** The quantity the solver is asked to minimise: the total distance driven,
    summed over every used arc and every vehicle. */
module Objective {
  import opened Problem
  import opened Sums

  /** What vehicle k pays for arc i -> j: its distance when the arc is used, nothing otherwise.
      Arcs from a node to itself are not decision variables and cost nothing. */
  function ArcCost(inst: Instance, v: Valuation, i: nat, j: nat, k: nat): (r: int)
    requires Fits(inst, v) && DistancesFit(inst)
    ensures r != 0 ==> i < inst.nodes && j < inst.nodes && k < inst.vehicles && i != j && v.x[i][j][k]
  {
    if i < inst.nodes && j < inst.nodes && k < inst.vehicles && i != j && v.x[i][j][k]
    then inst.dist[i][j] else 0
  }

  /** The cost of arc i -> j summed over all vehicles. */
  function PairCost(inst: Instance, v: Valuation, i: nat, j: nat): int
    requires Fits(inst, v) && DistancesFit(inst)
  {
    Sum(inst.vehicles, (k: nat) => ArcCost(inst, v, i, j, k))
  }

  /** The cost of every arc leaving node i, over all vehicles. */
  function LeaveCost(inst: Instance, v: Valuation, i: nat): int
    requires Fits(inst, v) && DistancesFit(inst)
  {
    Sum(inst.nodes, (j: nat) => PairCost(inst, v, i, j))
  }

  /** The objective: the sum of `dist[i][j]` over every node pair i != j and every
      vehicle k that uses the arc. */
  function TotalDistance(inst: Instance, v: Valuation): int
    requires Fits(inst, v) && DistancesFit(inst)
  {
    Sum(inst.nodes, (i: nat) => LeaveCost(inst, v, i))
  }

  /** With non-negative distances the total distance is non-negative. */
  lemma TotalDistanceNonNegative(inst: Instance, v: Valuation)
    requires Fits(inst, v) && DistancesFit(inst) && NonNegativeDistances(inst)
    ensures TotalDistance(inst, v) >= 0
  {
    forall i: nat, j: nat | i < inst.nodes && j < inst.nodes
      ensures PairCost(inst, v, i, j) >= 0
    {
      SumNonNegative(inst.vehicles, (k: nat) => ArcCost(inst, v, i, j, k));
    }
    forall i: nat | i < inst.nodes
      ensures LeaveCost(inst, v, i) >= 0
    {
      SumNonNegative(inst.nodes, (j: nat) => PairCost(inst, v, i, j));
    }
    SumNonNegative(inst.nodes, (i: nat) => LeaveCost(inst, v, i));
  }
}
