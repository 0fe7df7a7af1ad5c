/** The objective read per vehicle: under the routing constraints the total distance is
    the sum, over vehicles, of the length of the route extracted for that vehicle. */
module RouteCost {
  import opened Problem
  import opened Sums
  import opened Constraints
  import opened Objective
  import opened Routes

  /** The distance of step t -> t+1 of r (nothing past its end). */
  function Leg(inst: Instance, r: seq<nat>, t: nat): int
    requires DistancesFit(inst)
  {
    if t + 1 < |r| && r[t] < inst.nodes && r[t + 1] < inst.nodes then inst.dist[r[t]][r[t + 1]] else 0
  }

  /** The length of a route: the distances of its consecutive steps, added up. */
  function RouteLength(inst: Instance, r: seq<nat>): int
    requires DistancesFit(inst)
  {
    if |r| == 0 then 0 else Sum(|r| - 1, (t: nat) => Leg(inst, r, t))
  }

  /** The length of vehicle k's route (nothing for a vehicle that does not exist). */
  function RouteLengthOf(inst: Instance, v: Valuation, k: nat): int
    requires Fits(inst, v) && DistancesFit(inst)
  {
    if k < inst.vehicles then RouteLength(inst, Route(inst, v, k)) else 0
  }

  /** What vehicle k pays for the arcs it uses out of node i. */
  function RowCost(inst: Instance, v: Valuation, i: nat, k: nat): int
    requires Fits(inst, v) && DistancesFit(inst)
  {
    Sum(inst.nodes, (j: nat) => ArcCost(inst, v, i, j, k))
  }

  /** What vehicle k pays for all the arcs it uses. */
  function VehicleCost(inst: Instance, v: Valuation, k: nat): int
    requires Fits(inst, v) && DistancesFit(inst)
  {
    Sum(inst.nodes, (i: nat) => RowCost(inst, v, i, k))
  }

  /** The cost of leaving node i, split by vehicle. */
  lemma LeaveCostByVehicle(inst: Instance, v: Valuation, i: nat)
    requires Fits(inst, v) && DistancesFit(inst)
    ensures LeaveCost(inst, v, i) == Sum(inst.vehicles, (k: nat) => RowCost(inst, v, i, k))
  {
    var n, m := inst.nodes, inst.vehicles;
    var f := (j: nat, k: nat) => ArcCost(inst, v, i, j, k);
    SumSwap(n, m, f);
    forall a: nat | a < n
      ensures Sum(m, (b: nat) => f(a, b)) == PairCost(inst, v, i, a)
    {
      SumExt(m, (b: nat) => f(a, b), (k: nat) => ArcCost(inst, v, i, a, k));
    }
    SumExt(n, (a: nat) => Sum(m, (b: nat) => f(a, b)), (j: nat) => PairCost(inst, v, i, j));
    forall b: nat | b < m
      ensures Sum(n, (a: nat) => f(a, b)) == RowCost(inst, v, i, b)
    {
      SumExt(n, (a: nat) => f(a, b), (j: nat) => ArcCost(inst, v, i, j, b));
    }
    SumExt(m, (b: nat) => Sum(n, (a: nat) => f(a, b)), (k: nat) => RowCost(inst, v, i, k));
  }

  /** The total distance, regrouped vehicle by vehicle. */
  lemma TotalDistanceByVehicle(inst: Instance, v: Valuation)
    requires Fits(inst, v) && DistancesFit(inst)
    ensures TotalDistance(inst, v) == Sum(inst.vehicles, (k: nat) => VehicleCost(inst, v, k))
  {
    var n, m := inst.nodes, inst.vehicles;
    var g := (i: nat, k: nat) => RowCost(inst, v, i, k);
    SumSwap(n, m, g);
    forall a: nat | a < n
      ensures LeaveCost(inst, v, a) == Sum(m, (b: nat) => g(a, b))
    {
      LeaveCostByVehicle(inst, v, a);
      SumExt(m, (b: nat) => g(a, b), (k: nat) => RowCost(inst, v, a, k));
    }
    SumExt(n, (i: nat) => LeaveCost(inst, v, i), (a: nat) => Sum(m, (b: nat) => g(a, b)));
    forall b: nat | b < m
      ensures Sum(n, (a: nat) => g(a, b)) == VehicleCost(inst, v, b)
    {
      SumExt(n, (a: nat) => g(a, b), (i: nat) => RowCost(inst, v, i, b));
    }
    SumExt(m, (b: nat) => Sum(n, (a: nat) => g(a, b)), (k: nat) => VehicleCost(inst, v, k));
  }

  /** Two arcs out of a node of out-degree one are the same arc. */
  lemma OnlyArc(inst: Instance, v: Valuation, i: nat, k: nat, j: nat, j': nat)
    requires Fits(inst, v) && i < inst.nodes && k < inst.vehicles && j < inst.nodes && j' < inst.nodes
    requires OutDegree(inst, v, i, k) == 1
    requires j != i && v.x[i][j][k] && j' != i && v.x[i][j'][k]
    ensures j == j'
  {
    SuccessorsFromListed(inst, v, k, i, 0);
    var succ := Successors(inst, v, k, i);
    assert j in succ && j' in succ;
  }

  /** A node on vehicle k's route, before its end, costs k exactly the step it takes next. */
  lemma RowCostOnRoute(inst: Instance, v: Valuation, k: nat, r: seq<nat>, t: nat)
    requires Valid(inst, v) && DistancesFit(inst) && k < inst.vehicles
    requires r == Route(inst, v, k) && IsTour(inst, v, k, r) && t < |r| - 1
    ensures RowCost(inst, v, r[t], k) == Leg(inst, r, t)
  {
    var i, j := r[t], r[t + 1];
    if t == 0 {
      assert OutDegree(inst, v, DEPOT, k) == 1;
    } else {
      OnRouteEntered(inst, v, k, i);
      CustomerServedOnce(inst, v, i, k);
    }
    forall j': nat | j' < inst.nodes && j' != j
      ensures ArcCost(inst, v, i, j', k) == 0
    {
      if j' != i && v.x[i][j'][k] {
        OnlyArc(inst, v, i, k, j, j');
      }
    }
    SumSingle(inst.nodes, (j': nat) => ArcCost(inst, v, i, j', k), j);
  }

  /** A node the route of vehicle k never leaves from costs k nothing. */
  lemma RowCostOffRoute(inst: Instance, v: Valuation, k: nat, r: seq<nat>, i: nat)
    requires Valid(inst, v) && DistancesFit(inst) && k < inst.vehicles
    requires r == Route(inst, v, k) && IsTour(inst, v, k, r)
    requires i < inst.nodes && i !in r[..|r| - 1]
    ensures RowCost(inst, v, i, k) == 0
  {
    assert r[..|r| - 1][0] == DEPOT;
    forall j: nat | j < inst.nodes
      ensures ArcCost(inst, v, i, j, k) == 0
    {
      if j != i && v.x[i][j][k] {
        UsedArcCounted(inst, v, i, j, k);
        assert InDegree(inst, v, i, k) == OutDegree(inst, v, i, k);
        OnRouteIffEntered(inst, v, k, i);
        assert false;
      }
    }
    SumSingle(inst.nodes, (j: nat) => ArcCost(inst, v, i, j, k), inst.nodes);
  }

  /** Under the routing constraints what vehicle k pays is the length of its route. */
  lemma VehicleCostIsRouteLength(inst: Instance, v: Valuation, k: nat)
    requires Valid(inst, v) && DistancesFit(inst) && k < inst.vehicles
    ensures VehicleCost(inst, v, k) == RouteLength(inst, Route(inst, v, k))
  {
    var r := Route(inst, v, k);
    RouteIsTour(inst, v, k);
    var s := r[..|r| - 1];
    forall t, t' | 0 <= t < t' < |s|
      ensures s[t] != s[t']
    {
      assert s[t] == r[t] && s[t'] == r[t'];
    }
    forall t | 0 <= t < |s|
      ensures s[t] < inst.nodes && RowCost(inst, v, s[t], k) == Leg(inst, r, t)
    {
      assert s[t] == r[t];
      RowCostOnRoute(inst, v, k, r, t);
    }
    forall i: nat | i < inst.nodes && i !in s
      ensures RowCost(inst, v, i, k) == 0
    {
      RowCostOffRoute(inst, v, k, r, i);
    }
    SumReindex(inst.nodes, (i: nat) => RowCost(inst, v, i, k), s, (t: nat) => Leg(inst, r, t));
  }

  /** Under the routing constraints the objective is the total length of the extracted routes. */
  lemma TotalDistanceIsRouteLengths(inst: Instance, v: Valuation)
    requires Valid(inst, v) && DistancesFit(inst)
    ensures TotalDistance(inst, v) == Sum(inst.vehicles, (k: nat) => RouteLengthOf(inst, v, k))
  {
    TotalDistanceByVehicle(inst, v);
    forall k: nat | k < inst.vehicles
      ensures VehicleCost(inst, v, k) == RouteLengthOf(inst, v, k)
    {
      VehicleCostIsRouteLength(inst, v, k);
    }
    SumExt(inst.vehicles, (k: nat) => VehicleCost(inst, v, k), (k: nat) => RouteLengthOf(inst, v, k));
  }
}
