/** The function form of the program: read the solver's answer and, when there is one,
    report the objective and one route per vehicle. */
module VrpSolver {
  import opened Problem
  import opened Sums
  import opened Constraints
  import opened Objective
  import opened Routes
  import opened RouteCost

  /** `routes` holds, for exactly the vehicles 0 .. vehicles-1, the route of that vehicle. */
  ghost predicate RoutesOf(inst: Instance, v: Valuation, routes: map<nat, seq<nat>>)
    requires Fits(inst, v)
  {
    && (forall k: nat :: k in routes <==> k < inst.vehicles)
    && (forall k: nat :: k in routes ==> k < inst.vehicles && routes[k] == Route(inst, v, k))
  }

  /** Customer c lies on the route of exactly one vehicle in `routes`. */
  ghost predicate ServedOnce(routes: map<nat, seq<nat>>, c: nat)
  {
    exists k: nat :: k in routes && c in routes[k] && forall k': nat :: k' in routes && c in routes[k'] ==> k' == k
  }

  /** The route-building loop: one extracted route per vehicle, keyed by vehicle. */
  method ExtractRoutes(inst: Instance, v: Valuation) returns (routes: map<nat, seq<nat>>)
    requires Fits(inst, v)
    ensures RoutesOf(inst, v, routes)
    ensures forall k: nat :: k in routes ==> |routes[k]| >= 1 && routes[k][0] == DEPOT
    ensures Valid(inst, v) ==> forall k: nat :: k in routes ==> IsTour(inst, v, k, routes[k])
  {
    routes := map[];
    for k := 0 to inst.vehicles
      invariant forall k': nat :: k' in routes <==> k' < k
      invariant forall k': nat :: k' in routes ==> k' < inst.vehicles && routes[k'] == Route(inst, v, k')
      invariant forall k': nat :: k' in routes ==> |routes[k']| >= 1 && routes[k'][0] == DEPOT
      invariant Valid(inst, v) ==> forall k': nat :: k' in routes ==> IsTour(inst, v, k', routes[k'])
    {
      var route := ExtractRoute(inst, v, k);
      routes := routes[k := route];
    }
  }

  /** Under the routing constraints the routes of all vehicles together contain every
      customer, each on exactly one route. */
  lemma RoutesServeEachCustomerOnce(inst: Instance, v: Valuation, routes: map<nat, seq<nat>>)
    requires Valid(inst, v) && RoutesOf(inst, v, routes)
    ensures forall c :: IsCustomer(inst, c) ==> ServedOnce(routes, c)
  {
    forall c | IsCustomer(inst, c)
      ensures ServedOnce(routes, c)
    {
      var k := CustomerOnExactlyOneRoute(inst, v, c);
      assert k in routes && c in routes[k];
    }
  }

  /** Given the solver's terminal status and its valuation, returns the status, the
      objective (absent unless a solution exists) and the routes keyed by vehicle
      (empty unless a solution exists). */
  method SolveVrp(inst: Instance, status: Status, v: Valuation)
    returns (st: Status, obj: Option<int>, routes: map<nat, seq<nat>>)
    requires Fits(inst, v) && DistancesFit(inst)
    ensures st == status
    ensures !HasSolution(status) ==> obj == None && routes == map[]
    ensures HasSolution(status) ==> obj == Some(TotalDistance(inst, v)) && RoutesOf(inst, v, routes)
    ensures forall k: nat :: k in routes ==> |routes[k]| >= 1 && routes[k][0] == DEPOT
    ensures Valid(inst, v) ==> forall k: nat :: k in routes ==> IsTour(inst, v, k, routes[k])
    ensures HasSolution(status) && Valid(inst, v) ==> forall c :: IsCustomer(inst, c) ==> ServedOnce(routes, c)
    ensures HasSolution(status) && Valid(inst, v) ==>
      obj == Some(Sum(inst.vehicles, (k: nat) => RouteLengthOf(inst, v, k)))
  {
    st := status;
    if HasSolution(status) {
      routes := ExtractRoutes(inst, v);
      obj := Some(TotalDistance(inst, v));
      if Valid(inst, v) {
        RoutesServeEachCustomerOnce(inst, v, routes);
        TotalDistanceIsRouteLengths(inst, v);
      }
    } else {
      routes := map[];
      obj := None;
    }
  }
}
