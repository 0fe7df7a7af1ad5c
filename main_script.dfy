/** The script form of the program: the same constraint set and objective as the function
    form, followed by a report of the status, the objective, one route per vehicle and
    the rank of every customer, or of the absence of a solution. */
module MainScript {
  import opened Problem
  import opened Constraints
  import opened Objective
  import opened Routes

  /** What the script reports. */
  datatype Report =
    | NoFeasibleSolution
    | Solved(status: Status, objective: int, routes: seq<seq<nat>>, ranks: seq<int>)

  /** Customer c lies on exactly one of the listed routes. */
  ghost predicate OnExactlyOneRoute(routes: seq<seq<nat>>, c: nat)
  {
    exists k :: 0 <= k < |routes| && c in routes[k] && forall k' :: 0 <= k' < |routes| && c in routes[k'] ==> k' == k
  }

  /** The route loop of the script: the routes of vehicles 0 .. vehicles-1, in order. */
  method ReportRoutes(inst: Instance, v: Valuation) returns (routes: seq<seq<nat>>)
    requires Fits(inst, v)
    ensures |routes| == inst.vehicles
    ensures forall k :: 0 <= k < |routes| ==> routes[k] == Route(inst, v, k)
    ensures Valid(inst, v) ==> forall k :: 0 <= k < |routes| ==> IsTour(inst, v, k, routes[k])
  {
    routes := [];
    for k := 0 to inst.vehicles
      invariant |routes| == k
      invariant forall k' :: 0 <= k' < k ==> routes[k'] == Route(inst, v, k')
      invariant Valid(inst, v) ==> forall k' :: 0 <= k' < k ==> IsTour(inst, v, k', routes[k'])
    {
      var route := ExtractRoute(inst, v, k);
      routes := routes + [route];
    }
  }

  /** The rank loop of the script: `u[c]` for the customers c = 1 .. nodes-1, in order. */
  method ReportRanks(inst: Instance, v: Valuation) returns (ranks: seq<int>)
    requires Fits(inst, v)
    ensures |ranks| == inst.nodes - 1
    ensures forall c :: IsCustomer(inst, c) ==> ranks[c - 1] == v.u[c]
  {
    ranks := [];
    for c := 1 to inst.nodes
      invariant |ranks| == c - 1
      invariant forall c' :: 1 <= c' < c ==> ranks[c' - 1] == v.u[c']
    {
      ranks := ranks + [v.u[c]];
    }
  }

  /** Under the routing constraints every customer lies on exactly one reported route. */
  lemma ReportedRoutesServeEachCustomerOnce(inst: Instance, v: Valuation, routes: seq<seq<nat>>)
    requires Valid(inst, v) && |routes| == inst.vehicles
    requires forall k :: 0 <= k < |routes| ==> routes[k] == Route(inst, v, k)
    ensures forall c :: IsCustomer(inst, c) ==> OnExactlyOneRoute(routes, c)
  {
    forall c | IsCustomer(inst, c)
      ensures OnExactlyOneRoute(routes, c)
    {
      var k := CustomerOnExactlyOneRoute(inst, v, c);
      assert c in routes[k];
    }
  }

  /** The output stage of the script, given the solver's status and valuation. */
  method RunScript(inst: Instance, status: Status, v: Valuation) returns (report: Report)
    requires Fits(inst, v) && DistancesFit(inst)
    ensures report == NoFeasibleSolution <==> !HasSolution(status)
    ensures report.Solved? ==>
      && report.status == status
      && report.objective == TotalDistance(inst, v)
      && |report.routes| == inst.vehicles
      && (forall k :: 0 <= k < inst.vehicles ==> report.routes[k] == Route(inst, v, k))
      && |report.ranks| == inst.nodes - 1
      && (forall c :: IsCustomer(inst, c) ==> report.ranks[c - 1] == v.u[c])
    ensures report.Solved? && Valid(inst, v) ==>
      && (forall k :: 0 <= k < inst.vehicles ==> IsTour(inst, v, k, report.routes[k]))
      && (forall c :: IsCustomer(inst, c) ==> OnExactlyOneRoute(report.routes, c))
  {
    if HasSolution(status) {
      var routes := ReportRoutes(inst, v);
      var ranks := ReportRanks(inst, v);
      if Valid(inst, v) {
        ReportedRoutesServeEachCustomerOnce(inst, v, routes);
      }
      report := Solved(status, TotalDistance(inst, v), routes, ranks);
    } else {
      report := NoFeasibleSolution;
    }
  }
}
