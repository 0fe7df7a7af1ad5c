/** Route reconstruction: from the depot, vehicle k repeatedly takes the
    lowest-numbered node it drives to, until it is back at the depot or has
    nowhere to go. Under the routing constraints every route is a simple
    depot-to-depot tour and the routes share out the customers. */
module Routes {
  import opened Problem
  import opened Constraints

  /** The list of nodes j >= from, in node order, with j != cur and x[cur][j][k] set. */
  function SuccessorsFrom(inst: Instance, v: Valuation, k: nat, cur: nat, from: nat): (r: seq<nat>)
    requires Fits(inst, v) && k < inst.vehicles && cur < inst.nodes
    ensures forall t :: 0 <= t < |r| ==> from <= r[t] < inst.nodes
    decreases inst.nodes - from
  {
    if from >= inst.nodes then []
    else if from != cur && v.x[cur][from][k] then [from] + SuccessorsFrom(inst, v, k, cur, from + 1)
    else SuccessorsFrom(inst, v, k, cur, from + 1)
  }

  predicate Increasing(r: seq<nat>)
  {
    forall a, b :: 0 <= a < b < |r| ==> r[a] < r[b]
  }

  lemma {:induction false} SuccessorsAreArcs(inst: Instance, v: Valuation, k: nat, cur: nat, from: nat)
    requires Fits(inst, v) && k < inst.vehicles && cur < inst.nodes
    ensures forall j :: j in SuccessorsFrom(inst, v, k, cur, from) ==> j != cur && v.x[cur][j][k]
    decreases inst.nodes - from
  {
    if from < inst.nodes {
      SuccessorsAreArcs(inst, v, k, cur, from + 1);
      var r' := SuccessorsFrom(inst, v, k, cur, from + 1);
      if from != cur && v.x[cur][from][k] {
        var r := [from] + r';
        assert SuccessorsFrom(inst, v, k, cur, from) == r;
        assert forall t :: 0 < t < |r| ==> r[t] == r'[t - 1];
      } else {
        assert SuccessorsFrom(inst, v, k, cur, from) == r';
      }
    }
  }

  lemma {:induction false} SuccessorsComplete(inst: Instance, v: Valuation, k: nat, cur: nat, from: nat)
    requires Fits(inst, v) && k < inst.vehicles && cur < inst.nodes
    ensures forall j :: from <= j < inst.nodes && j != cur && v.x[cur][j][k] ==> j in SuccessorsFrom(inst, v, k, cur, from)
    decreases inst.nodes - from
  {
    if from < inst.nodes {
      SuccessorsComplete(inst, v, k, cur, from + 1);
    }
  }

  lemma {:induction false} SuccessorsSorted(inst: Instance, v: Valuation, k: nat, cur: nat, from: nat)
    requires Fits(inst, v) && k < inst.vehicles && cur < inst.nodes
    ensures Increasing(SuccessorsFrom(inst, v, k, cur, from))
    decreases inst.nodes - from
  {
    if from < inst.nodes {
      SuccessorsSorted(inst, v, k, cur, from + 1);
      var r' := SuccessorsFrom(inst, v, k, cur, from + 1);
      if from != cur && v.x[cur][from][k] {
        var r := [from] + r';
        assert SuccessorsFrom(inst, v, k, cur, from) == r;
        assert forall t :: 0 < t < |r| ==> r[t] == r'[t - 1];
      } else {
        assert SuccessorsFrom(inst, v, k, cur, from) == r';
      }
    }
  }

  lemma {:induction false} SuccessorsCounted(inst: Instance, v: Valuation, k: nat, cur: nat, from: nat)
    requires Fits(inst, v) && k < inst.vehicles && cur < inst.nodes
    ensures |SuccessorsFrom(inst, v, k, cur, from)| == OutDegreeFrom(inst, v, cur, k, from)
    decreases inst.nodes - from
  {
    if from < inst.nodes {
      SuccessorsCounted(inst, v, k, cur, from + 1);
    }
  }

  /** The successor list holds exactly the heads of the arcs vehicle k uses out of `cur`,
      in increasing order, and it is as long as the out-degree the constraints count. */
  lemma SuccessorsFromListed(inst: Instance, v: Valuation, k: nat, cur: nat, from: nat)
    requires Fits(inst, v) && k < inst.vehicles && cur < inst.nodes
    ensures forall j :: j in SuccessorsFrom(inst, v, k, cur, from) ==> j != cur && v.x[cur][j][k]
    ensures forall j :: from <= j < inst.nodes && j != cur && v.x[cur][j][k] ==> j in SuccessorsFrom(inst, v, k, cur, from)
    ensures Increasing(SuccessorsFrom(inst, v, k, cur, from))
    ensures |SuccessorsFrom(inst, v, k, cur, from)| == OutDegreeFrom(inst, v, cur, k, from)
  {
    SuccessorsAreArcs(inst, v, k, cur, from);
    SuccessorsComplete(inst, v, k, cur, from);
    SuccessorsSorted(inst, v, k, cur, from);
    SuccessorsCounted(inst, v, k, cur, from);
  }

  /** `next_nodes`: every node that vehicle k drives to from `cur`, in node order. */
  function Successors(inst: Instance, v: Valuation, k: nat, cur: nat): seq<nat>
    requires Fits(inst, v) && k < inst.vehicles && cur < inst.nodes
  {
    SuccessorsFrom(inst, v, k, cur, 0)
  }

  /** `next_nodes[0]` if there is one. */
  function Next(inst: Instance, v: Valuation, k: nat, cur: nat): (r: Option<nat>)
    requires Fits(inst, v) && k < inst.vehicles && cur < inst.nodes
    ensures r.Some? ==> r.value < inst.nodes
  {
    var succ := Successors(inst, v, k, cur);
    if |succ| == 0 then None else Some(succ[0])
  }

  /** The successor is the lowest-numbered node vehicle k drives to from `cur`, and
      there is none exactly when k uses no arc out of `cur`. */
  lemma NextIsLowestArc(inst: Instance, v: Valuation, k: nat, cur: nat)
    requires Fits(inst, v) && k < inst.vehicles && cur < inst.nodes
    ensures var r := Next(inst, v, k, cur);
      && (r.None? <==> forall j :: 0 <= j < inst.nodes && j != cur ==> !v.x[cur][j][k])
      && (r.Some? ==> r.value != cur && v.x[cur][r.value][k])
      && (r.Some? ==> forall j :: 0 <= j < r.value && j != cur ==> !v.x[cur][j][k])
  {
    var succ := Successors(inst, v, k, cur);
    SuccessorsFromListed(inst, v, k, cur, 0);
    if |succ| > 0 {
      assert succ[0] in succ;
      forall j | 0 <= j < succ[0] && j != cur ensures !v.x[cur][j][k] {
        BelowHeadAbsent(succ, j);
      }
    }
  }

  /** Nothing below the head of an increasing sequence occurs in it. */
  lemma BelowHeadAbsent(r: seq<nat>, j: nat)
    requires Increasing(r) && |r| > 0 && j < r[0]
    ensures j !in r
  {
    forall t | 0 < t < |r| ensures r[t] != j {
      assert r[0] < r[t];
    }
  }

  /** A node with exactly one outgoing arc for vehicle k has that arc's head as its successor. */
  lemma OnlySuccessor(inst: Instance, v: Valuation, k: nat, cur: nat, j: nat)
    requires Fits(inst, v) && k < inst.vehicles && cur < inst.nodes && j < inst.nodes
    requires OutDegree(inst, v, cur, k) == 1 && j != cur && v.x[cur][j][k]
    ensures Next(inst, v, k, cur) == Some(j)
  {
    var succ := Successors(inst, v, k, cur);
    SuccessorsFromListed(inst, v, k, cur, 0);
    assert j in succ;
  }

  /** The nodes the walk of vehicle k appends after `cur`, taking at most `fuel` steps:
      it stops after appending the depot, or when `cur` has no successor. */
  function WalkFrom(inst: Instance, v: Valuation, k: nat, cur: nat, fuel: nat): (r: seq<nat>)
    requires Fits(inst, v) && k < inst.vehicles && cur < inst.nodes
    ensures |r| <= fuel
    ensures forall t :: 0 <= t < |r| ==> r[t] < inst.nodes
    ensures forall t :: 0 <= t < |r| - 1 ==> r[t] != DEPOT
    decreases fuel
  {
    if fuel == 0 then []
    else match Next(inst, v, k, cur)
      case None => []
      case Some(j) => if j == DEPOT then [j] else [j] + WalkFrom(inst, v, k, j, fuel - 1)
  }

  /** r starts with the successor of `cur`, and each node of r is the successor of the one before. */
  predicate ChainsNext(inst: Instance, v: Valuation, k: nat, cur: nat, r: seq<nat>)
    requires Fits(inst, v) && k < inst.vehicles && cur < inst.nodes
    requires forall t :: 0 <= t < |r| ==> r[t] < inst.nodes
  {
    && (|r| > 0 ==> Next(inst, v, k, cur) == Some(r[0]))
    && (forall t :: 0 <= t < |r| - 1 ==> Next(inst, v, k, r[t]) == Some(r[t + 1]))
  }

  /** A walk r from `cur` shorter than its bound ends at the depot or at a node without successor. */
  predicate StopsEarlyOnlyAtEnd(inst: Instance, v: Valuation, k: nat, cur: nat, fuel: nat, r: seq<nat>)
    requires Fits(inst, v) && k < inst.vehicles && cur < inst.nodes
    requires forall t :: 0 <= t < |r| ==> r[t] < inst.nodes
  {
    && (|r| < fuel && r == [] ==> Next(inst, v, k, cur) == None)
    && (|r| < fuel && r != [] ==> r[|r| - 1] == DEPOT || Next(inst, v, k, r[|r| - 1]) == None)
  }

  lemma {:induction false} WalkChainsNext(inst: Instance, v: Valuation, k: nat, cur: nat, fuel: nat)
    requires Fits(inst, v) && k < inst.vehicles && cur < inst.nodes
    ensures ChainsNext(inst, v, k, cur, WalkFrom(inst, v, k, cur, fuel))
    decreases fuel
  {
    if fuel > 0 {
      match Next(inst, v, k, cur)
      case None =>
        assert WalkFrom(inst, v, k, cur, fuel) == [];
      case Some(j) =>
        if j == DEPOT {
          assert WalkFrom(inst, v, k, cur, fuel) == [DEPOT];
        } else {
          WalkChainsNext(inst, v, k, j, fuel - 1);
          var r := WalkFrom(inst, v, k, cur, fuel);
          var r' := WalkFrom(inst, v, k, j, fuel - 1);
          assert r == [j] + r';
          forall t | 0 <= t < |r| - 1 ensures Next(inst, v, k, r[t]) == Some(r[t + 1]) {
            if t > 0 {
              assert r[t] == r'[t - 1] && r[t + 1] == r'[t];
            }
          }
        }
    }
  }

  lemma {:induction false} WalkStopsEarlyOnlyAtEnd(inst: Instance, v: Valuation, k: nat, cur: nat, fuel: nat)
    requires Fits(inst, v) && k < inst.vehicles && cur < inst.nodes
    ensures StopsEarlyOnlyAtEnd(inst, v, k, cur, fuel, WalkFrom(inst, v, k, cur, fuel))
    decreases fuel
  {
    if fuel > 0 {
      match Next(inst, v, k, cur)
      case None =>
        assert WalkFrom(inst, v, k, cur, fuel) == [];
      case Some(j) =>
        if j == DEPOT {
          assert WalkFrom(inst, v, k, cur, fuel) == [DEPOT];
        } else {
          WalkStopsEarlyOnlyAtEnd(inst, v, k, j, fuel - 1);
          var r := WalkFrom(inst, v, k, cur, fuel);
          var r' := WalkFrom(inst, v, k, j, fuel - 1);
          assert r == [j] + r';
          if |r| < fuel && r' != [] {
            assert r[|r| - 1] == r'[|r'| - 1];
          }
        }
    }
  }

  /** Each node of the walk is the successor of the one before it, and the walk stops early
      only after the depot or at a node without successor. */
  lemma WalkFollowsNext(inst: Instance, v: Valuation, k: nat, cur: nat, fuel: nat)
    requires Fits(inst, v) && k < inst.vehicles && cur < inst.nodes
    ensures var r := WalkFrom(inst, v, k, cur, fuel);
      && (|r| > 0 ==> Next(inst, v, k, cur) == Some(r[0]))
      && (forall t :: 0 <= t < |r| - 1 ==> Next(inst, v, k, r[t]) == Some(r[t + 1]))
      && (|r| < fuel && r == [] ==> Next(inst, v, k, cur) == None)
      && (|r| < fuel && r != [] ==> r[|r| - 1] == DEPOT || Next(inst, v, k, r[|r| - 1]) == None)
  {
    WalkChainsNext(inst, v, k, cur, fuel);
    WalkStopsEarlyOnlyAtEnd(inst, v, k, cur, fuel);
  }

  /** The route of vehicle k: the depot followed by at most `nodes` further nodes. */
  function Route(inst: Instance, v: Valuation, k: nat): (r: seq<nat>)
    requires Fits(inst, v) && k < inst.vehicles
  {
    [DEPOT] + WalkFrom(inst, v, k, DEPOT, inst.nodes)
  }

  /** Every node of r is a node of the instance and every step of r is an arc vehicle k uses. */
  predicate FollowsArcs(inst: Instance, v: Valuation, k: nat, r: seq<nat>)
    requires Fits(inst, v) && k < inst.vehicles
  {
    && (forall t :: 0 <= t < |r| ==> r[t] < inst.nodes)
    && (forall t :: 0 <= t < |r| - 1 ==> r[t] != r[t + 1] && v.x[r[t]][r[t + 1]][k])
  }

  /** A simple depot-to-depot tour of vehicle k through at least one customer:
      every step is an arc k uses, and no customer occurs twice. */
  predicate IsTour(inst: Instance, v: Valuation, k: nat, r: seq<nat>)
    requires Fits(inst, v) && k < inst.vehicles
  {
    && |r| >= 3
    && r[0] == DEPOT && r[|r| - 1] == DEPOT
    && (forall t :: 0 < t < |r| - 1 ==> r[t] != DEPOT)
    && FollowsArcs(inst, v, k, r)
    && (forall a, b :: 0 < a < b < |r| - 1 ==> r[a] != r[b])
  }

  /** Whatever the valuation, a route starts at the depot, meets the depot again only at its
      end, and every node after the first is the successor of the node before it. */
  lemma RouteFollowsNext(inst: Instance, v: Valuation, k: nat)
    requires Fits(inst, v) && k < inst.vehicles
    ensures var r := Route(inst, v, k);
      && r[0] == DEPOT
      && (forall t :: 0 <= t < |r| ==> r[t] < inst.nodes)
      && (forall t :: 0 < t < |r| - 1 ==> r[t] != DEPOT)
      && (forall t :: 0 <= t < |r| - 1 ==> Next(inst, v, k, r[t]) == Some(r[t + 1]))
  {
    var r := Route(inst, v, k);
    var w := WalkFrom(inst, v, k, DEPOT, inst.nodes);
    WalkFollowsNext(inst, v, k, DEPOT, inst.nodes);
    assert r == [DEPOT] + w;
    forall t | 0 <= t < |r| - 1 ensures Next(inst, v, k, r[t]) == Some(r[t + 1]) {
      if t > 0 {
        assert r[t] == w[t - 1] && r[t + 1] == w[t];
      }
    }
  }

  /** Whatever the valuation, every step of a route is an arc the vehicle uses. */
  lemma RouteFollowsArcs(inst: Instance, v: Valuation, k: nat)
    requires Fits(inst, v) && k < inst.vehicles
    ensures FollowsArcs(inst, v, k, Route(inst, v, k))
  {
    var r := Route(inst, v, k);
    RouteFollowsNext(inst, v, k);
    forall t | 0 <= t < |r| - 1 ensures r[t] != r[t + 1] && v.x[r[t]][r[t + 1]][k] {
      NextIsLowestArc(inst, v, k, r[t]);
    }
  }

  /** From a customer that vehicle k enters, with enough fuel, the walk runs through
      customers of strictly rising rank and ends at the depot. */
  lemma {:induction false} WalkFromCustomer(inst: Instance, v: Valuation, k: nat, cur: nat, fuel: nat)
    requires Valid(inst, v) && k < inst.vehicles && 0 < cur < inst.nodes
    requires InDegree(inst, v, cur, k) >= 1 && fuel + v.u[cur] >= inst.nodes
    ensures var w := WalkFrom(inst, v, k, cur, fuel);
      && |w| >= 1 && w[|w| - 1] == DEPOT
      && (forall t :: 0 <= t < |w| - 1 ==> 0 < w[t] < inst.nodes && v.u[w[t]] > v.u[cur])
      && (forall a, b :: 0 <= a < b < |w| - 1 ==> v.u[w[a]] < v.u[w[b]])
    decreases fuel
  {
    var w := WalkFrom(inst, v, k, cur, fuel);
    var j := StepFromCustomer(inst, v, k, cur);
    assert fuel > 0;
    if j == DEPOT {
      assert w == [DEPOT];
    } else {
      WalkFromCustomer(inst, v, k, j, fuel - 1);
      var w' := WalkFrom(inst, v, k, j, fuel - 1);
      assert w == [j] + w';
    }
  }

  /** A customer that vehicle k enters has a successor: the depot, or a customer that
      k enters and whose rank is higher. */
  lemma StepFromCustomer(inst: Instance, v: Valuation, k: nat, cur: nat) returns (j: nat)
    requires Valid(inst, v) && k < inst.vehicles && 0 < cur < inst.nodes
    requires InDegree(inst, v, cur, k) >= 1
    ensures Next(inst, v, k, cur) == Some(j) && j < inst.nodes
    ensures j != DEPOT ==> InDegree(inst, v, j, k) >= 1 && v.u[j] >= v.u[cur] + 1
  {
    CustomerServedOnce(inst, v, cur, k);
    j := OutArcOf(inst, v, cur, k, 0);
    OnlySuccessor(inst, v, k, cur, j);
    if j != DEPOT {
      UsedArcCounted(inst, v, cur, j, k);
      VehicleArcRaisesRank(inst, v, cur, j, k);
    }
  }

  /** Under the routing constraints the route of every vehicle is a simple tour. */
  lemma RouteIsTour(inst: Instance, v: Valuation, k: nat)
    requires Valid(inst, v) && k < inst.vehicles
    ensures IsTour(inst, v, k, Route(inst, v, k))
  {
    RouteFollowsNext(inst, v, k);
    RouteFollowsArcs(inst, v, k);
    var s := LeaveDepot(inst, v, k);
    WalkFromCustomer(inst, v, k, s, inst.nodes - 1);
    RisingRanksDistinct(v.u, s, WalkFrom(inst, v, k, s, inst.nodes - 1));
  }

  /** Under the routing constraints vehicle k leaves the depot for a customer it enters. */
  lemma LeaveDepot(inst: Instance, v: Valuation, k: nat) returns (s: nat)
    requires Valid(inst, v) && k < inst.vehicles
    ensures 0 < s < inst.nodes && InDegree(inst, v, s, k) >= 1
    ensures Route(inst, v, k) == [DEPOT, s] + WalkFrom(inst, v, k, s, inst.nodes - 1)
  {
    assert OutDegree(inst, v, DEPOT, k) == 1;
    s := OutArcOf(inst, v, DEPOT, k, 0);
    OnlySuccessor(inst, v, k, DEPOT, s);
    UsedArcCounted(inst, v, DEPOT, s, k);
  }

  /** Nodes listed with strictly rising ranks after a node of lower rank are all distinct. */
  lemma RisingRanksDistinct(u: seq<int>, s: nat, w: seq<nat>)
    requires s < |u| && |w| >= 1
    requires forall t :: 0 <= t < |w| - 1 ==> w[t] < |u| && u[w[t]] > u[s]
    requires forall a, b :: 0 <= a < b < |w| - 1 ==> u[w[a]] < u[w[b]]
    ensures var r := [DEPOT, s] + w; forall a, b :: 0 < a < b < |r| - 1 ==> r[a] != r[b]
  {
    var r := [DEPOT, s] + w;
    forall a, b | 0 < a < b < |r| - 1 ensures r[a] != r[b] {
      if a > 1 {
        assert u[w[a - 2]] < u[w[b - 2]];
      } else {
        assert u[s] < u[w[b - 2]];
      }
    }
  }

  /** A walk that has reached the depot, or stopped before its bound at a node without
      successor, is unchanged by a larger step bound. */
  lemma {:induction false} MoreFuelSameWalk(inst: Instance, v: Valuation, k: nat, cur: nat, fuel: nat, more: nat)
    requires Fits(inst, v) && k < inst.vehicles && cur < inst.nodes
    requires var w := WalkFrom(inst, v, k, cur, fuel);
      || (|w| > 0 && w[|w| - 1] == DEPOT)
      || (|w| < fuel && Next(inst, v, k, if |w| == 0 then cur else w[|w| - 1]) == None)
    requires more >= fuel
    ensures WalkFrom(inst, v, k, cur, more) == WalkFrom(inst, v, k, cur, fuel)
    decreases fuel
  {
    match Next(inst, v, k, cur)
    case None =>
    case Some(j) =>
      if j != DEPOT {
        MoreFuelSameWalk(inst, v, k, j, fuel - 1, more - 1);
      }
  }

  /** Under the routing constraints the step bound never ends a walk: with any larger bound,
      as with the source's unbounded loop, the route is the same. */
  lemma BoundNeverBinds(inst: Instance, v: Valuation, k: nat, fuel: nat)
    requires Valid(inst, v) && k < inst.vehicles && fuel >= inst.nodes
    ensures [DEPOT] + WalkFrom(inst, v, k, DEPOT, fuel) == Route(inst, v, k)
  {
    RouteIsTour(inst, v, k);
    MoreFuelSameWalk(inst, v, k, DEPOT, inst.nodes, fuel);
  }

  /** Every customer that vehicle k enters lies on k's route ("every visited node connects
      to the depot"), by induction on its rank. */
  lemma {:induction false} EnteredCustomerOnRoute(inst: Instance, v: Valuation, k: nat, c: nat, p: nat)
    requires Valid(inst, v) && k < inst.vehicles && 0 < c < inst.nodes
    requires p < inst.nodes && p != c && v.x[p][c][k]
    ensures c in Route(inst, v, k)
    decreases v.u[c]
  {
    var r := Route(inst, v, k);
    RouteIsTour(inst, v, k);
    RouteFollowsNext(inst, v, k);
    if p == DEPOT {
      OnlySuccessor(inst, v, k, DEPOT, c);
      assert r[1] == c;
    } else {
      UsedArcCounted(inst, v, p, c, k);
      VehicleArcRaisesRank(inst, v, p, c, k);
      assert InDegree(inst, v, p, k) == OutDegree(inst, v, p, k);
      var q := InArcOf(inst, v, p, k, 0);
      EnteredCustomerOnRoute(inst, v, k, p, q);
      var t :| 0 <= t < |r| && r[t] == p;
      assert 0 < t < |r| - 1;
      CustomerServedOnce(inst, v, p, k);
      OnlySuccessor(inst, v, k, p, c);
      assert r[t + 1] == c;
    }
  }

  /** A customer on vehicle k's route is entered by vehicle k. */
  lemma OnRouteEntered(inst: Instance, v: Valuation, k: nat, c: nat)
    requires Valid(inst, v) && k < inst.vehicles && 0 < c < inst.nodes
    requires c in Route(inst, v, k)
    ensures InDegree(inst, v, c, k) >= 1
  {
    var r := Route(inst, v, k);
    RouteIsTour(inst, v, k);
    var t :| 0 <= t < |r| && r[t] == c;
    UsedArcCounted(inst, v, r[t - 1], c, k);
  }

  /** A customer lies on vehicle k's route exactly when vehicle k enters it. */
  lemma OnRouteIffEntered(inst: Instance, v: Valuation, k: nat, c: nat)
    requires Valid(inst, v) && k < inst.vehicles && 0 < c < inst.nodes
    ensures c in Route(inst, v, k) <==> InDegree(inst, v, c, k) >= 1
  {
    if c in Route(inst, v, k) {
      OnRouteEntered(inst, v, k, c);
    }
    if InDegree(inst, v, c, k) >= 1 {
      var p := InArcOf(inst, v, c, k, 0);
      EnteredCustomerOnRoute(inst, v, k, c, p);
    }
  }

  /** The routes together contain every customer exactly once: it lies on the route of
      exactly one vehicle (and, routes being tours, only once on that route). */
  lemma {:induction false} CustomerOnExactlyOneRoute(inst: Instance, v: Valuation, c: nat) returns (k: nat)
    requires Valid(inst, v) && 0 < c < inst.nodes
    ensures k < inst.vehicles && c in Route(inst, v, k)
    ensures forall k' :: 0 <= k' < inst.vehicles && c in Route(inst, v, k') ==> k' == k
  {
    assert Visits(inst, v, c) == 1;
    k := EnteringVehicle(inst, v, c, 0);
    OnRouteIffEntered(inst, v, k, c);
    CustomerServedOnce(inst, v, c, k);
    forall k' | 0 <= k' < inst.vehicles && c in Route(inst, v, k') ensures k' == k {
      OnRouteIffEntered(inst, v, k', c);
    }
  }

  /** Some vehicle in [from, vehicles) enters a customer whose visit count from `from` is positive. */
  lemma {:induction false} EnteringVehicle(inst: Instance, v: Valuation, c: nat, from: nat) returns (k: nat)
    requires Fits(inst, v) && c < inst.nodes && VisitsFrom(inst, v, c, from) >= 1
    ensures from <= k < inst.vehicles && InDegree(inst, v, c, k) >= 1
    decreases inst.vehicles - from
  {
    if InDegree(inst, v, c, from) >= 1 {
      k := from;
    } else {
      k := EnteringVehicle(inst, v, c, from + 1);
    }
  }

  /** Rebuilds the route of vehicle k as the source's loop does, with at most `nodes` steps. */
  method ExtractRoute(inst: Instance, v: Valuation, k: nat) returns (route: seq<nat>)
    requires Fits(inst, v) && k < inst.vehicles
    ensures route == Route(inst, v, k)
    ensures route[0] == DEPOT
    ensures Valid(inst, v) ==> IsTour(inst, v, k, route)
  {
    var current: nat := DEPOT;
    route := [current];
    var steps := 0;
    while steps < inst.nodes
      invariant 0 <= steps <= inst.nodes && current < inst.nodes
      invariant route + WalkFrom(inst, v, k, current, inst.nodes - steps) == Route(inst, v, k)
    {
      var nextNodes := Successors(inst, v, k, current);
      if |nextNodes| == 0 {
        break;
      }
      var nxt := nextNodes[0];
      route := route + [nxt];
      current := nxt;
      steps := steps + 1;
      if current == DEPOT {
        break;
      }
    }
    if Valid(inst, v) {
      RouteIsTour(inst, v, k);
    }
  }
}
