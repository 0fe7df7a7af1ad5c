/** The instance the repository hard-codes (four nodes, two vehicles) and one answer
    that meets every constraint: vehicle 0 serves customer 1, vehicle 1 serves
    customers 2 and 3. */
module Toy {
  import opened Problem
  import opened Constraints
  import opened Objective
  import opened Routes

  /** Arc values for the answer, indexed `[i][j][k]`. */
  const TOY_ARCS: seq<seq<seq<bool>>> :=
    [ [[false, false], [true, false], [false, true], [false, false]],
      [[true, false], [false, false], [false, false], [false, false]],
      [[false, false], [false, false], [false, false], [false, true]],
      [[false, true], [false, false], [false, false], [false, false]] ]

  const TOY_SOLUTION: Valuation := Valuation(
    TOY_ARCS,
    [ [false, true, true, false],
      [true, false, false, false],
      [false, false, false, true],
      [true, false, false, false] ],
    [0, 1, 1, 2])

  lemma ToyFits()
    ensures Fits(TOY, TOY_SOLUTION) && DistancesFit(TOY)
  {
  }

  lemma ToyAggregateLinked()
    ensures Fits(TOY, TOY_SOLUTION) && AggregateLinked(TOY, TOY_SOLUTION)
  {
    ToyFits();
    forall i, j | 0 <= i < 4 && 0 <= j < 4 && i != j
      ensures TOY_SOLUTION.xtot[i][j] == UsedByAny(TOY, TOY_SOLUTION, i, j)
    {
      assert UsedByAny(TOY, TOY_SOLUTION, i, j) == (TOY_ARCS[i][j][0] || TOY_ARCS[i][j][1]);
    }
  }

  lemma ToyDegrees()
    ensures Fits(TOY, TOY_SOLUTION)
    ensures DepotDegrees(TOY, TOY_SOLUTION) && FlowConserved(TOY, TOY_SOLUTION)
  {
    ToyFits();
    var v := TOY_SOLUTION;
    forall k | 0 <= k < 2
      ensures OutDegree(TOY, v, DEPOT, k) == 1 && InDegree(TOY, v, DEPOT, k) == 1
    {
    }
    forall k, c | 0 <= k < 2 && 0 < c < 4
      ensures InDegree(TOY, v, c, k) == OutDegree(TOY, v, c, k)
    {
    }
  }

  lemma ToyVisitedOnce()
    ensures Fits(TOY, TOY_SOLUTION) && VisitedOnce(TOY, TOY_SOLUTION)
  {
    ToyFits();
    forall c | 0 < c < 4
      ensures Visits(TOY, TOY_SOLUTION, c) == 1
    {
    }
  }

  /** The answer meets every constraint of the model. */
  lemma ToySolutionValid()
    ensures Valid(TOY, TOY_SOLUTION)
  {
    ToyAggregateLinked();
    ToyDegrees();
    ToyVisitedOnce();
  }

  lemma ToyLeaveDepot()
    ensures Fits(TOY, TOY_SOLUTION) && DistancesFit(TOY)
    ensures LeaveCost(TOY, TOY_SOLUTION, 0) == 25
  {
    ToyFits();
    var v := TOY_SOLUTION;
    assert PairCost(TOY, v, 0, 1) == 10 && PairCost(TOY, v, 0, 2) == 15;
    assert PairCost(TOY, v, 0, 0) == 0 && PairCost(TOY, v, 0, 3) == 0;
  }

  lemma ToyLeaveCustomers()
    ensures Fits(TOY, TOY_SOLUTION) && DistancesFit(TOY)
    ensures LeaveCost(TOY, TOY_SOLUTION, 1) == 10
    ensures LeaveCost(TOY, TOY_SOLUTION, 2) == 30
    ensures LeaveCost(TOY, TOY_SOLUTION, 3) == 20
  {
    ToyFits();
    var v := TOY_SOLUTION;
    assert PairCost(TOY, v, 1, 0) == 10 && PairCost(TOY, v, 1, 1) == 0;
    assert PairCost(TOY, v, 1, 2) == 0 && PairCost(TOY, v, 1, 3) == 0;
    assert PairCost(TOY, v, 2, 3) == 30 && PairCost(TOY, v, 2, 0) == 0;
    assert PairCost(TOY, v, 2, 1) == 0 && PairCost(TOY, v, 2, 2) == 0;
    assert PairCost(TOY, v, 3, 0) == 20 && PairCost(TOY, v, 3, 1) == 0;
    assert PairCost(TOY, v, 3, 2) == 0 && PairCost(TOY, v, 3, 3) == 0;
  }

  /** Its total distance is 10 + 10 for vehicle 0 and 15 + 30 + 20 for vehicle 1. */
  lemma ToyObjective()
    ensures Fits(TOY, TOY_SOLUTION) && DistancesFit(TOY)
    ensures TotalDistance(TOY, TOY_SOLUTION) == 85
  {
    ToyLeaveDepot();
    ToyLeaveCustomers();
  }

  /** The routes the extraction loop rebuilds from it. */
  lemma ToyRoutes()
    ensures Fits(TOY, TOY_SOLUTION)
    ensures Route(TOY, TOY_SOLUTION, 0) == [0, 1, 0]
    ensures Route(TOY, TOY_SOLUTION, 1) == [0, 2, 3, 0]
  {
    ToyFits();
  }
}
