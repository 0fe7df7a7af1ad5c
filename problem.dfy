/** Problem data of the routing model and the shape of a solver answer.

    Nodes are numbered 0 .. nodes-1; node 0 is the depot and every other
    node is a customer. Vehicles are numbered 0 .. vehicles-1. The solver
    itself is not modelled: its terminal status and the value it gives to
    every decision variable are inputs. */
module Problem {

  datatype Option<T> = None | Some(value: T)

  /** The single depot every vehicle starts from and returns to. */
  const DEPOT: nat := 0

  /** A routing instance: node count, vehicle count and the distance matrix `dist[i][j]`. */
  datatype Instance = Instance(nodes: nat, vehicles: nat, dist: seq<seq<int>>)

  predicate IsCustomer(inst: Instance, i: int)
  {
    0 < i < inst.nodes
  }

  /** The number of customers, which is also the largest rank a customer may get. */
  function MaxRank(inst: Instance): int
  {
    inst.nodes - 1
  }

  /** A value for every decision variable:
      - `x[i][j][k]`: vehicle k drives directly from node i to node j;
      - `xtot[i][j]`: some vehicle drives directly from i to j;
      - `u[i]`: the rank of customer i.
      The entries with i == j and the entry `u[DEPOT]` only keep the
      matrices rectangular: no constraint, objective term or walk reads them. */
  datatype Valuation = Valuation(x: seq<seq<seq<bool>>>, xtot: seq<seq<bool>>, u: seq<int>)

  /** The valuation has one entry per variable of the instance (and the depot exists). */
  predicate Fits(inst: Instance, v: Valuation)
  {
    && inst.nodes >= 1
    && |v.x| == inst.nodes
    && (forall i :: 0 <= i < inst.nodes ==> |v.x[i]| == inst.nodes)
    && (forall i, j :: 0 <= i < inst.nodes && 0 <= j < inst.nodes ==> |v.x[i][j]| == inst.vehicles)
    && |v.xtot| == inst.nodes
    && (forall i :: 0 <= i < inst.nodes ==> |v.xtot[i]| == inst.nodes)
    && |v.u| == inst.nodes
  }

  /** The distance matrix is square over the nodes. */
  predicate DistancesFit(inst: Instance)
  {
    && |inst.dist| == inst.nodes
    && forall i :: 0 <= i < inst.nodes ==> |inst.dist[i]| == inst.nodes
  }

  predicate NonNegativeDistances(inst: Instance)
    requires DistancesFit(inst)
  {
    forall i, j :: 0 <= i < inst.nodes && 0 <= j < inst.nodes ==> inst.dist[i][j] >= 0
  }

  /** Terminal statuses of the solver. */
  datatype Status = Unknown | ModelInvalid | Feasible | Infeasible | Optimal

  /** Only an optimal or feasible status comes with variable values worth reading. */
  predicate HasSolution(status: Status)
  {
    status == Optimal || status == Feasible
  }

  /** The instance the repository hard-codes: depot 0, customers 1..3, two vehicles. */
  const TOY_DISTANCES: seq<seq<int>> :=
    [ [0, 10, 15, 20],
      [10, 0, 35, 25],
      [15, 35, 0, 30],
      [20, 25, 30, 0] ]

  const TOY: Instance := Instance(4, 2, TOY_DISTANCES)
}
