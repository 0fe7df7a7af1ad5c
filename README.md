# VRP constraint checker and route extractor

This project models the core of a small vehicle-routing program built on a CP-SAT solver.
A depot (node 0) and the customers 1 .. n-1 are served by the vehicles 0 .. m-1. The program
does four things:

- It declares decision variables: `x[i,j,k]` says vehicle k drives i -> j, `x_tot[i,j]` says some
  vehicle drives i -> j, and `u[i]` is a customer's rank.
- It states the routing constraints and minimises the total distance.
- It reads the solver's answer back.
- It rebuilds each vehicle's route by walking from the depot along the lowest-numbered used arc.

The same logic appears twice: as the function `solve_vrp` in `vrp_solver.py`, and as module-level
code in `main.py`.

The solver is not modelled. Its terminal status and the value it gives every variable are
inputs (`Status`, `Valuation`). The constraints are predicates over that valuation
(`Constraints.Valid`). The program's own code is modelled as code:

- the objective is a function (`Objective.TotalDistance`);
- the successor list is a function (`Routes.Successors`);
- the route loop is a method with a loop (`Routes.ExtractRoute`);
- the two entry points are methods: `VrpSolver.SolveVrp` for `solve_vrp`, and
  `MainScript.RunScript` for the script's output stage.

The hard-coded four-node, two-vehicle instance is kept as constants (`Problem.TOY`, `Toy.TOY_SOLUTION`).

Modules:

- `Problem` (`problem.dfy`): instance, valuation, status and the hard-coded data
  (`vrp_solver.py:4-13`, `main.py:21-37`).
- `Constraints` (`constraints.dfy`): the constraint predicates (`vrp_solver.py:29-57`,
  `main.py:56-93`) and what they imply about degrees and ranks.
  - `AggregateLinked`: `x_tot` is the OR of `x` over the vehicles (`AddMaxEquality`).
  - `DepotDegrees`: every vehicle uses exactly one arc out of the depot and one into it.
  - `FlowConserved`: at every customer, each vehicle enters as often as it leaves.
  - `VisitedOnce`: each customer is entered exactly once over all vehicles.
  - `RanksInRange`: `1 <= u[c] <= max_rank`, where `max_rank` is the number of customers.
  - `Mtz`: `u[i] - u[j] + max_rank * x_tot[i,j] <= max_rank - 1` for distinct customers.
- `Sums` (`sums.dfy`): finite sums, which stand for Python's `sum(...)`, and their algebra.
- `Objective` (`objective.dfy`): the total distance (`vrp_solver.py:60-62`, `main.py:97`).
- `Routes` (`routes.dfy`): the successor list, the walk, the route loop, and the theorems about
  routes (`vrp_solver.py:71-84`, `main.py:111-125`).
- `RouteCost` (`route_cost.dfy`): the objective regrouped by vehicle; under the constraints it
  equals the total length of the extracted routes.
- `VrpSolver` (`solver.dfy`): `solve_vrp`'s status guard, route dictionary and objective
  (`vrp_solver.py:69-89`).
- `MainScript` (`main_script.dfy`): the script's report (`main.py:106-130`).
- `Toy` (`toy.dfy`): a valid answer for the hard-coded instance, its objective and its routes.

A valid answer for the hard-coded instance has total distance 85:

- vehicle 0 drives 0 -> 1 -> 0, for 10 + 10;
- vehicle 1 drives 0 -> 2 -> 3 -> 0, for 15 + 30 + 20.

This exhibited valid answer costs 85; the model claims nothing about optimality.

## Model

| member | source | states |
|---|---|---|
| Constraints.UsedByAnyFrom | vrp_solver.py:29-35 | the maximum of `x[i,j,k]` over the vehicles k is true exactly when some vehicle uses arc i -> j, so `AddMaxEquality` makes `x_tot` the OR over vehicles (also `main.py:56-63`) |
| Constraints.UsedArcCounted | vrp_solver.py:41-48 | an arc i -> j that vehicle k uses counts at least once in k's out-degree sum at i and in its in-degree sum at j |
| Constraints.OutArcOf | vrp_solver.py:42 | a positive out-degree sum of vehicle k at node i is witnessed by an arc i -> j with j != i that k uses |
| Constraints.InArcOf | vrp_solver.py:43 | a positive in-degree sum of vehicle k at node i is witnessed by an arc p -> i with p != i that k uses |
| Constraints.CustomerServedOnce | vrp_solver.py:45-51 | with flow conservation and exactly one visit, a customer that vehicle k enters is entered once and left once by k, and neither entered nor left by any other vehicle (also `main.py:78-85`) |
| Constraints.MtzRaisesRank | vrp_solver.py:53-57 | under the MTZ inequality, a used aggregated arc between two distinct customers raises the rank by at least one |
| Constraints.VehicleArcRaisesRank | vrp_solver.py:35 | an arc between customers that any single vehicle uses raises the rank by at least one, through the OR link and the MTZ inequality |
| Constraints.RanksRiseAlongWalk | vrp_solver.py:53-57 | along a walk of used aggregated arcs through customers, the rank of the last node exceeds the first's by at least the number of arcs |
| Constraints.NoSubtour | vrp_solver.py:53-57 | the MTZ inequality alone rules out every closed walk made only of customers (also `main.py:87-93`) |
| Objective.ArcCost | vrp_solver.py:60-62 | an objective term is non-zero only for a node pair i != j and a vehicle k that uses arc i -> j |
| Objective.TotalDistanceNonNegative | vrp_solver.py:60-62 | with non-negative distances the objective is non-negative (also `main.py:96-97`) |
| RouteCost.TotalDistanceByVehicle | vrp_solver.py:60-62 | the objective equals the sum over vehicles of what each vehicle pays for the arcs it uses |
| RouteCost.VehicleCostIsRouteLength | vrp_solver.py:60-84 | under the constraints, what vehicle k pays is exactly the length of the route extracted for k |
| RouteCost.TotalDistanceIsRouteLengths | vrp_solver.py:60-84 | under the constraints, the objective is the total length of all extracted routes |
| Routes.SuccessorsFromListed | vrp_solver.py:75-76 | `next_nodes` holds exactly the heads of the arcs vehicle k uses out of `current`, in increasing node order; its length is k's out-degree there |
| Routes.NextIsLowestArc | vrp_solver.py:75-79 | `next_nodes[0]` is the lowest-numbered node k drives to from `current`; the list is empty exactly when k uses no arc out of `current` |
| Routes.OnlySuccessor | vrp_solver.py:75-79 | at a node where vehicle k has out-degree one, the successor chosen is the head of that one arc |
| Routes.WalkFollowsNext | vrp_solver.py:74-83 | each appended node is the chosen successor of the node before it; the walk ends early only at the depot or at a node without successor |
| Routes.RouteFollowsNext | vrp_solver.py:72-83 | for any valuation, a route starts at the depot, its nodes exist, it meets the depot again only at its end, and it follows the successor choice |
| Routes.RouteFollowsArcs | vrp_solver.py:72-83 | for any valuation, every consecutive pair of a route is an arc the vehicle uses |
| Routes.WalkFromCustomer | vrp_solver.py:74-83 | under the constraints, the walk from a customer the vehicle enters passes customers of strictly rising rank and ends at the depot |
| Routes.RouteIsTour | vrp_solver.py:71-84 | under the constraints, every route starts and ends at the depot, visits at least one customer, follows used arcs and repeats no customer (also `main.py:111-125`) |
| Routes.MoreFuelSameWalk | vrp_solver.py:74-83 | a walk that ended at the depot or at a dead end is unchanged by a larger step bound |
| Routes.BoundNeverBinds | vrp_solver.py:74 | under the constraints, the step bound of the model never ends a walk; any larger bound yields the same route, as the unbounded loop does |
| Routes.EnteredCustomerOnRoute | main.py:8 | under the constraints, every customer that vehicle k enters lies on k's route, so every visited node is connected to the depot |
| Routes.OnRouteIffEntered | vrp_solver.py:71-84 | under the constraints, a customer is on vehicle k's route exactly when k enters it |
| Routes.CustomerOnExactlyOneRoute | vrp_solver.py:71-84 | under the constraints, every customer lies on the route of exactly one vehicle |
| Routes.ExtractRoute | vrp_solver.py:72-84 | the loop returns the route of vehicle k, which starts at the depot; under the constraints that route is a tour (the script's loop is the same, `main.py:114-124`) |
| VrpSolver.ExtractRoutes | vrp_solver.py:71-84 | `routes` maps exactly the vehicles 0 .. m-1, each to its route; each starts at the depot and, under the constraints, is a tour |
| VrpSolver.RoutesServeEachCustomerOnce | vrp_solver.py:71-84 | under the constraints, every customer lies on exactly one route of the dictionary |
| VrpSolver.SolveVrp | vrp_solver.py:69-89 | without an OPTIMAL or FEASIBLE status the objective is `None` and `routes` is empty. With one, the objective is the total distance and `routes` holds every vehicle's route. Under the constraints the routes are tours covering each customer once, and the objective is their total length |
| MainScript.ReportRoutes | main.py:111-125 | the script reconstructs one route per vehicle, in vehicle order, each the vehicle's route and, under the constraints, a tour |
| MainScript.ReportRanks | main.py:126-128 | the script reports `u[c]` for every customer c in order |
| MainScript.ReportedRoutesServeEachCustomerOnce | main.py:111-125 | under the constraints, every customer lies on exactly one reported route |
| MainScript.RunScript | main.py:106-130 | without an OPTIMAL or FEASIBLE status the script only reports that no feasible solution exists. Otherwise it reports the status, the total distance, every vehicle's route and every customer's rank, and under the constraints the routes are tours covering each customer once |
| Toy.ToySolutionValid | vrp_solver.py:4-13 | the hard-coded instance has an answer meeting every constraint: vehicle 0 serves {1}, vehicle 1 serves {2, 3} |
| Toy.ToyObjective | vrp_solver.py:60-62 | that answer's total distance is 85 |
| Toy.ToyRoutes | vrp_solver.py:71-84 | the routes rebuilt from that answer are 0 -> 1 -> 0 and 0 -> 2 -> 3 -> 0 |

## Left out

- The CP-SAT engine is not modelled. This covers building the model, declaring variables,
  `AddMaxEquality`, `Solve`, the time limit and the worker count (`vrp_solver.py:18`, `64-67`;
  `main.py:44`, `100-103`). It is a foreign library with a parallel search. Its status and
  variable values are inputs, and its constraints are predicates over them.
- Optimality of the answer is not modelled. It is the solver's search result, not code in these
  files. `Toy` exhibits a valid answer and claims nothing about optimality.
- The declaration loops (`vrp_solver.py:21-38`, `main.py:47-70`) are not modelled as code. They
  only fix which variables exist. `Problem.Fits` demands a valuation of that shape. Rank bounds
  are stated by `Constraints.RanksInRange`. The diagonal entries and `u[0]` exist in the model
  but are never read.
- `solver.ObjectiveValue()` is a float read back from the solver. The model reports the integer
  total distance of the valuation instead.
- All printing is left out (`main.py:107-128`, `vrp_solver.py:92-96`). `MainScript.RunScript`
  returns the reported values as a `Report` instead.
- The unused `BIG_M` (`main.py:39-41`) is left out.
- app.py (the Plotly/Dash view) is not part of this model.
- Workers, skills, time windows, capacities and arrival times are not in the modelled code, so
  they are not modelled.
- Routes.ExtractRoute: the source's `while True` loop is bounded here by `nodes` appended nodes.
  Without the constraints, an answer with a cycle of customers makes the source loop forever;
  the model stops after the bound instead. Under the constraints, `Routes.BoundNeverBinds`
  shows the bound never takes effect.
