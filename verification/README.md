# Power-plant dispatch solver, modelled in Dafny

The service answers a production-plan request: a load in MW, fuel and CO2
prices, the wind availability, and a fleet of gas-fired, turbojet and wind
plants. It returns how much each plant should produce so that the load is
met at the least cost. This project models the dispatch core of that
service and proves properties of the model:

- **Unit lattice** (`units.dfy`). Power is converted to integer units of
  0.1 MW and back.
- **Input validity** (`payload.dfy`). These are the field bounds of the
  request models and the `pmin <= pmax` check. They become the
  precondition of the solver, and there is also a validating function that
  reports every violated bound.
- **Spec builder** (`specs.dfy`). Each plant becomes a `PlantSpec` with:
  - its request position;
  - its minimum and maximum output in units (wind is scaled by the
    availability and has no minimum);
  - the cost of one unit for one hour.
- **Merit order** (`merit_order.dfy`). A stable sort ascending on
  (cost per unit, maximum units), modelled as an insertion sort.
- **Exact dynamic programme** (`solver.dfy`):
  - `MinCost(index, remaining)` is the least cost of serving `remaining`
    units with the specs from `index` on, or `None` when that is
    impossible.
  - It draws its choices from `FeasibleUnits`, the counts the solver tries
    for a plant.
  - The reconstruction walks the specs. At each step it commits the
    smallest count whose candidate cost equals the optimum.
- **Plan assembly** (`plan.dfy`). The counts go into a table keyed by
  request position, and the plan is read out in request order.

Costs and powers are exact `real` numbers, and an infeasible state is
`None`. The main results are:

- `Solver.SolveDispatch` fails exactly when no feasible allocation exists.
- Otherwise its allocation is feasible, serves exactly the load, and costs
  exactly `MinCost(0, load)`. That cost is the least over all feasible
  allocations.
- `Plan.BuildProductionPlan` carries this to the response:
  - one entry per plant, under its name;
  - every output on the 0.1 MW grid and non-negative;
  - every plant idle or inside its envelope;
  - the outputs add up to the load;
  - read in merit order, the plan is an optimal allocation, and at each
    step it holds the smallest count that reaches the optimum.
- The capacity pre-check refuses a load exactly when it exceeds the total
  capacity. It never refuses a load that could be served.

### Where the code and its documentation differ (the model follows the code)

- **No free "off" choice.** A reader of a unit-commitment solver might
  expect that a plant can always be left off. The code does not allow that:
  `_iter_feasible_units` offers 0 only when the plant has no capacity or
  no load is left. Otherwise it offers only counts from
  `max(min_units, 1)` upwards. So a plant with capacity cannot be skipped
  while load remains. The order of plants therefore matters for
  feasibility and for the optimum.
  - `Solver.Admissible` states the feasible set as the code computes it.
  - `Solver.NoOffChoice` shows two plants and a load of 2 units. There is
    no feasible allocation in that order, although idling the first plant
    and running the second would serve the load inside both envelopes.
  - Optimality is proved over the feasible set the code uses.
- **Tie-break.** The docstring of `_sort_specs_by_cost_and_capacity`
  (app/services/dispatch.py:64) says maximum units are sorted descending.
  The sort key at lines 72-73 sorts them ascending. The model sorts
  ascending.
- **Minimum above maximum.** One might expect spec construction to refuse
  a plant whose minimum units exceed its maximum units. `_build_specs`
  never checks this. Under the validity predicate it cannot happen, which
  `Specs.BuildSpecs` proves (`0 <= minUnits <= maxUnits`).
- **One error type.** One might expect a capacity error to be told apart
  from an infeasible load. The code raises the same
  `DispatchComputationError` for the capacity pre-check and for an
  infeasible load. The model keeps one error and tags it with the reason
  (`ExceedsCapacity`, `UnsatisfiableLoad`).

## Model

| member | source | states |
|---|---|---|
| Units.ToUnits | app/services/dispatch.py:227-238 | the count is the nearest unit to 10·MW (within half a unit) and is non-negative for non-negative power |
| Units.FromUnits | app/services/dispatch.py:241-251 | the power times 10 is the count exactly, lies on the 0.1 MW grid, and is non-negative for non-negative counts |
| Units.ToUnitsFromUnits | app/services/dispatch.py:238-251 | converting a count to MW and back gives the same count |
| Units.FromUnitsToUnits | app/services/dispatch.py:238-251 | a power on the 0.1 MW grid survives conversion to units and back |
| Units.FromUnitsToUnitsNear | app/services/dispatch.py:238-251 | any power moves by at most 0.05 MW through units and back |
| Units.ToUnitsMonotone | app/services/dispatch.py:238 | conversion to units preserves order, so pmin <= pmax survives it |
| Payload.ParsePlantType | app/models/production_plan/payload.py:9-14 | a category is read exactly from "gasfired", "turbojet" or "windturbine", and every other string is refused |
| Payload.ParseTypeName | app/models/production_plan/payload.py:9-14 | each category is read back from its own wire name |
| Payload.FuelFaults | app/models/production_plan/payload.py:17-23 | a fuel fault is reported exactly when its bound is violated (gas and kerosine > 0, CO2 >= 0, wind in [0, 100]); none means the fuels are valid |
| Payload.PlantFaults | app/models/production_plan/payload.py:29-46 | each field fault is reported exactly when its bound fails; pmin > pmax is reported exactly when the fields are well-formed and pmin exceeds pmax |
| Payload.FleetFaults | app/models/production_plan/payload.py:29-46 | no fault means every plant from the position on is valid; every fault of every such plant is reported, and every reported fault is a fault of the plant it names (one of those plants) |
| Payload.RequestFaultsMembership | app/models/production_plan/payload.py:17-54 | a fault of the request is exactly a bad load, a fuel fault, an empty fleet or a plant fault |
| Payload.ValidateRequest | app/models/production_plan/payload.py:49-54 | accepts the request unchanged exactly when it is valid (load > 0, valid fuels, at least one plant, every plant valid); otherwise reports a non-empty list that names a bad load exactly when the load is not positive and an empty fleet exactly when there is no plant, includes every fuel and plant fault, and holds nothing else |
| Specs.EffectiveMaxOutput | app/services/dispatch.py:104-119 | the maximum is never negative; it is pmax for combustion plants (0 if pmax is negative), pmax times the availability over 100 for wind with non-negative pmax and availability, and never above pmax on valid input |
| Specs.WindMaxFollowsAvailability | app/services/dispatch.py:115-119 | a wind turbine's maximum grows with the availability and equals pmax at 100 % |
| Specs.MarginalCost | app/services/dispatch.py:122-141 | with valid prices the cost per MWh is non-negative and is zero exactly for wind |
| Specs.BuildSpecs | app/services/dispatch.py:77-101 | one spec per plant in request order with its position, name and category; min units are those of pmin (0 for wind); max units are those of the effective maximum; 0 <= min <= max <= units of pmax; cost per unit is a tenth of the marginal cost and is zero exactly for wind |
| Specs.CombustionCostPerUnit | app/services/dispatch.py:88-141 | a gas unit costs (gas price / efficiency + 0.3·CO2) / 10 and a turbojet unit the same with the kerosine price |
| Specs.BuildSpec | app/services/dispatch.py:88-101 | the spec keeps the plant's position, name and category, its cost per unit times 10 is the marginal cost, and on a valid plant 0 <= min units <= max units <= units of pmax |
| MeritOrder.SortSpecs | app/services/dispatch.py:62-74 | the merit order is a permutation of the specs, ascending on cost per unit and, among equal costs, ascending on max units |
| MeritOrder.SortSpecsStable | app/services/dispatch.py:72-73 | the sort is stable: specs with equal keys keep their request order |
| Solver.FeasibleUnits | app/services/dispatch.py:206-224 | the first count tried is 0 or the plant's floor (at least one unit), and every count tried lies between 0 and what is left and the plant's capacity; `FeasibleUnitsAreAdmissible` pins the exact set and order |
| Solver.FeasibleUnitsAreAdmissible | app/services/dispatch.py:206-224 | the counts tried are exactly {0} when min(max units, remaining) <= 0, and otherwise exactly the integers from max(min units, 1) to min(max units, remaining); each is tried once, in ascending order |
| Solver.AdmissibleBounds | app/services/dispatch.py:217-224 | every count tried is between 0 and max(0, remaining), at most max(0, max units), and either 0 or inside the plant's envelope |
| Solver.BestOver | app/services/dispatch.py:179-187 | the loop never loses a finite running minimum and never raises it; `BestOverIsLeast` pins it as the least candidate |
| Solver.MinCost | app/services/dispatch.py:156-187 | no contract of its own; `MinCostBoundaries` states the base cases, `MinCostIsLeastCandidate` the recurrence and `MinCostIsLowerBound` that it is the least cost of any feasible allocation |
| Solver.BestOverIsLeast | app/services/dispatch.py:179-187 | the running minimum of the loop is at most every candidate and the starting value, and it is attained by one of them |
| Solver.MinCostBoundaries | app/services/dispatch.py:172-177 | a negative remaining load is infeasible; past the last spec only a zero remaining load is solvable, at cost 0 |
| Solver.MinCostIsLeastCandidate | app/services/dispatch.py:179-187 | the optimum at a spec is finite exactly when some count tried has a finite candidate cost; it is attained by one of them and is below all of them |
| Solver.MinCostIsLowerBound | app/services/dispatch.py:155-187 | every feasible allocation costs at least `MinCost`, which is finite whenever one exists |
| Solver.FeasibleMeetsLoad | app/services/dispatch.py:193-224 | a feasible allocation sums to the load, and every count in it is 0 or inside its plant's envelope |
| Solver.CapacityCheckIsSound | app/services/dispatch.py:47-51 | a load that some feasible allocation serves is at most the total capacity |
| Solver.TotalCapacity | app/services/dispatch.py:49 | with non-negative capacities the total is non-negative and at least each plant's capacity; `CapacityCheckIsSound` and `Plan.CapacityPermutation` relate it to feasibility and to sorting |
| Solver.ChooseUnits | app/services/dispatch.py:195-202 | the count committed for a step is the smallest count tried whose candidate cost equals the optimum; one always exists, so the fallback to 0 is never taken |
| Solver.SomeCountAttains | app/services/dispatch.py:195-202 | when the optimum is finite, some count the solver tries reaches it, so the search never falls through |
| Solver.FirstAttainingIsSmallest | app/services/dispatch.py:195-202 | the first count in the solver's order whose candidate equals the optimum is admissible and is the smallest admissible count that reaches it |
| Solver.Reconstruct | app/services/dispatch.py:193-203 | every step commits its smallest optimum-attaining count; the allocation is feasible and costs exactly `MinCost` |
| Solver.SolveDispatch | app/services/dispatch.py:144-203 | fails, with the unsatisfiable-load reason, exactly when no feasible allocation exists; otherwise returns a feasible allocation that sums to the load and costs exactly `MinCost(0, load)`, the least over all feasible allocations |
| Solver.NoOffChoice | app/services/dispatch.py:217-224 | with no off choice, a cheap small plant that must run makes a load infeasible although idling it would serve the load inside both envelopes |
| Plan.MeritOrderPositions | app/services/dispatch.py:53-56 | in merit order, every request position is named exactly once, and by the spec built for it |
| Plan.UnitsByIndex | app/services/dispatch.py:56 | the table has an entry exactly for the positions named in the merit order; with distinct positions each entry holds the count of its spec |
| Plan.UnitsAt | app/services/dispatch.py:58 | no contract of its own: the lookup with 0 for a missing position; `AssemblePlan` and `PlanReadsBack` state what the plan holds |
| Plan.AssemblePlan | app/services/dispatch.py:57-59 | one entry per plant in request order, under its name, whose output is the table's count for that position (0 when it is missing) converted to MW |
| Plan.PlanReadsBack | app/services/dispatch.py:56-59 | reading the assembled plan in merit order gives back the counts it was built from |
| Plan.PlanServesLoad | app/services/dispatch.py:56-59 | the outputs of the plan add up to the load in request order too |
| Plan.PlanWithinEnvelopes | app/services/dispatch.py:56-59 | every plant of the plan is idle or inside its envelope |
| Plan.CapacityPermutation | app/services/dispatch.py:49-53 | sorting does not change the total capacity |
| Plan.CapacityRefusalIsSound | app/services/dispatch.py:47-51 | a load above the total capacity has no feasible allocation in merit order |
| Plan.AssembledPlanFits | app/services/dispatch.py:53-59 | the plan built from a feasible allocation has the right names, grid-aligned non-negative outputs within the envelopes, and outputs that add up to the load |
| Plan.AssembledPlanIsOptimal | app/services/dispatch.py:53-59 | the plan built from an optimal allocation, read in merit order, is feasible and costs the least over all feasible allocations |
| Plan.BuildProductionPlan | app/services/dispatch.py:35-59 | fails with the capacity reason exactly when the load in units exceeds the total capacity; fails at all only when no feasible allocation exists, and otherwise one does; on success the plan fits the fleet, is optimal in merit order, and at each merit-order step holds the smallest count reaching the optimum (see `OptimalPlan`) |

## Left out

- Floating point is not modelled. Powers and costs are exact reals, and
  candidate costs are compared with exact equality where the source uses
  `math.isclose` with tolerances. `math.inf` is `None`.
- Units.ToUnits: models the 1e-9 bias followed by Python's half-even
  `round` as rounding to the nearest unit with ties going up. This is the
  effect of the bias on exact values. It is not the floating-point result
  for values within about 1e-9 of a tie.
- Units.FromUnits: models `round(units / 10 + 1e-9, 1)` as `units / 10`
  exactly, which is what it yields on exact arithmetic.
- Solver.MinCost: the `functools.lru_cache` memoisation is left out. It
  changes speed, not results.
- Solver.Reconstruct: the source's loop over the sorted specs is written as
  a recursion over the specs still to be visited. It takes the same steps
  in the same order.
- Plan.BuildProductionPlan: `build_production_plan` and `_solve_dispatch`
  are generators. Neither error is raised until the caller starts
  iterating the plan: the capacity error at the first step, and the
  unsatisfiable-load error (app/services/dispatch.py:191) when the dict
  comprehension at line 56 first runs the solver. The model returns the
  whole plan, or the error, at once.
- Plan.BuildProductionPlan: the two error messages are modelled as a
  reason tag on the single error type. The message text is not modelled.
- The HTTP layer, the exception-to-status mapping, logging, application
  start-up and settings are left out. They are I/O and framework glue.
- JSON decoding, field aliases and pydantic's type coercion are left out.
  The model starts from typed records. Only the field bounds, the category
  names and the bounds validator are modelled.
- `app/models/payload.py` is a duplicate of the request models without the
  bounds validator, and it is the model the HTTP route imports
  (app/api/production_plan.py:8). So the deployed path does not enforce
  `pmin <= pmax`. The duplicate is not part of this model. `ValidRequest`
  includes `pmin <= pmax`, so `Specs.BuildSpecs`' `ValidFleet`
  precondition is an assumption the service itself does not guarantee on
  that path. The solver (`Solver.SolveDispatch`) has no such
  precondition.
