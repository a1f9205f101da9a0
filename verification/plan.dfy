/** The production plan: builds the specs, checks the capacity, sorts them
    into merit order, solves, and reports each plant's output in request
    order. */
module Plan {
  import opened Wrappers
  import opened Errors
  import opened Payload
  import opened Units
  import opened Specs
  import opened MeritOrder
  import opened Solver
  import opened Response

  /** Every spec of `s` names a request position below `n`. */
  predicate PositionsBelow(s: seq<PlantSpec>, n: int) {
    forall j :: 0 <= j < |s| ==> 0 <= s[j].originalIndex < n
  }

  /** `specs` sits at its own request positions, as built specs do. */
  predicate AtOwnPositions(specs: seq<PlantSpec>) {
    forall k :: 0 <= k < |specs| ==> specs[k].originalIndex == k
  }

  /** No request position is named twice along `s`. */
  predicate DistinctPositions(s: seq<PlantSpec>) {
    forall j, l :: 0 <= j < l < |s| ==> s[j].originalIndex != s[l].originalIndex
  }

  /** The merit order of built specs is a rearrangement of them that names
      each request position once, and the spec named by a position is the
      one built for it. */
  lemma MeritOrderPositions(specs: seq<PlantSpec>)
    requires AtOwnPositions(specs)
    ensures var sorted := SortSpecs(specs);
      && PositionsBelow(sorted, |specs|)
      && DistinctPositions(sorted)
      && (forall j :: 0 <= j < |sorted| ==> sorted[j] == specs[sorted[j].originalIndex])
  {
    var sorted := SortSpecs(specs);
    SortSpecsStable(specs);
    forall j | 0 <= j < |sorted|
      ensures 0 <= sorted[j].originalIndex < |specs| && sorted[j] == specs[sorted[j].originalIndex]
    {
      assert sorted[j] in multiset(specs);
      var k :| 0 <= k < |specs| && specs[k] == sorted[j];
    }
    forall j, l | 0 <= j < l < |sorted|
      ensures sorted[j].originalIndex != sorted[l].originalIndex
    {
      assert MeritBefore(sorted[j], sorted[l]);
    }
  }

  /** The units each request position receives: pairs of merit-order spec and
      count are entered in turn, so a later pair for the same position
      overwrites an earlier one. */
  function UnitsByIndex(sorted: seq<PlantSpec>, units: seq<int>): (m: map<int, int>)
    requires |sorted| == |units|
    ensures forall i :: i in m <==> exists j :: 0 <= j < |sorted| && sorted[j].originalIndex == i
    ensures DistinctPositions(sorted) ==>
      forall j :: 0 <= j < |sorted| ==> sorted[j].originalIndex in m && m[sorted[j].originalIndex] == units[j]
    decreases |sorted|
  {
    if sorted == [] then map[]
    else
      var n := |sorted| - 1;
      var prefix := UnitsByIndex(sorted[..n], units[..n]);
      assert forall j :: 0 <= j < n ==> sorted[..n][j] == sorted[j];
      prefix[sorted[n].originalIndex := units[n]]
  }

  /** A request position missing from the table is reported as idle. */
  function UnitsAt(m: map<int, int>, idx: int): int {
    if idx in m then m[idx] else 0
  }

  /** The response, one entry per plant in request order. */
  function AssemblePlan(plants: seq<PowerPlant>, m: map<int, int>): (plan: seq<PowerDispatch>)
    ensures |plan| == |plants|
    ensures forall k :: 0 <= k < |plan| ==> plan[k].name == plants[k].name
    ensures forall k :: 0 <= k < |plan| ==> plan[k].p == FromUnits(UnitsAt(m, k))
    ensures forall k :: 0 <= k < |plan| ==> ToUnits(plan[k].p) == UnitsAt(m, k)
  {
    var plan := seq(|plants|, k requires 0 <= k < |plants| => PowerDispatch(plants[k].name, FromUnits(UnitsAt(m, k))));
    forall k | 0 <= k < |plan|
      ensures ToUnits(plan[k].p) == UnitsAt(m, k)
    {
      ToUnitsFromUnits(UnitsAt(m, k));
    }
    plan
  }

  /** The counts of the plan read in merit order. */
  function InMeritOrder(sorted: seq<PlantSpec>, plan: seq<PowerDispatch>): (a: seq<int>)
    requires PositionsBelow(sorted, |plan|)
    ensures |a| == |sorted|
  {
    seq(|sorted|, j requires 0 <= j < |sorted| => ToUnits(plan[sorted[j].originalIndex].p))
  }

  /** The counts of the plan in request order. */
  function PlantUnits(plan: seq<PowerDispatch>): (u: seq<int>)
    ensures |u| == |plan|
  {
    seq(|plan|, k requires 0 <= k < |plan| => ToUnits(plan[k].p))
  }

  /** The merit order of a valid request. */
  function MeritOrderOf(req: ProductionPlanRequest): (sorted: seq<PlantSpec>)
    requires ValidRequest(req)
    ensures |sorted| == |req.powerplants|
  {
    SortSpecs(BuildSpecs(req.powerplants, req.fuels))
  }

  /** `plan` fits the fleet: one entry per plant under its name, every
      output on the 0.1 MW grid and non-negative, every plant idle or inside
      its envelope, and the outputs adding up to `load` units. */
  ghost predicate FitsFleet(plants: seq<PowerPlant>, specs: seq<PlantSpec>, plan: seq<PowerDispatch>, load: int) {
    && |plan| == |plants| == |specs|
    && (forall k :: 0 <= k < |plan| ==> plan[k].name == plants[k].name)
    && (forall k :: 0 <= k < |plan| ==> OnLattice(plan[k].p) && ValidDispatch(plan[k]))
    && (forall k :: 0 <= k < |plan| ==>
          var u := ToUnits(plan[k].p);
          u == 0 || specs[k].minUnits <= u <= specs[k].maxUnits)
    && Sum(PlantUnits(plan)) == load
  }

  /** `plan`, read in merit order, is a feasible allocation of `load` units
      whose cost is the least over all feasible allocations. */
  ghost predicate OptimalInMeritOrder(sorted: seq<PlantSpec>, load: int, plan: seq<PowerDispatch>) {
    && PositionsBelow(sorted, |plan|)
    && FeasibleFrom(sorted, 0, load, InMeritOrder(sorted, plan))
    && MinCost(sorted, 0, load).Some?
    && Cost(sorted, 0, InMeritOrder(sorted, plan)) == MinCost(sorted, 0, load).value
    && (forall a :: FeasibleFrom(sorted, 0, load, a) ==> Cost(sorted, 0, InMeritOrder(sorted, plan)) <= Cost(sorted, 0, a))
  }

  /** `plan` answers `req` optimally, and among the optimal allocations it
      is the one that takes, plant by plant in merit order, the smallest
      count reaching the optimum. */
  ghost predicate OptimalPlan(req: ProductionPlanRequest, plan: seq<PowerDispatch>)
    requires ValidRequest(req)
  {
    && FitsFleet(req.powerplants, BuildSpecs(req.powerplants, req.fuels), plan, ToUnits(req.load))
    && OptimalInMeritOrder(MeritOrderOf(req), ToUnits(req.load), plan)
    && SmallestSteps(MeritOrderOf(req), 0, ToUnits(req.load), InMeritOrder(MeritOrderOf(req), plan))
  }

  /** The sum of the weights `w` at the positions named along `s`. */
  function SumAt(s: seq<PlantSpec>, w: seq<int>): int
    requires PositionsBelow(s, |w|)
  {
    if s == [] then 0 else w[s[0].originalIndex] + SumAt(s[1..], w)
  }

  lemma {:induction false} SumAtConcat(s: seq<PlantSpec>, t: seq<PlantSpec>, w: seq<int>)
    requires PositionsBelow(s, |w|) && PositionsBelow(t, |w|)
    ensures PositionsBelow(s + t, |w|)
    ensures SumAt(s + t, w) == SumAt(s, w) + SumAt(t, w)
  {
    if s != [] {
      SumAtConcat(s[1..], t, w);
      assert (s + t)[1..] == s[1..] + t;
    } else {
      assert s + t == t;
    }
  }

  /** Taking one spec out of `t` takes its weight out of the sum. */
  lemma SumAtRemove(t: seq<PlantSpec>, i: nat, w: seq<int>)
    requires PositionsBelow(t, |w|) && i < |t|
    ensures PositionsBelow(t[..i] + t[i + 1..], |w|)
    ensures multiset(t[..i] + t[i + 1..]) == multiset(t) - multiset{t[i]}
    ensures SumAt(t, w) == w[t[i].originalIndex] + SumAt(t[..i] + t[i + 1..], w)
  {
    assert t == t[..i] + t[i..];
    assert t[i..] == [t[i]] + t[i + 1..];
    assert t[i..][1..] == t[i + 1..];
    SumAtConcat(t[..i], t[i..], w);
    SumAtConcat(t[..i], t[i + 1..], w);
  }

  /** Summing along a rearrangement gives the same total. */
  lemma {:induction false} SumAtPermutation(s: seq<PlantSpec>, t: seq<PlantSpec>, w: seq<int>)
    requires multiset(s) == multiset(t)
    requires PositionsBelow(s, |w|) && PositionsBelow(t, |w|)
    ensures SumAt(s, w) == SumAt(t, w)
    decreases |s|
  {
    if s != [] {
      assert s == [s[0]] + s[1..];
      assert s[0] in multiset(t);
      var i :| 0 <= i < |t| && t[i] == s[0];
      SumAtRemove(t, i, w);
      SumAtPermutation(s[1..], t[..i] + t[i + 1..], w);
    } else {
      assert |t| == |multiset(t)|;
    }
  }

  /** Along specs at their own positions, the sum at the positions is the
      plain sum of the weights. */
  lemma {:induction false} SumAtOwnPositions(specs: seq<PlantSpec>, w: seq<int>, from: nat)
    requires from + |specs| == |w|
    requires forall k :: 0 <= k < |specs| ==> specs[k].originalIndex == from + k
    ensures PositionsBelow(specs, |w|)
    ensures SumAt(specs, w) == Sum(w[from..])
    decreases |specs|
  {
    if specs != [] {
      SumAtOwnPositions(specs[1..], w, from + 1);
      assert w[from..][1..] == w[from + 1..];
    } else {
      assert w[from..] == [];
    }
  }

  /** Reading the weights in the order the positions are named sums to the
      same as summing at those positions. */
  lemma {:induction false} SumAtGathered(s: seq<PlantSpec>, plan: seq<PowerDispatch>)
    requires PositionsBelow(s, |plan|)
    ensures SumAt(s, PlantUnits(plan)) == Sum(InMeritOrder(s, plan))
    decreases |s|
  {
    if s != [] {
      SumAtGathered(s[1..], plan);
      assert InMeritOrder(s, plan)[1..] == InMeritOrder(s[1..], plan);
    }
  }

  /** The outputs of a plan whose merit-order reading serves the load add up
      to the load in request order too. */
  lemma {:induction false} PlanServesLoad(specs: seq<PlantSpec>, plan: seq<PowerDispatch>, load: int)
    requires AtOwnPositions(specs) && |specs| == |plan|
    requires PositionsBelow(SortSpecs(specs), |plan|)
    requires Sum(InMeritOrder(SortSpecs(specs), plan)) == load
    ensures Sum(PlantUnits(plan)) == load
  {
    var sorted := SortSpecs(specs);
    var w := PlantUnits(plan);
    SumAtOwnPositions(specs, w, 0);
    MeritOrderPositions(specs);
    SumAtPermutation(sorted, specs, w);
    SumAtGathered(sorted, plan);
    assert w[0..] == w;
  }

  /** Each plant is idle or inside its envelope when the merit-order reading
      is feasible. */
  lemma {:induction false} PlanWithinEnvelopes(specs: seq<PlantSpec>, plan: seq<PowerDispatch>, load: int)
    requires AtOwnPositions(specs) && |specs| == |plan|
    requires PositionsBelow(SortSpecs(specs), |plan|)
    requires FeasibleFrom(SortSpecs(specs), 0, load, InMeritOrder(SortSpecs(specs), plan))
    ensures forall k :: 0 <= k < |plan| ==>
      var u := ToUnits(plan[k].p);
      u == 0 || specs[k].minUnits <= u <= specs[k].maxUnits
  {
    var sorted := SortSpecs(specs);
    var a := InMeritOrder(sorted, plan);
    MeritOrderPositions(specs);
    FeasibleMeetsLoad(sorted, 0, load, a);
    forall k | 0 <= k < |plan|
      ensures var u := ToUnits(plan[k].p); u == 0 || specs[k].minUnits <= u <= specs[k].maxUnits
    {
      assert specs[k] in multiset(sorted);
      var j :| 0 <= j < |sorted| && sorted[j] == specs[k];
      assert a[j] == ToUnits(plan[k].p);
    }
  }

  /** The capacity of specs is the sum of their maximum outputs at their
      positions. */
  lemma {:induction false} CapacityAsSumAt(s: seq<PlantSpec>, caps: seq<int>)
    requires PositionsBelow(s, |caps|)
    requires forall j :: 0 <= j < |s| ==> caps[s[j].originalIndex] == s[j].maxUnits
    ensures TotalCapacity(s) == SumAt(s, caps)
  {
    if s != [] {
      CapacityAsSumAt(s[1..], caps);
    }
  }

  /** Sorting does not change the total capacity. */
  lemma CapacityPermutation(specs: seq<PlantSpec>)
    requires AtOwnPositions(specs)
    ensures TotalCapacity(SortSpecs(specs)) == TotalCapacity(specs)
  {
    var sorted := SortSpecs(specs);
    var caps := seq(|specs|, k requires 0 <= k < |specs| => specs[k].maxUnits);
    MeritOrderPositions(specs);
    CapacityAsSumAt(specs, caps);
    CapacityAsSumAt(sorted, caps);
    SumAtPermutation(sorted, specs, caps);
  }

  /** The capacity pre-check refuses only loads that no allocation in merit
      order could serve. */
  lemma CapacityRefusalIsSound(specs: seq<PlantSpec>, load: int)
    requires AtOwnPositions(specs)
    requires forall k :: 0 <= k < |specs| ==> specs[k].maxUnits >= 0
    requires load > TotalCapacity(specs)
    ensures forall a :: !FeasibleFrom(SortSpecs(specs), 0, load, a)
  {
    var sorted := SortSpecs(specs);
    MeritOrderPositions(specs);
    CapacityPermutation(specs);
    forall a | FeasibleFrom(sorted, 0, load, a)
      ensures false
    {
      CapacityCheckIsSound(sorted, 0, load, a);
    }
  }

  /** The plan assembled from a feasible allocation in merit order fits
      the fleet. */
  lemma {:induction false} AssembledPlanFits(plants: seq<PowerPlant>, specs: seq<PlantSpec>, units: seq<int>, load: int)
    requires AtOwnPositions(specs) && |specs| == |plants|
    requires forall k :: 0 <= k < |specs| ==> specs[k].minUnits >= 0
    requires FeasibleFrom(SortSpecs(specs), 0, load, units)
    ensures FitsFleet(plants, specs, AssemblePlan(plants, UnitsByIndex(SortSpecs(specs), units)), load)
  {
    AssembledPlanEntries(plants, specs, units, load);
    AssembledPlanTotal(plants, specs, units, load);
  }

  /** Every entry of the assembled plan is on the grid, non-negative, and
      idle or inside its plant's envelope. */
  lemma {:induction false} AssembledPlanEntries(plants: seq<PowerPlant>, specs: seq<PlantSpec>, units: seq<int>, load: int)
    requires AtOwnPositions(specs) && |specs| == |plants|
    requires forall k :: 0 <= k < |specs| ==> specs[k].minUnits >= 0
    requires FeasibleFrom(SortSpecs(specs), 0, load, units)
    ensures var plan := AssemblePlan(plants, UnitsByIndex(SortSpecs(specs), units));
      && (forall k :: 0 <= k < |plan| ==> OnLattice(plan[k].p) && ValidDispatch(plan[k]))
      && (forall k :: 0 <= k < |plan| ==>
            var u := ToUnits(plan[k].p);
            u == 0 || specs[k].minUnits <= u <= specs[k].maxUnits)
  {
    var sorted := SortSpecs(specs);
    var plan := AssemblePlan(plants, UnitsByIndex(sorted, units));
    MeritOrderPositions(specs);
    PlanReadsBack(sorted, units, plants);
    PlanWithinEnvelopes(specs, plan, load);
    PlanOnGrid(specs, plan);
  }

  /** The outputs of the assembled plan add up to the load. */
  lemma {:induction false} AssembledPlanTotal(plants: seq<PowerPlant>, specs: seq<PlantSpec>, units: seq<int>, load: int)
    requires AtOwnPositions(specs) && |specs| == |plants|
    requires FeasibleFrom(SortSpecs(specs), 0, load, units)
    ensures Sum(PlantUnits(AssemblePlan(plants, UnitsByIndex(SortSpecs(specs), units)))) == load
  {
    var sorted := SortSpecs(specs);
    var plan := AssemblePlan(plants, UnitsByIndex(sorted, units));
    MeritOrderPositions(specs);
    FeasibleMeetsLoad(sorted, 0, load, units);
    PlanReadsBack(sorted, units, plants);
    PlanServesLoad(specs, plan, load);
  }

  /** The plan assembled from an optimal allocation in merit order is
      optimal when read back in merit order. */
  lemma {:induction false} AssembledPlanIsOptimal(plants: seq<PowerPlant>, specs: seq<PlantSpec>, units: seq<int>, load: int)
    requires AtOwnPositions(specs) && |specs| == |plants|
    requires FeasibleFrom(SortSpecs(specs), 0, load, units)
    requires MinCost(SortSpecs(specs), 0, load).Some?
    requires Cost(SortSpecs(specs), 0, units) == MinCost(SortSpecs(specs), 0, load).value
    ensures OptimalInMeritOrder(SortSpecs(specs), load, AssemblePlan(plants, UnitsByIndex(SortSpecs(specs), units)))
  {
    var sorted := SortSpecs(specs);
    MeritOrderPositions(specs);
    PlanReadsBack(sorted, units, plants);
    MinCostIsLowerBoundForAll(sorted, 0, load);
  }

  /** Reading the assembled plan back in merit order recovers the counts it
      was assembled from. */
  lemma PlanReadsBack(sorted: seq<PlantSpec>, units: seq<int>, plants: seq<PowerPlant>)
    requires |sorted| == |units|
    requires PositionsBelow(sorted, |plants|) && DistinctPositions(sorted)
    ensures InMeritOrder(sorted, AssemblePlan(plants, UnitsByIndex(sorted, units))) == units
  {
  }

  /** Every output of a plan whose plants are idle or inside their envelopes
      lies on the 0.1 MW grid and is non-negative. */
  lemma PlanOnGrid(specs: seq<PlantSpec>, plan: seq<PowerDispatch>)
    requires |specs| == |plan|
    requires forall k :: 0 <= k < |specs| ==> specs[k].minUnits >= 0
    requires forall k :: 0 <= k < |plan| ==> plan[k].p == FromUnits(ToUnits(plan[k].p))
    requires forall k :: 0 <= k < |plan| ==>
      var u := ToUnits(plan[k].p);
      u == 0 || specs[k].minUnits <= u <= specs[k].maxUnits
    ensures forall k :: 0 <= k < |plan| ==> OnLattice(plan[k].p) && ValidDispatch(plan[k])
  {
  }

  /** Computes the production plan of a valid request. Fails with
      `ExceedsCapacity` exactly when the load, in units, is above the sum
      of the maximum outputs, and fails at all exactly when no feasible
      allocation exists in merit order; otherwise the plan is optimal. */
  method BuildProductionPlan(req: ProductionPlanRequest) returns (r: Result<seq<PowerDispatch>, DispatchError>)
    requires ValidRequest(req)
    ensures r == Failure(DispatchComputationError(ExceedsCapacity)) <==>
      ToUnits(req.load) > TotalCapacity(BuildSpecs(req.powerplants, req.fuels))
    ensures r.Failure? ==> forall a :: !FeasibleFrom(MeritOrderOf(req), 0, ToUnits(req.load), a)
    ensures r.Success? ==> exists a :: FeasibleFrom(MeritOrderOf(req), 0, ToUnits(req.load), a)
    ensures r.Success? ==> OptimalPlan(req, r.value)
  {
    var specs := BuildSpecs(req.powerplants, req.fuels);
    var loadUnits := ToUnits(req.load);
    var totalCapacity := TotalCapacity(specs);
    if loadUnits > totalCapacity {
      CapacityRefusalIsSound(specs, loadUnits);
      return Failure(DispatchComputationError(ExceedsCapacity));
    }
    var sorted := SortSpecs(specs);
    var solved := SolveDispatch(sorted, loadUnits);
    if solved.Failure? {
      return Failure(solved.error);
    }
    var units := solved.value;
    assert sorted == MeritOrderOf(req);
    assert FeasibleFrom(MeritOrderOf(req), 0, loadUnits, units);
    var plan := AssemblePlan(req.powerplants, UnitsByIndex(sorted, units));
    AssembledPlanFits(req.powerplants, specs, units, loadUnits);
    AssembledPlanIsOptimal(req.powerplants, specs, units, loadUnits);
    MeritOrderPositions(specs);
    PlanReadsBack(sorted, units, req.powerplants);
    r := Success(plan);
  }
}
