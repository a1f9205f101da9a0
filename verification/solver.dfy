/** The exact dispatch solver over specs in merit order: the minimum cost
    `MinCost(index, remaining)` of serving `remaining` units with the specs
    from `index` on, and the deterministic pass that recovers one optimal
    allocation from it. Costs are exact; an infeasible state is `None`. */
module Solver {
  import opened Wrappers
  import opened Errors
  import opened Specs
  import opened Payload

  function MinInt(a: int, b: int): int { if a <= b then a else b }
  function MaxInt(a: int, b: int): int { if a >= b then a else b }

  /** The integers `lo, lo + 1, ..., hi - 1`. */
  function Range(lo: int, hi: int): (s: seq<int>)
    requires lo <= hi
    ensures |s| == hi - lo
    ensures forall k :: 0 <= k < |s| ==> s[k] == lo + k
    decreases hi - lo
  {
    if lo == hi then [] else [lo] + Range(lo + 1, hi)
  }

  /** The unit counts the solver tries for `spec` when `remaining` units are
      still to be served, in the order it tries them. */
  function FeasibleUnits(spec: PlantSpec, remaining: int): (us: seq<int>)
    ensures us != [] ==> us[0] == 0 || us[0] == MaxInt(spec.minUnits, 1)
    ensures forall i :: 0 <= i < |us| ==> 0 <= us[i] <= MaxInt(0, remaining) && us[i] <= MaxInt(0, spec.maxUnits)
  {
    var maxAssignable := MinInt(spec.maxUnits, remaining);
    if maxAssignable <= 0 then [0]
    else
      var start := MaxInt(spec.minUnits, 1);
      if start <= maxAssignable then Range(start, maxAssignable + 1) else []
  }

  /** The set of counts a plant may take with `remaining` units left: nothing
      at all when it has no capacity or no load is left; otherwise at least
      its floor (never below one unit) and at most what it can give and what
      is left. There is no free "off" choice while load and capacity remain. */
  predicate Admissible(spec: PlantSpec, remaining: int, u: int) {
    if MinInt(spec.maxUnits, remaining) <= 0 then u == 0
    else MaxInt(spec.minUnits, 1) <= u <= MinInt(spec.maxUnits, remaining)
  }

  /** The solver tries exactly the admissible counts, each once, in
      ascending order. */
  lemma FeasibleUnitsAreAdmissible(spec: PlantSpec, remaining: int)
    ensures var us := FeasibleUnits(spec, remaining);
      && (forall u :: u in us <==> Admissible(spec, remaining, u))
      && (forall i, j :: 0 <= i < j < |us| ==> us[i] < us[j])
  {
    var us := FeasibleUnits(spec, remaining);
    if MinInt(spec.maxUnits, remaining) > 0 {
      var lo := MaxInt(spec.minUnits, 1);
      var hi := MinInt(spec.maxUnits, remaining) + 1;
      forall u
        ensures u in us <==> Admissible(spec, remaining, u)
      {
        if lo <= u < hi {
          assert us[u - lo] == u;
        }
      }
    }
  }

  /** Bounds of what may be tried: {0} exactly when nothing can be assigned,
      never more than is left or than the plant's capacity, and never a
      positive count below the plant's minimum. */
  lemma AdmissibleBounds(spec: PlantSpec, remaining: int, u: int)
    requires Admissible(spec, remaining, u)
    ensures MinInt(spec.maxUnits, remaining) <= 0 ==> u == 0
    ensures MinInt(spec.maxUnits, remaining) > 0 ==> u >= 1
    ensures 0 <= u <= MaxInt(0, remaining) && u <= MaxInt(0, spec.maxUnits)
    ensures u == 0 || spec.minUnits <= u <= spec.maxUnits
  {
  }

  /** `a` is strictly cheaper than `b`, where `None` is infinitely expensive. */
  predicate Less(a: Option<real>, b: Option<real>) {
    a.Some? && (b.None? || a.value < b.value)
  }

  /** Cost of giving `u` units to spec `index` and serving the rest optimally
      with the specs after it. */
  function Candidate(specs: seq<PlantSpec>, index: nat, remaining: int, u: int): Option<real>
    requires index < |specs|
    decreases |specs| - index, 0, 0
  {
    match MinCost(specs, index + 1, remaining - u)
    case None => None
    case Some(rest) => Some(u as real * specs[index].costPerUnit + rest)
  }

  /** The running minimum of the candidates for the counts `us`, starting
      from `best`. */
  function BestOver(specs: seq<PlantSpec>, index: nat, remaining: int, us: seq<int>, best: Option<real>): (r: Option<real>)
    requires index < |specs|
    ensures best.Some? ==> r.Some? && r.value <= best.value
    decreases |specs| - index, 0, |us|
  {
    if us == [] then best
    else
      var candidate := Candidate(specs, index, remaining, us[0]);
      BestOver(specs, index, remaining, us[1..], if Less(candidate, best) then candidate else best)
  }

  /** The least cost of serving exactly `remaining` units with the specs from
      `index` on, or `None` when no choice of feasible counts does it. */
  function MinCost(specs: seq<PlantSpec>, index: nat, remaining: int): Option<real>
    requires index <= |specs|
    decreases |specs| - index, 1, 0
  {
    if remaining < 0 then None
    else if index == |specs| then (if remaining == 0 then Some(0.0) else None)
    else BestOver(specs, index, remaining, FeasibleUnits(specs[index], remaining), None)
  }

  /** `a` assigns one feasible count to each spec from `index` on, each drawn
      from the counts the solver tries for the load still left, and the
      counts serve exactly `remaining` units. */
  ghost predicate FeasibleFrom(specs: seq<PlantSpec>, index: nat, remaining: int, a: seq<int>)
    requires index <= |specs|
    decreases |specs| - index
  {
    && |a| == |specs| - index
    && remaining >= 0
    && if index == |specs| then remaining == 0
       else Admissible(specs[index], remaining, a[0])
            && FeasibleFrom(specs, index + 1, remaining - a[0], a[1..])
  }

  /** What the allocation `a` of the specs from `index` on costs for an hour. */
  function Cost(specs: seq<PlantSpec>, index: nat, a: seq<int>): real
    requires index <= |specs| && |a| == |specs| - index
    decreases |a|
  {
    if a == [] then 0.0
    else a[0] as real * specs[index].costPerUnit + Cost(specs, index + 1, a[1..])
  }

  function Sum(a: seq<int>): int {
    if a == [] then 0 else a[0] + Sum(a[1..])
  }

  /** The sum of all maximum outputs, in units. */
  function TotalCapacity(specs: seq<PlantSpec>): (cap: int)
    ensures (forall k :: 0 <= k < |specs| ==> specs[k].maxUnits >= 0) ==>
      cap >= 0 && forall k :: 0 <= k < |specs| ==> specs[k].maxUnits <= cap
  {
    if specs == [] then 0
    else
      assert forall k :: 1 <= k < |specs| ==> specs[1..][k - 1] == specs[k];
      specs[0].maxUnits + TotalCapacity(specs[1..])
  }

  /** The running minimum is the least of `best` and the candidates, and is
      attained by one of them. */
  lemma {:induction false} BestOverIsLeast(specs: seq<PlantSpec>, index: nat, remaining: int, us: seq<int>, best: Option<real>)
    requires index < |specs|
    ensures var m := BestOver(specs, index, remaining, us, best);
      && (m.Some? <==> best.Some? || exists k :: 0 <= k < |us| && Candidate(specs, index, remaining, us[k]).Some?)
      && (m.Some? ==> m == best || exists k :: 0 <= k < |us| && Candidate(specs, index, remaining, us[k]) == m)
      && (best.Some? ==> m.Some? && m.value <= best.value)
      && (forall k :: 0 <= k < |us| && Candidate(specs, index, remaining, us[k]).Some? ==>
            m.Some? && m.value <= Candidate(specs, index, remaining, us[k]).value)
    decreases |us|
  {
    if us != [] {
      var candidate := Candidate(specs, index, remaining, us[0]);
      var next := if Less(candidate, best) then candidate else best;
      BestOverIsLeast(specs, index, remaining, us[1..], next);
      var m := BestOver(specs, index, remaining, us, best);
      assert m == BestOver(specs, index, remaining, us[1..], next);
      forall k | 1 <= k < |us|
        ensures us[k] == us[1..][k - 1]
      {
      }
      if m.Some? && m != best && m == next {
        assert Candidate(specs, index, remaining, us[0]) == m;
      }
      if m.Some? && m != next {
        var k' :| 0 <= k' < |us[1..]| && Candidate(specs, index, remaining, us[1..][k']) == m;
        assert Candidate(specs, index, remaining, us[k' + 1]) == m;
      }
      if !best.Some? && !(exists k :: 0 <= k < |us| && Candidate(specs, index, remaining, us[k]).Some?) {
        assert !candidate.Some?;
      }
    }
  }

  /** The boundary cases: a negative load left is infeasible, and past the
      last spec only an exactly served load costs nothing. */
  lemma MinCostBoundaries(specs: seq<PlantSpec>, index: nat, remaining: int)
    requires index <= |specs|
    ensures remaining < 0 ==> MinCost(specs, index, remaining).None?
    ensures index == |specs| && remaining == 0 ==> MinCost(specs, index, remaining) == Some(0.0)
    ensures index == |specs| && remaining != 0 ==> MinCost(specs, index, remaining).None?
  {
  }

  /** `MinCost` at a spec is the least candidate cost over the admissible
      counts, and some admissible count attains it. */
  lemma MinCostIsLeastCandidate(specs: seq<PlantSpec>, index: nat, remaining: int)
    requires index < |specs|
    ensures MinCost(specs, index, remaining).Some? <==>
      exists u :: Admissible(specs[index], remaining, u) && Candidate(specs, index, remaining, u).Some?
    ensures MinCost(specs, index, remaining).Some? ==>
      exists u :: Admissible(specs[index], remaining, u) && Candidate(specs, index, remaining, u) == MinCost(specs, index, remaining)
    ensures forall u :: Admissible(specs[index], remaining, u) && Candidate(specs, index, remaining, u).Some? ==>
      MinCost(specs, index, remaining).Some?
      && MinCost(specs, index, remaining).value <= Candidate(specs, index, remaining, u).value
  {
    var us := FeasibleUnits(specs[index], remaining);
    BestOverIsLeast(specs, index, remaining, us, None);
    FeasibleUnitsAreAdmissible(specs[index], remaining);
    if MinCost(specs, index, remaining).Some? {
      var k :| 0 <= k < |us| && Candidate(specs, index, remaining, us[k]) == MinCost(specs, index, remaining);
      assert Admissible(specs[index], remaining, us[k]);
    }
    forall u | Admissible(specs[index], remaining, u) && Candidate(specs, index, remaining, u).Some?
      ensures MinCost(specs, index, remaining).Some?
      ensures MinCost(specs, index, remaining).value <= Candidate(specs, index, remaining, u).value
    {
      assert u in us;
      var k :| 0 <= k < |us| && us[k] == u;
    }
  }

  /** Optimality: every feasible allocation costs at least `MinCost`, which
      therefore exists whenever such an allocation does. */
  lemma {:induction false} MinCostIsLowerBound(specs: seq<PlantSpec>, index: nat, remaining: int, a: seq<int>)
    requires index <= |specs|
    requires FeasibleFrom(specs, index, remaining, a)
    ensures MinCost(specs, index, remaining).Some?
    ensures MinCost(specs, index, remaining).value <= Cost(specs, index, a)
    decreases |specs| - index
  {
    if index < |specs| {
      MinCostIsLowerBound(specs, index + 1, remaining - a[0], a[1..]);
      MinCostIsLeastCandidate(specs, index, remaining);
      assert Candidate(specs, index, remaining, a[0]).Some?;
    }
  }

  lemma MinCostIsLowerBoundForAll(specs: seq<PlantSpec>, index: nat, remaining: int)
    requires index <= |specs|
    ensures forall a :: FeasibleFrom(specs, index, remaining, a) ==>
      MinCost(specs, index, remaining).Some? && MinCost(specs, index, remaining).value <= Cost(specs, index, a)
  {
    forall a | FeasibleFrom(specs, index, remaining, a)
      ensures MinCost(specs, index, remaining).Some? && MinCost(specs, index, remaining).value <= Cost(specs, index, a)
    {
      MinCostIsLowerBound(specs, index, remaining, a);
    }
  }

  /** A feasible allocation serves exactly the load, and gives every spec
      either nothing or a count inside its operating envelope. */
  lemma {:induction false} FeasibleMeetsLoad(specs: seq<PlantSpec>, index: nat, remaining: int, a: seq<int>)
    requires index <= |specs|
    requires FeasibleFrom(specs, index, remaining, a)
    ensures Sum(a) == remaining
    ensures forall k :: 0 <= k < |a| ==>
      a[k] == 0 || MaxInt(specs[index + k].minUnits, 1) <= a[k] <= specs[index + k].maxUnits
    decreases |specs| - index
  {
    if index < |specs| {
      AdmissibleBounds(specs[index], remaining, a[0]);
      FeasibleMeetsLoad(specs, index + 1, remaining - a[0], a[1..]);
      forall k | 1 <= k < |a|
        ensures a[k] == a[1..][k - 1]
      {
      }
    }
  }

  /** The capacity pre-check never refuses a load that could be served. */
  lemma {:induction false} CapacityCheckIsSound(specs: seq<PlantSpec>, index: nat, remaining: int, a: seq<int>)
    requires index <= |specs|
    requires forall k :: 0 <= k < |specs| ==> specs[k].maxUnits >= 0
    requires FeasibleFrom(specs, index, remaining, a)
    ensures remaining <= TotalCapacity(specs[index..])
    decreases |specs| - index
  {
    if index < |specs| {
      CapacityCheckIsSound(specs, index + 1, remaining - a[0], a[1..]);
      assert specs[index..][1..] == specs[index + 1..];
    }
  }

  /** No count below `u` among those tried attains the optimum. */
  ghost predicate NoSmallerAttains(specs: seq<PlantSpec>, index: nat, remaining: int, u: int)
    requires index < |specs|
  {
    forall v :: Admissible(specs[index], remaining, v) && v < u ==>
      Candidate(specs, index, remaining, v) != MinCost(specs, index, remaining)
  }

  /** `u` is the smallest count the solver tries for spec `index` that
      attains `MinCost(index, remaining)`. */
  ghost predicate SmallestAttaining(specs: seq<PlantSpec>, index: nat, remaining: int, u: int)
    requires index < |specs|
  {
    && MinCost(specs, index, remaining).Some?
    && Admissible(specs[index], remaining, u)
    && Candidate(specs, index, remaining, u) == MinCost(specs, index, remaining)
    && NoSmallerAttains(specs, index, remaining, u)
  }

  /** Prepending an admissible count to a feasible allocation of the rest. */
  lemma {:induction false} ExtendFeasible(specs: seq<PlantSpec>, index: nat, remaining: int, u: int, rest: seq<int>)
    requires index < |specs| && remaining >= 0
    requires Admissible(specs[index], remaining, u)
    requires FeasibleFrom(specs, index + 1, remaining - u, rest)
    ensures FeasibleFrom(specs, index, remaining, [u] + rest)
    ensures Cost(specs, index, [u] + rest) == u as real * specs[index].costPerUnit + Cost(specs, index + 1, rest)
  {
    var a := [u] + rest;
    assert a[0] == u && a[1..] == rest;
  }

  /** What one committed step contributes: an admissible count whose own
      cost plus the optimum for the rest is the optimum here. */
  lemma StepFacts(specs: seq<PlantSpec>, i: nat, r: int, u: int)
    requires i < |specs| && SmallestAttaining(specs, i, r, u)
    ensures r >= 0 && Admissible(specs[i], r, u)
    ensures MinCost(specs, i + 1, r - u).Some?
    ensures MinCost(specs, i, r).Some?
    ensures MinCost(specs, i, r).value == u as real * specs[i].costPerUnit + MinCost(specs, i + 1, r - u).value
  {
  }

  /** `a` is the allocation the reconstruction commits to from spec `index`
      on: at each step the smallest count attaining the optimum for the
      load still left. */
  ghost predicate SmallestSteps(specs: seq<PlantSpec>, index: nat, remaining: int, a: seq<int>)
    requires index <= |specs|
    decreases |specs| - index
  {
    && |a| == |specs| - index
    && (index < |specs| ==>
          && SmallestAttaining(specs, index, remaining, a[0])
          && SmallestSteps(specs, index + 1, remaining - a[0], a[1..]))
  }

  /** One step of reconstruction: tries the counts in order and commits to
      the first whose candidate cost matches the optimum. Such a count always
      exists, so the source's fallback to 0 is never taken. */
  method ChooseUnits(specs: seq<PlantSpec>, index: nat, remaining: int) returns (u: int)
    requires index < |specs|
    requires MinCost(specs, index, remaining).Some?
    ensures SmallestAttaining(specs, index, remaining, u)
  {
    var us := FeasibleUnits(specs[index], remaining);
    var target := MinCost(specs, index, remaining);
    SomeCountAttains(specs, index, remaining);
    var j := 0;
    while j < |us| && Candidate(specs, index, remaining, us[j]) != target
      invariant 0 <= j <= |us|
      invariant forall k :: 0 <= k < j ==> Candidate(specs, index, remaining, us[k]) != target
    {
      j := j + 1;
    }
    if j == |us| {
      assert false;
    }
    u := us[j];
    FirstAttainingIsSmallest(specs, index, remaining, j);
  }

  /** Some count the solver tries attains the optimum. */
  lemma SomeCountAttains(specs: seq<PlantSpec>, index: nat, remaining: int)
    requires index < |specs|
    requires MinCost(specs, index, remaining).Some?
    ensures var us := FeasibleUnits(specs[index], remaining);
      exists k :: 0 <= k < |us| && Candidate(specs, index, remaining, us[k]) == MinCost(specs, index, remaining)
  {
    var us := FeasibleUnits(specs[index], remaining);
    MinCostIsLeastCandidate(specs, index, remaining);
    FeasibleUnitsAreAdmissible(specs[index], remaining);
    var u :| Admissible(specs[index], remaining, u) && Candidate(specs, index, remaining, u) == MinCost(specs, index, remaining);
    assert u in us;
  }

  /** The first count in the solver's order that attains the optimum is the
      smallest admissible count that does. */
  lemma FirstAttainingIsSmallest(specs: seq<PlantSpec>, index: nat, remaining: int, j: nat)
    requires index < |specs|
    requires MinCost(specs, index, remaining).Some?
    requires j < |FeasibleUnits(specs[index], remaining)|
    requires forall k :: 0 <= k < j ==>
      Candidate(specs, index, remaining, FeasibleUnits(specs[index], remaining)[k]) != MinCost(specs, index, remaining)
    requires Candidate(specs, index, remaining, FeasibleUnits(specs[index], remaining)[j]) == MinCost(specs, index, remaining)
    ensures SmallestAttaining(specs, index, remaining, FeasibleUnits(specs[index], remaining)[j])
  {
    var us := FeasibleUnits(specs[index], remaining);
    var u := us[j];
    FeasibleUnitsAreAdmissible(specs[index], remaining);
    assert Admissible(specs[index], remaining, u) by {
      assert u in us;
    }
    forall v | Admissible(specs[index], remaining, v) && v < u
      ensures Candidate(specs, index, remaining, v) != MinCost(specs, index, remaining)
    {
      assert v in us;
      var k :| 0 <= k < |us| && us[k] == v;
      assert k < j;
    }
  }

  /** The reconstruction pass: walks the specs in merit order from `index`,
      committing each to the smallest count that attains the optimum for the
      load still left. The result is a feasible allocation that serves the
      load and costs exactly the optimum. */
  method Reconstruct(specs: seq<PlantSpec>, index: nat, remaining: int) returns (units: seq<int>)
    requires index <= |specs|
    requires MinCost(specs, index, remaining).Some?
    ensures SmallestSteps(specs, index, remaining, units)
    ensures FeasibleFrom(specs, index, remaining, units)
    ensures Cost(specs, index, units) == MinCost(specs, index, remaining).value
    decreases |specs| - index
  {
    if index == |specs| {
      return [];
    }
    var u := ChooseUnits(specs, index, remaining);
    StepFacts(specs, index, remaining, u);
    var rest := Reconstruct(specs, index + 1, remaining - u);
    ExtendFeasible(specs, index, remaining, u, rest);
    units := [u] + rest;
    assert units[1..] == rest;
  }

  /** Solving: fails when no feasible allocation exists; otherwise returns
      the reconstructed allocation, which serves the load at the least cost
      among all feasible allocations. */
  method SolveDispatch(specs: seq<PlantSpec>, loadUnits: int) returns (r: Result<seq<int>, DispatchError>)
    ensures r.Failure? ==> forall a :: !FeasibleFrom(specs, 0, loadUnits, a)
    ensures r.Success? ==> exists a :: FeasibleFrom(specs, 0, loadUnits, a)
    ensures r.Failure? ==> r.error == DispatchComputationError(UnsatisfiableLoad)
    ensures r.Success? ==>
      && MinCost(specs, 0, loadUnits).Some?
      && FeasibleFrom(specs, 0, loadUnits, r.value)
      && Sum(r.value) == loadUnits
      && Cost(specs, 0, r.value) == MinCost(specs, 0, loadUnits).value
      && (forall a :: FeasibleFrom(specs, 0, loadUnits, a) ==> Cost(specs, 0, r.value) <= Cost(specs, 0, a))
    ensures r.Success? ==> SmallestSteps(specs, 0, loadUnits, r.value)
  {
    MinCostIsLowerBoundForAll(specs, 0, loadUnits);
    if MinCost(specs, 0, loadUnits).None? {
      return Failure(DispatchComputationError(UnsatisfiableLoad));
    }
    var units := Reconstruct(specs, 0, loadUnits);
    FeasibleMeetsLoad(specs, 0, loadUnits, units);
    assert FeasibleFrom(specs, 0, loadUnits, units);
    r := Success(units);
  }

  /** Order matters because no plant may be skipped while it has capacity
      and load remains: a cheap small plant that must run blocks a large one
      whose minimum is the whole load, although idling the small plant and
      running the large one would serve it inside both envelopes. */
  lemma NoOffChoice()
    ensures var specs := [PlantSpec(0, "small", Gas, 0, 1, 1.0), PlantSpec(1, "large", Gas, 2, 2, 2.0)];
      && MinCost(specs, 0, 2).None?
      && !Admissible(specs[0], 2, 0)
      && specs[1].minUnits <= 2 <= specs[1].maxUnits
  {
  }
}
