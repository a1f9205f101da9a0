/** The spec builder: each plant of the request becomes a normalised
    `PlantSpec` on the unit lattice, with its cost per unit. */
module Specs {
  import opened Payload
  import opened Units

  /** Wind power costs nothing to produce. */
  const WIND_MARGINAL_COST: real := 0.0

  /** Tons of CO2 emitted per MWh, by category. */
  function EmissionCoefficient(kind: PowerPlantType): real {
    match kind
    case Gas => 0.3
    case Turbo => 0.3
    case Wind => 0.0
  }

  /** The dispatcher's view of one plant: its position in the request, its
      operating envelope in units and what one unit costs for one hour. */
  datatype PlantSpec = PlantSpec(
    originalIndex: int,
    name: string,
    kind: PowerPlantType,
    minUnits: int,
    maxUnits: int,
    costPerUnit: real)

  /** The most a plant can produce: its `pmax`, scaled by the wind
      availability for wind turbines, never negative. */
  function EffectiveMaxOutput(plant: PowerPlant, fuels: FuelBreakdown): (mw: real)
    ensures mw >= 0.0
    ensures plant.kind != Wind && plant.pmax >= 0.0 ==> mw == plant.pmax
    ensures plant.kind != Wind && plant.pmax < 0.0 ==> mw == 0.0
    ensures plant.kind == Wind && plant.pmax >= 0.0 && fuels.windPercentage >= 0.0 ==>
      mw == plant.pmax * (fuels.windPercentage / 100.0)
    ensures plant.kind == Wind && plant.pmax >= 0.0 && fuels.windPercentage <= 0.0 ==> mw == 0.0
    ensures ValidPlant(plant) && ValidFuels(fuels) ==> mw <= plant.pmax
  {
    var maxOutput :=
      if plant.kind == Wind then plant.pmax * (fuels.windPercentage / 100.0)
      else plant.pmax;
    assert ValidPlant(plant) && ValidFuels(fuels) ==> maxOutput <= plant.pmax by {
      if plant.kind == Wind && ValidPlant(plant) && ValidFuels(fuels) {
        ScaledDown(plant.pmax, fuels.windPercentage / 100.0);
      }
    }
    if 0.0 >= maxOutput then 0.0 else maxOutput
  }

  /** A wind turbine's maximum grows with the wind availability and reaches
      its `pmax` at full availability. */
  lemma WindMaxFollowsAvailability(plant: PowerPlant, calm: FuelBreakdown, windy: FuelBreakdown)
    requires plant.kind == Wind && ValidPlant(plant)
    requires ValidFuels(calm) && ValidFuels(windy)
    requires calm.windPercentage <= windy.windPercentage
    ensures EffectiveMaxOutput(plant, calm) <= EffectiveMaxOutput(plant, windy)
    ensures windy.windPercentage == 100.0 ==> EffectiveMaxOutput(plant, windy) == plant.pmax
  {
    var f := calm.windPercentage / 100.0;
    var g := windy.windPercentage / 100.0;
    var lo, hi := EffectiveMaxOutput(plant, calm), EffectiveMaxOutput(plant, windy);
    assert lo == plant.pmax * f && hi == plant.pmax * g;
    assert hi - lo == plant.pmax * (g - f);
    NonNegativeProduct(plant.pmax, g - f);
  }

  /** Scaling a non-negative value by a non-negative factor gives a
      non-negative result. */
  lemma NonNegativeProduct(a: real, f: real)
    requires a >= 0.0 && f >= 0.0
    ensures a * f >= 0.0
  {
  }

  /** Scaling by a fraction in [0, 1] never enlarges a non-negative value. */
  lemma ScaledDown(a: real, f: real)
    requires a >= 0.0 && 0.0 <= f <= 1.0
    ensures a * f <= a
  {
  }

  /** Cost in euro of one MWh from the plant: the fuel it burns divided by
      its efficiency, plus the emission cost; nothing for wind. */
  function MarginalCost(plant: PowerPlant, fuels: FuelBreakdown): (c: real)
    requires plant.efficiency > 0.0
    ensures ValidFuels(fuels) ==> c >= 0.0
    ensures ValidFuels(fuels) ==> (c == 0.0 <==> plant.kind == Wind)
  {
    if plant.kind == Wind then WIND_MARGINAL_COST
    else
      var fuelPrice := if plant.kind == Gas then fuels.gasEuroMwh else fuels.kerosineEuroMwh;
      var co2Component := EmissionCoefficient(plant.kind) * fuels.co2EuroTon;
      fuelPrice / plant.efficiency + co2Component
  }

  /** The spec of the plant at position `index`: its envelope in units and
      the cost of one unit. On a valid plant the envelope is well-formed. */
  function BuildSpec(index: int, plant: PowerPlant, fuels: FuelBreakdown): (spec: PlantSpec)
    requires plant.efficiency > 0.0
    ensures spec.originalIndex == index && spec.name == plant.name && spec.kind == plant.kind
    ensures spec.costPerUnit * UNIT_SCALE as real == MarginalCost(plant, fuels)
    ensures ValidPlant(plant) && ValidFuels(fuels) ==>
      0 <= spec.minUnits <= spec.maxUnits <= ToUnits(plant.pmax)
  {
    var minOutput := if plant.kind != Wind then plant.pmin else 0.0;
    var maxOutput := EffectiveMaxOutput(plant, fuels);
    var costPerMwh := MarginalCost(plant, fuels);
    assert ValidPlant(plant) && ValidFuels(fuels) ==>
      0 <= ToUnits(minOutput) <= ToUnits(maxOutput) <= ToUnits(plant.pmax) by {
      if ValidPlant(plant) && ValidFuels(fuels) {
        ToUnitsMonotone(maxOutput, plant.pmax);
        if plant.kind != Wind {
          ToUnitsMonotone(plant.pmin, plant.pmax);
        }
      }
    }
    PlantSpec(
      index,
      plant.name,
      plant.kind,
      ToUnits(minOutput),
      ToUnits(maxOutput),
      costPerMwh / UNIT_SCALE as real)
  }

  /** One spec per plant, in request order. The source never checks that a
      spec's minimum stays below its maximum; on a valid request it does. */
  function BuildSpecs(plants: seq<PowerPlant>, fuels: FuelBreakdown): (specs: seq<PlantSpec>)
    requires ValidFuels(fuels)
    requires ValidFleet(plants)
    ensures |specs| == |plants|
    ensures forall k :: 0 <= k < |specs| ==>
      && specs[k].originalIndex == k
      && specs[k].name == plants[k].name
      && specs[k].kind == plants[k].kind
    ensures forall k :: 0 <= k < |specs| ==>
      && specs[k].minUnits == (if plants[k].kind == Wind then 0 else ToUnits(plants[k].pmin))
      && specs[k].maxUnits == ToUnits(EffectiveMaxOutput(plants[k], fuels))
      && specs[k].costPerUnit * UNIT_SCALE as real == MarginalCost(plants[k], fuels)
    ensures forall k :: 0 <= k < |specs| ==>
      && 0 <= specs[k].minUnits <= specs[k].maxUnits
      && specs[k].maxUnits <= ToUnits(plants[k].pmax)
      && specs[k].costPerUnit >= 0.0
      && (specs[k].costPerUnit == 0.0 <==> specs[k].kind == Wind)
  {
    var specs := seq(|plants|, k requires 0 <= k < |plants| => BuildSpec(k, plants[k], fuels));
    forall k | 0 <= k < |specs|
      ensures 0 <= specs[k].minUnits <= specs[k].maxUnits
      ensures specs[k].maxUnits <= ToUnits(plants[k].pmax)
    {
      assert ValidPlant(plants[k]);
    }
    specs
  }

  /** The combustion formula: one unit costs a tenth of the fuel price over
      the efficiency plus 0.3 times the CO2 price. */
  lemma CombustionCostPerUnit(plants: seq<PowerPlant>, fuels: FuelBreakdown, k: int)
    requires ValidFuels(fuels)
    requires ValidFleet(plants)
    requires 0 <= k < |plants|
    ensures plants[k].efficiency > 0.0
    ensures plants[k].kind == Gas ==>
      BuildSpecs(plants, fuels)[k].costPerUnit
        == (fuels.gasEuroMwh / plants[k].efficiency + 0.3 * fuels.co2EuroTon) / 10.0
    ensures plants[k].kind == Turbo ==>
      BuildSpecs(plants, fuels)[k].costPerUnit
        == (fuels.kerosineEuroMwh / plants[k].efficiency + 0.3 * fuels.co2EuroTon) / 10.0
  {
  }
}
