/** The request payload and the input-validity predicate it carries:
    the field bounds of the request models and the `pmin <= pmax` check. */
module Payload {
  import opened Wrappers

  /** The three supported plant categories. */
  datatype PowerPlantType = Gas | Turbo | Wind

  /** The wire name of each category. */
  function TypeName(t: PowerPlantType): string {
    match t
    case Gas => "gasfired"
    case Turbo => "turbojet"
    case Wind => "windturbine"
  }

  /** Reading a category from its wire name; any other string is refused. */
  function ParsePlantType(s: string): (t: Option<PowerPlantType>)
    ensures t.Some? ==> TypeName(t.value) == s
    ensures t.None? <==> s != "gasfired" && s != "turbojet" && s != "windturbine"
  {
    if s == "gasfired" then Some(Gas)
    else if s == "turbojet" then Some(Turbo)
    else if s == "windturbine" then Some(Wind)
    else None
  }

  /** Every category is read back from its own wire name. */
  lemma ParseTypeName(t: PowerPlantType)
    ensures ParsePlantType(TypeName(t)) == Some(t)
  {
  }

  /** Prices in euro per MWh (fuels) or per ton (CO2), wind availability in %. */
  datatype FuelBreakdown = FuelBreakdown(
    gasEuroMwh: real,
    kerosineEuroMwh: real,
    co2EuroTon: real,
    windPercentage: real)

  /** One plant of the fleet; `kind` is the plant's category. */
  datatype PowerPlant = PowerPlant(
    name: string,
    kind: PowerPlantType,
    efficiency: real,
    pmin: real,
    pmax: real)

  datatype ProductionPlanRequest = ProductionPlanRequest(
    load: real,
    fuels: FuelBreakdown,
    powerplants: seq<PowerPlant>)

  predicate ValidFuels(f: FuelBreakdown) {
    && f.gasEuroMwh > 0.0
    && f.kerosineEuroMwh > 0.0
    && f.co2EuroTon >= 0.0
    && 0.0 <= f.windPercentage <= 100.0
  }

  predicate ValidPlant(p: PowerPlant) {
    && p.efficiency > 0.0
    && p.pmin >= 0.0
    && p.pmax > 0.0
    && p.pmin <= p.pmax
  }

  predicate ValidFleet(plants: seq<PowerPlant>) {
    forall k :: 0 <= k < |plants| ==> ValidPlant(plants[k])
  }

  predicate ValidRequest(r: ProductionPlanRequest) {
    && r.load > 0.0
    && ValidFuels(r.fuels)
    && |r.powerplants| >= 1
    && ValidFleet(r.powerplants)
  }

  /** One violated constraint; plant faults carry the plant's position. */
  datatype Fault =
    | GasPriceNotPositive
    | KerosinePriceNotPositive
    | Co2PriceNegative
    | WindPercentageOutOfRange
    | EfficiencyNotPositive(plant: nat)
    | PminNegative(plant: nat)
    | PmaxNotPositive(plant: nat)
    | PminExceedsPmax(plant: nat)
    | LoadNotPositive
    | NoPowerplants

  /** True when `e` reports a problem of one plant. */
  predicate AboutPlant(e: Fault) {
    e.EfficiencyNotPositive? || e.PminNegative? || e.PmaxNotPositive? || e.PminExceedsPmax?
  }

  /** True when `e` reports a problem of the fuel breakdown. */
  predicate AboutFuels(e: Fault) {
    e.GasPriceNotPositive? || e.KerosinePriceNotPositive? || e.Co2PriceNegative? || e.WindPercentageOutOfRange?
  }

  /** The field errors of the fuel breakdown, all of them. */
  function FuelFaults(f: FuelBreakdown): (faults: seq<Fault>)
    ensures faults == [] <==> ValidFuels(f)
    ensures GasPriceNotPositive in faults <==> f.gasEuroMwh <= 0.0
    ensures KerosinePriceNotPositive in faults <==> f.kerosineEuroMwh <= 0.0
    ensures Co2PriceNegative in faults <==> f.co2EuroTon < 0.0
    ensures WindPercentageOutOfRange in faults <==> !(0.0 <= f.windPercentage <= 100.0)
    ensures forall e :: e in faults ==> AboutFuels(e)
  {
    (if f.gasEuroMwh > 0.0 then [] else [GasPriceNotPositive])
    + (if f.kerosineEuroMwh > 0.0 then [] else [KerosinePriceNotPositive])
    + (if f.co2EuroTon >= 0.0 then [] else [Co2PriceNegative])
    + (if 0.0 <= f.windPercentage <= 100.0 then [] else [WindPercentageOutOfRange])
  }

  /** The errors of plant number `k`: its field errors, or, when the fields
      are well-formed, the bounds check that runs after them. */
  function PlantFaults(k: nat, p: PowerPlant): (faults: seq<Fault>)
    ensures faults == [] <==> ValidPlant(p)
    ensures EfficiencyNotPositive(k) in faults <==> p.efficiency <= 0.0
    ensures PminNegative(k) in faults <==> p.pmin < 0.0
    ensures PmaxNotPositive(k) in faults <==> p.pmax <= 0.0
    ensures PminExceedsPmax(k) in faults <==>
      p.efficiency > 0.0 && p.pmin >= 0.0 && p.pmax > 0.0 && p.pmin > p.pmax
    ensures forall e :: e in faults ==> AboutPlant(e) && e.plant == k
  {
    var fieldFaults :=
      (if p.efficiency > 0.0 then [] else [EfficiencyNotPositive(k)])
      + (if p.pmin >= 0.0 then [] else [PminNegative(k)])
      + (if p.pmax > 0.0 then [] else [PmaxNotPositive(k)]);
    if fieldFaults != [] then fieldFaults
    else if p.pmin > p.pmax then [PminExceedsPmax(k)]
    else []
  }

  /** The errors of the plants from position `from` onwards. */
  function FleetFaults(plants: seq<PowerPlant>, from: nat): (faults: seq<Fault>)
    requires from <= |plants|
    ensures faults == [] <==> forall k :: from <= k < |plants| ==> ValidPlant(plants[k])
    ensures forall e :: e in faults ==>
      AboutPlant(e) && from <= e.plant < |plants| && e in PlantFaults(e.plant, plants[e.plant])
    ensures forall k, e :: from <= k < |plants| && e in PlantFaults(k, plants[k]) ==> e in faults
    decreases |plants| - from
  {
    if from == |plants| then []
    else
      var head := PlantFaults(from, plants[from]);
      var tail := FleetFaults(plants, from + 1);
      assert forall e :: e in head + tail <==> e in head || e in tail by {
        forall e
          ensures e in head + tail <==> e in head || e in tail
        {
          InConcat(head, tail, e);
        }
      }
      assert forall k, e :: from <= k < |plants| && e in PlantFaults(k, plants[k]) ==> e in head + tail by {
        forall k, e | from <= k < |plants| && e in PlantFaults(k, plants[k])
          ensures e in head + tail
        {
          if k > from {
            assert e in tail;
          }
        }
      }
      head + tail
  }

  /** Every fault of a request, in the order they are checked. */
  function RequestFaults(r: ProductionPlanRequest): seq<Fault> {
    (if r.load > 0.0 then [] else [LoadNotPositive])
    + FuelFaults(r.fuels)
    + (if |r.powerplants| >= 1 then [] else [NoPowerplants])
    + FleetFaults(r.powerplants, 0)
  }

  /** A fault of the request is a bad load, a fuel fault, an empty fleet
      or a plant fault. */
  lemma RequestFaultsMembership(r: ProductionPlanRequest)
    ensures forall e :: e in RequestFaults(r) <==>
      || (e == LoadNotPositive && r.load <= 0.0)
      || e in FuelFaults(r.fuels)
      || (e == NoPowerplants && |r.powerplants| == 0)
      || e in FleetFaults(r.powerplants, 0)
  {
    var loadFaults := if r.load > 0.0 then [] else [LoadNotPositive];
    var fuelFaults := FuelFaults(r.fuels);
    var sizeFaults := if |r.powerplants| >= 1 then [] else [NoPowerplants];
    var fleetFaults := FleetFaults(r.powerplants, 0);
    forall e
      ensures e in RequestFaults(r) <==> e in loadFaults || e in fuelFaults || e in sizeFaults || e in fleetFaults
    {
      InConcat(loadFaults, fuelFaults, e);
      InConcat(loadFaults + fuelFaults, sizeFaults, e);
      InConcat(loadFaults + fuelFaults + sizeFaults, fleetFaults, e);
    }
  }

  /** A fault is in a concatenation exactly when it is in one of its parts. */
  lemma InConcat(a: seq<Fault>, b: seq<Fault>, e: Fault)
    ensures e in a + b <==> e in a || e in b
  {
  }

  /** The load and fleet-size faults are reported by neither the fuels nor
      the plants. */
  lemma RequestFaultsSeparate(r: ProductionPlanRequest)
    ensures LoadNotPositive !in FuelFaults(r.fuels) && NoPowerplants !in FuelFaults(r.fuels)
    ensures LoadNotPositive !in FleetFaults(r.powerplants, 0) && NoPowerplants !in FleetFaults(r.powerplants, 0)
  {
  }

  /** A request has no fault exactly when it is valid. */
  lemma RequestFaultsEmpty(r: ProductionPlanRequest)
    ensures RequestFaults(r) == [] <==> ValidRequest(r)
  {
    assert FleetFaults(r.powerplants, 0) == [] <==> ValidFleet(r.powerplants);
  }

  /** Validation of a whole request: every violated bound is reported. */
  function ValidateRequest(r: ProductionPlanRequest): (v: Result<ProductionPlanRequest, seq<Fault>>)
    ensures v.Success? <==> ValidRequest(r)
    ensures v.Success? ==> v.value == r
    ensures v.Failure? ==> v.error != []
    ensures v.Failure? ==> (LoadNotPositive in v.error <==> r.load <= 0.0)
    ensures v.Failure? ==> (NoPowerplants in v.error <==> |r.powerplants| == 0)
    ensures v.Failure? ==> forall e :: e in FuelFaults(r.fuels) ==> e in v.error
    ensures v.Failure? ==> forall e :: e in FleetFaults(r.powerplants, 0) ==> e in v.error
    ensures v.Failure? ==> forall e :: e in v.error ==>
      e == LoadNotPositive || e == NoPowerplants || e in FuelFaults(r.fuels) || e in FleetFaults(r.powerplants, 0)
  {
    var faults := RequestFaults(r);
    RequestFaultsEmpty(r);
    RequestFaultsMembership(r);
    RequestFaultsSeparate(r);
    if faults == [] then Success(r) else Failure(faults)
  }
}
