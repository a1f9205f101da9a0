/** The 0.1 MW integer lattice on which the solver works. */
module Units {

  /** Number of lattice units per MW. */
  const UNIT_SCALE: int := 10

  /** A power value that lies exactly on the lattice. */
  ghost predicate OnLattice(mw: real) {
    (mw * UNIT_SCALE as real).Floor as real == mw * UNIT_SCALE as real
  }

  /** MW to units, rounding to the nearest unit; a value half-way between two
      units goes up (the effect of the small positive bias the source adds
      before rounding). */
  function ToUnits(mw: real): (u: int)
    ensures (u as real) - 0.5 <= mw * UNIT_SCALE as real < (u as real) + 0.5
    ensures mw >= 0.0 ==> u >= 0
  {
    (mw * UNIT_SCALE as real + 0.5).Floor
  }

  /** Units back to MW, exactly. */
  function FromUnits(u: int): (mw: real)
    ensures mw * UNIT_SCALE as real == u as real
    ensures u >= 0 ==> mw >= 0.0
    ensures OnLattice(mw)
  {
    u as real / UNIT_SCALE as real
  }

  /** Every lattice unit count survives a trip through MW and back. */
  lemma ToUnitsFromUnits(u: int)
    ensures ToUnits(FromUnits(u)) == u
  {
  }

  /** Every value on the lattice survives a trip through units and back. */
  lemma FromUnitsToUnits(mw: real)
    requires OnLattice(mw)
    ensures FromUnits(ToUnits(mw)) == mw
  {
    var n := (mw * UNIT_SCALE as real).Floor;
    var u := ToUnits(mw);
    assert (u as real) - 0.5 <= n as real < (u as real) + 0.5;
    assert u == n;
  }

  /** Off the lattice, the trip moves a value by at most half a unit. */
  lemma FromUnitsToUnitsNear(mw: real)
    ensures mw - 0.05 < FromUnits(ToUnits(mw)) <= mw + 0.05
  {
  }

  /** Rounding preserves order, so `pmin <= pmax` survives conversion. */
  lemma ToUnitsMonotone(a: real, b: real)
    requires a <= b
    ensures ToUnits(a) <= ToUnits(b)
  {
  }
}
