/** Fuel of 2019 day 1, second version: fuel has mass too, so the fuel for a module is its
    simple fuel plus the fuel for that fuel, and so on until the extra fuel would be zero or
    negative. */
module RocketEquation {
  import opened Outcomes
  import opened Text
  import FuelCounter

  /** `calc_fuel`: nothing once a third of the mass is at most 2, otherwise the simple fuel
      `f` plus the fuel for `f`. It needs at most half the mass. */
  function CalcFuel(mass: nat): (fuel: nat)
    ensures mass < 9 ==> fuel == 0
    ensures 2 * fuel <= mass
    decreases mass
  {
    var tmp := mass / 3;
    if tmp <= 2 then 0
    else
      var f := tmp - 2;
      f + CalcFuel(f)
  }

  /** For a mass of at least 9 the fuel covers at least the simple fuel, and for masses whose
      simple fuel is below 9 it is exactly that. */
  lemma CalcFuelAtLeastSimple(mass: nat)
    requires mass >= 9
    ensures CalcFuel(mass) >= FuelCounter.CalcFuel(mass)
    ensures mass < 33 ==> CalcFuel(mass) == FuelCounter.CalcFuel(mass)
  {
  }

  /** More mass never needs less fuel. */
  lemma {:induction false} CalcFuelMonotone(a: nat, b: nat)
    requires a <= b
    ensures CalcFuel(a) <= CalcFuel(b)
    decreases b
  {
    if a / 3 > 2 {
      assert a / 3 <= b / 3;
      CalcFuelMonotone(a / 3 - 2, b / 3 - 2);
    }
  }

  /** `calc_fuel` of every mass, in order. */
  function Fuels(masses: seq<nat>): (fuels: seq<nat>)
    ensures |fuels| == |masses| && forall i :: 0 <= i < |masses| ==> fuels[i] == CalcFuel(masses[i])
  {
    if masses == [] then [] else [CalcFuel(masses[0])] + Fuels(masses[1..])
  }

  /** Over modules of mass at least 9, the total with fuel for fuel is at least the simple
      total. */
  lemma {:induction false} RealAtLeastSimple(masses: seq<nat>)
    requires FuelCounter.AllAtLeast(masses, 9)
    ensures FuelCounter.Sum(Fuels(masses)) >= FuelCounter.Sum(FuelCounter.Fuels(masses))
  {
    if masses != [] {
      RealAtLeastSimple(masses[1..]);
      CalcFuelAtLeastSimple(masses[0]);
    }
  }

  /** The real total is at most half the total mass. */
  lemma {:induction false} RealAtMostHalf(masses: seq<nat>)
    ensures 2 * FuelCounter.Sum(Fuels(masses)) <= FuelCounter.Sum(masses)
  {
    if masses != [] {
      RealAtMostHalf(masses[1..]);
    }
  }

  /** The total with fuel for fuel of `main`: `None` where the `u32` sum overflows. */
  function RealTotal(input: string): (r: Option<nat>)
    ensures r.Some? ==> FuelCounter.Masses(input).Some? && r.value <= U32Max
    ensures r.Some? ==> r.value == FuelCounter.Sum(Fuels(FuelCounter.Masses(input).value))
    ensures r.Some? ==> 2 * r.value <= FuelCounter.Sum(FuelCounter.Masses(input).value)
    ensures FuelCounter.Masses(input).Some? && r.None? ==>
      FuelCounter.Sum(Fuels(FuelCounter.Masses(input).value)) > U32Max
  {
    var masses :- FuelCounter.Masses(input);
    var total := FuelCounter.Sum(Fuels(masses));
    RealAtMostHalf(masses);
    if total <= U32Max then Some(total) else None
  }
}
