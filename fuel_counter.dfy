/** Fuel of 2019 day 1, first version: each module needs a third of its mass, rounded down,
    less two, and the total is the sum over the whitespace-separated masses of the input. */
module FuelCounter {
  import opened Outcomes
  import opened Text

  /** `calc_fuel`: `mass / 3 - 2` in `u32`, which underflows (and panics) below a mass of 6.
      Two more than the fuel is the mass divided by three, rounded down. */
  function CalcFuel(mass: nat): (fuel: nat)
    requires 6 <= mass
    ensures 3 * (fuel + 2) <= mass < 3 * (fuel + 3)
  {
    mass / 3 - 2
  }

  /** More mass never needs less fuel. */
  lemma CalcFuelMonotone(a: nat, b: nat)
    requires 6 <= a <= b
    ensures CalcFuel(a) <= CalcFuel(b)
  {
  }

  /** Fuel never exceeds a third of the mass. */
  lemma CalcFuelThird(mass: nat)
    requires 6 <= mass
    ensures 3 * CalcFuel(mass) <= mass - 6
  {
  }

  function Sum(xs: seq<nat>): (total: nat)
    ensures forall i :: 0 <= i < |xs| ==> xs[i] <= total
  {
    if xs == [] then 0 else xs[0] + Sum(xs[1..])
  }

  lemma {:induction false} SumAppend(xs: seq<nat>, ys: seq<nat>)
    ensures Sum(xs + ys) == Sum(xs) + Sum(ys)
  {
    if xs != [] {
      assert (xs + ys)[1..] == xs[1..] + ys;
      SumAppend(xs[1..], ys);
    } else {
      assert xs + ys == ys;
    }
  }

  predicate AllAtLeast(masses: seq<nat>, lo: nat)
  {
    forall i :: 0 <= i < |masses| ==> masses[i] >= lo
  }

  /** `calc_fuel` of every mass, in order. */
  function Fuels(masses: seq<nat>): (fuels: seq<nat>)
    requires AllAtLeast(masses, 6)
    ensures |fuels| == |masses| && forall i :: 0 <= i < |masses| ==> fuels[i] == CalcFuel(masses[i])
  {
    if masses == [] then [] else [CalcFuel(masses[0])] + Fuels(masses[1..])
  }

  /** The fuel of several modules together is at most a third of their mass, less two per
      module. */
  lemma {:induction false} FuelsThird(masses: seq<nat>)
    requires AllAtLeast(masses, 6)
    ensures 3 * Sum(Fuels(masses)) + 6 * |masses| <= Sum(masses)
  {
    if masses != [] {
      FuelsThird(masses[1..]);
      CalcFuelThird(masses[0]);
    }
  }

  /** The masses of the input: every whitespace-separated word read as a `u32`; `None` where
      an `unwrap` panics. */
  function Masses(input: string): (r: Option<seq<nat>>)
    ensures r.Some? ==> |r.value| == |Words(input)|
    ensures r.Some? ==> forall i :: 0 <= i < |r.value| ==> ParseU32(Words(input)[i]) == Some(r.value[i] as int)
  {
    ParseU32s(Words(input))
  }

  /** `main`: the sum of the fuels, or `None` where a mass below 6 underflows `calc_fuel` or the
      `u32` sum overflows (the addends are never negative, so some partial sum overflows
      exactly when the whole does). */
  function TotalFuel(input: string): (r: Option<nat>)
    ensures r.Some? ==> Masses(input).Some? && AllAtLeast(Masses(input).value, 6)
    ensures r.Some? ==> r.value <= U32Max && r.value == Sum(Fuels(Masses(input).value))
    ensures r.Some? ==> 3 * r.value + 6 * |Masses(input).value| <= Sum(Masses(input).value)
    ensures Masses(input).Some? && AllAtLeast(Masses(input).value, 6) && r.None? ==>
      Sum(Fuels(Masses(input).value)) > U32Max
  {
    var masses :- Masses(input);
    if !AllAtLeast(masses, 6) then None
    else
      var total := Sum(Fuels(masses));
      FuelsThird(masses);
      if total <= U32Max then Some(total) else None
  }
}
