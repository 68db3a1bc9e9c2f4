/** Moons of 2019 day 12: each step every pair of moons pulls their velocities one unit
    towards each other on every axis, then every moon moves by its velocity. */
module NBody {
  import opened Arithmetic

  datatype Moon = Moon(px: int, py: int, pz: int, vx: int, vy: int, vz: int)

  datatype Axis = X | Y | Z

  function Pos(m: Moon, a: Axis): int
  {
    match a
    case X => m.px
    case Y => m.py
    case Z => m.pz
  }

  function Vel(m: Moon, a: Axis): int
  {
    match a
    case X => m.vx
    case Y => m.vy
    case Z => m.vz
  }

  /** `Moon::apply_velocity`: the position moves by the velocity, which stays. */
  function ApplyVelocity(m: Moon): (r: Moon)
    ensures forall a :: Pos(r, a) == Pos(m, a) + Vel(m, a) && Vel(r, a) == Vel(m, a)
  {
    Moon(m.px + m.vx, m.py + m.vy, m.pz + m.vz, m.vx, m.vy, m.vz)
  }

  /** How a moon at `mine` pulls the velocity of a moon at `other`'s partner: one unit towards
      the other moon, nothing when they are level (the `cmp` in `adjust_velocity`). */
  function Pull(mine: int, other: int): (d: int)
    ensures -1 <= d <= 1 && (d == 0 <==> mine == other) && (d > 0 <==> mine < other)
  {
    if mine < other then 1 else if mine == other then 0 else -1
  }

  /** A moon with velocity `Vel(m, a) + dv(a)`: the `+=` and `-=` on one moon. */
  function Accelerate(m: Moon, dx: int, dy: int, dz: int): (r: Moon)
    ensures forall a :: Pos(r, a) == Pos(m, a)
    ensures Vel(r, X) == m.vx + dx && Vel(r, Y) == m.vy + dy && Vel(r, Z) == m.vz + dz
  {
    Moon(m.px, m.py, m.pz, m.vx + dx, m.vy + dy, m.vz + dz)
  }

  /** `adjust_velocity`: on each axis the moon behind gains one unit and the moon ahead loses
      one; positions stay, and the two velocities keep their sum. */
  function AdjustVelocity(m1: Moon, m2: Moon): (r: (Moon, Moon))
    ensures forall a :: Pos(r.0, a) == Pos(m1, a) && Pos(r.1, a) == Pos(m2, a)
    ensures forall a :: Vel(r.0, a) == Vel(m1, a) + Pull(Pos(m1, a), Pos(m2, a))
    ensures forall a :: Vel(r.1, a) == Vel(m2, a) + Pull(Pos(m2, a), Pos(m1, a))
    ensures forall a :: Vel(r.0, a) + Vel(r.1, a) == Vel(m1, a) + Vel(m2, a)
  {
    var dx, dy, dz := Pull(m1.px, m2.px), Pull(m1.py, m2.py), Pull(m1.pz, m2.pz);
    (Accelerate(m1, dx, dy, dz), Accelerate(m2, -dx, -dy, -dz))
  }

  /** Adjusting the other way round gives the same two moons. */
  lemma AdjustVelocitySymmetric(m1: Moon, m2: Moon)
    ensures AdjustVelocity(m2, m1) == (AdjustVelocity(m1, m2).1, AdjustVelocity(m1, m2).0)
  {
  }

  /** The positions of the moons on one axis. */
  function Positions(ms: seq<Moon>, a: Axis): (ps: seq<int>)
    ensures |ps| == |ms| && forall k :: 0 <= k < |ms| ==> ps[k] == Pos(ms[k], a)
  {
    seq(|ms|, k requires 0 <= k < |ms| => Pos(ms[k], a))
  }

  /** The total pull on a moon at `x` from the moons `0..hi` at positions `ps`. */
  function Pulls(ps: seq<int>, x: int, hi: nat): int
    requires hi <= |ps|
  {
    if hi == 0 then 0 else Pulls(ps, x, hi - 1) + Pull(x, ps[hi - 1])
  }

  /** A moon after the pulls of all the moons of `ms`: the first half of `step`. */
  function Pulled(ms: seq<Moon>, k: nat): (r: Moon)
    requires k < |ms|
    ensures forall a :: Pos(r, a) == Pos(ms[k], a)
    ensures forall a :: Vel(r, a) == Vel(ms[k], a) + Pulls(Positions(ms, a), Pos(ms[k], a), |ms|)
  {
    var m := ms[k];
    Accelerate(m, Pulls(Positions(ms, X), m.px, |ms|), Pulls(Positions(ms, Y), m.py, |ms|),
      Pulls(Positions(ms, Z), m.pz, |ms|))
  }

  /** What `Moons::step` makes of the moons: every moon pulled by every other one (a moon does
      not pull itself), then moved. */
  function StepOf(ms: seq<Moon>): (r: seq<Moon>)
    ensures |r| == |ms|
    ensures forall k :: 0 <= k < |ms| ==> r[k] == ApplyVelocity(Pulled(ms, k))
  {
    seq(|ms|, k requires 0 <= k < |ms| => ApplyVelocity(Pulled(ms, k)))
  }

  /** Potential energy times kinetic energy. */
  function MoonEnergy(m: Moon): (e: nat)
    ensures (m.px == 0 && m.py == 0 && m.pz == 0) ==> e == 0
    ensures (m.vx == 0 && m.vy == 0 && m.vz == 0) ==> e == 0
  {
    var pot, kin := Abs(m.px) + Abs(m.py) + Abs(m.pz), Abs(m.vx) + Abs(m.vy) + Abs(m.vz);
    NonNegativeProduct(pot, kin);
    pot * kin
  }

  lemma NonNegativeProduct(a: nat, b: nat)
    ensures a * b >= 0
    ensures a == 0 || b == 0 ==> a * b == 0
  {
  }

  /** The energy of the first `n` moons. */
  function TotalEnergy(ms: seq<Moon>): (e: nat)
    ensures forall k :: 0 <= k < |ms| ==> MoonEnergy(ms[k]) <= e
  {
    if ms == [] then 0 else TotalEnergy(ms[..|ms| - 1]) + MoonEnergy(ms[|ms| - 1])
  }

  /** How far into the velocity phase of `step` the pulls on moon `k` have got, given that
      the outer loop is at `i` and the inner one at `j`: the pulls of the moons `0..Done` have
      been added (a moon's pull on itself is zero, so counting it changes nothing). */
  function Done(k: nat, i: nat, j: nat, n: nat): (d: nat)
    requires k < n && i <= n && (i < n ==> i + 1 + j <= n)
    ensures d <= n
  {
    if k < i then n
    else if k == i then i + 1 + j
    else if k < i + 1 + j then i + 1
    else i
  }

  /** A moon's pull on itself adds nothing. */
  lemma PullsSelf(ps: seq<int>, k: nat)
    requires k < |ps|
    ensures Pulls(ps, ps[k], k + 1) == Pulls(ps, ps[k], k)
  {
  }

  /** The state of the velocity phase of `step` at outer index `i` and inner index `j`:
      positions are untouched and each velocity holds the pulls counted by `Done`. */
  predicate Partial(start: seq<Moon>, moons: seq<Moon>, i: nat, j: nat)
  {
    && |moons| == |start|
    && i <= |start| && (i < |start| ==> i + 1 + j <= |start|)
    && (forall k, a :: 0 <= k < |start| ==> Pos(moons[k], a) == Pos(start[k], a))
    && (forall k, a :: 0 <= k < |start| ==>
          Vel(moons[k], a) == Vel(start[k], a) + Pulls(Positions(start, a), Pos(start[k], a), Done(k, i, j, |start|)))
  }

  /** Adjusting moons `i` and `i + 1 + j` adds one more pull to each of them. */
  lemma PartialAdjust(start: seq<Moon>, moons: seq<Moon>, i: nat, j: nat)
    requires i + 1 + j < |start| && Partial(start, moons, i, j)
    ensures var m := i + 1 + j;
      var pair := AdjustVelocity(moons[i], moons[m]);
      Partial(start, moons[i := pair.0][m := pair.1], i, j + 1)
  {
    var n := |start|;
    var m := i + 1 + j;
    var pair := AdjustVelocity(moons[i], moons[m]);
    var next := moons[i := pair.0][m := pair.1];
    forall k, a | 0 <= k < n
      ensures Vel(next[k], a) == Vel(start[k], a) + Pulls(Positions(start, a), Pos(start[k], a), Done(k, i, j + 1, n))
    {
      var ps := Positions(start, a);
      DoneAdjust(ps, i, j, k);
      assert ps[k] == Pos(start[k], a) && ps[i] == Pos(moons[i], a) && ps[m] == Pos(moons[m], a);
      if k == m {
        assert next[k] == pair.1;
      } else if k == i {
        assert next[k] == pair.0;
      } else {
        assert next[k] == moons[k];
      }
    }
  }

  /** What one more adjustment adds to the pulls counted for moon `k`. */
  lemma DoneAdjust(ps: seq<int>, i: nat, j: nat, k: nat)
    requires i + 1 + j < |ps| && k < |ps|
    ensures var n, m := |ps|, i + 1 + j;
      Pulls(ps, ps[k], Done(k, i, j + 1, n)) == Pulls(ps, ps[k], Done(k, i, j, n))
        + (if k == i then Pull(ps[k], ps[m]) else if k == m then Pull(ps[k], ps[i]) else 0)
  {
    var n, m := |ps|, i + 1 + j;
    if k == i {
      assert Done(k, i, j + 1, n) == m + 1 && Done(k, i, j, n) == m;
    } else if k == m {
      assert Done(k, i, j + 1, n) == i + 1 && Done(k, i, j, n) == i;
    } else {
      assert Done(k, i, j + 1, n) == Done(k, i, j, n);
    }
  }

  /** The velocity phase starts with nothing counted. */
  lemma PartialStart(start: seq<Moon>)
    ensures Partial(start, start, 0, 0)
  {
    forall k, a | 0 <= k < |start|
      ensures Pulls(Positions(start, a), Pos(start[k], a), Done(k, 0, 0, |start|)) == 0
    {
      if k == 0 {
        PullsSelf(Positions(start, a), 0);
      }
    }
  }

  /** Moving on to the next outer index loses nothing. */
  lemma PartialNext(start: seq<Moon>, moons: seq<Moon>, i: nat)
    requires i < |start| && Partial(start, moons, i, |start| - i - 1)
    ensures Partial(start, moons, i + 1, 0)
  {
    var n := |start|;
    forall k, a | 0 <= k < n
      ensures Vel(moons[k], a) == Vel(start[k], a) + Pulls(Positions(start, a), Pos(start[k], a), Done(k, i + 1, 0, n))
    {
      DoneNext(Positions(start, a), i, k);
    }
  }

  lemma DoneNext(ps: seq<int>, i: nat, k: nat)
    requires i < |ps| && k < |ps|
    ensures Pulls(ps, ps[k], Done(k, i, |ps| - i - 1, |ps|)) == Pulls(ps, ps[k], Done(k, i + 1, 0, |ps|))
  {
    var n := |ps|;
    if k == i + 1 {
      assert Done(k, i, n - i - 1, n) == k && Done(k, i + 1, 0, n) == k + 1;
      PullsSelf(ps, k);
    } else {
      assert Done(k, i, n - i - 1, n) == Done(k, i + 1, 0, n);
    }
  }

  /** At the end of the velocity phase every moon is pulled by all. */
  lemma PartialEnd(start: seq<Moon>, moons: seq<Moon>)
    requires Partial(start, moons, |start|, 0)
    ensures forall k :: 0 <= k < |start| ==> moons[k] == Pulled(start, k)
  {
    forall k | 0 <= k < |start| ensures moons[k] == Pulled(start, k) {
      var r := Pulled(start, k);
      assert Pos(moons[k], X) == Pos(r, X) && Pos(moons[k], Y) == Pos(r, Y) && Pos(moons[k], Z) == Pos(r, Z);
      assert Vel(moons[k], X) == Vel(r, X) && Vel(moons[k], Y) == Vel(r, Y) && Vel(moons[k], Z) == Vel(r, Z);
    }
  }

  /** The total velocity of the moons on one axis. */
  function VelSum(ms: seq<Moon>, a: Axis): int
  {
    if ms == [] then 0 else VelSum(ms[..|ms| - 1], a) + Vel(ms[|ms| - 1], a)
  }

  /** The pulls on the moons `0..m` from the moons `0..hi`. */
  function PullTotal(ps: seq<int>, m: nat, hi: nat): int
    requires m <= |ps| && hi <= |ps|
  {
    if m == 0 then 0 else PullTotal(ps, m - 1, hi) + Pulls(ps, ps[m - 1], hi)
  }

  /** The pulls of the moons `0..m` towards a moon at `x`. */
  function PullsTo(ps: seq<int>, x: int, m: nat): int
    requires m <= |ps|
  {
    if m == 0 then 0 else PullsTo(ps, x, m - 1) + Pull(ps[m - 1], x)
  }

  /** What a moon at `x` gains from the others, they lose to it. */
  lemma {:induction false} PullsOpposite(ps: seq<int>, x: int, m: nat)
    requires m <= |ps|
    ensures PullsTo(ps, x, m) == -Pulls(ps, x, m)
  {
    if m > 0 {
      PullsOpposite(ps, x, m - 1);
    }
  }

  /** Counting one more puller adds its pull on each moon. */
  lemma {:induction false} PullTotalGrow(ps: seq<int>, m: nat, hi: nat)
    requires m <= |ps| && hi < |ps|
    ensures PullTotal(ps, m, hi + 1) == PullTotal(ps, m, hi) + PullsTo(ps, ps[hi], m)
  {
    if m > 0 {
      PullTotalGrow(ps, m - 1, hi);
    }
  }

  /** Among any first `m` moons the pulls cancel: each pair pulls equally and oppositely. */
  lemma {:induction false} PullTotalZero(ps: seq<int>, m: nat)
    requires m <= |ps|
    ensures PullTotal(ps, m, m) == 0
  {
    if m > 0 {
      var k := m - 1;
      PullTotalZero(ps, k);
      PullTotalGrow(ps, k, k);
      PullsOpposite(ps, ps[k], k);
      PullsSelf(ps, k);
    }
  }

  /** The velocities after a step are the old ones plus the pulls. */
  lemma {:induction false} StepVelocities(ms: seq<Moon>, a: Axis, m: nat)
    requires m <= |ms|
    ensures VelSum(StepOf(ms)[..m], a) == VelSum(ms[..m], a) + PullTotal(Positions(ms, a), m, |ms|)
  {
    if m > 0 {
      StepVelocities(ms, a, m - 1);
      assert StepOf(ms)[..m][..m - 1] == StepOf(ms)[..m - 1];
      assert ms[..m][..m - 1] == ms[..m - 1];
    }
  }

  /** `step` keeps the number of moons and, on every axis, their total velocity. */
  lemma StepKeepsMomentum(ms: seq<Moon>, a: Axis)
    ensures |StepOf(ms)| == |ms|
    ensures VelSum(StepOf(ms), a) == VelSum(ms, a)
  {
    StepVelocities(ms, a, |ms|);
    PullTotalZero(Positions(ms, a), |ms|);
    assert StepOf(ms)[..|ms|] == StepOf(ms) && ms[..|ms|] == ms;
  }

  /** The moons after `n` calls of `step`, as the loop of `main` makes them. */
  function Steps(ms: seq<Moon>, n: nat): (r: seq<Moon>)
    ensures |r| == |ms|
    decreases n
  {
    if n == 0 then ms else Steps(StepOf(ms), n - 1)
  }

  /** However many steps are taken, the total velocity on each axis stays what it was. */
  lemma {:induction false} StepsKeepMomentum(ms: seq<Moon>, n: nat, a: Axis)
    ensures VelSum(Steps(ms, n), a) == VelSum(ms, a)
    decreases n
  {
    if n > 0 {
      StepKeepsMomentum(ms, a);
      StepsKeepMomentum(StepOf(ms), n - 1, a);
    }
  }

  class Moons {
    var moons: seq<Moon>

    /** `Moons::new` */
    constructor()
      ensures moons == []
    {
      moons := [];
    }

    /** `Moons::add`: one more moon at rest at the given position. */
    method Add(x: int, y: int, z: int)
      modifies this
      ensures moons == old(moons) + [Moon(x, y, z, 0, 0, 0)]
    {
      moons := moons + [Moon(x, y, z, 0, 0, 0)];
    }

    /** `Moons::step`: `adjust_velocity` on each pair `i < j` once, then `apply_velocity` on
        every moon. */
    method Step()
      modifies this
      ensures moons == StepOf(old(moons))
    {
      Gravity();
      Move();
    }

    /** The first loop of `step`: `adjust_velocity` on each pair `i < j` once, after which
        every moon has been pulled by all the others. */
    method Gravity()
      modifies this
      ensures |moons| == |old(moons)|
      ensures forall k :: 0 <= k < |moons| ==> moons[k] == Pulled(old(moons), k)
    {
      ghost var start := moons;
      PartialStart(start);
      for i := 0 to |moons|
        invariant Partial(start, moons, i, 0)
      {
        PullPartners(start, i);
      }
      PartialEnd(start, moons);
    }

    /** One pass of the inner loop of `step`: moon `i` and each moon after it adjust each
        other's velocity. */
    method PullPartners(ghost start: seq<Moon>, i: nat)
      requires i < |start| && Partial(start, moons, i, 0)
      modifies this
      ensures Partial(start, moons, i + 1, 0)
    {
      var n := |moons|;
      for j := 0 to n - i - 1
        invariant Partial(start, moons, i, j)
      {
        var m := i + 1 + j;
        PartialAdjust(start, moons, i, j);
        var pair := AdjustVelocity(moons[i], moons[m]);
        moons := moons[i := pair.0][m := pair.1];
      }
      PartialNext(start, moons, i);
    }

    /** The second loop of `step`: `apply_velocity` on every moon. */
    method Move()
      modifies this
      ensures |moons| == |old(moons)|
      ensures forall k :: 0 <= k < |moons| ==> moons[k] == ApplyVelocity(old(moons)[k])
    {
      ghost var start := moons;
      for k := 0 to |moons|
        invariant |moons| == |start|
        invariant forall q :: 0 <= q < k ==> moons[q] == ApplyVelocity(start[q])
        invariant forall q :: k <= q < |moons| ==> moons[q] == start[q]
      {
        moons := moons[k := ApplyVelocity(moons[k])];
      }
    }

    /** `Moons::energy`: the sum over the moons of potential times kinetic energy. */
    method Energy() returns (rslt: int)
      ensures rslt == TotalEnergy(moons)
    {
      rslt := 0;
      for k := 0 to |moons|
        invariant rslt == TotalEnergy(moons[..k])
      {
        assert moons[..k + 1][..k] == moons[..k];
        var moon := moons[k];
        var pot := Abs(moon.px) + Abs(moon.py) + Abs(moon.pz);
        var kin := Abs(moon.vx) + Abs(moon.vy) + Abs(moon.vz);
        rslt := rslt + pot * kin;
      }
      assert moons[..|moons|] == moons;
    }
  }
}
