/** Small integer helpers shared by several solutions. */
module Arithmetic {

  /** `k * f`, spelled as repeated addition. */
  function Times(k: nat, f: nat): nat
  {
    if k == 0 then 0 else Times(k - 1, f) + f
  }

  /** `|x|` */
  function Abs(x: int): (r: nat)
    ensures r == x || r == -x
  {
    if x < 0 then -x else x
  }
}
