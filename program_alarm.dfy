/** The first, add/multiply-only interpreter of 2019 day 2: `execute` walks the memory four
    cells at a time and rewrites it in place until opcode 99 or the end of memory. */
module ProgramAlarm {
  import opened Outcomes

  const I32Min: int := -0x8000_0000
  const I32Max: int := 0x7FFF_FFFF

  /** `i32` */
  type I32 = x: int | I32Min <= x <= I32Max

  /** `x as usize` on a 64-bit target: a negative word wraps to at least 2^63. */
  function AsUsize(x: I32): (a: nat)
    ensures x >= 0 ==> a == x
    ensures x < 0 ==> a >= 0x8000_0000_0000_0000
  {
    if x >= 0 then x else x + 0x1_0000_0000_0000_0000
  }

  /** The panics of `execute`. */
  datatype Fault =
    | IndexOutOfBounds(index: nat)               // memory[i] with i >= memory.len()
    | UnrecognisedOpcode(opcode: I32, at: nat)   // panic!("unrecognised opcode {} at address {}")
    | Overflow                                   // i32 `+`/`*` overflow in a debug build

  function Get(memory: seq<I32>, i: nat): (r: Result<I32, Fault>)
    ensures r.Ok? <==> i < |memory|
    ensures r.Ok? ==> r.value == memory[i]
    ensures r.Err? ==> r.error == IndexOutOfBounds(i)
  {
    if i < |memory| then Ok(memory[i]) else Err(IndexOutOfBounds(i))
  }

  function CheckedI32(v: int): (r: Result<I32, Fault>)
    ensures r.Ok? <==> I32Min <= v <= I32Max
    ensures r.Ok? ==> r.value == v
  {
    if I32Min <= v <= I32Max then Ok(v) else Err(Overflow)
  }

  /** One iteration of the loop at `pc < |memory|`: `None` on 99, else the rewritten memory.
      The panics come in the order the Rust code meets them: the three address cells, the
      two operands, the opcode, the arithmetic, then the store. */
  function Step(memory: seq<I32>, pc: nat): Result<Option<seq<I32>>, Fault>
    requires pc < |memory|
  {
    var opcode := memory[pc];
    if opcode == 99 then Ok(None)
    else
      var a1 :- Get(memory, pc + 1);
      var a2 :- Get(memory, pc + 2);
      var a3 :- Get(memory, pc + 3);
      var v1 :- Get(memory, AsUsize(a1));
      var v2 :- Get(memory, AsUsize(a2));
      if opcode != 1 && opcode != 2 then Err(UnrecognisedOpcode(opcode, pc))
      else
        var v :- CheckedI32(if opcode == 1 then v1 + v2 else v1 * v2);
        var target := AsUsize(a3);
        if target < |memory| then Ok(Some(memory[target := v])) else Err(IndexOutOfBounds(target))
  }

  /** `execute` from `pc` on: the final memory, or the panic that ends it. */
  function Execute(memory: seq<I32>, pc: nat): Result<seq<I32>, Fault>
    decreases |memory| - pc
  {
    if pc >= |memory| then Ok(memory)
    else
      match Step(memory, pc)
      case Err(f) => Err(f)
      case Ok(None) => Ok(memory)
      case Ok(Some(memory')) =>
        StepKeepsLength(memory, pc);
        Execute(memory', pc + 4)
  }

  /** A step keeps the memory's length and rewrites at most the one addressed cell. */
  lemma StepKeepsLength(memory: seq<I32>, pc: nat)
    requires pc < |memory| && Step(memory, pc).Ok? && Step(memory, pc).value.Some?
    ensures var m' := Step(memory, pc).value.value;
      && |m'| == |memory|
      && forall i :: 0 <= i < |memory| && i != AsUsize(memory[pc + 3]) ==> m'[i] == memory[i]
  {
  }

  /** `execute`, in place. */
  method ExecuteInPlace(memory: array<I32>) returns (r: Result<(), Fault>)
    modifies memory
    ensures var e := Execute(old(memory[..]), 0);
      && (r.Ok? <==> e.Ok?)
      && (r.Ok? ==> memory[..] == e.value)
      && (r.Err? ==> r.error == e.error)
  {
    var pc := 0;
    while pc < memory.Length
      invariant pc % 4 == 0
      invariant Execute(memory[..], pc) == Execute(old(memory[..]), 0)
      decreases memory.Length - pc
    {
      ghost var m := memory[..];
      var opcode := memory[pc];
      if opcode == 99 {
        return Ok(());
      }
      if pc + 1 >= memory.Length { return Err(IndexOutOfBounds(pc + 1)); }
      if pc + 2 >= memory.Length { return Err(IndexOutOfBounds(pc + 2)); }
      if pc + 3 >= memory.Length { return Err(IndexOutOfBounds(pc + 3)); }
      var val1Address := AsUsize(memory[pc + 1]);
      var val2Address := AsUsize(memory[pc + 2]);
      var storageAddress := AsUsize(memory[pc + 3]);
      if val1Address >= memory.Length { return Err(IndexOutOfBounds(val1Address)); }
      if val2Address >= memory.Length { return Err(IndexOutOfBounds(val2Address)); }
      var val1 := memory[val1Address];
      var val2 := memory[val2Address];
      var v: int;
      if opcode == 1 {
        v := val1 as int + val2 as int;
      } else if opcode == 2 {
        v := val1 as int * val2 as int;
      } else {
        return Err(UnrecognisedOpcode(opcode, pc));
      }
      if !(I32Min <= v <= I32Max) { return Err(Overflow); }
      if storageAddress >= memory.Length { return Err(IndexOutOfBounds(storageAddress)); }
      memory[storageAddress] := v;
      assert Step(m, pc) == Ok(Some(memory[..]));
      pc := pc + 4;
    }
    r := Ok(());
  }

  /** Opcode 99 ends `execute` at once, leaving memory as it is. */
  lemma HaltWritesNothing(memory: seq<I32>, pc: nat)
    requires pc < |memory| && memory[pc] == 99
    ensures Execute(memory, pc) == Ok(memory)
  {
  }

  /** Opcodes 1 and 2 store the sum and the product of the cells their first two address
      cells name, both read before the store, at the cell their third one names. */
  lemma StepStores(memory: seq<I32>, pc: nat)
    requires pc + 3 < |memory|
    requires memory[pc] == 1 || memory[pc] == 2
    requires Step(memory, pc).Ok?
    ensures var a1, a2, a3 := AsUsize(memory[pc + 1]), AsUsize(memory[pc + 2]), AsUsize(memory[pc + 3]);
      && a1 < |memory| && a2 < |memory| && a3 < |memory|
      && var v := if memory[pc] == 1 then memory[a1] + memory[a2] else memory[a1] * memory[a2];
      && I32Min <= v <= I32Max
      && Step(memory, pc) == Ok(Some(memory[a3 := v]))
  {
  }

  /** Any opcode other than 1, 2 and 99 is a fault, once its addresses are readable. */
  lemma UnknownOpcodeFaults(memory: seq<I32>, pc: nat)
    requires pc + 3 < |memory|
    requires AsUsize(memory[pc + 1]) < |memory| && AsUsize(memory[pc + 2]) < |memory|
    requires memory[pc] != 1 && memory[pc] != 2 && memory[pc] != 99
    ensures Step(memory, pc) == Err(UnrecognisedOpcode(memory[pc], pc))
  {
  }

  /** A whole run keeps the memory's length. */
  lemma {:induction false} ExecuteKeepsLength(memory: seq<I32>, pc: nat)
    requires Execute(memory, pc).Ok?
    ensures |Execute(memory, pc).value| == |memory|
    decreases |memory| - pc
  {
    if pc < |memory| && Step(memory, pc).Ok? && Step(memory, pc).value.Some? {
      StepKeepsLength(memory, pc);
      ExecuteKeepsLength(Step(memory, pc).value.value, pc + 4);
    }
  }
}
