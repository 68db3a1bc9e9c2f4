/** The Intcode interpreter of the shared `int_code` library: memory is a vector of 64-bit
    words, the program counter a `usize`, the input a vector consumed from its end, and
    `execute` runs fetch-decode-execute until the `Halt` instruction, returning the outputs.

    Every `panic!` of the Rust code (an unknown opcode or mode digit, an index outside memory,
    `pop().unwrap()` on an empty input, an i64 overflow in a debug build) is a `Fault` here.
    The Rust loop may run forever; the model bounds it by `fuel`. */
module IntCode {
  import opened Outcomes

  const WordMin: int := -0x8000_0000_0000_0000
  const WordMax: int := 0x7FFF_FFFF_FFFF_FFFF
  /** 2^64: `as usize` of a negative word adds this. */
  const UsizeModulus: int := 0x1_0000_0000_0000_0000

  /** `Word = i64` */
  type Word = x: int | WordMin <= x <= WordMax

  /** `w as usize` on a 64-bit target. */
  function AsUsize(w: Word): (a: nat)
    ensures a < UsizeModulus
    ensures w >= 0 ==> a == w
    ensures w < 0 ==> a > WordMax
  {
    if w >= 0 then w else w + UsizeModulus
  }

  /** Rust's `%` on i64, which truncates toward zero (Dafny's `%` is Euclidean). */
  function Rem(a: int, b: int): int
    requires b > 0
  {
    if a >= 0 then a % b else -((-a) % b)
  }

  /** Rust's `/` on i64, which truncates toward zero. */
  function Quot(a: int, b: int): int
    requires b > 0
  {
    if a >= 0 then a / b else -((-a) / b)
  }

  datatype Parameter = Immediate(val: Word) | Position(addr: nat)

  datatype Operation =
    | Add(a: Parameter, b: Parameter, out: Parameter)
    | Multiply(a: Parameter, b: Parameter, out: Parameter)
    | Input(out: Parameter)
    | Output(a: Parameter)
    | JumpIfTrue(a: Parameter, target: Parameter)
    | JumpIfFalse(a: Parameter, target: Parameter)
    | LessThan(a: Parameter, b: Parameter, out: Parameter)
    | Equals(a: Parameter, b: Parameter, out: Parameter)
    | Halt

  datatype Fault =
    | UnrecognisedOpcode(word: Word)  // panic!("Unrecognised opcode {}")
    | IndexOutOfBounds(index: nat)    // memory[i] with i >= memory.len()
    | InputExhausted                  // input.pop().unwrap() on an empty input
    | ArithmeticOverflow              // i64 `+`/`*` overflow in a debug build

  /** The parameters of an operation, in instruction order. */
  function Parameters(op: Operation): seq<Parameter>
  {
    match op
    case Add(a, b, out) => [a, b, out]
    case Multiply(a, b, out) => [a, b, out]
    case Input(out) => [out]
    case Output(a) => [a]
    case JumpIfTrue(a, t) => [a, t]
    case JumpIfFalse(a, t) => [a, t]
    case LessThan(a, b, out) => [a, b, out]
    case Equals(a, b, out) => [a, b, out]
    case Halt => []
  }

  /** `Operation::length`: the number of words the instruction occupies. */
  function Length(op: Operation): (n: nat)
    ensures n == 1 + |Parameters(op)|
  {
    match op
    case Add(_, _, _) => 4
    case Multiply(_, _, _) => 4
    case Input(_) => 2
    case Output(_) => 2
    case JumpIfTrue(_, _) => 3
    case JumpIfFalse(_, _) => 3
    case LessThan(_, _, _) => 4
    case Equals(_, _, _) => 4
    case Halt => 1
  }

  predicate IsJump(op: Operation)
  {
    op.JumpIfTrue? || op.JumpIfFalse?
  }

  /** `memory[addr]`, which panics beyond the end. */
  function Fetch(memory: seq<Word>, addr: nat): (r: Result<Word, Fault>)
    ensures r.Ok? <==> addr < |memory|
    ensures r.Ok? ==> r.value == memory[addr]
    ensures r.Err? ==> r.error == IndexOutOfBounds(addr)
  {
    if addr < |memory| then Ok(memory[addr]) else Err(IndexOutOfBounds(addr))
  }

  /** `Parameter::read` */
  function Read(p: Parameter, memory: seq<Word>): Result<Word, Fault>
  {
    match p
    case Immediate(v) => Ok(v)
    case Position(addr) => Fetch(memory, addr)
  }

  /** The cell that `Parameter::write` stores into: an `Immediate` names the cell directly,
      a `Position` names the cell holding its address. */
  function WriteAddress(p: Parameter, memory: seq<Word>): Result<nat, Fault>
  {
    match p
    case Immediate(direct) => Ok(AsUsize(direct))
    case Position(indirect) =>
      var a :- Fetch(memory, indirect);
      Ok(AsUsize(a))
  }

  /** `Parameter::write`, as the memory it leaves. */
  function Write(p: Parameter, memory: seq<Word>, v: Word): Result<seq<Word>, Fault>
  {
    var a :- WriteAddress(p, memory);
    if a < |memory| then Ok(memory[a := v]) else Err(IndexOutOfBounds(a))
  }

  /** `Parameter::write`, in place. */
  method WriteParameter(p: Parameter, memory: array<Word>, v: Word) returns (r: Result<(), Fault>)
    modifies memory
    ensures var w := Write(p, old(memory[..]), v);
      && (r.Ok? <==> w.Ok?)
      && (w.Ok? ==> memory[..] == w.value)
      && (w.Err? ==> r.error == w.error && memory[..] == old(memory[..]))
  {
    var target: nat;
    match p {
      case Immediate(direct) =>
        target := AsUsize(direct);
      case Position(indirect) =>
        if indirect >= memory.Length {
          return Err(IndexOutOfBounds(indirect));
        }
        target := AsUsize(memory[indirect]);
    }
    if target >= memory.Length {
      return Err(IndexOutOfBounds(target));
    }
    memory[target] := v;
    r := Ok(());
  }

  /** A word result of `+` or `*`, which panics on overflow in a debug build. */
  function Checked(v: int): (r: Result<Word, Fault>)
    ensures r.Ok? <==> WordMin <= v <= WordMax
    ensures r.Ok? ==> r.value == v
  {
    if WordMin <= v <= WordMax then Ok(v) else Err(ArithmeticOverflow)
  }

  /** An input parameter of mode `mode` whose raw word is at `at`. */
  function InParameter(mode: int, memory: seq<Word>, at: nat, full: Word): Result<Parameter, Fault>
  {
    if mode == 0 then
      var raw :- Fetch(memory, at);
      Ok(Position(AsUsize(raw)))
    else if mode == 1 then
      var raw :- Fetch(memory, at);
      Ok(Immediate(raw))
    else Err(UnrecognisedOpcode(full))
  }

  /** An output parameter of mode `mode`: the library decodes mode 0 to `Immediate` and
      mode 1 to `Position`, the opposite of input parameters. */
  function OutParameter(mode: int, memory: seq<Word>, at: nat, full: Word): Result<Parameter, Fault>
  {
    if mode == 0 then
      var raw :- Fetch(memory, at);
      Ok(Immediate(raw))
    else if mode == 1 then
      var raw :- Fetch(memory, at);
      Ok(Position(AsUsize(raw)))
    else Err(UnrecognisedOpcode(full))
  }

  /** `Operation::decode`: the instruction at `pc`. */
  function Decode(memory: seq<Word>, pc: nat): Result<Operation, Fault>
  {
    var full :- Fetch(memory, pc);
    var opcode := Rem(full, 100);
    var params := Quot(full, 100);
    if opcode == 1 || opcode == 2 || opcode == 7 || opcode == 8 then
      var p1 :- InParameter(Rem(params, 10), memory, pc + 1, full);
      var p2 :- InParameter(Rem(Quot(params, 10), 10), memory, pc + 2, full);
      var pout :- OutParameter(Quot(params, 100), memory, pc + 3, full);
      Ok(if opcode == 1 then Add(p1, p2, pout)
         else if opcode == 2 then Multiply(p1, p2, pout)
         else if opcode == 7 then LessThan(p1, p2, pout)
         else Equals(p1, p2, pout))
    else if opcode == 3 then
      if params == 0 then
        var raw :- Fetch(memory, pc + 1);
        Ok(Input(Immediate(raw)))
      else if params == 1 then
        var raw :- Fetch(memory, pc + 1);
        Ok(Input(Position(AsUsize(raw))))
      else Err(UnrecognisedOpcode(full))
    else if opcode == 4 then
      if params == 0 then
        var raw :- Fetch(memory, pc + 1);
        Ok(Output(Position(AsUsize(raw))))
      else if params == 1 then
        var raw :- Fetch(memory, pc + 1);
        Ok(Output(Immediate(raw)))
      else Err(UnrecognisedOpcode(full))
    else if opcode == 5 || opcode == 6 then
      var p1 :- InParameter(Rem(params, 10), memory, pc + 1, full);
      var p2 :- InParameter(Rem(Quot(params, 10), 10), memory, pc + 2, full);
      Ok(if opcode == 5 then JumpIfTrue(p1, p2) else JumpIfFalse(p1, p2))
    else if opcode == 99 then
      if full != opcode then Err(UnrecognisedOpcode(full)) else Ok(Halt)
    else Err(UnrecognisedOpcode(full))
  }

  /** What the machine holds between instructions; `output` is the vector `execute` collects. */
  datatype Config = Config(memory: seq<Word>, pc: nat, input: seq<Word>, output: seq<Word>)

  datatype StepResult = Continue(next: Config) | Stop

  /** `Operation::execute`: the configuration after `op`, or `Stop` for `Halt`. */
  function Apply(op: Operation, c: Config): Result<StepResult, Fault>
  {
    var m := c.memory;
    var next := c.pc + Length(op);
    match op
    case Add(a, b, out) =>
      var x :- Read(a, m);
      var y :- Read(b, m);
      var v :- Checked(x + y);
      var m' :- Write(out, m, v);
      Ok(Continue(c.(memory := m', pc := next)))
    case Multiply(a, b, out) =>
      var x :- Read(a, m);
      var y :- Read(b, m);
      var v :- Checked(x * y);
      var m' :- Write(out, m, v);
      Ok(Continue(c.(memory := m', pc := next)))
    case Input(out) =>
      if c.input == [] then Err(InputExhausted)
      else
        var m' :- Write(out, m, c.input[|c.input| - 1]);
        Ok(Continue(c.(memory := m', pc := next, input := c.input[..|c.input| - 1])))
    case Output(a) =>
      var x :- Read(a, m);
      Ok(Continue(c.(pc := next, output := c.output + [x])))
    case JumpIfTrue(a, target) =>
      var x :- Read(a, m);
      if x != 0 then
        var t :- Read(target, m);
        Ok(Continue(c.(pc := AsUsize(t))))
      else Ok(Continue(c.(pc := next)))
    case JumpIfFalse(a, target) =>
      var x :- Read(a, m);
      if x == 0 then
        var t :- Read(target, m);
        Ok(Continue(c.(pc := AsUsize(t))))
      else Ok(Continue(c.(pc := next)))
    case LessThan(a, b, out) =>
      var x :- Read(a, m);
      var y :- Read(b, m);
      var m' :- Write(out, m, if x < y then 1 else 0);
      Ok(Continue(c.(memory := m', pc := next)))
    case Equals(a, b, out) =>
      var x :- Read(a, m);
      var y :- Read(b, m);
      var m' :- Write(out, m, if x == y then 1 else 0);
      Ok(Continue(c.(memory := m', pc := next)))
    case Halt => Ok(Stop)
  }

  /** One iteration of the `execute` loop. */
  function Step(c: Config): Result<StepResult, Fault>
  {
    var op :- Decode(c.memory, c.pc);
    Apply(op, c)
  }

  datatype Outcome =
    | Halted(final: Config)
    | Faulted(fault: Fault, at: Config)
    | OutOfFuel(at: Config)
  {
    function Last(): Config
    {
      match this
      case Halted(c) => c
      case Faulted(_, c) => c
      case OutOfFuel(c) => c
    }
  }

  /** What one step does, for some instruction set: a fault, a halt, or the next configuration. */
  type Stepper = Config -> Result<StepResult, Fault>

  /** The driving loop of `Machine::execute` over the steps `step`, allowed at most `fuel` of
      them. */
  function RunWith(step: Stepper, c: Config, fuel: nat): Outcome
    decreases fuel
  {
    if fuel == 0 then OutOfFuel(c)
    else
      match step(c)
      case Err(f) => Faulted(f, c)
      case Ok(Stop) => Halted(c)
      case Ok(Continue(c')) => RunWith(step, c', fuel - 1)
  }

  /** `Machine::execute`, allowed at most `fuel` instructions. */
  function Run(c: Config, fuel: nat): Outcome
  {
    RunWith(Step, c, fuel)
  }

  /** What one step tells the driving loop: the fault, `None` on halt, or the next `pc`. */
  function Report(a: Result<StepResult, Fault>): (r: Result<Option<nat>, Fault>)
    ensures r.Err? <==> a.Err?
    ensures r == Ok(None) <==> a == Ok(Stop)
    ensures a.Ok? && a.value.Continue? ==> r == Ok(Some(a.value.next.pc))
  {
    match a
    case Err(f) => Err(f)
    case Ok(Stop) => Ok(None)
    case Ok(Continue(c')) => Ok(Some(c'.pc))
  }

  /** The configuration after one step from `c`: `c` itself unless the step continues. */
  function After(a: Result<StepResult, Fault>, c: Config): (r: Config)
    ensures a.Ok? && a.value.Continue? ==> r == a.value.next
    ensures !(a.Ok? && a.value.Continue?) ==> r == c
  {
    if a.Ok? && a.value.Continue? then a.value.next else c
  }

  /** Unfolds a run by one continuing step. */
  lemma RunWithContinues(step: Stepper, c: Config, c': Config, fuel: nat, rest: nat)
    requires fuel == rest + 1 && step(c) == Ok(Continue(c'))
    ensures RunWith(step, c, fuel) == RunWith(step, c', rest)
  {
  }

  /** A run stops at a step that faults. */
  lemma RunWithFaults(step: Stepper, c: Config, fuel: nat)
    requires fuel > 0 && step(c).Err?
    ensures RunWith(step, c, fuel) == Faulted(step(c).error, c)
  {
  }

  /** A run stops at a step that halts. */
  lemma RunWithHalts(step: Stepper, c: Config, fuel: nat)
    requires fuel > 0 && step(c) == Ok(Stop)
    ensures RunWith(step, c, fuel) == Halted(c)
  {
  }

  /** Unfolds `Run` by one continuing step. */
  lemma RunContinues(c: Config, c': Config, fuel: nat, rest: nat)
    requires fuel == rest + 1 && Step(c) == Ok(Continue(c'))
    ensures Run(c, fuel) == Run(c', rest)
  {
    RunWithContinues(Step, c, c', fuel, rest);
  }

  /** `Run` stops at a step that faults. */
  lemma RunFaults(c: Config, fuel: nat)
    requires fuel > 0 && Step(c).Err?
    ensures Run(c, fuel) == Faulted(Step(c).error, c)
  {
    RunWithFaults(Step, c, fuel);
  }

  /** `Run` stops at a step that halts. */
  lemma RunHalts(c: Config, fuel: nat)
    requires fuel > 0 && Step(c) == Ok(Stop)
    ensures Run(c, fuel) == Halted(c)
  {
    RunWithHalts(Step, c, fuel);
  }

  /** A step is the decoded operation applied. */
  lemma StepDecoded(c: Config, op: Result<Operation, Fault>)
    requires op == Decode(c.memory, c.pc)
    ensures op.Err? ==> Step(c) == Err(op.error)
    ensures op.Ok? ==> Step(c) == Apply(op.value, c)
  {
  }

  datatype Status = Finished | Failed(fault: Fault) | FuelExhausted

  function StatusOf(o: Outcome): Status
  {
    match o
    case Halted(_) => Finished
    case Faulted(f, _) => Failed(f)
    case OutOfFuel(_) => FuelExhausted
  }

  class Machine {
    var memory: array<Word>
    var pc: nat
    var input: seq<Word>

    /** `Machine::new` */
    constructor (memory: seq<Word>, input: seq<Word>)
      ensures fresh(this.memory)
      ensures this.memory[..] == memory && pc == 0 && this.input == input
    {
      this.memory := new Word[|memory|](i requires 0 <= i < |memory| => memory[i]);
      this.pc := 0;
      this.input := input;
    }

    function State(output: seq<Word>): Config
      reads this, memory
    {
      Config(memory[..], pc, input, output)
    }

    /** `Operation::execute`: applies `op` to memory and input, extends `output`, and returns
        the next program counter (`None` for `Halt`); `pc` itself is left to the caller. */
    method ExecuteOperation(op: Operation, output: seq<Word>)
      returns (r: Result<Option<nat>, Fault>, output': seq<Word>)
      modifies this, memory
      ensures memory == old(memory) && pc == old(pc)
      ensures r == Report(Apply(op, old(State(output))))
      ensures State(output') == After(Apply(op, old(State(output))), old(State(output))).(pc := pc)
    {
      output' := output;
      var m := memory[..];
      match op {
        case Output(a) =>
          var x :- Read(a, m);
          output' := output + [x];
        case JumpIfTrue(a, target) =>
          var x :- Read(a, m);
          if x != 0 {
            var t :- Read(target, m);
            return Ok(Some(AsUsize(t))), output;
          }
        case JumpIfFalse(a, target) =>
          var x :- Read(a, m);
          if x == 0 {
            var t :- Read(target, m);
            return Ok(Some(AsUsize(t))), output;
          }
        case Halt =>
          return Ok(None), output;
        case _ =>
          r := ExecuteStore(op, output);
          return r, output;
      }
      r := Ok(Some(pc + Length(op)));
    }

    /** The part of `Operation::execute` for the operations that store a value through their
        output parameter. */
    method ExecuteStore(op: Operation, output: seq<Word>) returns (r: Result<Option<nat>, Fault>)
      requires op.Add? || op.Multiply? || op.Input? || op.LessThan? || op.Equals?
      modifies this, memory
      ensures memory == old(memory) && pc == old(pc)
      ensures r == Report(Apply(op, old(State(output))))
      ensures State(output) == After(Apply(op, old(State(output))), old(State(output))).(pc := pc)
    {
      var m := memory[..];
      var v: Word;
      if op.Input? {
        if input == [] { return Err(InputExhausted); }
        v := input[|input| - 1];
      } else {
        var x :- Read(op.a, m);
        var y :- Read(op.b, m);
        if op.Add? {
          v :- Checked(x as int + y as int);
        } else if op.Multiply? {
          v :- Checked(x as int * y as int);
        } else if op.LessThan? {
          v := if x < y then 1 else 0;
        } else {
          v := if x == y then 1 else 0;
        }
      }
      var w := WriteParameter(op.out, memory, v);
      if w.Err? { return Err(w.error); }
      if op.Input? {
        input := input[..|input| - 1];
      }
      r := Ok(Some(pc + Length(op)));
    }

    /** `Machine::execute`: runs until `Halt` (or a fault, or `fuel` instructions) and returns
        the outputs in the order they were produced. */
    method Execute(fuel: nat) returns (status: Status, output: seq<Word>)
      modifies this, memory
      ensures memory == old(memory)
      ensures var o := Run(old(State([])), fuel);
        status == StatusOf(o) && State(output) == o.Last()
    {
      output := [];
      var n := fuel;
      ghost var goal := Run(State(output), n);
      while true
        invariant memory == old(memory)
        invariant goal == Run(old(State([])), fuel)
        invariant Run(State(output), n) == goal
        decreases n
      {
        if n == 0 {
          return FuelExhausted, output;
        }
        ghost var c := State(output);
        var op := Decode(memory[..], pc);
        StepDecoded(c, op);
        if op.Err? {
          RunFaults(c, n);
          return Failed(op.error), output;
        }
        ghost var a := Apply(op.value, c);
        var r, output' := ExecuteOperation(op.value, output);
        if r.Err? {
          RunFaults(c, n);
          return Failed(r.error), output;
        }
        if r.value.None? {
          RunHalts(c, n);
          return Finished, output;
        }
        pc := r.value.value;
        output := output';
        ghost var k := n;
        n := n - 1;
        assert k == n + 1;
        RunContinues(c, State(output), k, n);
        assert Run(c, k) == goal;
      }
    }
  }
}
