/** What one instruction and a whole run of `Machine::execute` do to the machine. */
module IntCodeRunning {
  import opened Outcomes
  import opened IntCode
  import opened IntCodeDecoding

  /** `m'` has the length of `m` and differs from it in at most one cell. */
  predicate AtMostOneCellDiffers(m: seq<Word>, m': seq<Word>)
  {
    && |m'| == |m|
    && forall i, j :: 0 <= i < |m| && 0 <= j < |m| && m'[i] != m[i] && m'[j] != m[j] ==> i == j
  }

  /** `Parameter::write` stores `v` in exactly the addressed cell and nowhere else. */
  lemma WriteStores(p: Parameter, memory: seq<Word>, v: Word)
    requires Write(p, memory, v).Ok?
    ensures var t := WriteAddress(p, memory);
      && t.Ok? && t.value < |memory|
      && Write(p, memory, v).value == memory[t.value := v]
      && AtMostOneCellDiffers(memory, Write(p, memory, v).value)
  {
  }

  /** The value an operation with an output parameter stores. */
  function Stored(op: Operation, c: Config): Result<Word, Fault>
    requires op.Add? || op.Multiply? || op.LessThan? || op.Equals? || op.Input?
  {
    if op.Input? then
      if c.input == [] then Err(InputExhausted) else Ok(c.input[|c.input| - 1])
    else
      var x :- Read(op.a, c.memory);
      var y :- Read(op.b, c.memory);
      if op.Add? then Checked(x + y)
      else if op.Multiply? then Checked(x * y)
      else if op.LessThan? then Ok(if x < y then 1 else 0)
      else Ok(if x == y then 1 else 0)
  }

  /** An instruction with an output parameter stores its result through that parameter:
      the sum or product of its operands, 1 or 0 for a comparison, the last input for
      `Input`, which it then removes; everything else is left as it was. */
  lemma ApplyStores(op: Operation, c: Config)
    requires op.Add? || op.Multiply? || op.LessThan? || op.Equals? || op.Input?
    requires Apply(op, c).Ok?
    ensures var c' := Apply(op, c).value;
      && c'.Continue?
      && Stored(op, c).Ok?
      && Write(op.out, c.memory, Stored(op, c).value).Ok?
      && c'.next.memory == Write(op.out, c.memory, Stored(op, c).value).value
      && AtMostOneCellDiffers(c.memory, c'.next.memory)
      && c'.next.pc == c.pc + Length(op)
      && c'.next.output == c.output
      && c'.next.input == (if op.Input? then c.input[..|c.input| - 1] else c.input)
  {
    var v := Stored(op, c).value;
    WriteStores(op.out, c.memory, v);
  }

  /** The comparisons store exactly 1 or 0, and 1 exactly when the comparison holds. */
  lemma ComparisonStoresBit(op: Operation, c: Config)
    requires op.LessThan? || op.Equals?
    requires Stored(op, c).Ok?
    ensures var x, y := Read(op.a, c.memory), Read(op.b, c.memory);
      && x.Ok? && y.Ok?
      && (Stored(op, c).value == 0 || Stored(op, c).value == 1)
      && (Stored(op, c).value == 1 <==>
          (if op.LessThan? then x.value < y.value else x.value == y.value))
  {
  }

  /** `Output` appends the operand's value and changes nothing else. */
  lemma ApplyOutput(a: Parameter, c: Config)
    requires Apply(Output(a), c).Ok?
    ensures Read(a, c.memory).Ok?
    ensures Apply(Output(a), c) ==
      Ok(Continue(c.(pc := c.pc + 2, output := c.output + [Read(a, c.memory).value])))
  {
  }

  /** A jump changes only `pc`: to the target's value (as `usize`) when taken, past its three
      words otherwise; `JumpIfTrue` is taken iff its operand is nonzero, `JumpIfFalse` iff it
      is zero. */
  lemma ApplyJump(op: Operation, c: Config)
    requires IsJump(op) && Apply(op, c).Ok?
    ensures var x := Read(op.a, c.memory);
      var taken := if op.JumpIfTrue? then x.value != 0 else x.value == 0;
      && x.Ok?
      && (taken ==> Read(op.target, c.memory).Ok? &&
                    Apply(op, c) == Ok(Continue(c.(pc := AsUsize(Read(op.target, c.memory).value)))))
      && (!taken ==> Apply(op, c) == Ok(Continue(c.(pc := c.pc + 3))))
  {
  }

  /** Only `Halt` stops the machine. */
  lemma ApplyStops(op: Operation, c: Config)
    ensures Apply(op, c) == Ok(Stop) <==> op == Halt
  {
  }

  /** `Input` on an exhausted input vector faults. */
  lemma InputExhaustedFaults(out: Parameter, c: Config)
    requires c.input == []
    ensures Apply(Input(out), c) == Err(InputExhausted)
  {
  }

  /** `decode` yields `Halt` exactly at the word 99. */
  lemma DecodeHalt(memory: seq<Word>, pc: nat)
    ensures Decode(memory, pc) == Ok(Halt) <==> pc < |memory| && memory[pc] == 99
  {
    if pc < |memory| && memory[pc] >= 0 {
      NonNegativeDigits(memory[pc]);
    } else if pc < |memory| {
      NegativeOpcode(memory[pc]);
    }
  }

  /** Whatever one step does, memory keeps its length and at most one cell changes, the
      input loses at most its last element, and the output gains at most one element. */
  lemma StepFrame(c: Config)
    requires Step(c).Ok? && Step(c).value.Continue?
    ensures var c' := Step(c).value.next;
      && AtMostOneCellDiffers(c.memory, c'.memory)
      && (c'.input == c.input || (c.input != [] && c'.input == c.input[..|c.input| - 1]))
      && (c'.output == c.output || (exists x :: c'.output == c.output + [x]))
  {
    var op := Decode(c.memory, c.pc).value;
    var c' := Step(c).value.next;
    if op.Add? || op.Multiply? || op.LessThan? || op.Equals? || op.Input? {
      ApplyStores(op, c);
    } else if op.Output? {
      ApplyOutput(op.a, c);
      assert c'.output == c.output + [Read(op.a, c.memory).value];
    } else if IsJump(op) {
      ApplyJump(op, c);
    }
  }

  /** The instruction at `pc` is the word 99. */
  predicate AtHalt(c: Config)
  {
    c.pc < |c.memory| && c.memory[c.pc] == 99
  }

  /** `step` halts only at an instruction word 99. */
  predicate HaltsOnlyAtHalt(step: Stepper, c: Config)
  {
    step(c) == Ok(Stop) ==> AtHalt(c)
  }

  /** A run over steps that halt only at the word 99 stops with `Halted` only there. */
  lemma {:induction false} RunWithHaltsAtHalt(step: Stepper, c: Config, fuel: nat)
    requires forall x :: HaltsOnlyAtHalt(step, x)
    requires RunWith(step, c, fuel).Halted?
    ensures AtHalt(RunWith(step, c, fuel).final)
    decreases fuel
  {
    assert HaltsOnlyAtHalt(step, c);
    match step(c)
    case Err(_) =>
    case Ok(Stop) =>
    case Ok(Continue(c')) =>
      RunWithHaltsAtHalt(step, c', fuel - 1);
  }

  /** A step halts only at an instruction word 99. */
  lemma StepHaltsAtHalt(c: Config)
    ensures HaltsOnlyAtHalt(Step, c)
  {
    if Step(c) == Ok(Stop) {
      var op := Decode(c.memory, c.pc).value;
      ApplyStops(op, c);
      DecodeHalt(c.memory, c.pc);
    }
  }

  /** A run stops with `Halted` only at an instruction word 99. */
  lemma RunHaltsAtHalt(c: Config, fuel: nat)
    requires Run(c, fuel).Halted?
    ensures var f := Run(c, fuel).final; f.pc < |f.memory| && f.memory[f.pc] == 99
  {
    forall x
      ensures HaltsOnlyAtHalt(Step, x)
    {
      StepHaltsAtHalt(x);
    }
    RunWithHaltsAtHalt(Step, c, fuel);
  }

  /** Once a run has halted or faulted, more fuel changes nothing. */
  lemma {:induction false} RunWithMoreFuel(step: Stepper, c: Config, fuel: nat, more: nat)
    requires fuel <= more && !RunWith(step, c, fuel).OutOfFuel?
    ensures RunWith(step, c, more) == RunWith(step, c, fuel)
    decreases fuel
  {
    match step(c)
    case Err(_) =>
      RunWithFaults(step, c, fuel);
      RunWithFaults(step, c, more);
    case Ok(Stop) =>
      RunWithHalts(step, c, fuel);
      RunWithHalts(step, c, more);
    case Ok(Continue(c')) =>
      RunWithContinues(step, c, c', fuel, fuel - 1);
      RunWithContinues(step, c, c', more, more - 1);
      RunWithMoreFuel(step, c', fuel - 1, more - 1);
  }

  /** Once `Machine::execute` has halted or faulted, more fuel changes nothing. */
  lemma RunMoreFuel(c: Config, fuel: nat, more: nat)
    requires fuel <= more && !Run(c, fuel).OutOfFuel?
    ensures Run(c, more) == Run(c, fuel)
  {
    RunWithMoreFuel(Step, c, fuel, more);
  }

  /** From `c` to `l` memory keeps its length, the input is only consumed from its end and the
      output only grows at its end. */
  predicate Within(c: Config, l: Config)
  {
    && |l.memory| == |c.memory|
    && l.input <= c.input
    && c.output <= l.output
  }

  /** A step that continues from `c` stays within it. */
  predicate StepsWithin(step: Stepper, c: Config)
  {
    step(c).Ok? && step(c).value.Continue? ==> Within(c, step(c).value.next)
  }

  /** Over a whole run of steps that each stay within their configuration, the last
      configuration stays within the first. */
  lemma {:induction false} RunWithFrame(step: Stepper, c: Config, fuel: nat)
    requires forall x :: StepsWithin(step, x)
    ensures Within(c, RunWith(step, c, fuel).Last())
    decreases fuel
  {
    if fuel > 0 && step(c).Ok? && step(c).value.Continue? {
      var c' := step(c).value.next;
      assert StepsWithin(step, c);
      RunWithFrame(step, c', fuel - 1);
      RunWithContinues(step, c, c', fuel, fuel - 1);
      var l := RunWith(step, c', fuel - 1).Last();
      PrefixTransitive(l.input, c'.input, c.input);
      PrefixTransitive(c.output, c'.output, l.output);
    }
  }

  /** A step keeps memory's length and only consumes input and produces output at the ends. */
  lemma StepWithin(c: Config)
    ensures StepsWithin(Step, c)
  {
    if Step(c).Ok? && Step(c).value.Continue? {
      var c' := Step(c).value.next;
      StepFrame(c);
      assert c'.input <= c.input;
      assert c.output <= c'.output by {
        if c'.output != c.output {
          var x :| c'.output == c.output + [x];
        }
      }
    }
  }

  /** Over a whole run memory keeps its length, the input is only consumed from its end and
      the output only grows at its end. */
  lemma RunFrame(c: Config, fuel: nat)
    ensures var l := Run(c, fuel).Last();
      && |l.memory| == |c.memory|
      && l.input <= c.input
      && c.output <= l.output
  {
    forall x
      ensures StepsWithin(Step, x)
    {
      StepWithin(x);
    }
    RunWithFrame(Step, c, fuel);
  }

  /** Being a prefix is transitive. */
  lemma PrefixTransitive<T>(a: seq<T>, b: seq<T>, c: seq<T>)
    requires a <= b && b <= c
    ensures a <= c
  {
    assert c[..|b|][..|a|] == c[..|a|];
  }

  /** The program of the library's unit test: it compares its input with 8. */
  const CompareProgram: seq<Word> :=
    [3, 21, 1008, 21, 8, 20, 1005, 20, 22, 107, 8, 21, 20, 1006, 20, 31] +
    [1106, 0, 36, 98, 0, 0, 1002, 21, 125, 20, 4, 20, 1105, 1, 46, 104] +
    [999, 1105, 1, 46, 1101, 1000, 1, 20, 4, 20, 1105, 1, 46, 98, 99]

  /** The test program's memory with `x` stored at 21 and `v` at 20, the only cells it
      writes. */
  function CompareMemory(v: Word, x: Word): seq<Word>
  {
    CompareProgram[21 := x][20 := v]
  }

  /** A step `Run` takes from `c` to `c'` when `op` decodes at `c.pc`. */
  lemma Advance(c: Config, op: Operation, c': Config, fuel: nat, rest: nat)
    requires fuel == rest + 1
    requires Decode(c.memory, c.pc) == Ok(op) && Apply(op, c) == Ok(Continue(c'))
    ensures Run(c, fuel) == Run(c', rest)
  {
    RunContinues(c, c', fuel, rest);
  }

  // The steps of the test program, one lemma per instruction.

  lemma CompareReads(x: Word, fuel: nat, rest: nat)
    requires fuel == rest + 1
    ensures Run(Config(CompareProgram, 0, [x], []), fuel) ==
      Run(Config(CompareProgram[21 := x], 2, [], []), rest)
  {
    assert Decode(CompareProgram, 0) == Ok(Input(Immediate(21)));
    assert [x][..0] == [];
    Advance(Config(CompareProgram, 0, [x], []), Input(Immediate(21)),
      Config(CompareProgram[21 := x], 2, [], []), fuel, rest);
  }

  lemma CompareEquals(x: Word, fuel: nat, rest: nat)
    requires fuel == rest + 1
    ensures Run(Config(CompareProgram[21 := x], 2, [], []), fuel) ==
      Run(Config(CompareMemory(if x == 8 then 1 else 0, x), 6, [], []), rest)
  {
    var m := CompareProgram[21 := x];
    var op := Equals(Position(21), Immediate(8), Immediate(20));
    assert Decode(m, 2) == Ok(op);
    Advance(Config(m, 2, [], []), op, Config(CompareMemory(if x == 8 then 1 else 0, x), 6, [], []), fuel, rest);
  }

  lemma CompareJumpsIfEqual(v: Word, x: Word, fuel: nat, rest: nat)
    requires fuel == rest + 1
    ensures Run(Config(CompareMemory(v, x), 6, [], []), fuel) ==
      Run(Config(CompareMemory(v, x), if v != 0 then 22 else 9, [], []), rest)
  {
    var m := CompareMemory(v, x);
    var op := JumpIfTrue(Position(20), Immediate(22));
    assert Decode(m, 6) == Ok(op);
    Advance(Config(m, 6, [], []), op, Config(m, if v != 0 then 22 else 9, [], []), fuel, rest);
  }

  lemma CompareMultiplies(v: Word, fuel: nat, rest: nat)
    requires fuel == rest + 1
    ensures Run(Config(CompareMemory(v, 8), 22, [], []), fuel) ==
      Run(Config(CompareMemory(1000, 8), 26, [], []), rest)
  {
    var m := CompareMemory(v, 8);
    var op := Multiply(Position(21), Immediate(125), Immediate(20));
    assert Decode(m, 22) == Ok(op);
    assert m[20 := 1000] == CompareMemory(1000, 8);
    Advance(Config(m, 22, [], []), op, Config(CompareMemory(1000, 8), 26, [], []), fuel, rest);
  }

  lemma CompareLessThan(v: Word, x: Word, fuel: nat, rest: nat)
    requires fuel == rest + 1
    ensures Run(Config(CompareMemory(v, x), 9, [], []), fuel) ==
      Run(Config(CompareMemory(if 8 < x then 1 else 0, x), 13, [], []), rest)
  {
    var m := CompareMemory(v, x);
    var m' := CompareMemory(if 8 < x then 1 else 0, x);
    var op := LessThan(Immediate(8), Position(21), Immediate(20));
    assert Decode(m, 9) == Ok(op);
    assert m[20 := if 8 < x then 1 else 0] == m';
    Advance(Config(m, 9, [], []), op, Config(m', 13, [], []), fuel, rest);
  }

  lemma CompareJumpsIfBelow(v: Word, x: Word, fuel: nat, rest: nat)
    requires fuel == rest + 1
    ensures Run(Config(CompareMemory(v, x), 13, [], []), fuel) ==
      Run(Config(CompareMemory(v, x), if v == 0 then 31 else 16, [], []), rest)
  {
    var m := CompareMemory(v, x);
    var op := JumpIfFalse(Position(20), Immediate(31));
    assert Decode(m, 13) == Ok(op);
    Advance(Config(m, 13, [], []), op, Config(m, if v == 0 then 31 else 16, [], []), fuel, rest);
  }

  lemma CompareOutputsBelow(v: Word, x: Word, fuel: nat, rest: nat)
    requires fuel == rest + 1
    ensures Run(Config(CompareMemory(v, x), 31, [], []), fuel) ==
      Run(Config(CompareMemory(v, x), 33, [], [999]), rest)
  {
    var m := CompareMemory(v, x);
    var op := Output(Immediate(999));
    assert Decode(m, 31) == Ok(op);
    assert [] + [999] == [999];
    Advance(Config(m, 31, [], []), op, Config(m, 33, [], [999]), fuel, rest);
  }

  lemma CompareJumpsAbove(v: Word, x: Word, fuel: nat, rest: nat)
    requires fuel == rest + 1
    ensures Run(Config(CompareMemory(v, x), 16, [], []), fuel) ==
      Run(Config(CompareMemory(v, x), 36, [], []), rest)
  {
    var m := CompareMemory(v, x);
    var op := JumpIfFalse(Immediate(0), Immediate(36));
    assert m[16] == 1106;
    NonNegativeDigits(m[16]);
    assert Decode(m, 16) == Ok(op);
    Advance(Config(m, 16, [], []), op, Config(m, 36, [], []), fuel, rest);
  }

  lemma CompareAdds(v: Word, x: Word, fuel: nat, rest: nat)
    requires fuel == rest + 1
    ensures Run(Config(CompareMemory(v, x), 36, [], []), fuel) ==
      Run(Config(CompareMemory(1001, x), 40, [], []), rest)
  {
    var m := CompareMemory(v, x);
    var op := Add(Immediate(1000), Immediate(1), Immediate(20));
    assert m[36] == 1101;
    NonNegativeDigits(m[36]);
    assert Decode(m, 36) == Ok(op);
    assert m[20 := 1001] == CompareMemory(1001, x);
    Advance(Config(m, 36, [], []), op, Config(CompareMemory(1001, x), 40, [], []), fuel, rest);
  }

  /** `1105,1,46` at 28, 33 or 42 jumps to the final `99`, which halts. */
  lemma CompareJumpsToEnd(v: Word, x: Word, pc: nat, output: seq<Word>, fuel: nat, rest: nat)
    requires pc == 28 || pc == 33 || pc == 42
    requires fuel == rest + 1 && rest >= 1
    ensures Run(Config(CompareMemory(v, x), pc, [], output), fuel) ==
      Halted(Config(CompareMemory(v, x), 46, [], output))
  {
    var m := CompareMemory(v, x);
    var c := Config(m, pc, [], output);
    assert m[pc] == 1105;
    NonNegativeDigits(m[pc]);
    assert Decode(m, pc) == Ok(JumpIfTrue(Immediate(1), Immediate(46)));
    Advance(c, JumpIfTrue(Immediate(1), Immediate(46)), c.(pc := 46), fuel, rest);
    assert Decode(m, 46) == Ok(Halt);
    RunHalts(c.(pc := 46), rest);
  }

  /** `4,20` at 26 or 40 prints the cell 20, then the program jumps to its end and halts. */
  lemma CompareOutputsResult(v: Word, x: Word, pc: nat, fuel: nat, rest: nat)
    requires pc == 26 || pc == 40
    requires fuel == rest + 1 && rest >= 2
    ensures var o := Run(Config(CompareMemory(v, x), pc, [], []), fuel);
      o.Halted? && o.final.output == [v]
  {
    var m := CompareMemory(v, x);
    var c := Config(m, pc, [], []);
    var c' := Config(m, pc + 2, [], [v]);
    assert Decode(m, pc) == Ok(Output(Position(20)));
    assert [] + [v] == [v];
    Advance(c, Output(Position(20)), c', fuel, rest);
    CompareJumpsToEnd(v, x, pc + 2, [v], rest, rest - 1);
  }

  lemma CompareAtEight(fuel: nat)
    requires fuel == 8
    ensures var o := Run(Config(CompareMemory(1, 8), 6, [], []), fuel);
      o.Halted? && o.final.output == [1000]
  {
    CompareJumpsIfEqual(1, 8, 8, 7);
    CompareMultiplies(1, 7, 6);
    CompareOutputsResult(1000, 8, 26, 6, 5);
  }

  lemma CompareBelowEight(x: Word, fuel: nat)
    requires x < 8 && fuel == 8
    ensures var o := Run(Config(CompareMemory(0, x), 6, [], []), fuel);
      o.Halted? && o.final.output == [999]
  {
    CompareJumpsIfEqual(0, x, 8, 7);
    CompareLessThan(0, x, 7, 6);
    CompareJumpsIfBelow(0, x, 6, 5);
    CompareOutputsBelow(0, x, 5, 4);
    CompareJumpsToEnd(0, x, 33, [999], 4, 3);
  }

  lemma CompareAboveEight(x: Word, fuel: nat)
    requires x > 8 && fuel == 8
    ensures var o := Run(Config(CompareMemory(0, x), 6, [], []), fuel);
      o.Halted? && o.final.output == [1001]
  {
    CompareJumpsIfEqual(0, x, 8, 7);
    CompareLessThan(0, x, 7, 6);
    CompareJumpsIfBelow(1, x, 6, 5);
    CompareJumpsAbove(1, x, 5, 4);
    CompareAdds(1, x, 4, 3);
    CompareOutputsResult(1001, x, 40, 3, 2);
  }

  /** The test program outputs 999 below 8, 1000 at 8 and 1001 above 8, for every input word,
      and halts within ten instructions. */
  lemma CompareProgramOutput(x: Word)
    ensures var o := Run(Config(CompareProgram, 0, [x], []), 10);
      && o.Halted?
      && o.final.output == [if x < 8 then 999 else if x == 8 then 1000 else 1001]
  {
    CompareReads(x, 10, 9);
    CompareEquals(x, 9, 8);
    if x == 8 {
      CompareAtEight(8);
    } else if x < 8 {
      CompareBelowEight(x, 8);
    } else {
      CompareAboveEight(x, 8);
    }
  }

  /** A program that reads and prints a value twice. */
  const EchoProgram: seq<Word> := [3, 0, 4, 0, 3, 0, 4, 0, 99]

  /** Input is taken from the end of the input vector: reading and echoing twice prints the
      two inputs in reverse order. */
  lemma InputIsLastInFirstOut(a: Word, b: Word)
    ensures var o := Run(Config(EchoProgram, 0, [a, b], []), 5);
      o.Halted? && o.final.output == [b, a] && o.final.input == []
  {
    var p := EchoProgram;
    var c0 := Config(p, 0, [a, b], []);
    var c1 := Config(p[0 := b], 2, [a], []);
    var c2 := c1.(pc := 4, output := [b]);
    var c3 := Config(p[0 := a], 6, [], [b]);
    var c4 := c3.(pc := 8, output := [b, a]);
    EchoReadsLast(a, b);
    EchoWritesLast(a, b);
    EchoReadsFirst(a, b);
    EchoWritesFirst(a, b);
    EchoHalts(a, b);
    RunContinues(c0, c1, 5, 4);
    RunContinues(c1, c2, 4, 3);
    RunContinues(c2, c3, 3, 2);
    RunContinues(c3, c4, 2, 1);
    RunHalts(c4, 1);
  }

  // The steps of the echo program, one lemma per instruction.

  lemma EchoReadsLast(a: Word, b: Word)
    ensures Step(Config(EchoProgram, 0, [a, b], [])) ==
      Ok(Continue(Config(EchoProgram[0 := b], 2, [a], [])))
  {
    assert Decode(EchoProgram, 0) == Ok(Input(Immediate(0)));
    assert [a, b][..1] == [a];
  }

  lemma EchoWritesLast(a: Word, b: Word)
    ensures Step(Config(EchoProgram[0 := b], 2, [a], [])) ==
      Ok(Continue(Config(EchoProgram[0 := b], 4, [a], [b])))
  {
    assert Decode(EchoProgram[0 := b], 2) == Ok(Output(Position(0)));
    assert [] + [b] == [b];
  }

  lemma EchoReadsFirst(a: Word, b: Word)
    ensures Step(Config(EchoProgram[0 := b], 4, [a], [b])) ==
      Ok(Continue(Config(EchoProgram[0 := a], 6, [], [b])))
  {
    assert Decode(EchoProgram[0 := b], 4) == Ok(Input(Immediate(0)));
    assert [a][..0] == [];
    assert EchoProgram[0 := b][0 := a] == EchoProgram[0 := a];
  }

  lemma EchoWritesFirst(a: Word, b: Word)
    ensures Step(Config(EchoProgram[0 := a], 6, [], [b])) ==
      Ok(Continue(Config(EchoProgram[0 := a], 8, [], [b, a])))
  {
    assert Decode(EchoProgram[0 := a], 6) == Ok(Output(Position(0)));
    assert [b] + [a] == [b, a];
  }

  lemma EchoHalts(a: Word, b: Word)
    ensures Step(Config(EchoProgram[0 := a], 8, [], [b, a])) == Ok(Stop)
  {
    assert Decode(EchoProgram[0 := a], 8) == Ok(Halt);
  }
}
