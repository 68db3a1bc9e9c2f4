/** What `Operation::decode` accepts and rejects, and the instruction encoding it inverts. */
module IntCodeDecoding {
  import opened Outcomes
  import opened IntCode

  /** A non-negative instruction word whose opcode and mode digits `decode` accepts: mode
      digits 0 or 1 for each parameter, the third (output) mode being all digits above the
      thousands; the jumps ignore every digit above their two modes; 99 must stand alone. */
  predicate ValidInstruction(w: Word)
  {
    w >= 0 &&
    var opcode, params := w % 100, w / 100;
    if opcode == 1 || opcode == 2 || opcode == 7 || opcode == 8 then
      params % 10 <= 1 && params / 10 % 10 <= 1 && params / 100 <= 1
    else if opcode == 3 || opcode == 4 then
      params <= 1
    else if opcode == 5 || opcode == 6 then
      params % 10 <= 1 && params / 10 % 10 <= 1
    else
      w == 99
  }

  /** The number of words the instruction `w` occupies, read off its opcode. */
  function InstructionLength(w: Word): (n: nat)
    ensures 1 <= n <= 4
  {
    var opcode := w % 100;
    if opcode == 1 || opcode == 2 || opcode == 7 || opcode == 8 then 4
    else if opcode == 3 || opcode == 4 then 2
    else if opcode == 5 || opcode == 6 then 3
    else 1
  }

  /** On a non-negative word Rust's `%` and `/` agree with Dafny's. */
  lemma NonNegativeDigits(w: Word)
    requires w >= 0
    ensures Rem(w, 100) == w % 100 && Quot(w, 100) == w / 100
    ensures Rem(w / 100, 10) == w / 100 % 10 && Quot(w / 100, 10) == w / 100 / 10
    ensures Rem(w / 100 / 10, 10) == w / 100 / 10 % 10 && Quot(w / 100, 100) == w / 100 / 100
  {
  }

  /** A negative word has a non-positive opcode, so no opcode matches. */
  lemma NegativeOpcode(w: Word)
    requires w < 0
    ensures Rem(w, 100) <= 0
  {
  }

  /** `decode` succeeds exactly on a valid instruction word whose parameters lie inside
      memory, and the operation's length is the one its opcode announces. */
  lemma DecodeSucceeds(memory: seq<Word>, pc: nat)
    ensures Decode(memory, pc).Ok? <==>
      pc < |memory| && ValidInstruction(memory[pc]) && pc + InstructionLength(memory[pc]) <= |memory|
    ensures Decode(memory, pc).Ok? ==> Length(Decode(memory, pc).value) == InstructionLength(memory[pc])
  {
    if pc < |memory| {
      var w := memory[pc];
      if w >= 0 {
        NonNegativeDigits(w);
      } else {
        NegativeOpcode(w);
      }
    }
  }

  /** The two ways `decode` fails: an index beyond memory, or the instruction word itself. */
  lemma DecodeFaults(memory: seq<Word>, pc: nat)
    ensures pc >= |memory| ==> Decode(memory, pc) == Err(IndexOutOfBounds(pc))
    ensures Decode(memory, pc).Err? ==>
      || (Decode(memory, pc).error.IndexOutOfBounds? &&
          |memory| <= Decode(memory, pc).error.index < pc + 4)
      || (pc < |memory| && !ValidInstruction(memory[pc]) &&
          Decode(memory, pc).error == UnrecognisedOpcode(memory[pc]))
    ensures pc < |memory| && pc + 4 <= |memory| && !ValidInstruction(memory[pc]) ==>
      Decode(memory, pc) == Err(UnrecognisedOpcode(memory[pc]))
  {
    if pc < |memory| {
      var w := memory[pc];
      if w >= 0 {
        NonNegativeDigits(w);
      } else {
        NegativeOpcode(w);
      }
    }
  }

  /** The inverse of `as usize` on the words that reach it. */
  function FromUsize(a: nat): (w: Word)
    requires a < UsizeModulus
    ensures AsUsize(w) == a
  {
    if a <= WordMax then a else a - UsizeModulus
  }

  /** A parameter an instruction word can denote: a `usize` address. */
  predicate EncodableParameter(p: Parameter)
  {
    p.Position? ==> p.addr < UsizeModulus
  }

  predicate Encodable(op: Operation)
  {
    forall p <- Parameters(op) :: EncodableParameter(p)
  }

  /** The raw word a parameter is decoded from. */
  function Raw(p: Parameter): (w: Word)
    requires EncodableParameter(p)
    ensures p.Immediate? ==> w == p.val
    ensures p.Position? ==> AsUsize(w) == p.addr
  {
    match p
    case Immediate(v) => v
    case Position(a) => FromUsize(a)
  }

  /** The mode digit of an input parameter. */
  function InMode(p: Parameter): int
  {
    if p.Position? then 0 else 1
  }

  /** The mode digit of an output parameter (the library reads it the other way round). */
  function OutMode(p: Parameter): int
  {
    if p.Immediate? then 0 else 1
  }

  /** The instruction word of `op`, with the smallest mode prefix. */
  function Instruction(op: Operation): (w: Word)
  {
    match op
    case Add(a, b, out) => 1 + 100 * InMode(a) + 1000 * InMode(b) + 10000 * OutMode(out)
    case Multiply(a, b, out) => 2 + 100 * InMode(a) + 1000 * InMode(b) + 10000 * OutMode(out)
    case Input(out) => 3 + 100 * OutMode(out)
    case Output(a) => 4 + 100 * InMode(a)
    case JumpIfTrue(a, t) => 5 + 100 * InMode(a) + 1000 * InMode(t)
    case JumpIfFalse(a, t) => 6 + 100 * InMode(a) + 1000 * InMode(t)
    case LessThan(a, b, out) => 7 + 100 * InMode(a) + 1000 * InMode(b) + 10000 * OutMode(out)
    case Equals(a, b, out) => 8 + 100 * InMode(a) + 1000 * InMode(b) + 10000 * OutMode(out)
    case Halt => 99
  }

  /** Splitting an instruction word built from an opcode and three mode bits. */
  lemma InstructionDigits(opcode: int, m1: int, m2: int, m3: int)
    requires 0 <= opcode < 100 && 0 <= m1 <= 1 && 0 <= m2 <= 1 && 0 <= m3 <= 1
    ensures var w := opcode + 100 * m1 + 1000 * m2 + 10000 * m3;
      && w % 100 == opcode && w / 100 == m1 + 10 * m2 + 100 * m3
      && w / 100 % 10 == m1 && w / 100 / 10 % 10 == m2 && w / 100 / 100 == m3
      && w % 10000 == opcode + 100 * m1 + 1000 * m2
  {
    if m1 == 0 {
      if m2 == 0 {
        if m3 == 0 { } else { }
      } else {
        if m3 == 0 { } else { }
      }
    } else {
      if m2 == 0 {
        if m3 == 0 { } else { }
      } else {
        if m3 == 0 { } else { }
      }
    }
  }

  /** `Instruction` splits back into the opcode and mode digits it was built from. */
  lemma InstructionSplits(op: Operation)
    ensures var w := Instruction(op);
      && w >= 0
      && match op
        case Add(a, b, out) => w % 100 == 1 && ThreeModes(w / 100, InMode(a), InMode(b), OutMode(out))
        case Multiply(a, b, out) => w % 100 == 2 && ThreeModes(w / 100, InMode(a), InMode(b), OutMode(out))
        case Input(out) => w % 100 == 3 && w / 100 == OutMode(out)
        case Output(a) => w % 100 == 4 && w / 100 == InMode(a)
        case JumpIfTrue(a, t) => w % 100 == 5 && ThreeModes(w / 100, InMode(a), InMode(t), 0)
        case JumpIfFalse(a, t) => w % 100 == 6 && ThreeModes(w / 100, InMode(a), InMode(t), 0)
        case LessThan(a, b, out) => w % 100 == 7 && ThreeModes(w / 100, InMode(a), InMode(b), OutMode(out))
        case Equals(a, b, out) => w % 100 == 8 && ThreeModes(w / 100, InMode(a), InMode(b), OutMode(out))
        case Halt => w == 99
  {
    match op
    case Add(a, b, out) => InstructionDigits(1, InMode(a), InMode(b), OutMode(out));
    case Multiply(a, b, out) => InstructionDigits(2, InMode(a), InMode(b), OutMode(out));
    case Input(out) => InstructionDigits(3, OutMode(out), 0, 0);
    case Output(a) => InstructionDigits(4, InMode(a), 0, 0);
    case JumpIfTrue(a, t) => InstructionDigits(5, InMode(a), InMode(t), 0);
    case JumpIfFalse(a, t) => InstructionDigits(6, InMode(a), InMode(t), 0);
    case LessThan(a, b, out) => InstructionDigits(7, InMode(a), InMode(b), OutMode(out));
    case Equals(a, b, out) => InstructionDigits(8, InMode(a), InMode(b), OutMode(out));
    case Halt =>
  }

  /** The mode prefix `params` holds the three mode digits `m1`, `m2`, `m3` as `decode`
      extracts them. */
  predicate ThreeModes(params: int, m1: int, m2: int, m3: int)
  {
    params % 10 == m1 && params / 10 % 10 == m2 && params / 100 == m3
  }

  function RawWords(ps: seq<Parameter>): (ws: seq<Word>)
    requires forall p <- ps :: EncodableParameter(p)
    ensures |ws| == |ps|
    ensures forall i :: 0 <= i < |ps| ==> ws[i] == Raw(ps[i])
  {
    if ps == [] then [] else [Raw(ps[0])] + RawWords(ps[1..])
  }

  /** The words of an instruction: its instruction word and one raw word per parameter. */
  function Encode(op: Operation): (ws: seq<Word>)
    requires Encodable(op)
    ensures |ws| == Length(op)
    ensures ws[0] == Instruction(op)
  {
    [Instruction(op)] + RawWords(Parameters(op))
  }

  lemma InParameterEncoded(p: Parameter, memory: seq<Word>, at: nat, full: Word)
    requires EncodableParameter(p) && at < |memory| && memory[at] == Raw(p)
    ensures InParameter(InMode(p), memory, at, full) == Ok(p)
  {
  }

  lemma OutParameterEncoded(p: Parameter, memory: seq<Word>, at: nat, full: Word)
    requires EncodableParameter(p) && at < |memory| && memory[at] == Raw(p)
    ensures OutParameter(OutMode(p), memory, at, full) == Ok(p)
  {
  }

  /** `decode` reads back an encodable operation from the words of its encoding. */
  lemma DecodeEncoded(memory: seq<Word>, pc: nat, op: Operation)
    requires Encodable(op) && pc + Length(op) <= |memory|
    requires memory[pc..pc + Length(op)] == Encode(op)
    ensures Decode(memory, pc) == Ok(op)
  {
    var ws := Encode(op);
    assert memory[pc] == ws[0];
    if op.Add? || op.Multiply? || op.LessThan? || op.Equals? {
      assert ws == [ws[0], Raw(op.a), Raw(op.b), Raw(op.out)];
      assert memory[pc + 1] == ws[1] && memory[pc + 2] == ws[2] && memory[pc + 3] == ws[3];
      DecodeThreeParameters(memory, pc, op);
    } else if IsJump(op) {
      assert ws == [ws[0], Raw(op.a), Raw(op.target)];
      assert memory[pc + 1] == ws[1] && memory[pc + 2] == ws[2];
      DecodeJump(memory, pc, op);
    } else {
      var ps := Parameters(op);
      assert forall i :: 0 <= i < |ps| ==> memory[pc + 1 + i] == ws[1 + i] == Raw(ps[i]);
      InstructionSplits(op);
      NonNegativeDigits(Instruction(op));
    }
  }

  /** `decode` reads back an encodable operation with three parameters. */
  lemma DecodeThreeParameters(memory: seq<Word>, pc: nat, op: Operation)
    requires op.Add? || op.Multiply? || op.LessThan? || op.Equals?
    requires pc + 4 <= |memory| && memory[pc] == Instruction(op)
    requires EncodableParameter(op.a) && EncodableParameter(op.b) && EncodableParameter(op.out)
    requires memory[pc + 1] == Raw(op.a) && memory[pc + 2] == Raw(op.b) && memory[pc + 3] == Raw(op.out)
    ensures Decode(memory, pc) == Ok(op)
  {
    var w := Instruction(op);
    InstructionSplits(op);
    NonNegativeDigits(w);
    InParameterEncoded(op.a, memory, pc + 1, w);
    InParameterEncoded(op.b, memory, pc + 2, w);
    OutParameterEncoded(op.out, memory, pc + 3, w);
  }

  /** `decode` reads back an encodable jump. */
  lemma DecodeJump(memory: seq<Word>, pc: nat, op: Operation)
    requires IsJump(op)
    requires pc + 3 <= |memory| && memory[pc] == Instruction(op)
    requires EncodableParameter(op.a) && EncodableParameter(op.target)
    requires memory[pc + 1] == Raw(op.a) && memory[pc + 2] == Raw(op.target)
    ensures Decode(memory, pc) == Ok(op)
  {
    var w := Instruction(op);
    InstructionSplits(op);
    NonNegativeDigits(w);
    InParameterEncoded(op.a, memory, pc + 1, w);
    InParameterEncoded(op.target, memory, pc + 2, w);
  }

  /** `decode` reads back every encodable operation, wherever it sits in memory. */
  lemma DecodeEncode(prefix: seq<Word>, op: Operation, suffix: seq<Word>)
    requires Encodable(op)
    ensures Decode(prefix + Encode(op) + suffix, |prefix|) == Ok(op)
  {
    var m := prefix + Encode(op) + suffix;
    assert m[|prefix|..|prefix| + Length(op)] == Encode(op);
    DecodeEncoded(m, |prefix|, op);
  }

  lemma FromUsizeAsUsize(w: Word)
    ensures FromUsize(AsUsize(w)) == w
  {
  }

  lemma InParameterDecoded(mode: int, memory: seq<Word>, at: nat, full: Word)
    requires InParameter(mode, memory, at, full).Ok?
    ensures var p := InParameter(mode, memory, at, full).value;
      at < |memory| && EncodableParameter(p) && InMode(p) == mode && Raw(p) == memory[at]
  {
    FromUsizeAsUsize(memory[at]);
  }

  lemma OutParameterDecoded(mode: int, memory: seq<Word>, at: nat, full: Word)
    requires OutParameter(mode, memory, at, full).Ok?
    ensures var p := OutParameter(mode, memory, at, full).value;
      at < |memory| && EncodableParameter(p) && OutMode(p) == mode && Raw(p) == memory[at]
  {
    FromUsizeAsUsize(memory[at]);
  }

  /** A non-negative word is its opcode plus its mode digits in place. */
  lemma Reassemble(w: int)
    requires w >= 0
    ensures w == w % 100 + 100 * (w / 100 % 10) + 1000 * (w / 100 / 10 % 10) + 10000 * (w / 100 / 100)
    ensures w % 10000 == w % 100 + 100 * (w / 100 % 10) + 1000 * (w / 100 / 10 % 10)
  {
    var q := w / 100;
    assert w == w % 100 + 100 * q;
    assert q == q % 10 + 10 * (q / 10);
    assert q / 10 == q / 10 % 10 + 10 * (q / 100);
    assert w == w % 100 + 100 * (q % 10) + 1000 * (q / 10 % 10) + 10000 * (q / 100);
    assert w % 10000 == w % 100 + 100 * (q % 10) + 1000 * (q / 10 % 10);
  }

  /** `op`, decoded at `pc`, is the encoding of the words it was read from. */
  predicate ReadsEncoding(memory: seq<Word>, pc: nat, op: Operation)
  {
    && Encodable(op)
    && pc < pc + Length(op) <= |memory|
    && memory[pc + 1..pc + Length(op)] == Encode(op)[1..]
    && (if IsJump(op) then memory[pc] % 10000 == Instruction(op) else memory[pc] == Instruction(op))
  }

  lemma DecodeReadsArithmetic(memory: seq<Word>, pc: nat)
    requires Decode(memory, pc).Ok?
    requires var w := memory[pc]; w >= 0 && (w % 100 == 1 || w % 100 == 2 || w % 100 == 7 || w % 100 == 8)
    ensures ReadsEncoding(memory, pc, Decode(memory, pc).value)
  {
    var w := memory[pc];
    NonNegativeDigits(w);
    var op := Decode(memory, pc).value;
    InParameterDecoded(w / 100 % 10, memory, pc + 1, w);
    InParameterDecoded(w / 100 / 10 % 10, memory, pc + 2, w);
    OutParameterDecoded(w / 100 / 100, memory, pc + 3, w);
    assert op.Add? || op.Multiply? || op.LessThan? || op.Equals?;
    Reassemble(w);
    assert w == Instruction(op);
    ThreeParametersRead(memory, pc, op);
  }

  /** An operation with three parameters whose words are in memory after its instruction
      word. */
  lemma ThreeParametersRead(memory: seq<Word>, pc: nat, op: Operation)
    requires op.Add? || op.Multiply? || op.LessThan? || op.Equals?
    requires pc + 4 <= |memory| && memory[pc] == Instruction(op)
    requires EncodableParameter(op.a) && EncodableParameter(op.b) && EncodableParameter(op.out)
    requires memory[pc + 1] == Raw(op.a) && memory[pc + 2] == Raw(op.b) && memory[pc + 3] == Raw(op.out)
    ensures ReadsEncoding(memory, pc, op)
  {
    assert memory[pc + 1..pc + 4] == Encode(op)[1..];
  }

  lemma DecodeReadsJump(memory: seq<Word>, pc: nat)
    requires Decode(memory, pc).Ok?
    requires var w := memory[pc]; w >= 0 && (w % 100 == 5 || w % 100 == 6)
    ensures ReadsEncoding(memory, pc, Decode(memory, pc).value)
  {
    var w := memory[pc];
    NonNegativeDigits(w);
    Reassemble(w);
    var op := Decode(memory, pc).value;
    InParameterDecoded(w / 100 % 10, memory, pc + 1, w);
    InParameterDecoded(w / 100 / 10 % 10, memory, pc + 2, w);
    assert memory[pc + 1..pc + 3] == Encode(op)[1..];
  }

  lemma DecodeReadsInputOutput(memory: seq<Word>, pc: nat)
    requires Decode(memory, pc).Ok?
    requires var w := memory[pc]; w >= 0 && (w % 100 == 3 || w % 100 == 4)
    ensures ReadsEncoding(memory, pc, Decode(memory, pc).value)
  {
    var w := memory[pc];
    NonNegativeDigits(w);
    var op := Decode(memory, pc).value;
    FromUsizeAsUsize(memory[pc + 1]);
    assert memory[pc + 1..pc + 2] == Encode(op)[1..];
    assert w == w % 100 + 100 * (w / 100);
  }

  /** Conversely, a decoded operation is the encoding of the words it was read from; only
      the jumps have digits (above their two modes) that `decode` ignores. */
  lemma DecodeReadsEncoding(memory: seq<Word>, pc: nat)
    requires Decode(memory, pc).Ok?
    ensures ReadsEncoding(memory, pc, Decode(memory, pc).value)
  {
    var w := memory[pc];
    if w < 0 {
      NegativeOpcode(w);
      assert false;
    }
    NonNegativeDigits(w);
    var opcode := w % 100;
    if opcode == 1 || opcode == 2 || opcode == 7 || opcode == 8 {
      DecodeReadsArithmetic(memory, pc);
    } else if opcode == 3 || opcode == 4 {
      DecodeReadsInputOutput(memory, pc);
    } else if opcode == 5 || opcode == 6 {
      DecodeReadsJump(memory, pc);
    }
  }
}
