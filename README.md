# Advent of Code solutions (2019 and 2020, Rust): a verified model

This project models the computational kernels of a collection of Rust Advent of Code solutions, one Dafny module per source file:

- **Intcode machine** (`2019/int_code/src/lib.rs`), in modules `IntCode`, `IntCodeDecoding` and `IntCodeRunning`. It is a fetch–decode–execute machine over `i64` memory with a `usize` program counter.
  - `Operation::decode` splits a word into an opcode and decimal mode digits, using Rust's truncating `/` and `%`.
  - `Operation::execute` applies one of nine operations.
  - `Machine::execute` loops until `Halt`.
  - Input is a vector consumed from its end with `pop`; output is returned as a vector.
  - Every panic path is a `Fault` value: an unrecognised opcode or mode, an out-of-range index (a negative word cast `as usize` lands far beyond memory), an empty input, and `i64` overflow in a debug build.
  - `Machine` is a class over a memory array, `pc` and input. Its `Execute` is proved against a functional step relation, and the properties of the machine are proved about that relation.
  - The output parameter modes are modelled exactly as `lib.rs` assigns them.
- **Day 2 interpreter** (`2019/day2/src/main.rs`), module `ProgramAlarm`: the earlier add/multiply interpreter that rewrites an `i32` slice in place, stepping `pc` by 4.
- **2020 solutions:**
  - boarding passes (`BinaryBoarding`, day 5);
  - passport validation (`PassportProcessing`, day 4);
  - customs answer masks (`CustomCustoms`, day 6);
  - password policies (`PasswordPhilosophy`, day 2).
- **2019 solutions:**
  - fuel requirements (`FuelCounter` for `day1` and the simple fuel of `day01`, `RocketEquation` for `day01`);
  - wire segments (`CrossedWires`, day 3);
  - increasing-digit passwords (`SecureContainer`, day 4);
  - the orbit tree (`OrbitMap`, day 6);
  - amplifier phase settings (`AmplifierPhases`, day 7);
  - the layered image (`SpaceImage`, day 8);
  - asteroid visibility (`MonitoringStation`, day 10);
  - the painting robot's turtle (`HullPainting`, day 11);
  - moon gravity (`NBody`, day 12).
- **Shared modules:**
  - `Outcomes` holds `Option` and `Result`.
  - `Text` models the Rust string library behaviour the solutions rely on. `str::len` counts UTF-8 bytes. `split_whitespace` and `split` are covered. Integer `parse` accepts a leading `+` and rejects out-of-range values.
  - `Ordering` models `sort` followed by `dedup`.

Where a Rust program panics, the model returns an error value when there is an error path to follow. Examples are an overflowing `u32` fuel sum, an index past a short last image layer, and an out-of-range phase. Otherwise the model states the source's demand as a precondition. Fixed-width arithmetic is modelled by explicit range checks in the Intcode machines, the fuel sums, the wire coordinates, and the numeric parsers, and by a precondition on the robot's position; the accumulators listed under "## Left out" are unbounded here. Rust's `HashMap` and `HashSet` are Dafny maps and sets. Rust `max_by_key` keeps the last maximum and `min_by_key` the first minimum, and both are modelled that way.

Classes model the entities the source updates in place:
- `IntCode.Machine`;
- `NBody.Moons`, whose `Vec<Moon>` is a sequence of moon values;
- `HullPainting.Point`;
- `MonitoringStation.AsteroidField`;
- `OrbitMap.SolarSystem`.

Loops over local state are methods whose loop invariants tie them to a specification function. The specification functions carry the properties.

## Model

| member | source | states |
|---|---|---|
| IntCode.AsUsize | 2019/int_code/src/lib.rs:53-54 | a word cast with `as usize` is itself when non-negative and lands above every word value when negative, so a negative address can never be in range |
| IntCode.Length | 2019/int_code/src/lib.rs:130-142 | an instruction's length is one opcode word plus one word per parameter (4, 2, 3 or 1) |
| IntCode.Fetch | 2019/int_code/src/lib.rs:48 | reading memory succeeds exactly for in-range addresses and yields that cell; otherwise it is the index fault |
| IntCode.Checked | 2019/int_code/src/lib.rs:77-81 | an `i64` sum or product succeeds exactly when it is within the `i64` range (Rust debug overflow panic) |
| IntCode.WriteParameter | 2019/int_code/src/lib.rs:51-56 | `Parameter::write` on the machine's memory array does to the array what the value-level `Write` specifies, and faults without writing when the address is out of range |
| IntCode.Report | 2019/int_code/src/lib.rs:72-127 | the `Option<usize>` an operation returns: a fault exactly when the step faults, `None` exactly when it stops, `Some(next pc)` when it continues |
| IntCode.After | 2019/int_code/src/lib.rs:23-28 | the machine state after an operation is the next configuration when the step continues and is left as it was otherwise |
| IntCode.RunWithContinues | 2019/int_code/src/lib.rs:20-29 | one loop round of `Machine::execute`: a step that continues hands the rest of the run to the next configuration |
| IntCode.RunWithFaults | 2019/int_code/src/lib.rs:20-29 | a faulting step ends the run with that fault at the current configuration |
| IntCode.RunWithHalts | 2019/int_code/src/lib.rs:26-28 | a stopping step ends the run as halted at the current configuration |
| IntCode.RunContinues | 2019/int_code/src/lib.rs:20-29 | the same loop round for the machine's own step function |
| IntCode.RunFaults | 2019/int_code/src/lib.rs:20-29 | the same fault case for the machine's own step function |
| IntCode.RunHalts | 2019/int_code/src/lib.rs:26-28 | the same halt case for the machine's own step function |
| IntCode.StepDecoded | 2019/int_code/src/lib.rs:21-23 | one step decodes at pc and then executes the decoded operation; a decode fault is the step's fault |
| IntCode.Machine.constructor | 2019/int_code/src/lib.rs:10-16 | `Machine::new` holds the given memory and input with pc 0 |
| IntCode.Machine.ExecuteOperation | 2019/int_code/src/lib.rs:72-128 | `Operation::execute` on the machine's memory array, input and output does exactly what the step specification `Apply` describes, and returns the `Option<usize>` next pc |
| IntCode.Machine.ExecuteStore | 2019/int_code/src/lib.rs:76-87 | the arms with an output parameter (add, multiply, input, less-than, equals) on the memory array agree with `Apply` and leave the output vector alone |
| IntCode.Machine.Execute | 2019/int_code/src/lib.rs:18-31 | `Machine::execute` ends with exactly the status, outputs and final state of the specified run of the same length |
| IntCodeDecoding.InstructionLength | 2019/int_code/src/lib.rs:130-142 | the length implied by an instruction word is between 1 and 4 |
| IntCodeDecoding.DecodeSucceeds | 2019/int_code/src/lib.rs:144-212 | decode succeeds iff pc is in memory, the word is a recognised opcode with mode digits 0 or 1 (99 with no mode prefix), and all its parameter words are in memory; the decoded operation then has the word's length |
| IntCodeDecoding.DecodeFaults | 2019/int_code/src/lib.rs:144-212 | decode fails only on an index past the end (within the instruction's four words) or with "unrecognised opcode" for the word at pc, and a bad word with its words in memory is always that error |
| IntCodeDecoding.FromUsize | 2019/int_code/src/lib.rs:151 | every `usize` address is the `as usize` image of some word |
| IntCodeDecoding.Raw | 2019/int_code/src/lib.rs:150-163 | the raw parameter word of an operand: the value itself for immediate, a word whose `usize` cast is the address for position |
| IntCodeDecoding.RawWords | 2019/int_code/src/lib.rs:150-163 | the parameter words are exactly the raw words of the parameters, in order |
| IntCodeDecoding.Encode | 2019/int_code/src/lib.rs:144-212 | an encoded instruction occupies `Length(op)` words and starts with its opcode word |
| IntCodeDecoding.InParameterEncoded | 2019/int_code/src/lib.rs:150-159 | an input operand's mode digit and raw word decode back to that operand |
| IntCodeDecoding.OutParameterEncoded | 2019/int_code/src/lib.rs:160-163 | an output operand's mode digit and raw word decode back to that operand (mode 0 is `Immediate`, mode 1 is `Position`) |
| IntCodeDecoding.DecodeEncoded | 2019/int_code/src/lib.rs:144-212 | decoding the encoding of any encodable operation placed at pc gives that operation back |
| IntCodeDecoding.DecodeThreeParameters | 2019/int_code/src/lib.rs:149-171 | the round trip for add, multiply, less-than and equals |
| IntCodeDecoding.DecodeJump | 2019/int_code/src/lib.rs:187-202 | the round trip for the two conditional jumps |
| IntCodeDecoding.DecodeEncode | 2019/int_code/src/lib.rs:144-212 | decode(encode(op)) == op wherever the encoding sits in memory |
| IntCodeDecoding.FromUsizeAsUsize | 2019/int_code/src/lib.rs:151 | casting a word to `usize` and back is the identity |
| IntCodeDecoding.InParameterDecoded | 2019/int_code/src/lib.rs:150-159 | a decoded input operand is encodable, has the mode digit it came from and the raw word in memory |
| IntCodeDecoding.OutParameterDecoded | 2019/int_code/src/lib.rs:160-163 | the same for an output operand |
| IntCodeDecoding.Reassemble | 2019/int_code/src/lib.rs:146-160 | the opcode and the three mode digits put back together give the instruction word |
| IntCodeDecoding.DecodeReadsArithmetic | 2019/int_code/src/lib.rs:149-171 | a decoded three-operand instruction is exactly the encoding of what it decodes to |
| IntCodeDecoding.ThreeParametersRead | 2019/int_code/src/lib.rs:149-171 | memory holding the opcode word and the raw words is the encoding of the operation |
| IntCodeDecoding.DecodeReadsJump | 2019/int_code/src/lib.rs:187-202 | the same for the jumps |
| IntCodeDecoding.DecodeReadsInputOutput | 2019/int_code/src/lib.rs:173-186 | the same for input and output |
| IntCodeDecoding.DecodeReadsEncoding | 2019/int_code/src/lib.rs:144-212 | encode(decode(m, pc)) is the memory slice at pc, the other direction of the round trip |
| IntCodeRunning.WriteStores | 2019/int_code/src/lib.rs:51-56 | a successful write stores the value in exactly the addressed cell and nowhere else, leaving the length alone |
| IntCodeRunning.ApplyStores | 2019/int_code/src/lib.rs:76-87 | add, multiply, input, less-than and equals store their value through the output operand, change one cell at most, keep the output and advance pc by the length; input consumes the last input element |
| IntCodeRunning.ComparisonStoresBit | 2019/int_code/src/lib.rs:108-125 | less-than and equals store exactly 1 or 0, and 1 iff the comparison holds |
| IntCodeRunning.ApplyOutput | 2019/int_code/src/lib.rs:88-91 | output appends the operand's value and only advances pc by 2 |
| IntCodeRunning.ApplyJump | 2019/int_code/src/lib.rs:92-107 | a jump changes only pc: to the target's value when taken, to pc+3 otherwise; JumpIfTrue is taken iff its operand is nonzero, JumpIfFalse iff it is zero |
| IntCodeRunning.ApplyStops | 2019/int_code/src/lib.rs:126 | only `Halt` stops the machine |
| IntCodeRunning.InputExhaustedFaults | 2019/int_code/src/lib.rs:85 | input on an empty input vector fails (`pop().unwrap()` on `None`) |
| IntCodeRunning.DecodeHalt | 2019/int_code/src/lib.rs:204-209 | decode yields `Halt` iff the word at pc is exactly 99 |
| IntCodeRunning.StepFrame | 2019/int_code/src/lib.rs:72-127 | a step that continues changes at most one memory cell, removes at most the last input and appends at most one output |
| IntCodeRunning.RunWithHaltsAtHalt | 2019/int_code/src/lib.rs:18-31 | a run of a step function that stops only at a 99 word ends halted at a 99 word |
| IntCodeRunning.StepHaltsAtHalt | 2019/int_code/src/lib.rs:126-209 | the machine's step stops only where the word at pc is 99 |
| IntCodeRunning.RunHaltsAtHalt | 2019/int_code/src/lib.rs:18-31 | `Machine::execute` stops exactly when Halt is decoded: a halted run ends with pc on a 99 word |
| IntCodeRunning.RunWithMoreFuel | 2019/int_code/src/lib.rs:18-31 | a run that ended within some number of steps ends the same way with any larger bound |
| IntCodeRunning.RunMoreFuel | 2019/int_code/src/lib.rs:18-31 | the same for the machine, so the step bound does not change a finished run |
| IntCodeRunning.RunWithFrame | 2019/int_code/src/lib.rs:18-31 | steps that keep the frame keep it over a whole run |
| IntCodeRunning.StepWithin | 2019/int_code/src/lib.rs:72-127 | each machine step keeps the memory length, shortens input from the end and extends output |
| IntCodeRunning.RunFrame | 2019/int_code/src/lib.rs:18-31 | over any run the memory length is unchanged, the remaining input is a prefix of the original and the output only grows |
| IntCodeRunning.PrefixTransitive | 2019/int_code/src/lib.rs:84-91 | prefixes compose, which carries the input and output frames along a run |
| IntCodeRunning.Advance | 2019/int_code/src/lib.rs:20-29 | a decoded operation that continues advances the run by one step |
| IntCodeRunning.CompareProgramOutput | 2019/int_code/src/lib.rs:219-241 | the test program halts with output [999], [1000] or [1001] for any input below, equal to or above 8 |
| IntCodeRunning.InputIsLastInFirstOut | 2019/int_code/src/lib.rs:84-91 | input is taken from the end of the input vector and output appends in order: reading and echoing twice from [a, b] prints [b, a] |
| ProgramAlarm.AsUsize | 2019/day2/src/main.rs:33-35 | an `i32` cast with `as usize` is itself when non-negative and far beyond any memory otherwise |
| ProgramAlarm.Get | 2019/day2/src/main.rs:29-38 | indexing succeeds exactly in range and yields the cell; otherwise it is the index panic |
| ProgramAlarm.CheckedI32 | 2019/day2/src/main.rs:40-43 | an `i32` sum or product succeeds exactly within the `i32` range (debug overflow panic) |
| ProgramAlarm.StepKeepsLength | 2019/day2/src/main.rs:27-48 | a step keeps the memory length and changes no cell other than the storage address |
| ProgramAlarm.ExecuteInPlace | 2019/day2/src/main.rs:27-48 | the in-place loop over pc = 0, 4, 8, ... leaves the slice equal to the specified run and fails with the same error |
| ProgramAlarm.HaltWritesNothing | 2019/day2/src/main.rs:30-32 | opcode 99 ends execution with memory unchanged |
| ProgramAlarm.StepStores | 2019/day2/src/main.rs:33-44 | opcode 1 or 2 stores the sum or product of the two cells named by its operands, both read before the store, at the cell named by the third operand |
| ProgramAlarm.UnknownOpcodeFaults | 2019/day2/src/main.rs:45-47 | any other opcode is an error naming the opcode and pc |
| ProgramAlarm.ExecuteKeepsLength | 2019/day2/src/main.rs:27-48 | a whole run never changes the memory length |
| BinaryBoarding.Id | 2020/day05/src/main.rs:35-37 | `id = row * 8 + column`: below 1024 for any decoded seat, and its remainder mod 8 is the column's |
| BinaryBoarding.Binary | 2020/day05/src/main.rs:55-58 | the value of bits read most significant first (shift left, or in a one) is below 2 to the number of bits |
| BinaryBoarding.ParseSeat | 2020/day05/src/main.rs:43-72 | a seat is accepted only with row < 128, column < 8 and id < 1024 |
| BinaryBoarding.FromStr | 2020/day05/src/main.rs:43-72 | the character loop with its shifts and counters returns exactly what `ParseSeat` specifies |
| BinaryBoarding.AppendRowChar | 2020/day05/src/main.rs:55-56 | an F or B adds one row bit (B = 1) and leaves the column bits alone |
| BinaryBoarding.AppendColumnChar | 2020/day05/src/main.rs:57-58 | an L or R adds one column bit (R = 1) and leaves the row bits alone |
| BinaryBoarding.ScanRowChar | 2020/day05/src/main.rs:55-56 | after a row character the row is `row << 1`, or-ed with 1 for B |
| BinaryBoarding.ScanColumnChar | 2020/day05/src/main.rs:57-58 | after a column character the column is `column << 1`, or-ed with 1 for R |
| BinaryBoarding.BinaryAppend | 2020/day05/src/main.rs:55-58 | appending a bit doubles the value and adds the bit |
| BinaryBoarding.Encode | 2020/day05/src/main.rs:43-72 | the boarding pass of a seat has ten characters |
| BinaryBoarding.Spell | 2020/day05/src/main.rs:55-58 | a number spelled in a given width uses only the two letters and has that width |
| BinaryBoarding.SpellRows | 2020/day05/src/main.rs:55-56 | the row letters of a spelled row give back its bits and no column bits |
| BinaryBoarding.SpellColumns | 2020/day05/src/main.rs:57-58 | the column letters of a spelled column give back its bits and leave the row bits alone |
| BinaryBoarding.BitsOf | 2020/day05/src/main.rs:55-58 | the binary digits of a number in a fixed width |
| BinaryBoarding.BinaryBitsOf | 2020/day05/src/main.rs:55-58 | reading back a number's digits gives the number |
| BinaryBoarding.BitsOfBinary | 2020/day05/src/main.rs:55-58 | the digits of a bit sequence's value are that sequence |
| BinaryBoarding.ParseWellFormed | 2020/day05/src/main.rs:43-72 | ten F/B/L/R characters with seven row and three column characters decode to the binary values of their row and column bits |
| BinaryBoarding.ParseEncode | 2020/day05/src/main.rs:43-72 | parsing a seat's boarding pass gives the seat back |
| BinaryBoarding.ParseDecode | 2020/day05/src/main.rs:43-72 | an accepted pass has the same row and column bits as the encoding of its seat |
| BinaryBoarding.ParseSeatAccepts | 2020/day05/src/main.rs:44-71 | a pass is accepted iff it has length 10, only F/B/L/R characters, exactly seven row and three column characters |
| BinaryBoarding.ExampleFirst | 2020/day05/src/main.rs:80-95 | FBFBBFFRLR is row 44, column 5, id 357 |
| BinaryBoarding.ExampleSecond | 2020/day05/src/main.rs:98-113 | BFFFBBFRRR is row 70, column 7, id 567 |
| BinaryBoarding.ExampleThird | 2020/day05/src/main.rs:116-131 | FFFBBBFRRR is row 14, column 7, id 119 |
| BinaryBoarding.ExampleFourth | 2020/day05/src/main.rs:134-149 | BBFFBBFRLL is row 102, column 4, id 820 |
| PassportProcessing.YearInRange | 2020/day04/src/main.rs:34-40 | a year is accepted iff it lies in the inclusive range, and is then kept; otherwise "out of range" |
| PassportProcessing.ParseYear | 2020/day04/src/main.rs:26-29 | a year field is accepted iff it parses as an `i32` within the range; a non-number is "not an i32" |
| PassportProcessing.BirthYear | 2020/day04/src/main.rs:24-41 | an accepted birth year is in 1920..=2002 |
| PassportProcessing.IssueYear | 2020/day04/src/main.rs:45-62 | an accepted issue year is in 2010..=2020 |
| PassportProcessing.ExpirationYear | 2020/day04/src/main.rs:66-83 | an accepted expiration year is in 2020..=2030 |
| PassportProcessing.YearRoundTrip | 2020/day04/src/main.rs:26-40 | the decimal text of a year parses back to that year exactly when it is in range, and to "out of range" otherwise |
| PassportProcessing.UnitName | 2020/day04/src/main.rs:90-99 | each height unit is spelled with two characters |
| PassportProcessing.HeightIn | 2020/day04/src/main.rs:91-97 | a height with a given unit is accepted iff the text before the two-character unit parses as a `u32` within the unit's range |
| PassportProcessing.ParseHeight | 2020/day04/src/main.rs:89-111 | an accepted height ends with its unit, is 150..=193 in cm or 59..=76 in inches; "invalid unit" exactly when the text ends with neither `cm` nor `in` |
| PassportProcessing.HeightRoundTrip | 2020/day04/src/main.rs:89-111 | the text of a height parses back to it exactly when it is in its unit's range |
| PassportProcessing.HairColourOf | 2020/day04/src/main.rs:118-133 | an accepted hair colour has seven characters and is stored without its leading `#` |
| PassportProcessing.ParseHairColour | 2020/day04/src/main.rs:118-133 | the character loop returns exactly what `HairColourOf` specifies |
| PassportProcessing.HairColourValid | 2020/day04/src/main.rs:119-131 | a hair colour is accepted iff it has length 7, starts with `#` and the other six characters are in 0-9 or a-f |
| PassportProcessing.EyeColourName | 2020/day04/src/main.rs:138-146 | each eye colour has a three-letter name |
| PassportProcessing.ParseEyeColour | 2020/day04/src/main.rs:150-161 | every refusal is "invalid eye colour" |
| PassportProcessing.EyeColourNames | 2020/day04/src/main.rs:151-159 | an eye colour is accepted iff the text is exactly one of amb, blu, brn, gry, grn, hzl, oth, and parses to that colour |
| PassportProcessing.ParsePassportId | 2020/day04/src/main.rs:168-175 | an accepted passport id has length 9 and a value below 10^9 |
| PassportProcessing.PassportIdDigits | 2020/day04/src/main.rs:169-171 | nine digits (leading zeros allowed), or `+` and eight digits, are accepted with their decimal value, and nothing else is |
| PassportProcessing.SplitField | 2020/day04/src/main.rs:197-200 | `splitn(2, ':')` fails iff there is no `:`, and otherwise splits at the first one |
| PassportProcessing.Fields | 2020/day04/src/main.rs:193-203 | the field map is refused iff some whitespace-separated component lacks a `:` |
| PassportProcessing.CollectFields | 2020/day04/src/main.rs:195-203 | the insertion loop returns exactly the map `Fields` specifies |
| PassportProcessing.FieldsNoneExtends | 2020/day04/src/main.rs:198-200 | once a component is refused the whole candidate is refused |
| PassportProcessing.Key | 2020/day04/src/main.rs:197 | a key contains no `:` |
| PassportProcessing.Value | 2020/day04/src/main.rs:197 | a component is its key, a `:`, then its value |
| PassportProcessing.FieldsKeys | 2020/day04/src/main.rs:196-203 | the map holds exactly the keys of the components |
| PassportProcessing.FieldsLastWins | 2020/day04/src/main.rs:202 | a repeated key keeps the value of its last component |
| PassportProcessing.Take | 2020/day04/src/main.rs:205-211 | taking a field succeeds iff the key is present, yields its value, and otherwise reports that key missing |
| PassportProcessing.ParseCandidate | 2020/day04/src/main.rs:192-224 | a component without `:` refuses the candidate; a valid layout is accepted iff it holds all of byr, iyr, eyr, hgt, hcl, ecl and pid, and then `cid` is present exactly when the components hold it |
| PassportProcessing.CandidateMissing | 2020/day04/src/main.rs:205-211 | a candidate is refused for its first missing required key, in the order byr, iyr, eyr, hgt, hcl, ecl, pid |
| PassportProcessing.CandidateAccepted | 2020/day04/src/main.rs:192-224 | a candidate with a valid layout and the seven required keys is the map's values for them, with `cid` optional: `Some` of its value when present, `None` otherwise |
| PassportProcessing.ParsePassport | 2020/day04/src/main.rs:243-254 | an accepted passport carries the candidate's cid unchanged |
| PassportProcessing.PassportValid | 2020/day04/src/main.rs:243-254 | a passport is accepted iff all seven field validators accept, and holds their values |
| CustomCustoms.Below | 2020/day06/src/main.rs:13 | the mask of the low n bits (`!0` is all 32) holds exactly the positions 0 to n-1 |
| CustomCustoms.Bit | 2020/day06/src/main.rs:25 | letter c sets bit `c - 'a'`, a position below 26 |
| CustomCustoms.LineMask | 2020/day06/src/main.rs:23-26 | a line's mask holds exactly the bits of its letters, all below 26 |
| CustomCustoms.RepeatedLetter | 2020/day06/src/main.rs:25 | a repeated letter on a line does not change its mask |
| CustomCustoms.Lines | 2020/day06/src/main.rs:27-31 | the text splits at newlines into at least one newline-free line |
| CustomCustoms.LineMasks | 2020/day06/src/main.rs:23-31 | one mask per line, in order |
| CustomCustoms.GroupMasks | 2020/day06/src/main.rs:19-40 | a group fails iff it holds a character other than a-z or newline, and the failure names the first such character |
| CustomCustoms.FirstUnrecognised | 2020/day06/src/main.rs:32-34 | the position of the first character that is neither a letter nor a newline |
| CustomCustoms.LinesOfLetters | 2020/day06/src/main.rs:23-31 | when every character is a letter or newline, the lines hold only letters |
| CustomCustoms.ParseGroup | 2020/day06/src/main.rs:19-40 | the loop with its `combined` accumulator returns exactly what `GroupMasks` specifies |
| CustomCustoms.UnrecognisedAt | 2020/day06/src/main.rs:32-34 | the first unrecognised character is the one reported |
| CustomCustoms.ScanFinished | 2020/day06/src/main.rs:36-38 | the final mask is pushed only when it is not zero |
| CustomCustoms.ScanLetter | 2020/day06/src/main.rs:24-25 | a letter ors its bit into the current mask |
| CustomCustoms.ScanNewline | 2020/day06/src/main.rs:27-30 | a newline pushes the current mask and resets it to zero |
| CustomCustoms.NonEmptyGroup | 2020/day06/src/main.rs:19-40 | a non-empty accepted group yields at least one mask |
| CustomCustoms.OneLine | 2020/day06/src/main.rs:27-31 | a text without newlines is a single line |
| CustomCustoms.Union | 2020/day06/src/main.rs:9 | the OR fold from 0 holds exactly the bits set in some mask |
| CustomCustoms.Intersection | 2020/day06/src/main.rs:13 | the AND fold from `!0` holds exactly the bits (of 32) set in every mask |
| CustomCustoms.AllWithinAny | 2020/day06/src/main.rs:8-14 | for a non-empty group of letter masks, all <= any <= 26; an empty group's "all" count is 32 |
| CustomCustoms.SubsetCardinality | 2020/day06/src/main.rs:9-13 | fewer bits set in a sub-mask means a smaller popcount |
| CustomCustoms.AnyTotal | 2020/day06/src/main.rs:8-10 | the "any" total of no groups is 0 |
| CustomCustoms.AllTotal | 2020/day06/src/main.rs:12-14 | the "all" total of no groups is 0 |
| CustomCustoms.AllTotalWithinAnyTotal | 2020/day06/src/main.rs:8-14 | over non-empty groups the "all" total never exceeds the "any" total, which is at most 26 per group |
| PasswordPhilosophy.Retained | 2020/day02/src/main.rs:32-33 | the retained copy holds only the required character and is no longer than the password |
| PasswordPhilosophy.RetainedCounts | 2020/day02/src/main.rs:32-33 | the retained copy has one character per occurrence of the required character |
| PasswordPhilosophy.RepeatedLength | 2020/day02/src/main.rs:34 | `len()` of a run of one character is the run length times that character's UTF-8 width |
| PasswordPhilosophy.Valid1 | 2020/day02/src/main.rs:31-35 | `valid_1` holds iff the byte length of the retained copy lies in a..=b; the password is a value and is left unchanged |
| PasswordPhilosophy.Valid1Counts | 2020/day02/src/main.rs:31-35 | that byte length is the occurrence count times the character's width, so for a one-byte character `valid_1` holds iff the count lies in a..=b |
| PasswordPhilosophy.Valid2 | 2020/day02/src/main.rs:37-43 | `valid_2` holds iff exactly one of the 1-based positions a and b holds the character; both positions must be within the password |
| PasswordPhilosophy.SamePositionNeverValid | 2020/day02/src/main.rs:41-42 | with a == b the exclusive-or can never hold |
| PasswordPhilosophy.Separator | 2020/day02/src/main.rs:47 | the split point is the first occurrence of ": ", and there is none when it is absent |
| PasswordPhilosophy.Dash | 2020/day02/src/main.rs:49 | the first `-` of the range, or none |
| PasswordPhilosophy.ParsePolicy | 2020/day02/src/main.rs:49-55 | an accepted policy ends in a space and one character that is not a newline |
| PasswordPhilosophy.ParseRange | 2020/day02/src/main.rs:49-55 | the accepted range keeps the policy's character |
| PasswordPhilosophy.ParseLine | 2020/day02/src/main.rs:46-62 | `parse_line` takes the password as the text after the first ": " and the policy from the text before it |
| PasswordPhilosophy.PolicyText | 2020/day02/src/main.rs:49 | the text `a-b c` of a policy has at least five characters |
| PasswordPhilosophy.ParsePolicyParts | 2020/day02/src/main.rs:49-55 | a policy made of two digit strings, a dash, a space and a character parses to the two numbers and the character, when both fit in `usize` |
| PasswordPhilosophy.PolicyRange | 2020/day02/src/main.rs:49 | a policy of the right shape is its range followed by its character |
| PasswordPhilosophy.ParseRangeParts | 2020/day02/src/main.rs:49-54 | a range made of two digit strings and a dash splits into the two numbers |
| PasswordPhilosophy.DashAfterDigits | 2020/day02/src/main.rs:49 | the dash found after a digit string is the one that follows it |
| PasswordPhilosophy.ParsePolicyText | 2020/day02/src/main.rs:49-55 | the text of a policy parses back to it |
| PasswordPhilosophy.FormatSeparator | 2020/day02/src/main.rs:47 | the first ": " of a formatted line is the one after its policy |
| PasswordPhilosophy.ParseFormat | 2020/day02/src/main.rs:46-62 | parsing the line of a password gives the password back |
| SecureContainer.Value | 2019/day04/src/main.rs:30-32 | the number spelled by a digit sequence (most significant first) has fewer digits than the sequence's width |
| SecureContainer.ValuePrepend | 2019/day04/src/main.rs:32 | prepending digit i adds `i * factor` to the number |
| SecureContainer.TimesIsProduct | 2019/day04/src/main.rs:32 | repeated addition is the product `i * factor` |
| SecureContainer.TimesTen | 2019/day04/src/main.rs:30 | scaling a multiple of a power of ten by ten scales its factor |
| SecureContainer.TimesMonotone | 2019/day04/src/main.rs:31-32 | a larger leading digit gives a larger multiple |
| SecureContainer.Generated | 2019/day04/src/main.rs:24-34 | the numbers `permute_increasing_main` pushes are strictly increasing (no duplicates) and lie in [total, total + 10^digits) |
| SecureContainer.Children | 2019/day04/src/main.rs:31-33 | the loop over digits lo..hi pushes strictly increasing numbers between the multiples of lo and hi |
| SecureContainer.Sequences | 2019/day04/src/main.rs:24-34 | every digit sequence enumerated has the given width, digits at most 9, a leading digit at least `min` and non-decreasing digits |
| SecureContainer.SequencesFrom | 2019/day04/src/main.rs:31-33 | the same for the sequences led by a digit in lo..hi |
| SecureContainer.GeneratedSpells | 2019/day04/src/main.rs:24-34 | the i-th number pushed spells the i-th enumerated digit sequence after `total` |
| SecureContainer.ChildrenSpell | 2019/day04/src/main.rs:31-33 | the same for one loop over the leading digit |
| SecureContainer.SpellsAppend | 2019/day04/src/main.rs:31-33 | the spelling holds across consecutive iterations of the loop |
| SecureContainer.SpellsPrefixed | 2019/day04/src/main.rs:32 | the spelling holds once a leading digit is prefixed |
| SecureContainer.SequencesComplete | 2019/day04/src/main.rs:24-34 | every non-decreasing digit sequence of the width led by at least `min` is enumerated |
| SecureContainer.SequencesFromContain | 2019/day04/src/main.rs:31-33 | the same for the loop over the leading digit |
| SecureContainer.PermuteIncreasingMain | 2019/day04/src/main.rs:24-34 | the recursion appends to the vector exactly the numbers `Generated` specifies, in order |
| SecureContainer.InRange | 2019/day04/src/main.rs:20 | `retain` keeps exactly the elements within [min, max], and keeps an increasing vector increasing |
| SecureContainer.InRangeSnoc | 2019/day04/src/main.rs:20 | one more element is kept iff it is within range |
| SecureContainer.First | 2019/day04/src/main.rs:17-19 | the first leading digit is `min / 10^(digits-1)` |
| SecureContainer.Quotient | 2019/day04/src/main.rs:19 | integer division as the largest multiple not above the dividend |
| SecureContainer.PermuteIncreasing | 2019/day04/src/main.rs:16-22 | `permute_increasing` returns the numbers generated from leading digit `min / 10^(digits-1)`, restricted to [min, max] |
| SecureContainer.Retain | 2019/day04/src/main.rs:20 | the in-place `retain` loop keeps exactly what `InRange` specifies |
| SecureContainer.LeadingDigit | 2019/day04/src/main.rs:17-19 | a candidate number at least `min` has a leading digit at least `min / 10^(digits-1)`, so starting there loses nothing |
| SecureContainer.PermuteIncreasingSound | 2019/day04/src/main.rs:16-34 | every number returned has exactly `digits` digit positions, which never decrease from left to right |
| SecureContainer.Spelled | 2019/day04/src/main.rs:24-34 | numbers that spell enumerated sequences spell candidates |
| SecureContainer.PermuteIncreasingComplete | 2019/day04/src/main.rs:16-34 | every number in [min, max] with `digits` non-decreasing digits is returned |
| SecureContainer.Digits | 2019/day04/src/main.rs:39-46 | the decimal digits read by `tmp % 10` and `tmp /= 10`, least significant first, empty exactly for 0 |
| SecureContainer.HasDoubles | 2019/day04/src/main.rs:36-48 | the loop returns true iff some digit equals the one before it, the lowest digit being compared with the initial `prev` of 0 |
| SecureContainer.HasDoublesMeaning | 2019/day04/src/main.rs:36-48 | `has_doubles` holds iff two adjacent decimal digits are equal or the number is positive and ends in 0 |
| SecureContainer.HasDoublesExact | 2019/day04/src/main.rs:52-60 | the count-table loop returns true iff some digit occurs exactly twice among the number's digits (leading zeros not counted) |
| SecureContainer.ExactImpliesDoubles | 2019/day04/src/main.rs:50-51 | on numbers with non-decreasing digits, `has_doubles_exact` implies `has_doubles` |
| SecureContainer.TwiceAdjacent | 2019/day04/src/main.rs:50-51 | in sorted digits a digit occurring twice occurs at two neighbouring positions |
| SecureContainer.IndexOf | 2019/day04/src/main.rs:56 | the first position of a digit |
| SecureContainer.NotBefore | 2019/day04/src/main.rs:56 | a digit's first position is its first count |
| SecureContainer.Sandwiched | 2019/day04/src/main.rs:50-51 | between two equal sorted digits every digit is the same |
| SecureContainer.NonIncreasing | 2019/day04/src/main.rs:50-51 | digits read from the low end never increase |
| SecureContainer.CandidateDigits | 2019/day04/src/main.rs:30-33 | a generated number has non-decreasing digits, and its lowest digit is the last one pushed |
| FuelCounter.CalcFuel | 2019/day1/src/main.rs:9-11 | `mass / 3 - 2` with integer division, defined only from a mass of 6 (below it `u32` underflows): two more than the fuel is a third of the mass, rounded down; the same function is `calc_fuel_simple` of 2019/day01 |
| FuelCounter.CalcFuelMonotone | 2019/day1/src/main.rs:9-11 | the fuel never decreases as the mass grows |
| FuelCounter.CalcFuelThird | 2019/day1/src/main.rs:9-11 | three times the fuel is at most the mass less 6 |
| FuelCounter.Sum | 2019/day1/src/main.rs:6 | a sum of naturals is at least each term |
| FuelCounter.SumAppend | 2019/day1/src/main.rs:6 | the sum of two lists joined is the sum of their sums |
| FuelCounter.Fuels | 2019/day1/src/main.rs:5 | one fuel per mass, in order, each `calc_fuel` of its mass |
| FuelCounter.FuelsThird | 2019/day1/src/main.rs:3-6 | three times the total fuel, plus six per module, is at most the total mass |
| FuelCounter.Masses | 2019/day1/src/main.rs:3-4 | the masses are the whitespace-separated words of the input, each parsed as a `u32` |
| FuelCounter.TotalFuel | 2019/day1/src/main.rs:3-6 | the total is the sum of `calc_fuel` over all masses; it exists only when every mass is at least 6 and the sum fits in `u32`, and is at most a third of the total mass |
| RocketEquation.CalcFuel | 2019/day01/src/main.rs:21-28 | `calc_fuel` is 0 for a mass below 9 and never more than half the mass |
| RocketEquation.CalcFuelAtLeastSimple | 2019/day01/src/main.rs:18-28 | from a mass of 9 the recursive fuel is at least the simple fuel, and equal to it below 33 |
| RocketEquation.CalcFuelMonotone | 2019/day01/src/main.rs:21-28 | the recursive fuel never decreases as the mass grows |
| RocketEquation.Fuels | 2019/day01/src/main.rs:12 | one recursive fuel per mass, in order |
| RocketEquation.RealAtLeastSimple | 2019/day01/src/main.rs:7-13 | with every mass at least 9 the real total is at least the simple total |
| RocketEquation.RealAtMostHalf | 2019/day01/src/main.rs:11-13 | the real total is at most half the total mass |
| RocketEquation.RealTotal | 2019/day01/src/main.rs:11-13 | the real total is the sum of the recursive fuel over all masses, when it fits in `u32`, and at most half the total mass |
| CrossedWires.End | 2019/day03/src/main.rs:39-44 | the end of a horizontal segment keeps its y, the end of a vertical one keeps its x |
| CrossedWires.Segment | 2019/day03/src/main.rs:49-54 | a segment starts at the current point and ends displaced by the direction; up and down give a vertical line, left and right a horizontal one |
| CrossedWires.Segments | 2019/day03/src/main.rs:45-59 | one segment per direction |
| CrossedWires.SegmentsAt | 2019/day03/src/main.rs:48-56 | the i-th segment is built from the i-th direction at the point reached by the directions before it |
| CrossedWires.SegmentsChain | 2019/day03/src/main.rs:46-56 | the first segment starts at (0,0), each later one starts at the previous segment's end, and each end is the point reached so far |
| CrossedWires.SegmentBetween | 2019/day03/src/main.rs:48-56 | the i-th segment runs from the point reached after i directions to the point after i+1 |
| CrossedWires.Build | 2019/day03/src/main.rs:45-59 | the loop updating `point` and pushing segments returns exactly `Segments`, and succeeds iff no coordinate leaves the `i32` range |
| CrossedWires.FromStr | 2019/day03/src/main.rs:72-82 | a direction parses iff its first character is U, D, L or R and the rest is an `i32`, which is its magnitude; the letter selects the variant |
| CrossedWires.FromStrCsv | 2019/day03/src/main.rs:84-88 | one direction per comma-separated item, in order; it fails iff some item fails |
| CrossedWires.FromStrAll | 2019/day03/src/main.rs:85-87 | one direction per item, in order; it fails iff some item fails |
| CrossedWires.ParseIntToDecimal | 2019/day03/src/main.rs:74 | the decimal text of an `i32` parses back to it |
| CrossedWires.FromStrFormat | 2019/day03/src/main.rs:72-82 | the text of a direction parses back to it |
| CrossedWires.FormatAll | 2019/day03/src/main.rs:84-88 | one text per direction, in order |
| CrossedWires.FormatNoComma | 2019/day03/src/main.rs:85 | the text of a direction holds no comma |
| CrossedWires.FromStrAllFormat | 2019/day03/src/main.rs:85-87 | the texts of directions parse back to them |
| CrossedWires.FromStrCsvFormat | 2019/day03/src/main.rs:84-88 | the comma-joined text of a non-empty list of directions parses back to it |
| CrossedWires.ExampleParse | 2019/day03/src/main.rs:95-102 | "R8,U5,L5,D3" parses to R8, U5, L5, D3 |
| CrossedWires.TravelSnoc | 2019/day03/src/main.rs:55 | one more direction moves the point by its displacement |
| CrossedWires.SegmentsSnoc | 2019/day03/src/main.rs:55-56 | one more direction appends one segment from the point reached |
| CrossedWires.ExampleTravel | 2019/day03/src/main.rs:116-131 | the points reached by the example are (8,0), (8,5), (3,5) and (3,2) |
| CrossedWires.ExampleBuild | 2019/day03/src/main.rs:104-131 | the example builds the four segments of the test, whose ends are (8,0), (8,5), (3,5), (3,2) |
| NBody.ApplyVelocity | 2019/day12/src/main.rs:28-32 | `apply_velocity` adds each velocity component to its position and leaves the velocity alone |
| NBody.Pull | 2019/day12/src/main.rs:40-50 | the pull on one axis is +1 towards a larger coordinate, -1 towards a smaller one and 0 for equal ones |
| NBody.Accelerate | 2019/day12/src/main.rs:39-75 | a velocity change leaves the positions alone |
| NBody.AdjustVelocity | 2019/day12/src/main.rs:39-75 | per axis the moon with the smaller coordinate gains 1 and the other loses 1, equal coordinates change nothing; the per-axis sum of the two velocities is kept and positions are untouched |
| NBody.AdjustVelocitySymmetric | 2019/day12/src/main.rs:39-75 | adjusting a pair in the other order gives the same two moons, swapped |
| NBody.Positions | 2019/day12/src/main.rs:85-92 | the coordinates of all moons on one axis, in order |
| NBody.Pulled | 2019/day12/src/main.rs:84-92 | after the gravity loops a moon keeps its position and its velocity has gained the pull of every other moon |
| NBody.StepOf | 2019/day12/src/main.rs:84-96 | a step keeps the number of moons and moves every moon by its velocity after gravity |
| Arithmetic.Abs | 2019/day12/src/main.rs:113-114 | the absolute value is the number or its negation |
| NBody.MoonEnergy | 2019/day12/src/main.rs:113-115 | a moon's energy is zero when it sits at the origin or stands still |
| NBody.NonNegativeProduct | 2019/day12/src/main.rs:115 | potential times kinetic energy is never negative |
| NBody.TotalEnergy | 2019/day12/src/main.rs:109-119 | the total energy is at least each moon's energy, so it is never negative |
| NBody.Done | 2019/day12/src/main.rs:85-91 | the number of partners a moon has met so far in the nested loops is at most the number of moons |
| NBody.PullsSelf | 2019/day12/src/main.rs:86-89 | a moon pulls itself by nothing |
| NBody.PartialAdjust | 2019/day12/src/main.rs:88-91 | one call of `adjust_velocity` in the inner loop adds one pair's pull to both moons |
| NBody.DoneAdjust | 2019/day12/src/main.rs:88-91 | the inner loop meets each pair (i, j) with i < j once |
| NBody.PartialStart | 2019/day12/src/main.rs:85 | before the loops no pull has been added |
| NBody.PartialNext | 2019/day12/src/main.rs:85-92 | finishing the inner loop for moon i moves on to moon i+1 |
| NBody.DoneNext | 2019/day12/src/main.rs:85-92 | the pairs met after moon i's inner loop are those met before moon i+1's |
| NBody.PartialEnd | 2019/day12/src/main.rs:84-92 | after the outer loop every moon has met every other moon exactly once |
| NBody.PullsOpposite | 2019/day12/src/main.rs:39-75 | the pulls a moon gives are the negation of those it receives |
| NBody.PullTotalGrow | 2019/day12/src/main.rs:85-92 | adding one moon to the sum of pulls adds that moon's pulls |
| NBody.PullTotalZero | 2019/day12/src/main.rs:85-92 | pulls among a group of moons cancel out |
| NBody.StepVelocities | 2019/day12/src/main.rs:84-96 | a step changes the velocity sum of the first m moons by the net pull on them |
| NBody.StepKeepsMomentum | 2019/day12/src/main.rs:84-96 | a step keeps the number of moons and the total velocity on every axis |
| NBody.Steps | 2019/day12/src/main.rs:11-13 | repeated steps keep the number of moons |
| NBody.StepsKeepMomentum | 2019/day12/src/main.rs:11-13 | any number of steps keeps the total velocity on every axis |
| NBody.Moons.constructor | 2019/day12/src/main.rs:78-82 | `Moons::new` holds no moons |
| NBody.Moons.Add | 2019/day12/src/main.rs:98-107 | `add` appends one moon at the given position with zero velocity |
| NBody.Moons.Step | 2019/day12/src/main.rs:84-96 | `step` replaces the moons by `StepOf` of the old moons |
| NBody.Moons.Gravity | 2019/day12/src/main.rs:85-92 | the nested loops leave every moon as `Pulled` from the old moons |
| NBody.Moons.PullPartners | 2019/day12/src/main.rs:88-91 | the inner loop for moon i applies `adjust_velocity` to it and each later moon |
| NBody.Moons.Move | 2019/day12/src/main.rs:93-95 | the last loop applies `apply_velocity` to every moon |
| NBody.Moons.Energy | 2019/day12/src/main.rs:109-119 | the accumulating loop returns the total energy: the sum over moons of potential times kinetic energy |
| HullPainting.ToWord | 2019/day11/src/main.rs:63-68 | a colour's word is 0 or 1, and 1 exactly for white |
| HullPainting.FromWord | 2019/day11/src/main.rs:69-75 | `from_word` accepts exactly 0 and 1 |
| HullPainting.WordRoundTrip | 2019/day11/src/main.rs:62-75 | `from_word(to_word(c)) == c`, and an accepted word comes back from its colour |
| HullPainting.Offset | 2019/day11/src/main.rs:82-89 | every heading moves one unit along exactly one axis |
| HullPainting.Rotations | 2019/day11/src/main.rs:92-108 | `rotate_right` is a clockwise and `rotate_left` an anticlockwise quarter turn; they are mutual inverses, and four of either are the identity |
| HullPainting.OffsetInjective | 2019/day11/src/main.rs:82-89 | different headings move differently |
| HullPainting.Turn | 2019/day11/src/main.rs:33-37 | a turn word of 0 rotates left and 1 rotates right; any other word is an error |
| HullPainting.Point.constructor | 2019/day11/src/main.rs:78-79 | a point holds the given coordinates |
| HullPainting.Point.MoveDir | 2019/day11/src/main.rs:82-89 | `move_dir` changes exactly one coordinate by exactly 1 (up y+1, down y-1, left x-1, right x+1), within the `i32` range |
| MonitoringStation.MoveOrder | 2019/day10/src/main.rs:48 | the derived ordering of moves (by dx, then dy) is a strict total order, which is what `sort` and `dedup` rely on |
| MonitoringStation.Flatten | 2019/day10/src/main.rs:54-60 | the flattened grid has width times height cells |
| MonitoringStation.AppendRow | 2019/day10/src/main.rs:58 | each further row adds one width of cells |
| MonitoringStation.UniqueDivision | 2019/day10/src/main.rs:138 | a row-major index determines its row and column |
| MonitoringStation.DivMod | 2019/day10/src/main.rs:138 | the row and column come back from `y * width + x` by division and remainder |
| MonitoringStation.RowBelow | 2019/day10/src/main.rs:138 | an index below width times height lies in a row below the height |
| MonitoringStation.IndexBelow | 2019/day10/src/main.rs:136-145 | the index of a point in the field is below width times height |
| MonitoringStation.CountVisible | 2019/day10/src/main.rs:131-133 | the number of `Visible` cells is at most the number of cells |
| MonitoringStation.Asteroids | 2019/day10/src/main.rs:104-107 | the number of asteroids is at most the number of cells |
| MonitoringStation.CountOnlyBlocks | 2019/day10/src/main.rs:111-130 | marking cells `Blocked` never increases the visible count |
| MonitoringStation.CountBlockOne | 2019/day10/src/main.rs:109 | blocking one visible cell lowers the count by one |
| MonitoringStation.Fresh | 2019/day10/src/main.rs:104-107 | the initial visibility marks exactly the asteroids `Visible` |
| MonitoringStation.CountFresh | 2019/day10/src/main.rs:104-107 | initially the visible count is the number of asteroids |
| MonitoringStation.ShiftBounds | 2019/day10/src/main.rs:114-115 | repeated moves go monotonically in the move's direction |
| MonitoringStation.LastMax | 2019/day10/src/main.rs:96 | `max_by_key` picks a maximal element, and the last one of several maxima |
| MonitoringStation.Counts | 2019/day10/src/main.rs:93 | the view counts of the listed stations, in order |
| MonitoringStation.LastMaxAfter | 2019/day10/src/main.rs:96 | the chosen station has a maximal count and every station listed after it has a smaller one |
| MonitoringStation.AsteroidField.constructor | 2019/day10/src/main.rs:54-63 | `AsteroidField::new` takes the width from the first row, the height from the number of rows, the flattened grid, and the moves `build_moves` leaves |
| MonitoringStation.AsteroidField.BuildMoves | 2019/day10/src/main.rs:65-81 | `build_moves` leaves exactly the moves (dx,dy) != (0,0) with abs(dx) <= width/2 and abs(dy) <= height/2, sorted with no duplicates |
| MonitoringStation.AsteroidField.ToIndex | 2019/day10/src/main.rs:136-145 | `to_index` is `Some` iff the point is in the field (`contains`, lines 83-86), and then an index below width times height that maps back to the point |
| MonitoringStation.AsteroidField.IndexOfPoint | 2019/day10/src/main.rs:136-145 | every index of the field is the index of its own point |
| MonitoringStation.AsteroidField.Walk | 2019/day10/src/main.rs:112-129 | walking along a ray only ever blocks cells |
| MonitoringStation.AsteroidField.Rays | 2019/day10/src/main.rs:111-130 | the scan over all moves only ever blocks cells |
| MonitoringStation.AsteroidField.SeenBound | 2019/day10/src/main.rs:99-134 | `view_count` of an empty cell is 0; from an asteroid the station's own cell ends `Blocked` and the count is at most the number of asteroids less one |
| MonitoringStation.AsteroidField.Between | 2019/day10/src/main.rs:115-116 | between two points of the field on a ray, the first step stays in the field |
| MonitoringStation.AsteroidField.WalkBehind | 2019/day10/src/main.rs:114-129 | a ray never touches cells behind its current point |
| MonitoringStation.AsteroidField.FirstHitKept | 2019/day10/src/main.rs:118-124 | the first asteroid hit along a ray keeps its visibility |
| MonitoringStation.AsteroidField.LaterBlocked | 2019/day10/src/main.rs:119-121 | once blocking, every further asteroid on the ray is marked `Blocked` |
| MonitoringStation.AsteroidField.BehindBlocked | 2019/day10/src/main.rs:118-124 | every asteroid behind another on the same ray ends `Blocked` |
| MonitoringStation.AsteroidField.WalkStep | 2019/day10/src/main.rs:114-128 | one round of the ray loop moves one step and blocks the cell if an asteroid was already met |
| MonitoringStation.AsteroidField.ViewCount | 2019/day10/src/main.rs:99-134 | the loops over the `vis` vector return exactly the specified count `Seen`, and terminate because every move is nonzero and the field finite |
| MonitoringStation.AsteroidField.ScannedPush | 2019/day10/src/main.rs:91-94 | one inner-loop round lists one more station with its view count |
| MonitoringStation.AsteroidField.ScannedColumn | 2019/day10/src/main.rs:90-95 | finishing a column moves on to the next |
| MonitoringStation.AsteroidField.LocateOptimal | 2019/day10/src/main.rs:88-97 | the station chosen from the full list has a view count no point of the field exceeds, and strictly beats every later point |
| MonitoringStation.AsteroidField.ScanColumn | 2019/day10/src/main.rs:91-94 | the inner loop lists the stations of one column in order |
| MonitoringStation.AsteroidField.LocateStation | 2019/day10/src/main.rs:88-97 | `locate_station` returns a point of the field with its view count, which is maximal over the field; ties go to the last point in the scan order |
| OrbitMap.BuildOrbit | 2019/day06/src/main.rs:44-47 | a line gives an orbit iff it holds a `)`; the parent is the text before the first `)` and the child the text up to the next one |
| OrbitMap.JoinPrefix | 2019/day06/src/main.rs:45-46 | the first pieces of a split, joined back, are a prefix of the line |
| OrbitMap.StrLessIrreflexive | 2019/day06/src/main.rs:28 | the string order never puts a name before itself |
| OrbitMap.StrLessTransitive | 2019/day06/src/main.rs:28 | the string order is transitive |
| OrbitMap.StrLessTotal | 2019/day06/src/main.rs:28 | any two different names are ordered |
| OrbitMap.StrOrder | 2019/day06/src/main.rs:28-29 | the string order `sort` uses is a strict total order, so `dedup` leaves each name once |
| OrbitMap.OrbitNames | 2019/day06/src/main.rs:25-27 | the names listed are exactly the parents and children of the orbits |
| OrbitMap.Position | 2019/day06/src/main.rs:69 | `position` finds the first occurrence of an id, and none iff it is absent |
| OrbitMap.SolarSystem.constructor | 2019/day06/src/main.rs:19-23 | a new system has no entries, names or roots |
| OrbitMap.SolarSystem.Add | 2019/day06/src/main.rs:58-67 | `add` gives the new body the previous number of entries as id, records name to id, and adds the id to the roots; a name already present is excluded by the precondition (see Left out) |
| OrbitMap.SolarSystem.MakeOrbit | 2019/day06/src/main.rs:68-73 | `make_orbit` removes the child's first occurrence from the roots if present and appends it to the parent's children; nothing else changes |
| OrbitMap.SolarSystem.TotalShift | 2019/day06/src/main.rs:82-88 | starting one level deeper adds one per body of the subtree, so the count is the sum of the depths of all bodies in it |
| OrbitMap.SolarSystem.ChildTotalShift | 2019/day06/src/main.rs:84-86 | the same for the first k children |
| OrbitMap.SolarSystem.CountDirectIndirect | 2019/day06/src/main.rs:82-88 | the recursion with its accumulator returns the specified count: `depth` for the body plus each child's count one level deeper; only the bodies reachable from the start need be free of cycles |
| OrbitMap.SolarSystem.CountAllDirectIndirect | 2019/day06/src/main.rs:75-81 | the total over all roots, each counted from depth 0; bodies that orbit one another in a cycle no root reaches are allowed and not counted |
| OrbitMap.SolarSystem.PathIds | 2019/day06/src/main.rs:89-101 | the depth-first search, allowed a given recursion depth: a path it finds starts at the start body, ends at a body with the target name and follows child links |
| OrbitMap.SolarSystem.FirstPath | 2019/day06/src/main.rs:93-100 | the same for the search through the remaining children, which returns the first child path found |
| OrbitMap.SolarSystem.PathMoreFuel | 2019/day06/src/main.rs:89-101 | a search that finishes within some depth gives the same answer at any greater depth, so its answer is the recursion's own |
| OrbitMap.SolarSystem.FirstPathMoreFuel | 2019/day06/src/main.rs:93-100 | the same for the search through the remaining children |
| OrbitMap.SolarSystem.PathFound | 2019/day06/src/main.rs:89-101 | where the bodies below the start form no cycle, the search finishes within the start's rank, and finds a path iff the target is in the start's subtree |
| OrbitMap.SolarSystem.FirstPathFound | 2019/day06/src/main.rs:93-100 | the children search then finishes, and finds a path iff some remaining child's subtree holds the target |
| OrbitMap.SolarSystem.Names | 2019/day06/src/main.rs:91-96 | the names of a path's bodies, in order |
| OrbitMap.SolarSystem.PathThrough | 2019/day06/src/main.rs:94-97 | a path found through a child is the start's name followed by the child's path |
| OrbitMap.SolarSystem.PathNames | 2019/day06/src/main.rs:89-101 | `path` returns a non-empty list iff the search finds a chain |
| OrbitMap.SolarSystem.NamesCons | 2019/day06/src/main.rs:96 | `insert(0, start.name)` puts the start's name in front |
| OrbitMap.SolarSystem.Path | 2019/day06/src/main.rs:89-101 | the recursive search returns the names along the chain the depth-first search finds, or nothing; it needs only that the search finishes, so a cycle the search never walks into is allowed |
| OrbitMap.SolarSystem.TransferCount | 2019/day06/src/main.rs:107-113 | the count is the size of the symmetric difference of the two paths less 2, and `usize` underflow when that size is below 2 |
| OrbitMap.SolarSystem.CommonRootFound | 2019/day06/src/main.rs:103-115 | the first root from which both targets are found decides the outcome |
| OrbitMap.SolarSystem.TransfersFrom | 2019/day06/src/main.rs:104-114 | one round of the roots loop finds both paths iff both searches from that root succeed, and then computes their count; otherwise no root so far leads to both |
| OrbitMap.SolarSystem.Transfers | 2019/day06/src/main.rs:102-117 | `transfers` is `None` iff from no root are both targets found; otherwise it is the count for the first root that leads to both; it needs only that the searches finish for the roots the loop reaches |
| OrbitMap.SolarSystem.TransfersFinish | 2019/day06/src/main.rs:102-117 | where no root reaches a cycle, every search of `transfers` finishes, and both targets are found from a root iff its subtree holds both |
| OrbitMap.SolarSystem.AddNames | 2019/day06/src/main.rs:30-32 | adding the sorted names gives body i the i-th name and id i, every body a root |
| OrbitMap.SolarSystem.LinkOrbits | 2019/day06/src/main.rs:33-35 | linking every orbit gives each body its orbiting bodies as children in orbit order, and leaves as roots exactly the bodies that orbit nothing |
| OrbitMap.SolarSystem.LinkOrbit | 2019/day06/src/main.rs:33-35 | one round of the linking loop keeps the system valid and its names fixed, and extends the children and roots invariants by one more orbit |
| OrbitMap.SolarSystem.Id | 2019/day06/src/main.rs:126-132 | indexing the system by a name gives the entry recorded for that name, so its `id` is the name's id |
| OrbitMap.LinkStep | 2019/day06/src/main.rs:34 | linking one more orbit extends the children and roots invariants |
| OrbitMap.LinkChildren | 2019/day06/src/main.rs:72 | the children after one more orbit are those of the orbits linked so far |
| OrbitMap.LinkRoots | 2019/day06/src/main.rs:69-71 | the roots after one more orbit are the bodies that orbit nothing so far |
| OrbitMap.ChildIdsSnoc | 2019/day06/src/main.rs:72 | one more orbit adds its child to its parent's list only |
| OrbitMap.OrbitsSnoc | 2019/day06/src/main.rs:69-71 | a body orbits something after one more orbit iff it did before or is that orbit's child |
| OrbitMap.RemoveAt | 2019/day06/src/main.rs:70 | `remove(index)` keeps the roots increasing and drops exactly that id |
| OrbitMap.SortedNames | 2019/day06/src/main.rs:25-29 | the sorted, deduplicated names are strictly ordered and are exactly the names of the orbits |
| OrbitMap.NamesListed | 2019/day06/src/main.rs:33-35 | every orbit's parent and child has been added before linking |
| OrbitMap.BuildSystem | 2019/day06/src/main.rs:18-37 | `build_system` adds each distinct name once in sorted order and then links every orbit: children follow the orbits and the roots are the bodies that orbit nothing |
| AmplifierPhases.IsValid | 2019/day07/src/main.rs:48-54 | `is_valid` counts each phase and accepts iff every one of 0..4 occurs exactly once; a phase outside 0..4 indexes out of bounds and panics |
| AmplifierPhases.CountMultiset | 2019/day07/src/main.rs:50-52 | the per-value tally is the multiset count of that value |
| AmplifierPhases.SettingArrangement | 2019/day07/src/main.rs:48-54 | a valid setting is exactly a rearrangement of 0, 1, 2, 3, 4 |
| AmplifierPhases.PhaseCounts | 2019/day07/src/main.rs:53 | the multiset of 0..4 holds each of 0..4 once and nothing else |
| AmplifierPhases.Pow5 | 2019/day07/src/main.rs:31-35 | the number of candidates of k digits in 0..4 is positive |
| AmplifierPhases.Digits | 2019/day07/src/main.rs:31-36 | the candidate visited at step n has k digits, each in 0..4 |
| AmplifierPhases.ValueOfDigits | 2019/day07/src/main.rs:31-36 | the digits of a step read back as that step number |
| AmplifierPhases.DigitsOfValue | 2019/day07/src/main.rs:31-36 | every sequence of digits in 0..4 is visited, at the step it reads as |
| AmplifierPhases.Found | 2019/day07/src/main.rs:37-39 | everything kept after n steps is a valid setting |
| AmplifierPhases.FoundNext | 2019/day07/src/main.rs:36-39 | one more step keeps the candidate iff it is valid |
| AmplifierPhases.FoundHas | 2019/day07/src/main.rs:37-39 | a valid candidate visited earlier has been kept |
| AmplifierPhases.FoundFrom | 2019/day07/src/main.rs:37-39 | every kept setting is some earlier candidate |
| AmplifierPhases.ValueSnoc | 2019/day07/src/main.rs:31-35 | one more inner digit multiplies the step by five and adds the digit |
| AmplifierPhases.VisitedValue | 2019/day07/src/main.rs:31-36 | the array `[i1, i2, i3, i4, i5]` reads as the step count of the nested loops |
| AmplifierPhases.Visited | 2019/day07/src/main.rs:31-36 | the nested loops visit, at step n, the digits of n |
| AmplifierPhases.PhasePermutations | 2019/day07/src/main.rs:29-46 | `phase_permutations` returns exactly the valid settings, 120 of them, in lexicographic order |
| AmplifierPhases.Keep | 2019/day07/src/main.rs:37-39 | the innermost body pushes the candidate iff `is_valid` accepts it |
| AmplifierPhases.LexLessAtEnd | 2019/day07/src/main.rs:35 | a larger last digit comes later |
| AmplifierPhases.LexLessExtend | 2019/day07/src/main.rs:31-35 | order decided by an outer digit is kept whatever follows |
| AmplifierPhases.LexLessByValue | 2019/day07/src/main.rs:31-36 | the loops visit candidates in lexicographic order |
| AmplifierPhases.FoundSorted | 2019/day07/src/main.rs:29-46 | the kept settings are strictly sorted |
| AmplifierPhases.SortedSnoc | 2019/day07/src/main.rs:38 | pushing a setting larger than all kept ones keeps them sorted |
| AmplifierPhases.FoundComplete | 2019/day07/src/main.rs:29-46 | every valid setting is in the result |
| AmplifierPhases.FoundSettings | 2019/day07/src/main.rs:29-46 | the result holds a sequence iff it is a valid setting |
| AmplifierPhases.PhaseArrangements | 2019/day07/src/main.rs:30 | 0..4 has 120 distinct arrangements, the capacity `5 * 4 * 3 * 2` reserved |
| AmplifierPhases.ArrangedSettings | 2019/day07/src/main.rs:48-54 | the arrangements of 0..4 are exactly the valid settings |
| AmplifierPhases.FoundCount | 2019/day07/src/main.rs:29-46 | `phase_permutations` returns 120 settings |
| AmplifierPhases.Arrangements | 2019/day07/src/main.rs:29-46 | the reference enumeration of permutations: factorial-many, distinct for distinct input, and exactly the rearrangements of the input |
| AmplifierPhases.ArrangementStep | 2019/day07/src/main.rs:29-46 | a rearrangement is some element followed by a rearrangement of the rest |
| AmplifierPhases.ArrangementHead | 2019/day07/src/main.rs:29-46 | a rearrangement starts with some element of the input |
| AmplifierPhases.HeadRemoved | 2019/day07/src/main.rs:29-46 | removing that element leaves a rearrangement of the rest |
| AmplifierPhases.ArrangementFrom | 2019/day07/src/main.rs:29-46 | an element followed by a rearrangement of the rest is a rearrangement |
| AmplifierPhases.Blocks | 2019/day07/src/main.rs:29-46 | the arrangements starting with elements from position i on: their count and exactly what they hold |
| AmplifierPhases.Block | 2019/day07/src/main.rs:29-46 | the arrangements starting with the i-th element: their count and exactly what they hold |
| AmplifierPhases.Prefixed | 2019/day07/src/main.rs:29-46 | putting one element in front keeps the count, membership and distinctness |
| AmplifierPhases.BlocksCount | 2019/day07/src/main.rs:30 | the block sizes add up to the remaining count |
| AmplifierPhases.JoinBlocks | 2019/day07/src/main.rs:29-46 | one block and the later ones together hold exactly the arrangements from position i on |
| AmplifierPhases.LaterApart | 2019/day07/src/main.rs:29-46 | later blocks share nothing with an earlier block of distinct input |
| AmplifierPhases.Without | 2019/day07/src/main.rs:29-46 | removing one element shortens the input by one |
| AmplifierPhases.WithoutDistinct | 2019/day07/src/main.rs:29-46 | removing an element of distinct input leaves distinct input without it |
| AmplifierPhases.BlockDistinct | 2019/day07/src/main.rs:29-46 | prefixing distinct arrangements keeps them distinct |
| AmplifierPhases.AppendDistinct | 2019/day07/src/main.rs:29-46 | joining disjoint distinct lists keeps them distinct |
| AmplifierPhases.SortedDistinct | 2019/day07/src/main.rs:29-46 | a strictly sorted result has no duplicates |
| AmplifierPhases.LexLessIrreflexive | 2019/day07/src/main.rs:29-46 | no setting comes before itself |
| AmplifierPhases.DistinctElements | 2019/day07/src/main.rs:29-46 | a list without duplicates has as many elements as its set |
| AmplifierPhases.DistinctCount | 2019/day07/src/main.rs:29-46 | two lists without duplicates holding the same elements have the same length |
| SpaceImage.Layers | 2019/day08/src/main.rs:4-17 | `chunks(25 * 6)` cuts the image into non-empty layers that lay back out to the image, all full but the last |
| SpaceImage.WholeLayers | 2019/day08/src/main.rs:17 | an image whose length is a multiple of the layer size is cut into full layers only |
| SpaceImage.LayersOfConcat | 2019/day08/src/main.rs:4-17 | cutting laid-out layers gives them back |
| SpaceImage.ConcatNonEmpty | 2019/day08/src/main.rs:4 | non-empty layers lay out to a non-empty image |
| SpaceImage.Count | 2019/day08/src/main.rs:7-9 | a `filter(...).count()` is at most the layer's size |
| SpaceImage.FewestZeros | 2019/day08/src/main.rs:12 | `min_by_key` picks a layer with the fewest '0' pixels, the first of several |
| SpaceImage.FirstFewestUnique | 2019/day08/src/main.rs:12 | that choice is unique |
| SpaceImage.Checksum | 2019/day08/src/main.rs:4-14 | the checksum is absent iff the image is empty, and otherwise the '1' count times the '2' count of the first layer with the fewest zeros |
| SpaceImage.PixelFirstOpaque | 2019/day08/src/main.rs:17-23 | a pixel takes the colour of the first layer not transparent there |
| SpaceImage.PixelTransparent | 2019/day08/src/main.rs:16-23 | a pixel transparent in every layer stays '2' |
| SpaceImage.PixelFromLayer | 2019/day08/src/main.rs:17-23 | every rendered opaque colour comes from some layer |
| SpaceImage.PixelBelow | 2019/day08/src/main.rs:19-21 | a layer underneath changes only pixels still transparent |
| SpaceImage.PixelSettled | 2019/day08/src/main.rs:19-21 | an opaque or failed pixel is not changed by layers underneath |
| SpaceImage.PixelWholeLayers | 2019/day08/src/main.rs:17-23 | full layers render every pixel |
| SpaceImage.RenderWhole | 2019/day08/src/main.rs:16-23 | an image that fills its last layer renders every pixel |
| SpaceImage.Render | 2019/day08/src/main.rs:16-23 | the compositing loop panics iff some pixel reaches a short last layer while transparent, and otherwise gives each pixel the colour of its first opaque layer, or '2' |
| Text.Utf8Width | 2020/day02/src/main.rs:34 | a character takes one to four UTF-8 bytes, and one exactly when it is ASCII |
| Text.AsciiLength | 2020/day02/src/main.rs:34 | `str::len` of ASCII text is its character count |
| Text.Utf8LengthAtLeastCount | 2020/day02/src/main.rs:34 | `str::len` is at least the character count, and equal only for ASCII text |
| Text.WordsFrom | 2019/day01/src/main.rs:3 | `split_whitespace` yields non-empty words that hold no whitespace |
| Text.Words | 2019/day01/src/main.rs:3 | the words are non-empty and free of whitespace |
| Text.DigitsValueBound | 2019/day03/src/main.rs:74 | n decimal digits spell a number below 10^n |
| Text.ParseInteger | 2019/day03/src/main.rs:74 | integer `parse` only yields values within the type's range |
| Text.ParseU32s | 2019/day01/src/main.rs:3-4 | parsing every word succeeds iff each word is a `u32`, and then gives their values in order |
| Text.NatToDecimal | 2019/day03/src/main.rs:74 | the decimal rendering of a number is a non-empty string of digits |
| Text.NatToDecimalValue | 2019/day03/src/main.rs:74 | the digits of the rendering spell the number |
| Text.ParseNatToDecimal | 2019/day03/src/main.rs:74 | `parse` of the decimal rendering of an in-range number gives it back |
| Text.Split | 2019/day06/src/main.rs:45 | `split` on a character gives at least one piece, none holding the separator |
| Text.SplitJoin | 2019/day06/src/main.rs:45 | joining the pieces with the separator gives the string back |
| Text.JoinSplit | 2019/day06/src/main.rs:45 | splitting the join of separator-free pieces gives the pieces back |
| Ordering.Insert | 2019/day06/src/main.rs:28-29 | inserting into a strictly sorted sequence keeps it strictly sorted and adds exactly that element |
| Ordering.SortDedup | 2019/day06/src/main.rs:28-29 | `sort` then `dedup` gives the distinct elements in strictly increasing order |

## Left out

- The channel-based machine interface used by the `day05`, `day07`, `day09` and `day11` drivers is not part of this model. This covers endpoints, `with_channels`, execution budgets, relative mode and `parse_csv`: none of these are in the `lib.rs` modelled here. The `AmpBank` feedback loop of day 7 and the `paint` loop of day 11 are thread and channel plumbing around that interface.
- File inclusion (`include_str!`), printing (`println!`, `dump`, the day 8 row printing) and the missing-seat scan that 2020 day 5's `main` prints are I/O.
- The regular expression that 2020 day 2's `parse_line` applies is replaced by a hand-written parser of the same `a-b c: password` shape.
- Hashing and the iteration order of `HashMap` and `HashSet` are not modelled. Maps and sets are used instead, and no result depends on the order.
- IntCode.Machine.Execute: runs for at most `fuel` steps and then reports that it has not finished, because the Rust loop need not terminate.
- NBody.Moons.Step: integer arithmetic is unbounded, so `i64` overflow of positions, velocities and energy is not modelled. The example energies 179 after 10 steps and 1940 after 100 steps are not proved.
- OrbitMap.SolarSystem.Add: requires a name not yet present, where the source pushes the entry and then panics on the duplicate.
- OrbitMap.SolarSystem.MakeOrbit: requires ids in range. The source only passes ids it obtained from `names`.
- OrbitMap.SolarSystem.Path: carries a ghost recursion depth and requires the search to finish within it. On a cycle the search walks into before it finds the target, the source recurses until its stack overflows. `Transfers` likewise requires the searches from the roots its loop reaches to finish.
- OrbitMap.SolarSystem.CountDirectIndirect: requires the bodies reachable from the start to form no cycle. On a reachable cycle the source recurses until its stack overflows. The `usize` accumulator is unbounded here: the total is at most the square of the number of bodies.
- CustomCustoms.AnyTotal: the `u32` sum is unbounded here. It is at most 26 per group, so it overflows only beyond 165 million groups.
- CustomCustoms.AllTotal: the same, at most 32 per group.
- OrbitMap.SolarSystem.CountAllDirectIndirect: the test total of 42 and the `transfers` test result `Some(4)` are not proved, because their inputs are not part of this model.
- MonitoringStation.AsteroidField.constructor: requires a non-empty, rectangular world. The source indexes `world[0]` and assumes equal rows.
- MonitoringStation.AsteroidField.LocateStation: requires a non-empty field, where the source unwraps `None`. The test stations (3,4) with 8 and (11,13) with 210 are not proved.
- PasswordPhilosophy.Valid2: requires both positions to lie within the password, where the source panics on the index.
- HullPainting.Point.MoveDir: requires the move to stay within `i32`, where a debug build panics.
- SecureContainer.PermuteIncreasing: requires 1 to 9 digits. `digits - 1` underflows at 0. With 10 digits `i * factor` overflows `u32` for a leading digit of 5 or more, and `10u32.pow` itself overflows from 11 digits.
