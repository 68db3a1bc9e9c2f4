/** Boarding passes of 2020 day 5: ten characters, seven of them `F`/`B` spelling the row
    and three `L`/`R` spelling the column as binary numbers, most significant bit first. */
module BinaryBoarding {
  import opened Outcomes
  import opened Text

  /** `Seat { row: u32, column: u32 }` */
  datatype Seat = Seat(row: nat, column: nat)

  /** The three `Err` strings of `Seat::from_str`. */
  datatype SeatError = InvalidLength | UnrecognisedCharacter | InvalidPattern

  /** `Seat::id` */
  function Id(seat: Seat): (id: nat)
    ensures seat.row < 128 && seat.column < 8 ==> id < 1024
    ensures id % 8 == seat.column % 8
  {
    seat.row * 8 + seat.column
  }

  predicate IsRowChar(c: char) { c == 'F' || c == 'B' }
  predicate IsColumnChar(c: char) { c == 'L' || c == 'R' }
  predicate IsSeatChar(c: char) { IsRowChar(c) || IsColumnChar(c) }

  /** The row characters of `s` in order, as bits (`B` is 1). */
  function RowBits(s: string): (bits: seq<bool>)
    ensures |bits| <= |s|
  {
    if s == [] then []
    else
      var c := s[|s| - 1];
      RowBits(s[..|s| - 1]) + (if IsRowChar(c) then [c == 'B'] else [])
  }

  /** The column characters of `s` in order, as bits (`R` is 1). */
  function ColumnBits(s: string): (bits: seq<bool>)
    ensures |bits| <= |s|
  {
    if s == [] then []
    else
      var c := s[|s| - 1];
      ColumnBits(s[..|s| - 1]) + (if IsColumnChar(c) then [c == 'R'] else [])
  }

  function Pow2(n: nat): (p: nat)
    ensures p >= 1
  {
    if n == 0 then 1 else 2 * Pow2(n - 1)
  }

  /** The number `bits` spell, most significant bit first. */
  function Binary(bits: seq<bool>): (v: nat)
    ensures v < Pow2(|bits|)
  {
    if bits == [] then 0
    else 2 * Binary(bits[..|bits| - 1]) + (if bits[|bits| - 1] then 1 else 0)
  }

  /** What `Seat::from_str` returns: the length is checked in UTF-8 bytes, then every
      character must be one of `FBLR`, then there must be seven row and three column
      characters, in any interleaving. */
  function ParseSeat(s: string): (r: Result<Seat, SeatError>)
    ensures r.Ok? ==> r.value.row < 128 && r.value.column < 8 && Id(r.value) < 1024
  {
    if Utf8Length(s) != 10 then Err(InvalidLength)
    else if exists i :: 0 <= i < |s| && !IsSeatChar(s[i]) then Err(UnrecognisedCharacter)
    else if |RowBits(s)| == 7 && |ColumnBits(s)| == 3 then
      Ok(Seat(Binary(RowBits(s)), Binary(ColumnBits(s))))
    else Err(InvalidPattern)
  }

  /** `Seat::from_str`, character by character with shifts and counters. */
  method FromStr(s: string) returns (r: Result<Seat, SeatError>)
    ensures r == ParseSeat(s)
  {
    if Utf8Length(s) != 10 {
      return Err(InvalidLength);
    }
    var rc, cc := 0, 0;
    var row, column := 0, 0;
    for i := 0 to |s|
      invariant forall k :: 0 <= k < i ==> IsSeatChar(s[k])
      invariant rc == |RowBits(s[..i])| && row == Binary(RowBits(s[..i]))
      invariant cc == |ColumnBits(s[..i])| && column == Binary(ColumnBits(s[..i]))
    {
      var c := s[i];
      if IsRowChar(c) {
        ScanRowChar(s, i);
        row, rc := row * 2 + (if c == 'B' then 1 else 0), rc + 1;
      } else if IsColumnChar(c) {
        ScanColumnChar(s, i);
        column, cc := column * 2 + (if c == 'R' then 1 else 0), cc + 1;
      } else {
        return Err(UnrecognisedCharacter);
      }
    }
    assert s[..|s|] == s;
    if rc == 7 && cc == 3 {
      r := Ok(Seat(row, column));
    } else {
      r := Err(InvalidPattern);
    }
  }

  /** A row character adds one bit to the row and none to the column. */
  lemma AppendRowChar(s: string, c: char)
    requires IsRowChar(c)
    ensures RowBits(s + [c]) == RowBits(s) + [c == 'B']
    ensures ColumnBits(s + [c]) == ColumnBits(s)
  {
    assert (s + [c])[..|s|] == s;
    assert ColumnBits(s) + [] == ColumnBits(s);
  }

  /** A column character adds one bit to the column and none to the row. */
  lemma AppendColumnChar(s: string, c: char)
    requires IsColumnChar(c)
    ensures ColumnBits(s + [c]) == ColumnBits(s) + [c == 'R']
    ensures RowBits(s + [c]) == RowBits(s)
  {
    assert (s + [c])[..|s|] == s;
    assert RowBits(s) + [] == RowBits(s);
  }

  /** Scanning the row character at `i` shifts its bit into the row. */
  lemma ScanRowChar(s: string, i: nat)
    requires i < |s| && IsRowChar(s[i])
    ensures RowBits(s[..i + 1]) == RowBits(s[..i]) + [s[i] == 'B']
    ensures Binary(RowBits(s[..i + 1])) == 2 * Binary(RowBits(s[..i])) + (if s[i] == 'B' then 1 else 0)
    ensures ColumnBits(s[..i + 1]) == ColumnBits(s[..i])
  {
    assert s[..i + 1] == s[..i] + [s[i]];
    AppendRowChar(s[..i], s[i]);
    BinaryAppend(RowBits(s[..i]), s[i] == 'B');
  }

  /** Scanning the column character at `i` shifts its bit into the column. */
  lemma ScanColumnChar(s: string, i: nat)
    requires i < |s| && IsColumnChar(s[i])
    ensures ColumnBits(s[..i + 1]) == ColumnBits(s[..i]) + [s[i] == 'R']
    ensures Binary(ColumnBits(s[..i + 1])) == 2 * Binary(ColumnBits(s[..i])) + (if s[i] == 'R' then 1 else 0)
    ensures RowBits(s[..i + 1]) == RowBits(s[..i])
  {
    assert s[..i + 1] == s[..i] + [s[i]];
    AppendColumnChar(s[..i], s[i]);
    BinaryAppend(ColumnBits(s[..i]), s[i] == 'R');
  }

  /** One more bit doubles the number and adds the bit. */
  lemma BinaryAppend(bits: seq<bool>, b: bool)
    ensures Binary(bits + [b]) == 2 * Binary(bits) + (if b then 1 else 0)
  {
    assert (bits + [b])[..|bits|] == bits;
  }

  /** The pass that names a seat: its row bits as `F`/`B`, then its column bits as `L`/`R`. */
  function Encode(seat: Seat): (s: string)
    requires seat.row < 128 && seat.column < 8
    ensures |s| == 10
  {
    Spell(seat.row, 7, 'F', 'B') + Spell(seat.column, 3, 'L', 'R')
  }

  /** `n` in `width` binary digits, most significant first, with `zero` and `one`. */
  function Spell(n: nat, width: nat, zero: char, one: char): (s: string)
    requires n < Pow2(width)
    ensures |s| == width
    ensures forall i :: 0 <= i < |s| ==> s[i] == zero || s[i] == one
  {
    if width == 0 then []
    else Spell(n / 2, width - 1, zero, one) + [if n % 2 == 1 then one else zero]
  }

  lemma {:induction false} SpellRows(n: nat, width: nat)
    requires n < Pow2(width)
    ensures RowBits(Spell(n, width, 'F', 'B')) == BitsOf(n, width)
    ensures ColumnBits(Spell(n, width, 'F', 'B')) == []
  {
    if width > 0 {
      var t := Spell(n / 2, width - 1, 'F', 'B');
      var c := if n % 2 == 1 then 'B' else 'F';
      assert Spell(n, width, 'F', 'B') == t + [c];
      AppendRowChar(t, c);
      SpellRows(n / 2, width - 1);
    }
  }

  lemma {:induction false} SpellColumns(n: nat, width: nat, prefix: string)
    requires n < Pow2(width)
    ensures RowBits(prefix + Spell(n, width, 'L', 'R')) == RowBits(prefix)
    ensures ColumnBits(prefix + Spell(n, width, 'L', 'R')) == ColumnBits(prefix) + BitsOf(n, width)
  {
    if width == 0 {
      assert prefix + Spell(n, width, 'L', 'R') == prefix;
    } else {
      var t := prefix + Spell(n / 2, width - 1, 'L', 'R');
      var c := if n % 2 == 1 then 'R' else 'L';
      assert prefix + Spell(n, width, 'L', 'R') == t + [c];
      AppendColumnChar(t, c);
      SpellColumns(n / 2, width - 1, prefix);
    }
  }

  /** The `width` binary digits of `n`. */
  function BitsOf(n: nat, width: nat): (bits: seq<bool>)
    requires n < Pow2(width)
    ensures |bits| == width
  {
    if width == 0 then [] else BitsOf(n / 2, width - 1) + [n % 2 == 1]
  }

  lemma {:induction false} BinaryBitsOf(n: nat, width: nat)
    requires n < Pow2(width)
    ensures Binary(BitsOf(n, width)) == n
  {
    if width > 0 {
      var bits := BitsOf(n, width);
      assert bits[..|bits| - 1] == BitsOf(n / 2, width - 1);
      BinaryBitsOf(n / 2, width - 1);
    }
  }

  /** A well-formed pass reads as the row and column its two kinds of characters spell. */
  lemma ParseWellFormed(s: string)
    requires |s| == 10 && forall i :: 0 <= i < |s| ==> IsSeatChar(s[i])
    requires |RowBits(s)| == 7 && |ColumnBits(s)| == 3
    ensures ParseSeat(s) == Ok(Seat(Binary(RowBits(s)), Binary(ColumnBits(s))))
  {
    assert IsAscii(s);
    AsciiLength(s);
  }

  /** Every seat has a pass, and `from_str` reads it back. */
  lemma ParseEncode(seat: Seat)
    requires seat.row < 128 && seat.column < 8
    ensures ParseSeat(Encode(seat)) == Ok(seat)
  {
    var rows := Spell(seat.row, 7, 'F', 'B');
    var s := Encode(seat);
    SpellRows(seat.row, 7);
    SpellColumns(seat.column, 3, rows);
    BinaryBitsOf(seat.row, 7);
    BinaryBitsOf(seat.column, 3);
    assert forall i :: 0 <= i < |s| ==> IsSeatChar(s[i]) by {
      forall i | 0 <= i < |s| ensures IsSeatChar(s[i]) {
        if i >= 7 { assert s[i] == Spell(seat.column, 3, 'L', 'R')[i - 7]; }
      }
    }
    assert ColumnBits(rows) + BitsOf(seat.column, 3) == BitsOf(seat.column, 3);
    ParseWellFormed(s);
  }

  lemma {:induction false} BitsOfBinary(bits: seq<bool>)
    ensures BitsOf(Binary(bits), |bits|) == bits
  {
    if bits != [] {
      var init := bits[..|bits| - 1];
      var v, b := Binary(init), if bits[|bits| - 1] then 1 else 0;
      assert Binary(bits) == 2 * v + b;
      assert Binary(bits) / 2 == v && (Binary(bits) % 2 == 1 <==> bits[|bits| - 1]);
      BitsOfBinary(init);
      assert init + [bits[|bits| - 1]] == bits;
    }
  }

  /** The converse of `ParseEncode`: an accepted pass spells its seat's row and column in
      the same bits as the seat's own pass, whatever the order the two kinds of character
      are interleaved in. */
  lemma ParseDecode(s: string, seat: Seat)
    requires ParseSeat(s) == Ok(seat)
    ensures seat.row < 128 && seat.column < 8
    ensures RowBits(s) == RowBits(Encode(seat)) && ColumnBits(s) == ColumnBits(Encode(seat))
  {
    var rows := Spell(seat.row, 7, 'F', 'B');
    SpellRows(seat.row, 7);
    SpellColumns(seat.column, 3, rows);
    assert ColumnBits(rows) + BitsOf(seat.column, 3) == BitsOf(seat.column, 3);
    BitsOfBinary(RowBits(s));
    BitsOfBinary(ColumnBits(s));
  }

  /** A pass is rejected exactly when it is not ten bytes of `FBLR` with seven row and three
      column characters. */
  lemma ParseSeatAccepts(s: string)
    ensures ParseSeat(s).Ok? <==>
      |s| == 10 && (forall i :: 0 <= i < |s| ==> IsSeatChar(s[i])) &&
      |RowBits(s)| == 7 && |ColumnBits(s)| == 3
  {
    if forall i :: 0 <= i < |s| ==> IsSeatChar(s[i]) {
      assert IsAscii(s);
      AsciiLength(s);
    }
  }

  /** The first example of the unit tests. */
  lemma ExampleFirst()
    ensures ParseSeat("FBFBBFFRLR") == Ok(Seat(44, 5)) && Id(Seat(44, 5)) == 357
  {
    assert Spell(44, 7, 'F', 'B') == "FBFBBFF";
    assert Spell(5, 3, 'L', 'R') == "RLR";
    assert Encode(Seat(44, 5)) == "FBFBBFFRLR";
    ParseEncode(Seat(44, 5));
  }

  /** The second example of the unit tests. */
  lemma ExampleSecond()
    ensures ParseSeat("BFFFBBFRRR") == Ok(Seat(70, 7)) && Id(Seat(70, 7)) == 567
  {
    assert Spell(70, 7, 'F', 'B') == "BFFFBBF";
    assert Spell(7, 3, 'L', 'R') == "RRR";
    assert Encode(Seat(70, 7)) == "BFFFBBFRRR";
    ParseEncode(Seat(70, 7));
  }

  /** The third example of the unit tests. */
  lemma ExampleThird()
    ensures ParseSeat("FFFBBBFRRR") == Ok(Seat(14, 7)) && Id(Seat(14, 7)) == 119
  {
    assert Spell(14, 7, 'F', 'B') == "FFFBBBF";
    assert Spell(7, 3, 'L', 'R') == "RRR";
    assert Encode(Seat(14, 7)) == "FFFBBBFRRR";
    ParseEncode(Seat(14, 7));
  }

  /** The fourth example of the unit tests. */
  lemma ExampleFourth()
    ensures ParseSeat("BBFFBBFRLL") == Ok(Seat(102, 4)) && Id(Seat(102, 4)) == 820
  {
    assert Spell(102, 7, 'F', 'B') == "BBFFBBF";
    assert Spell(4, 3, 'L', 'R') == "RLL";
    assert Encode(Seat(102, 4)) == "BBFFBBFRLL";
    ParseEncode(Seat(102, 4));
  }
}
