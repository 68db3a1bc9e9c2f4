/** Character-level helpers shared by the text parsers: Rust's `str::len` (UTF-8 bytes),
    `char::is_whitespace`, and `FromStr` for the integer types. */
module Text {
  import opened Outcomes

  /** Number of bytes the UTF-8 encoding of `c` takes. */
  function Utf8Width(c: char): (n: nat)
    ensures 1 <= n <= 4
    ensures n == 1 <==> c < 128 as char
  {
    if c < 0x80 as char then 1
    else if c < 0x800 as char then 2
    else if c < 0x1_0000 as char then 3
    else 4
  }

  /** `str::len`: the length of `s` in UTF-8 bytes. */
  function Utf8Length(s: string): nat
  {
    if s == [] then 0 else Utf8Width(s[0]) + Utf8Length(s[1..])
  }

  predicate IsAscii(s: string)
  {
    forall i :: 0 <= i < |s| ==> s[i] < 128 as char
  }

  /** For ASCII text the byte length is the character count. */
  lemma {:induction false} AsciiLength(s: string)
    requires IsAscii(s)
    ensures Utf8Length(s) == |s|
  {
    if s != [] {
      AsciiLength(s[1..]);
    }
  }

  /** Every character takes at least one byte. */
  lemma {:induction false} Utf8LengthAtLeastCount(s: string)
    ensures Utf8Length(s) >= |s|
    ensures Utf8Length(s) == |s| ==> IsAscii(s)
  {
    if s != [] {
      Utf8LengthAtLeastCount(s[1..]);
      assert forall i :: 1 <= i < |s| ==> s[i] == s[1..][i - 1];
    }
  }

  /** `char::is_whitespace`: the characters with the Unicode White_Space property. */
  predicate IsWhitespace(c: char)
  {
    || ('\U{9}' <= c <= '\U{D}') || c == ' ' || c == '\U{85}' || c == '\U{A0}'
    || c == '\U{1680}' || ('\U{2000}' <= c <= '\U{200A}') || c == '\U{2028}' || c == '\U{2029}'
    || c == '\U{202F}' || c == '\U{205F}' || c == '\U{3000}'
  }

  /** `str::split_whitespace`: the maximal runs of non-whitespace characters, in order;
      `word` is the run read so far. */
  function WordsFrom(s: string, word: string): (words: seq<string>)
    ensures forall i :: 0 <= i < |words| ==> |words[i]| > 0
    ensures (forall k :: 0 <= k < |word| ==> !IsWhitespace(word[k])) ==>
      forall i, k :: 0 <= i < |words| && 0 <= k < |words[i]| ==> !IsWhitespace(words[i][k])
  {
    if s == [] then
      if word == [] then [] else [word]
    else if IsWhitespace(s[0]) then
      (if word == [] then [] else [word]) + WordsFrom(s[1..], [])
    else
      WordsFrom(s[1..], word + [s[0]])
  }

  function Words(s: string): (words: seq<string>)
    ensures forall i :: 0 <= i < |words| ==> |words[i]| > 0
    ensures forall i, k :: 0 <= i < |words| && 0 <= k < |words[i]| ==> !IsWhitespace(words[i][k])
  {
    WordsFrom(s, [])
  }

  predicate IsDigit(c: char)
  {
    '0' <= c <= '9'
  }

  predicate AllDigits(s: string)
  {
    forall i :: 0 <= i < |s| ==> IsDigit(s[i])
  }

  /** The value of a string of decimal digits, most significant first. */
  function DigitsValue(s: string): nat
    requires AllDigits(s)
  {
    if s == [] then 0
    else DigitsValue(s[..|s| - 1]) * 10 + (s[|s| - 1] as int - '0' as int)
  }

  function Pow10(n: nat): (p: nat)
    ensures p >= 1
  {
    if n == 0 then 1 else 10 * Pow10(n - 1)
  }

  /** `n` decimal digits spell a number below 10^n. */
  lemma {:induction false} DigitsValueBound(s: string)
    requires AllDigits(s)
    ensures DigitsValue(s) < Pow10(|s|)
  {
    if s != [] {
      DigitsValueBound(s[..|s| - 1]);
    }
  }

  /** Integer `FromStr` (Rust's `from_str_radix` with radix 10): an optional `+` (or `-` when
      the type is signed) followed by at least one digit; values outside [lo, hi] overflow. */
  function ParseInteger(s: string, signed: bool, lo: int, hi: int): (r: Option<int>)
    ensures r.Some? ==> lo <= r.value <= hi
  {
    if s == [] then None
    else if (s[0] == '+' || s[0] == '-') && |s| == 1 then None
    else
      var negative := s[0] == '-' && signed;
      var digits := if s[0] == '+' || negative then s[1..] else s;
      if !AllDigits(digits) then None
      else
        var v: int := if negative then 0 - DigitsValue(digits) else DigitsValue(digits);
        if lo <= v <= hi then Some(v) else None
  }

  const I32Min: int := -0x8000_0000
  const I32Max: int := 0x7FFF_FFFF
  const U32Max: int := 0xFFFF_FFFF
  const U64Max: int := 0xFFFF_FFFF_FFFF_FFFF

  /** `i32::from_str` */
  function ParseI32(s: string): Option<int>
  {
    ParseInteger(s, true, I32Min, I32Max)
  }

  /** `u32::from_str` */
  function ParseU32(s: string): Option<int>
  {
    ParseInteger(s, false, 0, U32Max)
  }

  /** Every word read as a `u32`, in order; `None` when some word is not one. */
  function ParseU32s(words: seq<string>): (r: Option<seq<nat>>)
    ensures r.Some? ==> |r.value| == |words|
    ensures r.Some? ==> forall i :: 0 <= i < |words| ==> ParseU32(words[i]) == Some(r.value[i] as int)
    ensures r.None? ==> exists i :: 0 <= i < |words| && ParseU32(words[i]).None?
  {
    if words == [] then Some([])
    else
      match ParseU32(words[0])
      case None => None
      case Some(v) =>
        match ParseU32s(words[1..])
        case None => None
        case Some(rest) => Some([v as nat] + rest)
  }

  /** `usize::from_str` on a 64-bit target */
  function ParseUsize(s: string): Option<int>
  {
    ParseInteger(s, false, 0, U64Max)
  }

  /** Canonical decimal rendering of a natural number (no sign, no leading zeros). */
  function NatToDecimal(n: nat): (s: string)
    ensures |s| > 0 && AllDigits(s)
    decreases n
  {
    if n < 10 then [('0' as int + n) as char]
    else NatToDecimal(n / 10) + [('0' as int + n % 10) as char]
  }

  lemma {:induction false} NatToDecimalValue(n: nat)
    ensures DigitsValue(NatToDecimal(n)) == n
    decreases n
  {
    var s := NatToDecimal(n);
    if n >= 10 {
      NatToDecimalValue(n / 10);
      assert s[..|s| - 1] == NatToDecimal(n / 10);
    }
  }

  /** Parsing a decimal rendering gives the number back, for a signed or an unsigned type
      whose range holds it. */
  lemma ParseNatToDecimal(n: nat, signed: bool, lo: int, hi: int)
    requires lo <= n <= hi
    ensures ParseInteger(NatToDecimal(n), signed, lo, hi) == Some(n)
  {
    NatToDecimalValue(n);
  }

  /** `str::split` on one character: the pieces between the separators, in order, an empty
      string giving one empty piece. */
  function Split(s: string, sep: char): (pieces: seq<string>)
    ensures |pieces| > 0
    ensures forall i :: 0 <= i < |pieces| ==> sep !in pieces[i]
  {
    if s == [] then [[]]
    else
      var init := Split(s[..|s| - 1], sep);
      var c := s[|s| - 1];
      if c == sep then init + [[]]
      else init[..|init| - 1] + [init[|init| - 1] + [c]]
  }

  /** The pieces put back together with the separator between them. */
  function Join(pieces: seq<string>, sep: char): string
    requires |pieces| > 0
  {
    if |pieces| == 1 then pieces[0]
    else Join(pieces[..|pieces| - 1], sep) + [sep] + pieces[|pieces| - 1]
  }

  /** Splitting loses nothing: joining the pieces gives the string back. */
  lemma {:induction false} SplitJoin(s: string, sep: char)
    ensures Join(Split(s, sep), sep) == s
  {
    if s != [] {
      var init := Split(s[..|s| - 1], sep);
      SplitJoin(s[..|s| - 1], sep);
      var c := s[|s| - 1];
      assert s == s[..|s| - 1] + [c];
      if c != sep && |init| > 1 {
        var pieces := Split(s, sep);
        assert pieces[..|pieces| - 1] == init[..|init| - 1];
      }
    }
  }

  /** Pieces free of the separator are what splitting their join gives. */
  lemma {:induction false} JoinSplit(pieces: seq<string>, sep: char)
    requires |pieces| > 0 && forall i :: 0 <= i < |pieces| ==> sep !in pieces[i]
    ensures Split(Join(pieces, sep), sep) == pieces
  {
    if |pieces| == 1 {
      SplitPlain([], pieces[0], sep);
      assert [] + pieces[0] == pieces[0];
      assert ExtendLast([[]], pieces[0]) == [[] + pieces[0]];
    } else {
      JoinSplit(pieces[..|pieces| - 1], sep);
      JoinSplitStep(pieces, sep);
    }
  }

  /** One more piece: from the join of all but the last piece to the join of all. */
  lemma JoinSplitStep(pieces: seq<string>, sep: char)
    requires |pieces| > 1 && sep !in pieces[|pieces| - 1]
    requires Split(Join(pieces[..|pieces| - 1], sep), sep) == pieces[..|pieces| - 1]
    ensures Split(Join(pieces, sep), sep) == pieces
  {
    var n := |pieces| - 1;
    var init := pieces[..n];
    var prefix := Join(init, sep) + [sep];
    SplitSep(Join(init, sep), sep);
    SplitPlain(prefix, pieces[n], sep);
    ExtendEmpty(init, pieces[n]);
    assert Join(pieces, sep) == prefix + pieces[n];
    LastApart(pieces);
  }

  /** A nonempty sequence is its front followed by its last element. */
  lemma LastApart<T>(s: seq<T>)
    requires |s| > 0
    ensures s[..|s| - 1] + [s[|s| - 1]] == s
  {
  }

  /** A separator at the end starts a new, empty piece. */
  lemma SplitSep(s: string, sep: char)
    ensures Split(s + [sep], sep) == Split(s, sep) + [[]]
  {
    assert (s + [sep])[..|s|] == s;
  }

  /** Extending an empty last piece replaces it. */
  lemma ExtendEmpty(init: seq<string>, piece: string)
    ensures ExtendLast(init + [[]], piece) == init + [piece]
  {
    assert (init + [[]])[..|init|] == init;
    assert [] + piece == piece;
  }

  /** A character other than the separator extends the last piece. */
  lemma SplitSnoc(s: string, c: char, sep: char)
    requires c != sep
    ensures Split(s + [c], sep) == ExtendLast(Split(s, sep), [c])
  {
    assert (s + [c])[..|s|] == s;
  }

  /** Appending text without the separator extends the last piece. */
  lemma {:induction false} SplitPlain(prefix: string, tail: string, sep: char)
    requires sep !in tail
    ensures Split(prefix + tail, sep) == ExtendLast(Split(prefix, sep), tail)
    decreases |tail|
  {
    var before := Split(prefix, sep);
    if tail == [] {
      assert prefix + tail == prefix;
      ExtendNothing(before);
    } else {
      SplitPlain(prefix + [tail[0]], tail[1..], sep);
      SplitPlainStep(prefix, tail, sep);
    }
  }

  /** One step of `SplitPlain`: the first character of the tail, then the rest. */
  lemma SplitPlainStep(prefix: string, tail: string, sep: char)
    requires tail != [] && tail[0] != sep
    requires Split(prefix + [tail[0]] + tail[1..], sep) == ExtendLast(Split(prefix + [tail[0]], sep), tail[1..])
    ensures Split(prefix + tail, sep) == ExtendLast(Split(prefix, sep), tail)
  {
    var c, rest := tail[0], tail[1..];
    assert tail == [c] + rest;
    SplitSnoc(prefix, c, sep);
    assert prefix + [c] + rest == prefix + tail;
    ExtendLastTwice(Split(prefix, sep), [c], rest);
  }

  /** `pieces` with `tail` appended to its last piece. */
  function ExtendLast(pieces: seq<string>, tail: string): (r: seq<string>)
    requires |pieces| > 0
    ensures |r| == |pieces| && r[..|r| - 1] == pieces[..|pieces| - 1]
  {
    pieces[..|pieces| - 1] + [pieces[|pieces| - 1] + tail]
  }

  /** Extending the last piece by nothing leaves the pieces as they are. */
  lemma ExtendNothing(pieces: seq<string>)
    requires |pieces| > 0
    ensures ExtendLast(pieces, []) == pieces
  {
    var k := |pieces| - 1;
    assert pieces[k] + [] == pieces[k] && pieces[..k] + [pieces[k]] == pieces;
  }

  /** Extending the last piece twice is extending it once by both. */
  lemma ExtendLastTwice(pieces: seq<string>, a: string, b: string)
    requires |pieces| > 0
    ensures ExtendLast(ExtendLast(pieces, a), b) == ExtendLast(pieces, a + b)
  {
    var once := ExtendLast(pieces, a);
    assert once[..|once| - 1] == pieces[..|pieces| - 1];
    assert pieces[|pieces| - 1] + a + b == pieces[|pieces| - 1] + (a + b);
  }
}
