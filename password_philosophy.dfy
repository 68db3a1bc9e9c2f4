/** Password policies of 2020 day 2: a line `a-b c: password` names two numbers and a
    character, read once as an occurrence range and once as two 1-based positions. */
module PasswordPhilosophy {
  import opened Outcomes
  import opened Text

  /** `Password` */
  datatype Password = Password(a: nat, b: nat, required: char, actual: string)

  /** The characters of `s` equal to `c`, in order: what `retain(|x| x == c)` leaves. */
  function Retained(s: string, c: char): (t: string)
    ensures |t| <= |s|
    ensures forall i :: 0 <= i < |t| ==> t[i] == c
  {
    if s == [] then []
    else Retained(s[..|s| - 1], c) + (if s[|s| - 1] == c then [c] else [])
  }

  /** The retained string holds one copy of `c` per occurrence of `c` in `s`. */
  lemma {:induction false} RetainedCounts(s: string, c: char)
    ensures |Retained(s, c)| == multiset(s)[c]
  {
    if s != [] {
      var n := |s| - 1;
      RetainedCounts(s[..n], c);
      assert s == s[..n] + [s[n]];
      assert multiset(s) == multiset(s[..n]) + multiset{s[n]};
    }
  }

  /** A string of `n` copies of `c` takes `n` times the bytes of `c`. */
  lemma {:induction false} RepeatedLength(t: string, c: char)
    requires forall i :: 0 <= i < |t| ==> t[i] == c
    ensures Utf8Length(t) == |t| * Utf8Width(c)
  {
    if t != [] {
      RepeatedLength(t[1..], c);
    }
  }

  /** `Password::valid_1`: `tmp.len()` of the retained copy counts UTF-8 bytes. */
  method Valid1(p: Password) returns (valid: bool)
    ensures valid <==> p.a <= Utf8Length(Retained(p.actual, p.required)) <= p.b
  {
    var tmp := p.actual;
    var kept: string := [];
    for i := 0 to |tmp|
      invariant kept == Retained(tmp[..i], p.required)
    {
      assert tmp[..i + 1][..i] == tmp[..i];
      if tmp[i] == p.required {
        kept := kept + [tmp[i]];
      }
    }
    assert tmp[..|tmp|] == tmp;
    tmp := kept;
    valid := Utf8Length(tmp) >= p.a && Utf8Length(tmp) <= p.b;
  }

  /** For a required character that is one byte long, `valid_1` is the occurrence count
      lying in `a..=b`; a wider character is counted once per byte. */
  lemma Valid1Counts(p: Password)
    ensures Utf8Length(Retained(p.actual, p.required)) == multiset(p.actual)[p.required] * Utf8Width(p.required)
    ensures p.required < 128 as char ==>
      (p.a <= Utf8Length(Retained(p.actual, p.required)) <= p.b <==> p.a <= multiset(p.actual)[p.required] <= p.b)
  {
    RetainedCounts(p.actual, p.required);
    RepeatedLength(Retained(p.actual, p.required), p.required);
  }

  /** `Password::valid_2`: exactly one of the 1-based positions `a` and `b` holds the
      character; positions outside the password panic. */
  function Valid2(p: Password): (valid: bool)
    requires 1 <= p.a <= |p.actual| && 1 <= p.b <= |p.actual|
    ensures valid <==> multiset{p.actual[p.a - 1], p.actual[p.b - 1]}[p.required] == 1
  {
    var c1 := p.actual[p.a - 1];
    var c2 := p.actual[p.b - 1];
    (c1 == p.required && c2 != p.required) || (c1 != p.required && c2 == p.required)
  }

  predicate SeparatorAt(line: string, j: int)
  {
    0 <= j && j + 2 <= |line| && line[j] == ':' && line[j + 1] == ' '
  }

  /** The first place where `": "` starts. */
  function Separator(line: string): (r: Option<nat>)
    ensures r.Some? ==> SeparatorAt(line, r.value)
    ensures r.Some? ==> forall j :: 0 <= j < r.value ==> !SeparatorAt(line, j)
    ensures r.None? ==> forall j :: !SeparatorAt(line, j)
  {
    if |line| < 2 then None
    else if line[0] == ':' && line[1] == ' ' then Some(0)
    else
      var rest := line[1..];
      match Separator(rest)
      case None =>
        assert forall j :: SeparatorAt(line, j) ==> SeparatorAt(rest, j - 1);
        None
      case Some(i) =>
        assert forall j :: SeparatorAt(line, j) ==> j == 0 || SeparatorAt(rest, j - 1);
        Some(i + 1)
  }

  /** The position of the first `-`. */
  function Dash(s: string): (r: Option<nat>)
    ensures r.Some? ==> r.value < |s| && s[r.value] == '-' && '-' !in s[..r.value]
    ensures r.None? ==> '-' !in s
  {
    if s == [] then None
    else if s[0] == '-' then Some(0)
    else
      match Dash(s[1..])
      case None => None
      case Some(i) =>
        assert s[..i + 1] == [s[0]] + s[1..][..i];
        Some(i + 1)
  }

  /** `^([0-9]+)-([0-9]+) (.)$` with both numbers read as `usize`: `None` where the
      `unwrap` calls panic. */
  function ParsePolicy(policy: string): (r: Option<(nat, nat, char)>)
    ensures r.Some? ==> |policy| >= 5 && policy[|policy| - 1] != '\n' && policy[|policy| - 2] == ' '
  {
    if |policy| < 5 || policy[|policy| - 2] != ' ' || policy[|policy| - 1] == '\n' then None
    else ParseRange(policy[..|policy| - 2], policy[|policy| - 1])
  }

  /** The `([0-9]+)-([0-9]+)` part of the policy, split at its first `-`, with the policy's
      character `c`. */
  function ParseRange(range: string, c: char): (r: Option<(nat, nat, char)>)
    ensures r.Some? ==> r.value.2 == c
  {
    match Dash(range)
    case None => None
    case Some(d) =>
      var low, high := range[..d], range[d + 1..];
      if low == [] || high == [] || !AllDigits(low) || !AllDigits(high) then None
      else
        var a :- ParseUsize(low);
        var b :- ParseUsize(high);
        Some((a, b, c))
  }

  /** `parse_line`: the policy before the first `": "`, the password after it; `None` where
      the source panics. */
  function ParseLine(line: string): (r: Option<Password>)
    ensures r.Some? ==> Separator(line).Some? && r.value.actual == line[Separator(line).value + 2..]
    ensures r.Some? ==> ParsePolicy(line[..Separator(line).value]) == Some((r.value.a, r.value.b, r.value.required))
  {
    var i :- Separator(line);
    var policy :- ParsePolicy(line[..i]);
    Some(Password(policy.0, policy.1, policy.2, line[i + 2..]))
  }

  /** How a policy is written: `a-b c`. */
  function PolicyText(a: nat, b: nat, c: char): (policy: string)
    ensures |policy| >= 5
  {
    NatToDecimal(a) + "-" + NatToDecimal(b) + " " + [c]
  }

  /** How a password is written: `a-b c: actual`. */
  function Format(p: Password): (line: string)
  {
    PolicyText(p.a, p.b, p.required) + ": " + p.actual
  }

  /** A policy made of two digit strings, a `-`, a space and a character parses to the
      two numbers and the character, unless a number overflows `usize`. */
  lemma ParsePolicyParts(low: string, high: string, c: char)
    requires low != [] && high != [] && AllDigits(low) && AllDigits(high) && c != '\n'
    ensures ParsePolicy(low + "-" + high + " " + [c]) ==
      if ParseUsize(low).Some? && ParseUsize(high).Some? then Some((ParseUsize(low).value, ParseUsize(high).value, c))
      else None
  {
    var range := low + "-" + high;
    var policy := range + " " + [c];
    assert |policy| >= 5 && policy[|policy| - 2] == ' ' && policy[|policy| - 1] == c;
    assert policy[..|policy| - 2] == range;
    PolicyRange(policy);
    ParseRangeParts(low, high, c);
  }

  /** A policy of the right shape is its range followed by its character. */
  lemma PolicyRange(policy: string)
    requires |policy| >= 5 && policy[|policy| - 2] == ' ' && policy[|policy| - 1] != '\n'
    ensures ParsePolicy(policy) == ParseRange(policy[..|policy| - 2], policy[|policy| - 1])
  {
  }

  /** A range made of two digit strings and a `-` splits into the two. */
  lemma ParseRangeParts(low: string, high: string, c: char)
    requires low != [] && high != [] && AllDigits(low) && AllDigits(high)
    ensures ParseRange(low + "-" + high, c) ==
      if ParseUsize(low).Some? && ParseUsize(high).Some? then Some((ParseUsize(low).value, ParseUsize(high).value, c))
      else None
  {
    var range := low + "-" + high;
    DashAfterDigits(low, high);
    assert range[..|low|] == low && range[|low| + 1..] == high;
  }

  /** The first `-` after a run of digits is the one right after it. */
  lemma DashAfterDigits(low: string, high: string)
    requires AllDigits(low)
    ensures Dash(low + "-" + high) == Some(|low|)
  {
    var range := low + "-" + high;
    assert range[|low|] == '-';
    assert range[..|low|] == low;
    assert '-' !in low by {
      forall k | 0 <= k < |low| ensures low[k] != '-' { assert IsDigit(low[k]); }
    }
  }

  /** The written policy reads back. */
  lemma ParsePolicyText(a: nat, b: nat, c: char)
    requires a <= U64Max && b <= U64Max && c != '\n'
    ensures ParsePolicy(PolicyText(a, b, c)) == Some((a, b, c))
  {
    ParsePolicyParts(NatToDecimal(a), NatToDecimal(b), c);
    ParseNatToDecimal(a, false, 0, U64Max);
    ParseNatToDecimal(b, false, 0, U64Max);
  }

  /** The first `": "` of a written password is the one after the policy. */
  lemma FormatSeparator(p: Password)
    ensures Separator(Format(p)) == Some(|PolicyText(p.a, p.b, p.required)|)
  {
    var low, high := NatToDecimal(p.a), NatToDecimal(p.b);
    var policy := PolicyText(p.a, p.b, p.required);
    var line := Format(p);
    var n := |policy|;
    assert SeparatorAt(line, n);
    forall j | 0 <= j < n ensures !SeparatorAt(line, j) {
      if j < n - 2 {
        assert line[j + 1] == policy[j + 1];
        if j + 1 < |low| {
          assert policy[j + 1] == low[j + 1];
          assert IsDigit(low[j + 1]);
        } else if j + 1 > |low| && j + 1 < n - 2 {
          assert policy[j + 1] == high[j - |low|];
          assert IsDigit(high[j - |low|]);
        }
      } else if j == n - 2 {
        assert line[j] == ' ';
      }
    }
  }

  /** Every password whose numbers fit a `usize` and whose character is not a newline reads
      back from its own line, whatever the password text holds. */
  lemma ParseFormat(p: Password)
    requires p.a <= U64Max && p.b <= U64Max && p.required != '\n'
    ensures ParseLine(Format(p)) == Some(p)
  {
    var policy := PolicyText(p.a, p.b, p.required);
    var line := Format(p);
    FormatSeparator(p);
    assert line[..|policy|] == policy;
    assert line[|policy| + 2..] == p.actual;
    ParsePolicyText(p.a, p.b, p.required);
  }

  /** Naming the same position twice never satisfies the second policy. */
  lemma SamePositionNeverValid(p: Password)
    requires 1 <= p.a <= |p.actual| && p.a == p.b
    ensures !Valid2(p)
  {
  }
}
