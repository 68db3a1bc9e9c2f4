/** Passport validation of 2020 day 4: a passport is a run of whitespace-separated `key:value`
    components, of which seven keys are required, and each required value has its own rule. */
module PassportProcessing {
  import opened Outcomes
  import opened Text

  /** The `&'static str` errors of the field parsers and of `Passport::try_from`. */
  datatype FieldError =
    | NotAnI32              // "not an i32"
    | NotAU32               // "not an u32"
    | OutOfRange            // "out of range"
    | InvalidUnit           // "invalid unit"
    | InvalidCharacters     // "invalid characters"
    | MissingHash           // "missing #"
    | InvalidEyeColour      // "invalid eye colour"
    | InvalidId             // "invalid id"

  /** The range check of the three year types' `TryFrom<i32>`. */
  function YearInRange(year: int, lo: int, hi: int): (r: Result<int, FieldError>)
    ensures r.Ok? <==> lo <= year <= hi
    ensures r.Ok? ==> r.value == year
    ensures r.Err? ==> r.error == OutOfRange
  {
    if year >= lo && year <= hi then Ok(year) else Err(OutOfRange)
  }

  /** The three year types' `FromStr`: `i32::from_str`, then the range. */
  function ParseYear(s: string, lo: int, hi: int): (r: Result<int, FieldError>)
    ensures r.Ok? <==> ParseI32(s).Some? && lo <= ParseI32(s).value <= hi
    ensures r.Ok? ==> r.value == ParseI32(s).value
    ensures ParseI32(s).None? ==> r == Err(NotAnI32)
  {
    match ParseI32(s)
    case None => Err(NotAnI32)
    case Some(year) => YearInRange(year, lo, hi)
  }

  /** `BirthYear::from_str` */
  function BirthYear(s: string): (r: Result<int, FieldError>)
    ensures r.Ok? ==> 1920 <= r.value <= 2002
  {
    ParseYear(s, 1920, 2002)
  }

  /** `IssueYear::from_str` */
  function IssueYear(s: string): (r: Result<int, FieldError>)
    ensures r.Ok? ==> 2010 <= r.value <= 2020
  {
    ParseYear(s, 2010, 2020)
  }

  /** `ExpirationYear::from_str` */
  function ExpirationYear(s: string): (r: Result<int, FieldError>)
    ensures r.Ok? ==> 2020 <= r.value <= 2030
  {
    ParseYear(s, 2020, 2030)
  }

  /** A year written in canonical decimal is accepted exactly when it is in range. */
  lemma YearRoundTrip(year: nat, lo: int, hi: int)
    requires year <= I32Max
    ensures ParseYear(NatToDecimal(year), lo, hi) == if lo <= year <= hi then Ok(year) else Err(OutOfRange)
  {
    ParseNatToDecimal(year, true, I32Min, I32Max);
  }

  datatype Unit = Centimetres | Inches

  /** `Height(u32, &'static str)` */
  datatype Height = Height(value: nat, unit: Unit)

  function UnitName(u: Unit): (name: string)
    ensures |name| == 2
  {
    match u
    case Centimetres => "cm"
    case Inches => "in"
  }

  predicate EndsWith(s: string, suffix: string)
  {
    |suffix| <= |s| && s[|s| - |suffix|..] == suffix
  }

  /** The number before the unit, checked against the unit's range. */
  function HeightIn(s: string, u: Unit, lo: int, hi: int): (r: Result<Height, FieldError>)
    requires |s| >= 2
    ensures r.Ok? <==> ParseU32(s[..|s| - 2]).Some? && lo <= ParseU32(s[..|s| - 2]).value <= hi
    ensures r.Ok? ==> r.value == Height(ParseU32(s[..|s| - 2]).value, u)
  {
    match ParseU32(s[..|s| - 2])
    case None => Err(NotAU32)
    case Some(val) => if val >= lo && val <= hi then Ok(Height(val, u)) else Err(OutOfRange)
  }

  /** `Height::from_str`: `cm` heights in 150..=193, `in` heights in 59..=76; dropping the
      two-character ASCII suffix drops exactly two bytes. */
  function ParseHeight(s: string): (r: Result<Height, FieldError>)
    ensures r.Ok? ==> EndsWith(s, UnitName(r.value.unit))
    ensures r.Ok? && r.value.unit == Centimetres ==> 150 <= r.value.value <= 193
    ensures r.Ok? && r.value.unit == Inches ==> 59 <= r.value.value <= 76
    ensures !EndsWith(s, "cm") && !EndsWith(s, "in") <==> r == Err(InvalidUnit)
  {
    if EndsWith(s, "cm") then HeightIn(s, Centimetres, 150, 193)
    else if EndsWith(s, "in") then HeightIn(s, Inches, 59, 76)
    else Err(InvalidUnit)
  }

  /** A height written as its decimal value followed by its unit reads back exactly when the
      value lies in the unit's range. */
  lemma HeightRoundTrip(h: Height)
    requires h.value <= U32Max
    ensures var inRange := if h.unit == Centimetres then 150 <= h.value <= 193 else 59 <= h.value <= 76;
      ParseHeight(NatToDecimal(h.value) + UnitName(h.unit)) == if inRange then Ok(h) else Err(OutOfRange)
  {
    var digits := NatToDecimal(h.value);
    var s := digits + UnitName(h.unit);
    assert s[..|s| - 2] == digits;
    assert s[|s| - 2..] == UnitName(h.unit);
    ParseNatToDecimal(h.value, false, 0, U32Max);
  }

  predicate IsHexDigit(c: char)
  {
    '0' <= c <= '9' || 'a' <= c <= 'f'
  }

  /** What `HairColour::from_str` returns: seven bytes, a `#`, then lower-case hexadecimal
      digits; the colour is kept without its `#`. */
  function HairColourOf(s: string): (r: Result<string, FieldError>)
    ensures r.Ok? ==> |s| == 7 && r.value == s[1..] && |r.value| == 6
  {
    if Utf8Length(s) == 7 && |s| > 0 && s[0] == '#' then
      if forall i :: 1 <= i < |s| ==> IsHexDigit(s[i]) then
        assert IsAscii(s);
        AsciiLength(s);
        Ok(s[1..])
      else Err(InvalidCharacters)
    else Err(MissingHash)
  }

  /** `HairColour::from_str`, scanning the characters after the `#`. */
  method ParseHairColour(s: string) returns (r: Result<string, FieldError>)
    ensures r == HairColourOf(s)
  {
    if Utf8Length(s) == 7 && |s| > 0 && s[0] == '#' {
      var rest := s[1..];
      for i := 0 to |rest|
        invariant forall k :: 1 <= k < i + 1 ==> IsHexDigit(s[k])
      {
        var c := rest[i];
        if !('0' <= c <= '9') && !('a' <= c <= 'f') {
          assert !IsHexDigit(s[i + 1]);
          return Err(InvalidCharacters);
        }
      }
      return Ok(rest);
    }
    return Err(MissingHash);
  }

  /** A hair colour is accepted exactly when it is `#` followed by six lower-case hexadecimal
      digits. */
  lemma HairColourValid(s: string)
    ensures HairColourOf(s).Ok? <==>
      |s| == 7 && s[0] == '#' && forall i :: 1 <= i < |s| ==> IsHexDigit(s[i])
  {
    if |s| > 0 && s[0] == '#' && forall i :: 1 <= i < |s| ==> IsHexDigit(s[i]) {
      assert IsAscii(s);
      AsciiLength(s);
    }
  }

  /** `EyeColour` */
  datatype EyeColour = Amber | Blue | Brown | Grey | Green | Hazel | Other

  function EyeColourName(e: EyeColour): (name: string)
    ensures |name| == 3
  {
    match e
    case Amber => "amb"
    case Blue => "blu"
    case Brown => "brn"
    case Grey => "gry"
    case Green => "grn"
    case Hazel => "hzl"
    case Other => "oth"
  }

  /** `EyeColour::from_str` */
  function ParseEyeColour(s: string): (r: Result<EyeColour, FieldError>)
    ensures r.Err? ==> r.error == InvalidEyeColour
  {
    match s
    case "amb" => Ok(Amber)
    case "blu" => Ok(Blue)
    case "brn" => Ok(Brown)
    case "gry" => Ok(Grey)
    case "grn" => Ok(Green)
    case "hzl" => Ok(Hazel)
    case "oth" => Ok(Other)
    case _ => Err(InvalidEyeColour)
  }

  /** Exactly the seven names are accepted, each as its own colour. */
  lemma EyeColourNames(s: string, e: EyeColour)
    ensures ParseEyeColour(EyeColourName(e)) == Ok(e)
    ensures ParseEyeColour(s) == Ok(e) ==> s == EyeColourName(e)
  {
  }

  /** `PassportId::from_str`: nine bytes that `u32::from_str` accepts. */
  function ParsePassportId(s: string): (r: Result<nat, FieldError>)
    ensures r.Ok? ==> |s| == 9 && r.value < 1_000_000_000
  {
    if Utf8Length(s) == 9 then
      match ParseU32(s)
      case None => Err(NotAU32)
      case Some(val) =>
        var digits := if s[0] == '+' then s[1..] else s;
        assert AllDigits(digits) && val == DigitsValue(digits);
        assert IsAscii(s) by {
          forall i | 0 <= i < |s| ensures s[i] < 128 as char {
            if s[0] == '+' && i > 0 { assert s[i] == digits[i - 1]; }
          }
        }
        AsciiLength(s);
        DigitsValueBound(digits);
        NineDigits();
        Ok(val)
    else Err(InvalidId)
  }

  lemma NineDigits()
    ensures Pow10(8) == 100_000_000 && Pow10(9) == 1_000_000_000
  {
  }

  /** Any nine decimal digits, leading zeros included, are a passport id; so is a `+`
      followed by eight digits, since `u32::from_str` accepts a leading `+`. */
  lemma PassportIdDigits(s: string)
    ensures |s| == 9 && AllDigits(s) ==> ParsePassportId(s) == Ok(DigitsValue(s))
    ensures |s| == 9 && s[0] == '+' && AllDigits(s[1..]) ==> ParsePassportId(s) == Ok(DigitsValue(s[1..]))
    ensures ParsePassportId(s).Ok? ==> AllDigits(s) || (s[0] == '+' && AllDigits(s[1..]))
  {
    if |s| == 9 && (AllDigits(s) || (s[0] == '+' && AllDigits(s[1..]))) {
      assert IsAscii(s) by {
        forall i | 0 <= i < |s| ensures s[i] < 128 as char {
          if !AllDigits(s) && i > 0 { assert s[i] == s[1..][i - 1]; }
        }
      }
      AsciiLength(s);
      NineDigits();
      if AllDigits(s) {
        DigitsValueBound(s);
      } else {
        DigitsValueBound(s[1..]);
      }
    }
  }

  /** Splitting at the first `:` (`splitn(2, ':')`): `None` when there is none. */
  function SplitField(component: string): (r: Option<(string, string)>)
    ensures r.None? <==> ':' !in component
    ensures r.Some? ==> component == r.value.0 + ":" + r.value.1 && ':' !in r.value.0
  {
    if component == [] then None
    else if component[0] == ':' then
      assert component == [] + ":" + component[1..];
      Some(([], component[1..]))
    else
      match SplitField(component[1..])
      case None => None
      case Some((key, value)) =>
        assert component == [component[0]] + component[1..];
        Some(([component[0]] + key, value))
  }

  /** The `HashMap` the components fill, later components overwriting earlier ones with the
      same key; `None` when a component has no `:`. */
  function Fields(components: seq<string>): (r: Option<map<string, string>>)
    ensures r.None? <==> exists i :: 0 <= i < |components| && ':' !in components[i]
  {
    if components == [] then Some(map[])
    else
      var init := components[..|components| - 1];
      var last := components[|components| - 1];
      match Fields(init)
      case None =>
        var i :| 0 <= i < |init| && ':' !in init[i];
        assert components[i] == init[i];
        None
      case Some(m) =>
        match SplitField(last)
        case None => None
        case Some((key, value)) =>
          assert forall i :: 0 <= i < |init| ==> components[i] == init[i];
          Some(m[key := value])
  }

  /** The loop of `PassportCandidate::try_from` that fills the map. */
  method CollectFields(components: seq<string>) returns (r: Option<map<string, string>>)
    ensures r == Fields(components)
  {
    var fields := map[];
    for n := 0 to |components|
      invariant Fields(components[..n]) == Some(fields)
    {
      assert components[..n + 1][..n] == components[..n];
      var parts := SplitField(components[n]);
      if parts.None? {
        assert Fields(components[..n + 1]).None?;
        FieldsNoneExtends(components, n + 1);
        return None;
      }
      fields := fields[parts.value.0 := parts.value.1];
    }
    assert components[..|components|] == components;
    r := Some(fields);
  }

  /** Once a prefix of the components is rejected, so is the whole list. */
  lemma FieldsNoneExtends(components: seq<string>, n: nat)
    requires n <= |components| && Fields(components[..n]).None?
    ensures Fields(components).None?
  {
    var i :| 0 <= i < n && ':' !in components[..n][i];
    assert components[i] == components[..n][i];
  }

  /** The key of a component that has a `:`. */
  function Key(component: string): (key: string)
    requires ':' in component
    ensures ':' !in key
  {
    SplitField(component).value.0
  }

  /** The value of a component that has a `:`. */
  function Value(component: string): (value: string)
    requires ':' in component
    ensures component == Key(component) + ":" + value
  {
    SplitField(component).value.1
  }

  /** A key is in the map exactly when some component carries it. */
  lemma {:induction false} FieldsKeys(components: seq<string>, key: string)
    requires Fields(components).Some?
    ensures forall i :: 0 <= i < |components| ==> ':' in components[i]
    ensures key in Fields(components).value <==>
      exists i :: 0 <= i < |components| && Key(components[i]) == key
  {
    if components != [] {
      var n := |components| - 1;
      var init := components[..n];
      FieldsKeys(init, key);
      assert forall i :: 0 <= i < n ==> components[i] == init[i];
    }
  }

  /** The value a key maps to is the one of the last component carrying that key. */
  lemma {:induction false} FieldsLastWins(components: seq<string>, i: nat)
    requires Fields(components).Some? && i < |components|
    requires ':' in components[i]
    requires forall j :: i < j < |components| ==> ':' in components[j] && Key(components[j]) != Key(components[i])
    ensures Key(components[i]) in Fields(components).value
    ensures Fields(components).value[Key(components[i])] == Value(components[i])
  {
    var n := |components| - 1;
    var init := components[..n];
    if i < n {
      assert init[i] == components[i];
      assert forall j :: i < j < |init| ==> init[j] == components[j];
      FieldsLastWins(init, i);
    }
  }

  /** The candidate's errors: a component without `:`, or a missing required key. */
  datatype CandidateError = InvalidComponentLayout | Missing(key: string)

  /** `PassportCandidate`: the raw values of the seven required fields and the optional `cid`. */
  datatype Candidate = Candidate(
    byr: string, iyr: string, eyr: string, hgt: string, hcl: string, ecl: string, pid: string,
    cid: Option<string>)

  const RequiredKeys: seq<string> := ["byr", "iyr", "eyr", "hgt", "hcl", "ecl", "pid"]

  function Take(fields: map<string, string>, key: string): (r: Result<string, CandidateError>)
    ensures r.Ok? <==> key in fields
    ensures r.Ok? ==> r.value == fields[key]
    ensures r.Err? ==> r.error == Missing(key)
  {
    if key in fields then Ok(fields[key]) else Err(Missing(key))
  }

  /** `PassportCandidate::try_from`: components, then the required keys in order. Removing
      each key before looking up the next changes nothing the later look-ups see, as the keys
      differ. */
  function ParseCandidate(s: string): (r: Result<Candidate, CandidateError>)
    ensures r.Ok? ==> Fields(Words(s)).Some?
    ensures r.Ok? ==> forall i :: 0 <= i < |RequiredKeys| ==> RequiredKeys[i] in Fields(Words(s)).value
    ensures Fields(Words(s)).None? ==> r == Err(InvalidComponentLayout)
    ensures Fields(Words(s)).Some? && (forall i :: 0 <= i < |RequiredKeys| ==> RequiredKeys[i] in Fields(Words(s)).value) ==>
      r.Ok? && r.value.cid == (if "cid" in Fields(Words(s)).value then Some(Fields(Words(s)).value["cid"]) else None)
  {
    assert RequiredKeys[0] == "byr" && RequiredKeys[1] == "iyr" && RequiredKeys[2] == "eyr";
    assert RequiredKeys[3] == "hgt" && RequiredKeys[4] == "hcl" && RequiredKeys[5] == "ecl";
    assert RequiredKeys[6] == "pid";
    match Fields(Words(s))
    case None => Err(InvalidComponentLayout)
    case Some(fields) =>
      var byr :- Take(fields, "byr");
      var iyr :- Take(fields, "iyr");
      var eyr :- Take(fields, "eyr");
      var hgt :- Take(fields, "hgt");
      var hcl :- Take(fields, "hcl");
      var ecl :- Take(fields, "ecl");
      var pid :- Take(fields, "pid");
      var cid := if "cid" in fields then Some(fields["cid"]) else None;
      Ok(Candidate(byr, iyr, eyr, hgt, hcl, ecl, pid, cid))
  }

  /** A candidate is refused for its first missing required key, in the order
      byr, iyr, eyr, hgt, hcl, ecl, pid. */
  lemma CandidateMissing(s: string, k: nat)
    requires Fields(Words(s)).Some? && k < |RequiredKeys|
    requires RequiredKeys[k] !in Fields(Words(s)).value
    requires forall j :: 0 <= j < k ==> RequiredKeys[j] in Fields(Words(s)).value
    ensures ParseCandidate(s) == Err(Missing(RequiredKeys[k]))
  {
    assert RequiredKeys[0] == "byr" && RequiredKeys[1] == "iyr" && RequiredKeys[2] == "eyr";
    assert RequiredKeys[3] == "hgt" && RequiredKeys[4] == "hcl" && RequiredKeys[5] == "ecl";
    assert RequiredKeys[6] == "pid";
  }

  /** A candidate whose components are all `key:value` and which holds the seven required
      keys is accepted with their values; `cid` is carried exactly when present. A component
      without `:` refuses the candidate before any key is looked up. */
  lemma CandidateAccepted(s: string)
    ensures Fields(Words(s)).None? ==> ParseCandidate(s) == Err(InvalidComponentLayout)
    ensures Fields(Words(s)).Some? ==>
      var f := Fields(Words(s)).value;
      "byr" in f && "iyr" in f && "eyr" in f && "hgt" in f && "hcl" in f && "ecl" in f && "pid" in f ==>
      ParseCandidate(s) == Ok(Candidate(f["byr"], f["iyr"], f["eyr"], f["hgt"], f["hcl"], f["ecl"], f["pid"],
        if "cid" in f then Some(f["cid"]) else None))
  {
  }

  /** `Passport`: every field parsed. */
  datatype Passport = Passport(
    byr: int, iyr: int, eyr: int, hgt: Height, hcl: string, ecl: EyeColour, pid: nat,
    cid: Option<string>)

  /** `Passport::try_from`: the field parsers in order, the first error winning. */
  function ParsePassport(c: Candidate): (r: Result<Passport, FieldError>)
    ensures r.Ok? ==> r.value.cid == c.cid
  {
    var byr :- BirthYear(c.byr);
    var iyr :- IssueYear(c.iyr);
    var eyr :- ExpirationYear(c.eyr);
    var hgt :- ParseHeight(c.hgt);
    var hcl :- HairColourOf(c.hcl);
    var ecl :- ParseEyeColour(c.ecl);
    var pid :- ParsePassportId(c.pid);
    Ok(Passport(byr, iyr, eyr, hgt, hcl, ecl, pid, c.cid))
  }

  /** A candidate becomes a passport exactly when all seven fields are valid. */
  lemma PassportValid(c: Candidate)
    ensures ParsePassport(c).Ok? <==>
      && BirthYear(c.byr).Ok? && IssueYear(c.iyr).Ok? && ExpirationYear(c.eyr).Ok?
      && ParseHeight(c.hgt).Ok? && HairColourOf(c.hcl).Ok? && ParseEyeColour(c.ecl).Ok?
      && ParsePassportId(c.pid).Ok?
    ensures ParsePassport(c).Ok? ==> ParsePassport(c).value == Passport(
      BirthYear(c.byr).value, IssueYear(c.iyr).value, ExpirationYear(c.eyr).value,
      ParseHeight(c.hgt).value, HairColourOf(c.hcl).value, ParseEyeColour(c.ecl).value,
      ParsePassportId(c.pid).value, c.cid)
  {
  }
}
