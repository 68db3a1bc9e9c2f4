/** Customs declaration forms of 2020 day 6: each line of a group is one person's answers,
    kept as a 32-bit mask with bit `c - 'a'` set for every letter `c`. A `u32` mask is
    modelled as the set of its one bits, so `|` is union, `&` is intersection, `!0` is all 32
    positions and `count_ones` is cardinality. */
module CustomCustoms {
  import opened Outcomes

  /** The answers of one person: the set bits of a `u32`. */
  type Mask = set<int>

  /** The bit positions below `n`. */
  function Below(n: nat): (m: Mask)
    ensures forall b :: b in m <==> 0 <= b < n
    ensures |m| == n
  {
    if n == 0 then {} else Below(n - 1) + {n - 1}
  }

  /** The one bits of `!0u32`. */
  const BitPositions: Mask := set b | 0 <= b < 32

  predicate IsLetter(c: char) { 'a' <= c <= 'z' }

  /** The bit a letter sets. */
  function Bit(c: char): (b: int)
    requires IsLetter(c)
    ensures 0 <= b < 26
  {
    c as int - 'a' as int
  }

  /** The mask of one line of letters. */
  function LineMask(line: string): (m: Mask)
    requires forall i :: 0 <= i < |line| ==> IsLetter(line[i])
    ensures forall b :: b in m ==> 0 <= b < 26
    ensures forall i :: 0 <= i < |line| ==> Bit(line[i]) in m
    ensures forall b :: b in m ==> exists i :: 0 <= i < |line| && Bit(line[i]) == b
  {
    if line == [] then {}
    else
      var init := line[..|line| - 1];
      assert forall i :: 0 <= i < |init| ==> init[i] == line[i];
      LineMask(init) + {Bit(line[|line| - 1])}
  }

  /** A letter that is already on the line leaves its mask alone. */
  lemma RepeatedLetter(line: string, c: char)
    requires forall i :: 0 <= i < |line| ==> IsLetter(line[i])
    requires c in line
    ensures forall i :: 0 <= i < |line + [c]| ==> IsLetter((line + [c])[i])
    ensures LineMask(line + [c]) == LineMask(line)
  {
    assert (line + [c])[..|line|] == line;
  }

  /** The lines of `s`, as `str::split('\n')` gives them. */
  function Lines(s: string): (lines: seq<string>)
    ensures |lines| > 0
    ensures forall i, k :: 0 <= i < |lines| && 0 <= k < |lines[i]| ==> lines[i][k] != '\n'
  {
    if s == [] then [[]]
    else
      var init := Lines(s[..|s| - 1]);
      var c := s[|s| - 1];
      if c == '\n' then init + [[]]
      else init[..|init| - 1] + [init[|init| - 1] + [c]]
  }

  /** The error of `parse_group`: `panic!("unrecognised {}", c)`. */
  datatype GroupError = Unrecognised(c: char)

  predicate Recognised(c: char) { IsLetter(c) || c == '\n' }

  /** One mask per line; a last line with no letters is not pushed. */
  function LineMasks(lines: seq<string>): (masks: seq<Mask>)
    requires forall i, k :: 0 <= i < |lines| && 0 <= k < |lines[i]| ==> IsLetter(lines[i][k])
    ensures |masks| == |lines|
    ensures forall i :: 0 <= i < |masks| ==> masks[i] == LineMask(lines[i])
  {
    if lines == [] then []
    else LineMasks(lines[..|lines| - 1]) + [LineMask(lines[|lines| - 1])]
  }

  /** What `parse_group` returns: the first unrecognised character, or the masks of the
      lines, the last one only when it has letters. */
  function GroupMasks(group: string): (r: Result<seq<Mask>, GroupError>)
    ensures r.Err? <==> exists i :: 0 <= i < |group| && !Recognised(group[i])
    ensures r.Err? ==> exists i :: 0 <= i < |group| && group[i] == r.error.c && !Recognised(group[i]) &&
                          forall j :: 0 <= j < i ==> Recognised(group[j])
  {
    if forall i :: 0 <= i < |group| ==> Recognised(group[i]) then
      var lines := Lines(group);
      LinesOfLetters(group);
      var masks := LineMasks(lines);
      if lines[|lines| - 1] == [] then Ok(masks[..|masks| - 1]) else Ok(masks)
    else
      var i := FirstUnrecognised(group);
      Err(Unrecognised(group[i]))
  }

  function FirstUnrecognised(s: string): (i: nat)
    requires exists i :: 0 <= i < |s| && !Recognised(s[i])
    ensures i < |s| && !Recognised(s[i]) && forall j :: 0 <= j < i ==> Recognised(s[j])
  {
    if !Recognised(s[0]) then 0
    else
      assert exists i :: 0 <= i < |s[1..]| && !Recognised(s[1..][i]) by {
        var i :| 0 <= i < |s| && !Recognised(s[i]);
        assert s[1..][i - 1] == s[i];
      }
      1 + FirstUnrecognised(s[1..])
  }

  /** A group of letters and newlines splits into lines of letters. */
  lemma {:induction false} LinesOfLetters(s: string)
    requires forall i :: 0 <= i < |s| ==> Recognised(s[i])
    ensures forall i, k :: 0 <= i < |Lines(s)| && 0 <= k < |Lines(s)[i]| ==> IsLetter(Lines(s)[i][k])
  {
    if s != [] {
      LinesOfLetters(s[..|s| - 1]);
    }
  }

  /** `parse_group`, reading the characters one at a time. */
  method ParseGroup(group: string) returns (r: Result<seq<Mask>, GroupError>)
    ensures r == GroupMasks(group)
  {
    var result: seq<Mask> := [];
    var combined: Mask := {};
    for i := 0 to |group|
      invariant Scanned(group[..i], result, combined)
    {
      var c := group[i];
      assert group[..i + 1] == group[..i] + [c];
      if IsLetter(c) {
        ScanLetter(group[..i], c, result, combined);
        combined := combined + {Bit(c)};
      } else if c == '\n' {
        ScanNewline(group[..i], result, combined);
        result := result + [combined];
        combined := {};
      } else {
        UnrecognisedAt(group, i);
        return Err(Unrecognised(c));
      }
    }
    assert group[..|group|] == group;
    ScanFinished(group, result, combined);
    if combined != {} {
      result := result + [combined];
    }
    r := Ok(result);
  }

  /** The loop state after reading `s`: one mask per finished line, and the mask of the line
      being read. */
  predicate Scanned(s: string, result: seq<Mask>, combined: Mask)
  {
    && (forall i :: 0 <= i < |s| ==> Recognised(s[i]))
    && (LinesOfLetters(s);
        var masks := LineMasks(Lines(s));
        result + [combined] == masks)
  }

  lemma UnrecognisedAt(s: string, i: nat)
    requires i < |s| && !Recognised(s[i]) && forall j :: 0 <= j < i ==> Recognised(s[..i][j])
    ensures GroupMasks(s) == Err(Unrecognised(s[i]))
  {
    assert forall j :: 0 <= j < i ==> s[j] == s[..i][j];
    assert FirstUnrecognised(s) == i;
  }

  /** At the end of the group the line being read is pushed only when it has letters. */
  lemma ScanFinished(s: string, result: seq<Mask>, combined: Mask)
    requires Scanned(s, result, combined)
    ensures GroupMasks(s) == Ok(if combined != {} then result + [combined] else result)
  {
    LinesOfLetters(s);
    var lines := Lines(s);
    var last := lines[|lines| - 1];
    var masks := LineMasks(lines);
    if last == [] {
      assert combined == {};
      assert result == masks[..|masks| - 1];
    } else {
      assert Bit(last[0]) in combined;
      assert result + [combined] == masks;
    }
  }

  lemma ScanLetter(s: string, c: char, result: seq<Mask>, combined: Mask)
    requires IsLetter(c) && Scanned(s, result, combined)
    ensures Scanned(s + [c], result, combined + {Bit(c)})
  {
    var s' := s + [c];
    assert s'[..|s|] == s;
    LinesOfLetters(s);
    LinesOfLetters(s');
    var lines := Lines(s);
    var last := lines[|lines| - 1];
    assert Lines(s')[|lines| - 1] == last + [c];
    assert (last + [c])[..|last|] == last;
  }

  lemma ScanNewline(s: string, result: seq<Mask>, combined: Mask)
    requires Scanned(s, result, combined)
    ensures Scanned(s + ['\n'], result + [combined], {})
  {
    var s' := s + ['\n'];
    assert s'[..|s|] == s;
    LinesOfLetters(s);
    LinesOfLetters(s');
  }

  /** A non-empty group always yields at least one mask. */
  lemma NonEmptyGroup(group: string)
    requires group != [] && GroupMasks(group).Ok?
    ensures |GroupMasks(group).value| > 0
  {
    var lines := Lines(group);
    if |lines| == 1 {
      OneLine(group);
    }
  }

  /** Without a newline, the whole group is one line. */
  lemma {:induction false} OneLine(s: string)
    requires |Lines(s)| == 1
    ensures Lines(s) == [s]
  {
    if s != [] {
      var init := Lines(s[..|s| - 1]);
      assert |init| == 1;
      OneLine(s[..|s| - 1]);
      assert s[..|s| - 1] + [s[|s| - 1]] == s;
    }
  }

  /** `fold(0, |a, &b| a | b)` */
  function Union(masks: seq<Mask>): (u: Mask)
    ensures forall b :: b in u <==> exists i :: 0 <= i < |masks| && b in masks[i]
  {
    if masks == [] then {}
    else
      var init := masks[..|masks| - 1];
      assert forall i :: 0 <= i < |init| ==> init[i] == masks[i];
      Union(init) + masks[|masks| - 1]
  }

  /** `fold(!0, |a, &b| a & b)` */
  function Intersection(masks: seq<Mask>): (x: Mask)
    ensures forall b :: b in x <==> b in BitPositions && forall i :: 0 <= i < |masks| ==> b in masks[i]
  {
    if masks == [] then BitPositions
    else
      var init := masks[..|masks| - 1];
      assert forall i :: 0 <= i < |init| ==> init[i] == masks[i];
      Intersection(init) * masks[|masks| - 1]
  }

  /** The questions anyone in a group answered yes to. */
  function AnyCount(masks: seq<Mask>): (n: nat)
  {
    |Union(masks)|
  }

  /** The questions everyone in a group answered yes to. */
  function AllCount(masks: seq<Mask>): (n: nat)
  {
    |Intersection(masks)|
  }

  /** Letter masks of a non-empty group: everyone's answers are among anyone's, and there are
      at most 26 of them. An empty group would count all 32 bits of `!0`. */
  lemma AllWithinAny(masks: seq<Mask>)
    requires forall i, b :: 0 <= i < |masks| && b in masks[i] ==> 0 <= b < 26
    ensures |masks| > 0 ==> AllCount(masks) <= AnyCount(masks) <= 26
    ensures masks == [] ==> AllCount(masks) == 32
  {
    if |masks| > 0 {
      var all, any := Intersection(masks), Union(masks);
      assert all <= any by {
        forall b | b in all ensures b in any {
          assert b in masks[0];
        }
      }
      SubsetCardinality(all, any);
      var letters := Below(26);
      assert any <= letters by {
        forall b | b in any ensures b in letters {
          var i :| 0 <= i < |masks| && b in masks[i];
        }
      }
      SubsetCardinality(any, letters);
    } else {
      var n := 32;
      assert Below(n) == BitPositions;
    }
  }

  lemma SubsetCardinality(a: Mask, b: Mask)
    requires a <= b
    ensures |a| <= |b|
  {
    assert b == a + (b - a);
  }

  /** The two totals of `main`: the sums of the counts over all groups. */
  function AnyTotal(groups: seq<seq<Mask>>): (n: nat)
    ensures groups == [] ==> n == 0
  {
    if groups == [] then 0 else AnyTotal(groups[..|groups| - 1]) + AnyCount(groups[|groups| - 1])
  }

  function AllTotal(groups: seq<seq<Mask>>): (n: nat)
    ensures groups == [] ==> n == 0
  {
    if groups == [] then 0 else AllTotal(groups[..|groups| - 1]) + AllCount(groups[|groups| - 1])
  }

  /** Over non-empty groups of letter masks, the "all" total never exceeds the "any" total. */
  lemma {:induction false} AllTotalWithinAnyTotal(groups: seq<seq<Mask>>)
    requires forall g :: 0 <= g < |groups| ==> |groups[g]| > 0
    requires forall g, i, b :: 0 <= g < |groups| && 0 <= i < |groups[g]| && b in groups[g][i] ==> 0 <= b < 26
    ensures AllTotal(groups) <= AnyTotal(groups) <= 26 * |groups|
  {
    if groups != [] {
      var n := |groups| - 1;
      AllTotalWithinAnyTotal(groups[..n]);
      AllWithinAny(groups[n]);
    }
  }
}
