/** Password candidates of 2019 day 4: numbers of a fixed number of digits whose digits never
    decrease from left to right, generated in increasing order and filtered by a range, then
    checked for a repeated digit. */
module SecureContainer {
  import opened Text
  import opened Arithmetic

  /** A digit sequence, most significant first, is a candidate of `width` digits whose first
      digit is at least `lo`: every digit is at most 9 and no digit is below its left
      neighbour. */
  predicate Candidate(ds: seq<nat>, width: nat, lo: nat)
  {
    && |ds| == width
    && (forall i :: 0 <= i < |ds| ==> ds[i] <= 9)
    && (width > 0 ==> ds[0] >= lo)
    && (forall i :: 0 <= i < |ds| - 1 ==> ds[i] <= ds[i + 1])
  }

  /** The number a digit sequence spells, most significant first. */
  function Value(ds: seq<nat>): (v: nat)
    requires forall i :: 0 <= i < |ds| ==> ds[i] <= 9
    ensures v < Pow10(|ds|)
  {
    if ds == [] then 0
    else
      var init := ds[..|ds| - 1];
      assert forall i :: 0 <= i < |init| ==> init[i] == ds[i];
      Value(init) * 10 + ds[|ds| - 1]
  }

  /** A leading digit is worth itself times the place value of the digits after it. */
  lemma {:induction false} ValuePrepend(d: nat, ds: seq<nat>)
    requires d <= 9 && forall i :: 0 <= i < |ds| ==> ds[i] <= 9
    ensures forall i :: 0 <= i < |[d] + ds| ==> ([d] + ds)[i] <= 9
    ensures Value([d] + ds) == Times(d, Pow10(|ds|)) + Value(ds)
  {
    var s := [d] + ds;
    assert forall i :: 0 <= i < |s| ==> s[i] <= 9;
    if ds != [] {
      var init := ds[..|ds| - 1];
      assert s[..|s| - 1] == [d] + init;
      ValuePrepend(d, init);
      var f := Pow10(|init|);
      assert Value(s) == Value([d] + init) * 10 + ds[|ds| - 1];
      assert Value(ds) == Value(init) * 10 + ds[|ds| - 1];
      TimesTen(d, f);
      assert Pow10(|ds|) == f * 10;
      assert Times(d, Pow10(|ds|)) == Times(d, f * 10);
      assert Value(s) == Times(d, f) * 10 + Value(init) * 10 + ds[|ds| - 1];
    } else {
      TimesIsProduct(d, 1);
      assert s[..0] == [];
    }
  }

  lemma {:induction false} TimesIsProduct(k: nat, f: nat)
    ensures Times(k, f) == k * f
  {
    if k > 0 {
      TimesIsProduct(k - 1, f);
    }
  }

  lemma {:induction false} TimesTen(k: nat, f: nat)
    ensures Times(k, f) * 10 == Times(k, f * 10)
  {
    if k > 0 {
      TimesTen(k - 1, f);
    }
  }

  lemma {:induction false} TimesMonotone(a: nat, b: nat, f: nat)
    requires a <= b
    ensures Times(a, f) <= Times(b, f)
    decreases b - a
  {
    if a < b {
      TimesMonotone(a, b - 1, f);
    }
  }

  /** What `permute_increasing_main(total, digits, min, data)` pushes: for each first digit
      `i` in `min..=9`, in order, everything the call for `digits - 1` digits starting at `i`
      pushes. */
  function Generated(total: nat, digits: nat, min: nat): (r: seq<nat>)
    ensures forall i, j :: 0 <= i < j < |r| ==> r[i] < r[j]
    ensures forall i :: 0 <= i < |r| ==> total <= r[i] < total + Pow10(digits)
    decreases digits, 11
  {
    if digits == 0 then [total]
    else if min > 9 then []
    else
      TimesIsProduct(10, Pow10(digits - 1));
      Children(total, digits, min, 10)
  }

  /** The pushes of the iterations `i` in `lo..hi` of the loop. */
  function Children(total: nat, digits: nat, lo: nat, hi: nat): (r: seq<nat>)
    requires digits > 0 && lo <= hi <= 10
    ensures forall i, j :: 0 <= i < j < |r| ==> r[i] < r[j]
    ensures forall i :: 0 <= i < |r| ==> total + Times(lo, Pow10(digits - 1)) <= r[i] < total + Times(hi, Pow10(digits - 1))
    decreases digits, hi
  {
    if lo == hi then []
    else
      var f := Pow10(digits - 1);
      var d := hi - 1;
      TimesMonotone(lo, d, f);
      Children(total, digits, lo, d) + Generated(total + Times(d, f), digits - 1, d)
  }

  /** `d` put in front of every sequence of `xs`. */
  function Prefixed(d: nat, xs: seq<seq<nat>>): (r: seq<seq<nat>>)
    ensures |r| == |xs| && forall i :: 0 <= i < |xs| ==> r[i] == [d] + xs[i]
  {
    seq(|xs|, i requires 0 <= i < |xs| => [d] + xs[i])
  }

  /** The digit sequences of the numbers `Generated` lists, in the same order. */
  function Sequences(digits: nat, min: nat): (r: seq<seq<nat>>)
    ensures forall i :: 0 <= i < |r| ==> Candidate(r[i], digits, min)
    decreases digits, 11
  {
    if digits == 0 then [[]]
    else if min > 9 then []
    else SequencesFrom(digits, min, 10)
  }

  function SequencesFrom(digits: nat, lo: nat, hi: nat): (r: seq<seq<nat>>)
    requires digits > 0 && lo <= hi <= 10
    ensures forall i :: 0 <= i < |r| ==> Candidate(r[i], digits, lo)
    decreases digits, hi
  {
    if lo == hi then []
    else
      var init := SequencesFrom(digits, lo, hi - 1);
      var last := Prefixed(hi - 1, Sequences(digits - 1, hi - 1));
      assert forall i :: 0 <= i < |last| ==> Candidate(last[i], digits, lo) by {
        forall i | 0 <= i < |last| ensures Candidate(last[i], digits, lo) {
          assert last[i] == [hi - 1] + Sequences(digits - 1, hi - 1)[i];
        }
      }
      init + last
  }

  /** The `i`-th number generated spells the `i`-th digit sequence after `total`. */
  lemma {:induction false} GeneratedSpells(total: nat, digits: nat, min: nat)
    ensures |Generated(total, digits, min)| == |Sequences(digits, min)|
    ensures forall i :: 0 <= i < |Sequences(digits, min)| ==>
      Generated(total, digits, min)[i] == total + Value(Sequences(digits, min)[i])
    decreases digits, 11
  {
    if digits > 0 && min <= 9 {
      ChildrenSpell(total, digits, min, 10);
    }
  }

  lemma {:induction false} ChildrenSpell(total: nat, digits: nat, lo: nat, hi: nat)
    requires digits > 0 && lo <= hi <= 10
    ensures |Children(total, digits, lo, hi)| == |SequencesFrom(digits, lo, hi)|
    ensures forall i :: 0 <= i < |SequencesFrom(digits, lo, hi)| ==>
      Children(total, digits, lo, hi)[i] == total + Value(SequencesFrom(digits, lo, hi)[i])
    decreases digits, hi
  {
    if lo < hi {
      var d := hi - 1;
      var f := Pow10(digits - 1);
      ChildrenSpell(total, digits, lo, d);
      GeneratedSpells(total + Times(d, f), digits - 1, d);
      var init, rests := SequencesFrom(digits, lo, d), Sequences(digits - 1, d);
      var ginit, glast := Children(total, digits, lo, d), Generated(total + Times(d, f), digits - 1, d);
      assert Children(total, digits, lo, hi) == ginit + glast;
      assert SequencesFrom(digits, lo, hi) == init + Prefixed(d, rests);
      SpellsPrefixed(total, d, digits, rests, glast);
      SpellsAppend(total, digits, ginit, init, glast, Prefixed(d, rests));
    }
  }

  /** Numbers spelled by digit sequences, after `total`, stay so when both lists are
      extended. */
  lemma SpellsAppend(total: nat, digits: nat, g1: seq<nat>, s1: seq<seq<nat>>, g2: seq<nat>, s2: seq<seq<nat>>)
    requires |g1| == |s1| && |g2| == |s2|
    requires forall k :: 0 <= k < |s1| ==> Candidate(s1[k], digits, 0) && g1[k] == total + Value(s1[k])
    requires forall k :: 0 <= k < |s2| ==> Candidate(s2[k], digits, 0) && g2[k] == total + Value(s2[k])
    ensures forall k :: 0 <= k < |s1 + s2| ==>
      Candidate((s1 + s2)[k], digits, 0) && (g1 + g2)[k] == total + Value((s1 + s2)[k])
  {
    forall k | 0 <= k < |s1 + s2|
      ensures Candidate((s1 + s2)[k], digits, 0) && (g1 + g2)[k] == total + Value((s1 + s2)[k])
    {
      if k >= |s1| {
        assert (s1 + s2)[k] == s2[k - |s1|] && (g1 + g2)[k] == g2[k - |s1|];
      }
    }
  }

  /** Putting a leading digit `d` in front of sequences of `digits - 1` digits adds `d` times
      the place value of that digit to the numbers they spell. */
  lemma SpellsPrefixed(total: nat, d: nat, digits: nat, rests: seq<seq<nat>>, g: seq<nat>)
    requires digits > 0 && d <= 9 && |g| == |rests|
    requires forall k :: 0 <= k < |rests| ==>
      Candidate(rests[k], digits - 1, d) && g[k] == total + Times(d, Pow10(digits - 1)) + Value(rests[k])
    ensures forall k :: 0 <= k < |rests| ==>
      Candidate(Prefixed(d, rests)[k], digits, 0) && g[k] == total + Value(Prefixed(d, rests)[k])
  {
    forall k | 0 <= k < |rests|
      ensures Candidate(Prefixed(d, rests)[k], digits, 0) && g[k] == total + Value(Prefixed(d, rests)[k])
    {
      ValuePrepend(d, rests[k]);
      assert Candidate([d] + rests[k], digits, 0);
    }
  }

  /** Every candidate is among the sequences: the generated numbers are exactly those whose
      digits never decrease, with a first digit of at least `min`. */
  lemma {:induction false} SequencesComplete(digits: nat, min: nat, ds: seq<nat>)
    requires Candidate(ds, digits, min)
    ensures ds in Sequences(digits, min)
    decreases digits, 11
  {
    if digits > 0 {
      SequencesFromContain(digits, min, 10, ds);
    }
  }

  lemma {:induction false} SequencesFromContain(digits: nat, lo: nat, hi: nat, ds: seq<nat>)
    requires digits > 0 && lo <= hi <= 10 && Candidate(ds, digits, lo) && ds[0] < hi
    ensures ds in SequencesFrom(digits, lo, hi)
    decreases digits, hi
  {
    var d := hi - 1;
    if ds[0] < d {
      SequencesFromContain(digits, lo, d, ds);
    } else {
      var rest := ds[1..];
      assert Candidate(rest, digits - 1, d);
      SequencesComplete(digits - 1, d, rest);
      var k :| 0 <= k < |Sequences(digits - 1, d)| && Sequences(digits - 1, d)[k] == rest;
      assert [d] + rest == ds;
      assert Prefixed(d, Sequences(digits - 1, d))[k] == ds;
    }
  }

  /** `permute_increasing_main`: pushes onto `data` (passed in and handed back, as the
      `&mut Vec` is). */
  method PermuteIncreasingMain(total: nat, digits: nat, min: nat, data: seq<nat>) returns (data': seq<nat>)
    ensures data' == data + Generated(total, digits, min)
    decreases digits
  {
    if digits == 0 {
      return data + [total];
    }
    var factor := Pow10(digits - 1);
    data' := data;
    var i: int := min;
    while i <= 9
      invariant min <= 9 ==> min <= i <= 10
      invariant min > 9 ==> i == min && data' == data
      invariant min <= 9 ==> data' == data + Children(total, digits, min, i)
      decreases 10 - i
    {
      TimesIsProduct(i, factor);
      data' := PermuteIncreasingMain(total + i * factor, digits - 1, i, data');
      i := i + 1;
    }
  }

  /** The numbers of `data` within `min..=max`, in order: what `retain` keeps. */
  function InRange(data: seq<nat>, min: nat, max: nat): (r: seq<nat>)
    ensures forall i :: 0 <= i < |r| ==> min <= r[i] <= max && r[i] in data
    ensures forall x :: x in data && min <= x <= max ==> x in r
    ensures (forall i, j :: 0 <= i < j < |data| ==> data[i] < data[j]) ==>
      forall i, j :: 0 <= i < j < |r| ==> r[i] < r[j]
  {
    if data == [] then []
    else
      var init := data[..|data| - 1];
      var x := data[|data| - 1];
      assert data == init + [x];
      InRange(init, min, max) + (if min <= x <= max then [x] else [])
  }

  /** `InRange` over one more element of `all`. */
  lemma InRangeSnoc(all: seq<nat>, k: nat, min: nat, max: nat)
    requires k < |all|
    ensures InRange(all[..k + 1], min, max) ==
      InRange(all[..k], min, max) + (if min <= all[k] <= max then [all[k]] else [])
  {
    assert all[..k + 1][..k] == all[..k];
  }

  /** The first leading digit `permute_increasing` tries: `min / 10^(digits - 1)`. */
  function First(min: nat, digits: nat): (d: nat)
    requires digits >= 1
    ensures Times(d, Pow10(digits - 1)) <= min < Times(d, Pow10(digits - 1)) + Pow10(digits - 1)
  {
    Quotient(min, Pow10(digits - 1))
  }

  /** `m / f` on unsigned numbers: at most `m` once multiplied back. */
  function Quotient(m: nat, f: nat): (q: nat)
    requires f > 0
    ensures Times(q, f) <= m < Times(q, f) + f
  {
    TimesIsProduct(m / f, f);
    m / f
  }

  /** `permute_increasing`; `10u32.pow(digits - 1)` needs at least one digit, and more than
      nine digits overflow `u32`. */
  method PermuteIncreasing(digits: nat, min: nat, max: nat) returns (data: seq<nat>)
    requires 1 <= digits <= 9
    ensures data == InRange(Generated(0, digits, First(min, digits)), min, max)
  {
    var factor := Pow10(digits - 1);
    var first := min / factor;
    assert first == First(min, digits);
    var all := PermuteIncreasingMain(0, digits, first, []);
    assert all == Generated(0, digits, first) by {
      assert [] + Generated(0, digits, first) == Generated(0, digits, first);
    }
    data := Retain(all, min, max);
  }

  /** `data.retain(|&x| x >= min && x <= max)`. */
  method Retain(all: seq<nat>, min: nat, max: nat) returns (data: seq<nat>)
    ensures data == InRange(all, min, max)
  {
    data := [];
    for k := 0 to |all|
      invariant data == InRange(all[..k], min, max)
    {
      InRangeSnoc(all, k, min, max);
      if all[k] >= min && all[k] <= max {
        data := data + [all[k]];
      }
    }
    assert all[..|all|] == all;
  }

  /** A candidate at least `min` has a leading digit at least `min / 10^(width-1)`, so the
      generation starting there misses none of them. */
  lemma LeadingDigit(ds: seq<nat>, width: nat, min: nat)
    requires width > 0 && Candidate(ds, width, 0) && Value(ds) >= min
    ensures ds[0] >= First(min, width)
  {
    var f := Pow10(width - 1);
    ValuePrepend(ds[0], ds[1..]);
    assert [ds[0]] + ds[1..] == ds;
    var q := First(min, width);
    if ds[0] < q {
      TimesMonotone(ds[0] + 1, q, f);
    }
  }

  /** Every number `permute_increasing` returns spells a candidate of `digits` digits (the
      range and the increasing order are the contracts of `InRange` and `Generated`). */
  lemma PermuteIncreasingSound(digits: nat, min: nat, max: nat)
    requires 1 <= digits <= 9
    ensures var r := InRange(Generated(0, digits, First(min, digits)), min, max);
      forall i :: 0 <= i < |r| ==> exists ds :: Candidate(ds, digits, 0) && r[i] == Value(ds)
  {
    var first := First(min, digits);
    GeneratedSpells(0, digits, first);
    Spelled(Generated(0, digits, first), Sequences(digits, first), digits, first);
  }

  /** Numbers listed alongside the candidates they spell are each spelled by a candidate. */
  lemma Spelled(g: seq<nat>, seqs: seq<seq<nat>>, digits: nat, first: nat)
    requires |g| == |seqs|
    requires forall k :: 0 <= k < |seqs| ==> Candidate(seqs[k], digits, first) && g[k] == Value(seqs[k])
    ensures forall x :: x in g ==> exists ds :: Candidate(ds, digits, 0) && x == Value(ds)
  {
    forall x | x in g ensures exists ds :: Candidate(ds, digits, 0) && x == Value(ds) {
      var k :| 0 <= k < |g| && g[k] == x;
      assert Candidate(seqs[k], digits, 0);
    }
  }

  /** `permute_increasing` misses no number of `digits` digits in `min..=max` whose digits
      never decrease. */
  lemma PermuteIncreasingComplete(digits: nat, min: nat, max: nat, ds: seq<nat>)
    requires 1 <= digits <= 9
    requires Candidate(ds, digits, 0) && min <= Value(ds) <= max
    ensures Value(ds) in InRange(Generated(0, digits, First(min, digits)), min, max)
  {
    var first := First(min, digits);
    var g := Generated(0, digits, first);
    var seqs := Sequences(digits, first);
    GeneratedSpells(0, digits, first);
    LeadingDigit(ds, digits, min);
    SequencesComplete(digits, first, ds);
    var k :| 0 <= k < |seqs| && seqs[k] == ds;
    assert g[k] == Value(ds);
  }

  /** The decimal digits of `n`, least significant first, with no leading zeros. */
  function Digits(n: nat): (ds: seq<nat>)
    ensures forall i :: 0 <= i < |ds| ==> ds[i] <= 9
    ensures n == 0 <==> ds == []
  {
    if n == 0 then [] else [n % 10] + Digits(n / 10)
  }

  /** `has_doubles` meets a double at digit `i` when that digit equals the one before it, and
      the lowest digit is compared with the initial `prev` of 0. */
  predicate DoubleAt(ds: seq<nat>, i: int)
  {
    0 <= i < |ds| && ds[i] == (if i == 0 then 0 else ds[i - 1])
  }

  /** `has_doubles`, dividing by ten until nothing is left. */
  method HasDoubles(val: nat) returns (found: bool)
    ensures found <==> exists i :: DoubleAt(Digits(val), i)
  {
    ghost var ds := Digits(val);
    ghost var j := 0;
    var tmp := val;
    var prev := 0;
    while tmp > 0
      invariant 0 <= j <= |ds| && Digits(tmp) == ds[j..]
      invariant prev == if j == 0 then 0 else ds[j - 1]
      invariant forall i :: 0 <= i < j ==> !DoubleAt(ds, i)
      decreases tmp
    {
      var current := tmp % 10;
      assert current == ds[j];
      if current == prev {
        assert DoubleAt(ds, j);
        return true;
      }
      prev := current;
      tmp := tmp / 10;
      j := j + 1;
    }
    return false;
  }

  /** What `has_doubles` finds: two equal neighbouring digits, or a lowest digit of 0. */
  lemma HasDoublesMeaning(val: nat)
    ensures (exists i :: DoubleAt(Digits(val), i)) <==>
      (exists i :: 0 < i < |Digits(val)| && Digits(val)[i - 1] == Digits(val)[i]) ||
      (val > 0 && val % 10 == 0)
  {
    var ds := Digits(val);
    if exists i :: DoubleAt(ds, i) {
      var i :| DoubleAt(ds, i);
      if i > 0 {
        assert 0 < i < |ds| && ds[i - 1] == ds[i];
      }
    }
    if exists i :: 0 < i < |ds| && ds[i - 1] == ds[i] {
      var i :| 0 < i < |ds| && ds[i - 1] == ds[i];
      assert DoubleAt(ds, i);
    }
    if val > 0 && val % 10 == 0 {
      assert DoubleAt(ds, 0);
    }
  }

  /** `has_doubles_exact`: a table of how often each digit occurs, then a look for a 2. */
  method HasDoublesExact(val: nat) returns (found: bool)
    ensures found <==> exists d :: 0 <= d < 10 && multiset(Digits(val))[d] == 2
  {
    ghost var ds := Digits(val);
    ghost var j := 0;
    var tmp := val;
    var counts := new nat[10](_ => 0);
    while tmp > 0
      invariant 0 <= j <= |ds| && Digits(tmp) == ds[j..]
      invariant forall d :: 0 <= d < 10 ==> counts[d] == multiset(ds[..j])[d]
      decreases tmp
    {
      var digit := tmp % 10;
      assert digit == ds[j];
      assert ds[..j + 1] == ds[..j] + [digit];
      counts[digit] := counts[digit] + 1;
      tmp := tmp / 10;
      j := j + 1;
    }
    assert ds[..j] == ds;
    found := exists d :: 0 <= d < 10 && counts[d] == 2;
  }

  /** The digits of a number whose digits never decrease from left to right, read from the
      least significant end, never increase. */
  predicate NonDecreasingNumber(val: nat)
  {
    forall i :: 0 < i < |Digits(val)| ==> Digits(val)[i] <= Digits(val)[i - 1]
  }

  /** On such numbers, a digit occurring exactly twice is a pair of equal neighbours, so
      `has_doubles_exact` implies `has_doubles`. */
  lemma ExactImpliesDoubles(val: nat)
    requires NonDecreasingNumber(val)
    requires exists d :: 0 <= d < 10 && multiset(Digits(val))[d] == 2
    ensures exists i :: DoubleAt(Digits(val), i)
  {
    var ds := Digits(val);
    var d :| 0 <= d < 10 && multiset(ds)[d] == 2;
    var i := TwiceAdjacent(ds, d);
    assert DoubleAt(ds, i + 1);
  }

  /** A value held twice by a sequence that never increases is held by two neighbours. */
  lemma TwiceAdjacent(ds: seq<nat>, d: nat) returns (i: nat)
    requires forall j :: 0 < j < |ds| ==> ds[j] <= ds[j - 1]
    requires multiset(ds)[d] == 2
    ensures i + 1 < |ds| && ds[i] == d && ds[i + 1] == d
  {
    i := IndexOf(ds, d);
    var rest := ds[i + 1..];
    assert ds == ds[..i + 1] + rest;
    assert multiset(ds) == multiset(ds[..i + 1]) + multiset(rest);
    NotBefore(ds, d, i);
    assert d in multiset(rest);
    var k :| 0 <= k < |rest| && rest[k] == d;
    Sandwiched(ds, i, i + 1 + k);
  }

  function IndexOf(ds: seq<nat>, d: nat): (i: nat)
    requires d in ds
    ensures i < |ds| && ds[i] == d && d !in ds[..i]
  {
    if ds[0] == d then 0 else
      var i := IndexOf(ds[1..], d);
      assert ds[..i + 1] == [ds[0]] + ds[1..][..i];
      i + 1
  }

  /** Before its first occurrence a value does not occur, so the prefix through that
      occurrence holds it once. */
  lemma NotBefore(ds: seq<nat>, d: nat, i: nat)
    requires i < |ds| && ds[i] == d && d !in ds[..i]
    ensures multiset(ds[..i + 1])[d] == 1
  {
    assert ds[..i + 1] == ds[..i] + [d];
  }

  /** In a sequence that never increases, a value met at `i` and again at `k > i` is also the
      value at `i + 1`. */
  lemma Sandwiched(ds: seq<nat>, i: nat, k: nat)
    requires i < k < |ds| && ds[i] == ds[k]
    requires forall j :: 0 < j < |ds| ==> ds[j] <= ds[j - 1]
    ensures ds[i + 1] == ds[i]
  {
    NonIncreasing(ds, i + 1, k);
  }

  lemma {:induction false} NonIncreasing(ds: seq<nat>, a: nat, b: nat)
    requires a <= b < |ds|
    requires forall j :: 0 < j < |ds| ==> ds[j] <= ds[j - 1]
    ensures ds[b] <= ds[a]
    decreases b - a
  {
    if a < b {
      NonIncreasing(ds, a + 1, b);
    }
  }

  /** Every number `permute_increasing` generates has digits that never decrease. */
  lemma {:induction false} CandidateDigits(ds: seq<nat>)
    requires Candidate(ds, |ds|, 0)
    ensures NonDecreasingNumber(Value(ds))
    ensures Value(ds) > 0 ==> Digits(Value(ds))[0] == ds[|ds| - 1]
  {
    if ds != [] {
      var n := |ds| - 1;
      var init := ds[..n];
      assert Candidate(init, n, 0);
      CandidateDigits(init);
      var v := Value(ds);
      assert v == Value(init) * 10 + ds[n];
      assert v % 10 == ds[n] && v / 10 == Value(init);
      if v > 0 {
        assert Digits(v) == [ds[n]] + Digits(Value(init));
        if Value(init) > 0 {
          assert Digits(Value(init))[0] == ds[n - 1] <= ds[n];
        }
      }
    }
  }
}
