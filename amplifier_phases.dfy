/** The phase settings of the five chained amplifiers: every ordering of the phases 0 to 4,
    generated by five nested loops over the candidate settings and a validity check. */
module AmplifierPhases {
  import opened Outcomes
  import opened Arithmetic

  /** The amplifiers in the chain, one phase each. */
  const Amplifiers := 5

  /** How many times `v` occurs in `p`. */
  function Count(p: seq<int>, v: int): (c: nat)
  {
    if p == [] then 0 else Count(p[..|p| - 1], v) + if p[|p| - 1] == v then 1 else 0
  }

  /** A setting gives each of the five amplifiers a phase and uses every phase 0 to 4
      exactly once. */
  predicate IsSetting(p: seq<int>)
  {
    |p| == Amplifiers && forall v :: 0 <= v < Amplifiers ==> Count(p, v) == 1
  }

  /** `is_valid`: tallies each phase in a five-slot array and accepts when every tally is 1.
      A phase outside 0..=4 indexes past the tally array (a negative one wraps to a huge
      `usize`), which panics: that is `None` here. */
  method IsValid(phases: seq<int>) returns (r: Option<bool>)
    requires |phases| == Amplifiers
    ensures r.None? <==> exists i :: 0 <= i < |phases| && !(0 <= phases[i] < Amplifiers)
    ensures r.Some? ==> (r.value <==> IsSetting(phases))
  {
    var tally := new nat[Amplifiers](_ => 0);
    for i := 0 to |phases|
      invariant forall j :: 0 <= j < i ==> 0 <= phases[j] < Amplifiers
      invariant forall v :: 0 <= v < Amplifiers ==> tally[v] == Count(phases[..i], v)
    {
      if !(0 <= phases[i] < Amplifiers) {
        return None;
      }
      assert phases[..i + 1][..i] == phases[..i];
      tally[phases[i]] := tally[phases[i]] + 1;
    }
    assert phases[..|phases|] == phases;
    var all := true;
    for v := 0 to Amplifiers
      invariant all <==> forall u :: 0 <= u < v ==> tally[u] == 1
    {
      all := all && tally[v] == 1;
    }
    return Some(all);
  }

  /** The count is the multiplicity in the multiset of the elements. */
  lemma {:induction false} CountMultiset(p: seq<int>, v: int)
    ensures Count(p, v) == multiset(p)[v]
  {
    if p != [] {
      CountMultiset(p[..|p| - 1], v);
      assert p == p[..|p| - 1] + [p[|p| - 1]];
    }
  }

  /** A setting is exactly an arrangement of the phases 0 to 4. */
  lemma SettingArrangement(p: seq<int>)
    ensures IsSetting(p) <==> multiset(p) == multiset([0, 1, 2, 3, 4])
  {
    var phases := multiset([0, 1, 2, 3, 4]);
    forall v
      ensures Count(p, v) == multiset(p)[v]
    {
      CountMultiset(p, v);
    }
    PhaseCounts(phases);
    if IsSetting(p) {
      assert phases <= multiset(p);
      assert |multiset(p) - phases| == 0;
    }
  }

  /** The setting `[0, 1, 2, 3, 4]` holds each phase once. */
  lemma PhaseCounts(phases: multiset<int>)
    requires phases == multiset([0, 1, 2, 3, 4])
    ensures |phases| == Amplifiers
    ensures forall v :: phases[v] == if 0 <= v < Amplifiers then 1 else 0
  {
  }

  /** `5^k` */
  function Pow5(k: nat): (r: nat)
    ensures r >= 1
  {
    if k == 0 then 1 else 5 * Pow5(k - 1)
  }

  /** The number of candidates the nested loops visit. */
  const Candidates: nat := Pow5(Amplifiers)

  /** The candidate numbered `n` by the nested loops: its `k` base-5 digits, most
      significant first, which is the outermost loop's variable. */
  function Digits(n: nat, k: nat): (d: seq<int>)
    ensures |d| == k && forall i :: 0 <= i < k ==> 0 <= d[i] < 5
  {
    if k == 0 then [] else Digits(n / 5, k - 1) + [n % 5]
  }

  /** The number of a candidate: its digits read in base 5. */
  function Value(d: seq<int>): int
  {
    if d == [] then 0 else 5 * Value(d[..|d| - 1]) + d[|d| - 1]
  }

  /** Reading the digits of a number in range gives the number back. */
  lemma {:induction false} ValueOfDigits(n: nat, k: nat)
    requires n < Pow5(k)
    ensures Value(Digits(n, k)) == n
  {
    if k > 0 {
      ValueOfDigits(n / 5, k - 1);
      assert Digits(n, k)[..k - 1] == Digits(n / 5, k - 1);
    }
  }

  /** A digit sequence is the digits of its value, and its value is in range. */
  lemma {:induction false} DigitsOfValue(d: seq<int>)
    requires forall i :: 0 <= i < |d| ==> 0 <= d[i] < 5
    ensures 0 <= Value(d) < Pow5(|d|)
    ensures Digits(Value(d), |d|) == d
  {
    if d != [] {
      var init, x := d[..|d| - 1], d[|d| - 1];
      DigitsOfValue(init);
      var v := Value(init);
      assert Value(d) == 5 * v + x;
      assert (5 * v + x) / 5 == v && (5 * v + x) % 5 == x;
      assert Digits(Value(d), |d|) == init + [x];
      assert d == init + [x];
    }
  }

  /** The candidates numbered below `n` that pass `is_valid`, in loop order: what `results`
      holds once the nested loops have visited `n` candidates. */
  ghost function Found(n: nat): (r: seq<seq<int>>)
    ensures forall p :: p in r ==> IsSetting(p)
  {
    if n == 0 then []
    else
      var p := Digits(n - 1, Amplifiers);
      Found(n - 1) + if IsSetting(p) then [p] else []
  }

  /** Visiting candidate `n` keeps it exactly when it is a setting. */
  lemma FoundNext(n: nat, p: seq<int>)
    requires Digits(n, Amplifiers) == p
    ensures Found(n + 1) == Found(n) + if IsSetting(p) then [p] else []
  {
  }

  /** Every candidate numbered below `n` that is a setting is kept. */
  lemma {:induction false} FoundHas(m: nat, n: nat)
    requires m < n && IsSetting(Digits(m, Amplifiers))
    ensures Digits(m, Amplifiers) in Found(n)
  {
    if m < n - 1 {
      FoundHas(m, n - 1);
    }
  }

  /** Only candidates numbered below `n` are kept. */
  lemma {:induction false} FoundFrom(p: seq<int>, n: nat)
    requires p in Found(n)
    ensures exists m: nat :: m < n && p == Digits(m, Amplifiers)
  {
    if p in Found(n - 1) {
      FoundFrom(p, n - 1);
    }
  }

  /** Appending a digit shifts the value by one place. */
  lemma ValueSnoc(s: seq<int>, x: int)
    ensures Value(s + [x]) == 5 * Value(s) + x
  {
    assert (s + [x])[..|s|] == s;
  }

  /** The number of the candidate with loop variables `i1` to `i5`. */
  lemma VisitedValue(i1: int, i2: int, i3: int, i4: int, i5: int)
    ensures Value([i1, i2, i3, i4, i5]) == 625 * i1 + 125 * i2 + 25 * i3 + 5 * i4 + i5
  {
    ValueSnoc([], i1);
    ValueSnoc([i1], i2);
    ValueSnoc([i1, i2], i3);
    ValueSnoc([i1, i2, i3], i4);
    ValueSnoc([i1, i2, i3, i4], i5);
    assert [] + [i1] == [i1] && [i1] + [i2] == [i1, i2] && [i1, i2] + [i3] == [i1, i2, i3];
    assert [i1, i2, i3] + [i4] == [i1, i2, i3, i4] && [i1, i2, i3, i4] + [i5] == [i1, i2, i3, i4, i5];
  }

  /** The candidate visited with loop variables `i1` to `i5`. */
  lemma Visited(n: nat, i1: int, i2: int, i3: int, i4: int, i5: int)
    requires 0 <= i1 < 5 && 0 <= i2 < 5 && 0 <= i3 < 5 && 0 <= i4 < 5 && 0 <= i5 < 5
    requires n == 625 * i1 + 125 * i2 + 25 * i3 + 5 * i4 + i5
    ensures Digits(n, Amplifiers) == [i1, i2, i3, i4, i5]
  {
    VisitedValue(i1, i2, i3, i4, i5);
    DigitsOfValue([i1, i2, i3, i4, i5]);
  }

  /** `phase_permutations`: five nested loops over 0..=4, keeping each candidate that
      `is_valid` accepts. */
  method PhasePermutations() returns (results: seq<seq<int>>)
    ensures results == Found(Candidates)
    ensures forall p :: p in results <==> IsSetting(p)
    ensures LexSorted(results) && |results| == 120
  {
    results := [];
    ghost var n := 0;
    for i1 := 0 to 5
      invariant n == 625 * i1 && results == Found(n)
    {
      for i2 := 0 to 5
        invariant n == 625 * i1 + 125 * i2 && results == Found(n)
      {
        for i3 := 0 to 5
          invariant n == 625 * i1 + 125 * i2 + 25 * i3 && results == Found(n)
        {
          for i4 := 0 to 5
            invariant n == 625 * i1 + 125 * i2 + 25 * i3 + 5 * i4 && results == Found(n)
          {
            for i5 := 0 to 5
              invariant n == 625 * i1 + 125 * i2 + 25 * i3 + 5 * i4 + i5 && results == Found(n)
            {
              var candidate := [i1, i2, i3, i4, i5];
              Visited(n, i1, i2, i3, i4, i5);
              results := Keep(results, candidate, n);
              n := n + 1;
            }
          }
        }
      }
    }
    FoundSettings();
    FoundSorted(Candidates);
    FoundCount();
  }

  /** The body of the innermost loop: push the candidate when `is_valid` accepts it. */
  method Keep(results: seq<seq<int>>, candidate: seq<int>, ghost n: nat) returns (kept: seq<seq<int>>)
    requires results == Found(n) && candidate == Digits(n, Amplifiers)
    ensures kept == Found(n + 1)
  {
    var valid := IsValid(candidate);
    kept := results;
    if valid == Some(true) {
      kept := results + [candidate];
    }
    FoundNext(n, candidate);
  }

  /** Lexicographic order on phase sequences, the order of Rust's arrays. */
  predicate LexLess(a: seq<int>, b: seq<int>)
  {
    if a == [] then b != []
    else if b == [] then false
    else a[0] < b[0] || (a[0] == b[0] && LexLess(a[1..], b[1..]))
  }

  /** Equal prefixes followed by a smaller element. */
  lemma {:induction false} LexLessAtEnd(s: seq<int>, x: int, y: int)
    requires x < y
    ensures LexLess(s + [x], s + [y])
  {
    if s != [] {
      LexLessAtEnd(s[1..], x, y);
      assert (s + [x])[1..] == s[1..] + [x] && (s + [y])[1..] == s[1..] + [y];
    }
  }

  /** Lexicographic order between equally long sequences survives appending. */
  lemma {:induction false} LexLessExtend(a: seq<int>, b: seq<int>, x: int, y: int)
    requires |a| == |b| && LexLess(a, b)
    ensures LexLess(a + [x], b + [y])
  {
    if a[0] == b[0] {
      LexLessExtend(a[1..], b[1..], x, y);
      assert (a + [x])[1..] == a[1..] + [x] && (b + [y])[1..] == b[1..] + [y];
    }
  }

  /** Numbering follows lexicographic order. */
  lemma {:induction false} LexLessByValue(m: nat, n: nat, k: nat)
    requires m < n < Pow5(k)
    ensures LexLess(Digits(m, k), Digits(n, k))
  {
    var dm, dn := Digits(m, k), Digits(n, k);
    ValueOfDigits(m, k);
    ValueOfDigits(n, k);
    assert k > 0;
    var im, in' := Digits(m / 5, k - 1), Digits(n / 5, k - 1);
    if m / 5 < n / 5 {
      LexLessByValue(m / 5, n / 5, k - 1);
      LexLessExtend(im, in', m % 5, n % 5);
    } else {
      LexLessAtEnd(im, m % 5, n % 5);
    }
  }

  /** Strictly increasing in lexicographic order, so without repeats. */
  ghost predicate LexSorted(s: seq<seq<int>>)
  {
    forall i, j :: 0 <= i < j < |s| ==> LexLess(s[i], s[j])
  }

  /** The kept candidates come out in strictly increasing lexicographic order. */
  lemma {:induction false} FoundSorted(n: nat)
    requires n <= Pow5(Amplifiers)
    ensures LexSorted(Found(n))
  {
    if n > 0 {
      FoundSorted(n - 1);
      var p := Digits(n - 1, Amplifiers);
      var r := Found(n - 1);
      assert Found(n) == r + if IsSetting(p) then [p] else [];
      if IsSetting(p) {
        forall i | 0 <= i < |r|
          ensures LexLess(r[i], p)
        {
          FoundFrom(r[i], n - 1);
          var m: nat :| m < n - 1 && r[i] == Digits(m, Amplifiers);
          LexLessByValue(m, n - 1, Amplifiers);
        }
        SortedSnoc(r, p);
      }
    }
  }

  /** A sorted sequence stays sorted when a greater element is appended. */
  lemma SortedSnoc(r: seq<seq<int>>, p: seq<int>)
    requires LexSorted(r) && forall i :: 0 <= i < |r| ==> LexLess(r[i], p)
    ensures LexSorted(r + [p])
  {
    var s := r + [p];
    forall i, j | 0 <= i < j < |s|
      ensures LexLess(s[i], s[j])
    {
      if j == |r| {
        assert s[i] == r[i] && s[j] == p;
      } else {
        assert s[i] == r[i] && s[j] == r[j];
      }
    }
  }

  /** Every setting of five phases is among the results. */
  lemma FoundComplete(p: seq<int>)
    requires IsSetting(p)
    ensures p in Found(Candidates)
  {
    forall i | 0 <= i < |p|
      ensures 0 <= p[i] < 5
    {
      SettingArrangement(p);
      assert p[i] in multiset(p);
    }
    DigitsOfValue(p);
    FoundHas(Value(p), Candidates);
  }

  /** The results are exactly the settings of the five phases. */
  lemma FoundSettings()
    ensures forall p :: p in Found(Candidates) <==> IsSetting(p)
  {
    forall p | IsSetting(p)
      ensures p in Found(Candidates)
    {
      FoundComplete(p);
    }
  }

  /** The arrangements of the five phases: 120 of them, without repeats. */
  lemma PhaseArrangements(phases: seq<int>)
    requires phases == [0, 1, 2, 3, 4]
    ensures |Arrangements(phases)| == 120 && Distinct(Arrangements(phases))
  {
    assert Distinct(phases);
    assert Factorial(5) == 120;
  }

  /** The arrangements of any ordering of the five phases are exactly the settings. */
  lemma ArrangedSettings(phases: seq<int>)
    requires multiset(phases) == multiset([0, 1, 2, 3, 4])
    ensures forall p :: p in Arrangements(phases) <==> IsSetting(p)
  {
    forall p
      ensures p in Arrangements(phases) <==> IsSetting(p)
    {
      SettingArrangement(p);
    }
  }

  /** There are 120 results, one per arrangement of the five phases. */
  lemma FoundCount()
    ensures |Found(Candidates)| == 120
  {
    var r := Found(Candidates);
    FoundSorted(Candidates);
    SortedDistinct(r);
    FoundSettings();
    var phases := [0, 1, 2, 3, 4];
    PhaseArrangements(phases);
    ArrangedSettings(phases);
    DistinctCount(r, Arrangements(phases));
  }

  /** The arrangements of `xs`: for each position in turn, that element followed by every
      arrangement of the rest. */
  function Arrangements(xs: seq<int>): (r: seq<seq<int>>)
    ensures Distinct(xs) ==> Distinct(r)
    ensures |r| == Factorial(|xs|)
    ensures forall p :: p in r <==> multiset(p) == multiset(xs)
    decreases |xs|, 1, 0
  {
    if xs == [] then
      forall p
        ensures p in [[]] <==> multiset(p) == multiset(xs)
      {
        assert |multiset(p)| == |p|;
      }
      [[]]
    else
      forall p
        ensures multiset(p) == multiset(xs) <==>
          exists j :: 0 <= j < |xs| && p != [] && p[0] == xs[j] && multiset(p[1..]) == multiset(Without(xs, j))
      {
        ArrangementStep(xs, p);
      }
      Blocks(xs, 0)
  }

  /** An arrangement of a nonempty sequence starts with one of its elements, followed by an
      arrangement of the others. */
  lemma ArrangementStep(xs: seq<int>, p: seq<int>)
    requires xs != []
    ensures multiset(p) == multiset(xs) <==>
      exists j :: 0 <= j < |xs| && p != [] && p[0] == xs[j] && multiset(p[1..]) == multiset(Without(xs, j))
  {
    if multiset(p) == multiset(xs) {
      ArrangementHead(xs, p);
    }
    if exists j :: 0 <= j < |xs| && p != [] && p[0] == xs[j] && multiset(p[1..]) == multiset(Without(xs, j)) {
      var j :| 0 <= j < |xs| && p != [] && p[0] == xs[j] && multiset(p[1..]) == multiset(Without(xs, j));
      ArrangementFrom(xs, p, j);
    }
  }

  /** Splitting an arrangement at its head. */
  lemma ArrangementHead(xs: seq<int>, p: seq<int>)
    requires xs != [] && multiset(p) == multiset(xs)
    ensures exists j :: 0 <= j < |xs| && p != [] && p[0] == xs[j] && multiset(p[1..]) == multiset(Without(xs, j))
  {
    assert |p| == |multiset(p)| == |multiset(xs)| == |xs|;
    assert p[0] in multiset(xs);
    var j :| 0 <= j < |xs| && xs[j] == p[0];
    HeadRemoved(xs, p, j);
  }

  /** Taking the same element off both sides of equal multisets. */
  lemma HeadRemoved(xs: seq<int>, p: seq<int>, j: nat)
    requires j < |xs| && p != [] && p[0] == xs[j] && multiset(p) == multiset(xs)
    ensures multiset(p[1..]) == multiset(Without(xs, j))
  {
    assert p == [p[0]] + p[1..];
    assert xs == xs[..j] + [xs[j]] + xs[j + 1..];
    assert multiset(p) == multiset{p[0]} + multiset(p[1..]);
    assert multiset(xs) == multiset{xs[j]} + multiset(Without(xs, j));
    assert multiset(p[1..]) == multiset(p) - multiset{p[0]};
    assert multiset(Without(xs, j)) == multiset(xs) - multiset{xs[j]};
  }

  /** Joining a head and an arrangement of the rest. */
  lemma ArrangementFrom(xs: seq<int>, p: seq<int>, j: nat)
    requires j < |xs| && p != [] && p[0] == xs[j] && multiset(p[1..]) == multiset(Without(xs, j))
    ensures multiset(p) == multiset(xs)
  {
    assert p == [p[0]] + p[1..];
    assert xs == xs[..j] + [xs[j]] + xs[j + 1..];
  }

  /** The arrangements of `xs` that start at or after position `i`. */
  function Blocks(xs: seq<int>, i: nat): (r: seq<seq<int>>)
    requires i <= |xs| && xs != []
    ensures Distinct(xs) ==> Distinct(r)
    ensures |r| == Times(|xs| - i, Factorial(|xs| - 1))
    ensures forall p :: p in r <==> exists j :: i <= j < |xs| && p != [] && p[0] == xs[j] && multiset(p[1..]) == multiset(Without(xs, j))
    decreases |xs|, 0, |xs| - i
  {
    if i == |xs| then []
    else
      var block := Block(xs, i);
      var later := Blocks(xs, i + 1);
      BlocksCount(|xs|, i, Factorial(|xs| - 1), |block|, |later|);
      JoinBlocks(xs, i, block, later);
      assert Distinct(xs) ==> Distinct(block + later) by {
        if Distinct(xs) {
          LaterApart(xs, i, block, later);
          AppendDistinct(block, later);
        }
      }
      block + later
  }

  /** The arrangements of `xs` that start with the element at position `i`. */
  function Block(xs: seq<int>, i: nat): (r: seq<seq<int>>)
    requires i < |xs|
    ensures Distinct(xs) ==> Distinct(r)
    ensures |r| == Factorial(|xs| - 1)
    ensures forall p :: p in r <==> p != [] && p[0] == xs[i] && multiset(p[1..]) == multiset(Without(xs, i))
    decreases |xs|, 0, 0
  {
    assert Distinct(xs) ==> Distinct(Without(xs, i)) by {
      if Distinct(xs) {
        WithoutDistinct(xs, i);
      }
    }
    Prefixed(xs[i], Arrangements(Without(xs, i)))
  }

  /** `x` put in front of each of `rest`. */
  function Prefixed(x: int, rest: seq<seq<int>>): (block: seq<seq<int>>)
    ensures |block| == |rest|
    ensures forall p :: p in block <==> p != [] && p[0] == x && p[1..] in rest
    ensures Distinct(rest) ==> Distinct(block)
  {
    var block := seq(|rest|, k requires 0 <= k < |rest| => [x] + rest[k]);
    assert forall p :: p in block <==> p != [] && p[0] == x && p[1..] in rest by {
      forall p | p != [] && p[0] == x && p[1..] in rest
        ensures p in block
      {
        var k :| 0 <= k < |rest| && rest[k] == p[1..];
        assert block[k] == p;
      }
    }
    assert Distinct(rest) ==> Distinct(block) by {
      if Distinct(rest) {
        BlockDistinct(x, rest);
      }
    }
    block
  }

  /** One block of `f` arrangements followed by the blocks of the positions after `i`. */
  lemma BlocksCount(n: nat, i: nat, f: nat, first: nat, others: nat)
    requires i < n && first == f && others == Times(n - (i + 1), f)
    ensures first + others == Times(n - i, f)
  {
    var k := n - i;
    assert n - (i + 1) == k - 1;
    assert Times(k, f) == Times(k - 1, f) + f;
  }

  /** The arrangements starting with `xs[i]` and those starting later, together, start at any
      position from `i` on. */
  lemma JoinBlocks(xs: seq<int>, i: nat, block: seq<seq<int>>, later: seq<seq<int>>)
    requires i < |xs|
    requires forall p :: p in block <==> p != [] && p[0] == xs[i] && multiset(p[1..]) == multiset(Without(xs, i))
    requires forall p :: p in later <==>
      exists j :: i + 1 <= j < |xs| && p != [] && p[0] == xs[j] && multiset(p[1..]) == multiset(Without(xs, j))
    ensures forall p :: p in block + later <==>
      exists j :: i <= j < |xs| && p != [] && p[0] == xs[j] && multiset(p[1..]) == multiset(Without(xs, j))
  {
  }

  /** The arrangements starting after position `i` do not start with `xs[i]`. */
  lemma LaterApart(xs: seq<int>, i: nat, block: seq<seq<int>>, later: seq<seq<int>>)
    requires i < |xs| && Distinct(xs)
    requires forall p :: p in block ==> p != [] && p[0] == xs[i]
    requires forall p :: p in later ==> exists j :: i + 1 <= j < |xs| && p != [] && p[0] == xs[j]
    ensures forall p :: p in later ==> p !in block
  {
    forall p | p in later
      ensures p !in block
    {
      var j :| i + 1 <= j < |xs| && p != [] && p[0] == xs[j];
    }
  }

  /** `xs` with the element at `i` removed. */
  function Without(xs: seq<int>, i: nat): (r: seq<int>)
    requires i < |xs|
    ensures |r| == |xs| - 1
  {
    xs[..i] + xs[i + 1..]
  }

  /** No element occurs twice. */
  ghost predicate Distinct<T>(s: seq<T>)
  {
    forall i, j :: 0 <= i < j < |s| ==> s[i] != s[j]
  }

  /** `n!`, each factor spelled as repeated addition. */
  function Factorial(n: nat): (r: nat)
  {
    if n == 0 then 1 else Times(n, Factorial(n - 1))
  }

  /** Removing one element keeps a sequence free of repeats and drops only that element. */
  lemma WithoutDistinct(xs: seq<int>, i: nat)
    requires i < |xs| && Distinct(xs)
    ensures Distinct(Without(xs, i)) && xs[i] !in Without(xs, i)
  {
    var r := Without(xs, i);
    forall a, b | 0 <= a < b < |r|
      ensures r[a] != r[b]
    {
      var a', b' := if a < i then a else a + 1, if b < i then b else b + 1;
      assert r[a] == xs[a'] && r[b] == xs[b'];
    }
  }

  /** Prefixing one element to each of a repeat-free list of sequences keeps it repeat-free. */
  lemma BlockDistinct(x: int, rest: seq<seq<int>>)
    requires Distinct(rest)
    ensures Distinct(seq(|rest|, k requires 0 <= k < |rest| => [x] + rest[k]))
  {
    var block := seq(|rest|, k requires 0 <= k < |rest| => [x] + rest[k]);
    forall a, b | 0 <= a < b < |block|
      ensures block[a] != block[b]
    {
      assert block[a][1..] == rest[a] && block[b][1..] == rest[b];
    }
  }

  /** Two repeat-free sequences with nothing in common concatenate to a repeat-free one. */
  lemma AppendDistinct<T>(s: seq<T>, t: seq<T>)
    requires Distinct(s) && Distinct(t) && forall x :: x in t ==> x !in s
    ensures Distinct(s + t)
  {
    var st := s + t;
    forall a, b | 0 <= a < b < |st|
      ensures st[a] != st[b]
    {
      if a < |s| && b >= |s| {
        assert st[b] == t[b - |s|];
        assert t[b - |s|] in t;
      }
    }
  }

  /** Strict lexicographic order leaves no repeats. */
  lemma SortedDistinct(s: seq<seq<int>>)
    requires LexSorted(s)
    ensures Distinct(s)
  {
    forall i, j | 0 <= i < j < |s|
      ensures s[i] != s[j]
    {
      LexLessIrreflexive(s[i]);
    }
  }

  lemma {:induction false} LexLessIrreflexive(a: seq<int>)
    ensures !LexLess(a, a)
  {
    if a != [] {
      LexLessIrreflexive(a[1..]);
    }
  }

  /** A repeat-free sequence is as long as the set of its elements is large. */
  lemma {:induction false} DistinctElements<T>(s: seq<T>)
    requires Distinct(s)
    ensures |set x | x in s| == |s|
  {
    if s != [] {
      var init := s[..|s| - 1];
      DistinctElements(init);
      assert (set x | x in s) == (set x | x in init) + {s[|s| - 1]};
      assert s[|s| - 1] !in init;
    }
  }

  /** Two repeat-free sequences with the same elements are equally long. */
  lemma DistinctCount<T>(s: seq<T>, t: seq<T>)
    requires Distinct(s) && Distinct(t)
    requires forall x :: x in s <==> x in t
    ensures |s| == |t|
  {
    DistinctElements(s);
    DistinctElements(t);
    assert (set x | x in s) == (set x | x in t);
  }
}
