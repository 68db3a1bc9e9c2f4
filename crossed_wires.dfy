/** Wire paths of 2019 day 3: a comma-separated list of moves such as `R8`, turned into the
    axis-parallel segments a wire traces from the origin. */
module CrossedWires {
  import opened Outcomes
  import opened Text

  datatype Point = Point(x: int, y: int)

  /** A vertical segment at `x`, from `yStart` to `yEnd`. */
  datatype YAxisLine = YAxisLine(x: int, yStart: int, yEnd: int)

  /** A horizontal segment at `y`, from `xStart` to `xEnd`. */
  datatype XAxisLine = XAxisLine(y: int, xStart: int, xEnd: int)

  datatype LineSegment = HLine(h: XAxisLine) | VLine(v: YAxisLine)

  datatype Direction = Up(mag: int) | Down(mag: int) | Left(mag: int) | Right(mag: int)

  /** Where a segment begins. */
  function Start(seg: LineSegment): Point
  {
    match seg
    case HLine(ls) => Point(ls.xStart, ls.y)
    case VLine(ls) => Point(ls.x, ls.yStart)
  }

  /** `LineSegment::end`: where a segment runs to; it keeps the fixed coordinate of its
      start. */
  function End(seg: LineSegment): (p: Point)
    ensures seg.HLine? ==> p.y == Start(seg).y
    ensures seg.VLine? ==> p.x == Start(seg).x
  {
    match seg
    case HLine(ls) => Point(ls.xEnd, ls.y)
    case VLine(ls) => Point(ls.x, ls.yEnd)
  }

  /** How far a move goes: up is towards larger `y`, right towards larger `x`. */
  function Displacement(d: Direction): Point
  {
    match d
    case Up(m) => Point(0, m)
    case Down(m) => Point(0, -m)
    case Left(m) => Point(-m, 0)
    case Right(m) => Point(m, 0)
  }

  function Add(p: Point, q: Point): Point
  {
    Point(p.x + q.x, p.y + q.y)
  }

  /** The segment one move traces from `from` (the `match` in `build`). */
  function Segment(from: Point, d: Direction): (seg: LineSegment)
    ensures Start(seg) == from && End(seg) == Add(from, Displacement(d))
    ensures seg.VLine? <==> d.Up? || d.Down?
  {
    match d
    case Up(mag) => VLine(YAxisLine(from.x, from.y, from.y + mag))
    case Down(mag) => VLine(YAxisLine(from.x, from.y, from.y - mag))
    case Left(mag) => HLine(XAxisLine(from.y, from.x, from.x - mag))
    case Right(mag) => HLine(XAxisLine(from.y, from.x, from.x + mag))
  }

  /** Where a wire that starts at the origin is after the moves `ds`. */
  function Travel(ds: seq<Direction>): Point
  {
    if ds == [] then Point(0, 0)
    else Add(Travel(ds[..|ds| - 1]), Displacement(ds[|ds| - 1]))
  }

  /** The segments of the moves, each starting where the moves before it end. */
  function Segments(ds: seq<Direction>): (segs: seq<LineSegment>)
    ensures |segs| == |ds|
  {
    if ds == [] then []
    else
      var n := |ds| - 1;
      Segments(ds[..n]) + [Segment(Travel(ds[..n]), ds[n])]
  }

  /** Later moves do not change the earlier segments. */
  lemma {:induction false} SegmentsAt(ds: seq<Direction>, i: nat)
    requires i < |ds|
    ensures Segments(ds)[i] == Segment(Travel(ds[..i]), ds[i])
  {
    var n := |ds| - 1;
    if i < n {
      SegmentsAt(ds[..n], i);
      assert ds[..n][..i] == ds[..i];
    }
  }

  /** `build` chains its segments: the first starts at the origin, each next one starts at
      the end of the one before, and the `i`-th ends after the first `i + 1` moves. */
  lemma SegmentsChain(ds: seq<Direction>)
    ensures |ds| > 0 ==> Start(Segments(ds)[0]) == Point(0, 0)
    ensures forall i :: 0 < i < |ds| ==> Start(Segments(ds)[i]) == End(Segments(ds)[i - 1])
    ensures forall i :: 0 <= i < |ds| ==> End(Segments(ds)[i]) == Travel(ds[..i + 1])
  {
    forall i | 0 <= i < |ds|
      ensures Start(Segments(ds)[i]) == Travel(ds[..i])
      ensures End(Segments(ds)[i]) == Travel(ds[..i + 1])
    {
      SegmentBetween(ds, i);
    }
    if |ds| > 0 {
      assert ds[..0] == [];
    }
    forall i | 0 < i < |ds|
      ensures Start(Segments(ds)[i]) == End(Segments(ds)[i - 1])
    {
      assert ds[..i - 1 + 1] == ds[..i];
    }
  }

  /** The `i`-th segment runs from after the first `i` moves to after the first `i + 1`. */
  lemma SegmentBetween(ds: seq<Direction>, i: nat)
    requires i < |ds|
    ensures Start(Segments(ds)[i]) == Travel(ds[..i])
    ensures End(Segments(ds)[i]) == Travel(ds[..i + 1])
  {
    SegmentsAt(ds, i);
    assert ds[..i + 1][..i] == ds[..i];
  }

  predicate InI32(p: Point)
  {
    I32Min <= p.x <= I32Max && I32Min <= p.y <= I32Max
  }

  /** The wire is inside the `i32` range after its first `i + 1` moves. */
  predicate FitsAfter(ds: seq<Direction>, i: nat)
    requires i < |ds|
  {
    InI32(Travel(ds[..i + 1]))
  }

  /** `LineSegment::build`, with `None` where an `i32` coordinate overflows (a panic in a
      debug build): every move must end inside the `i32` range. */
  method Build(directions: seq<Direction>) returns (r: Option<seq<LineSegment>>)
    ensures r.Some? <==> forall i :: 0 <= i < |directions| ==> FitsAfter(directions, i)
    ensures r.Some? ==> r.value == Segments(directions)
  {
    var point := Point(0, 0);
    var line: seq<LineSegment> := [];
    for i := 0 to |directions|
      invariant point == Travel(directions[..i]) && line == Segments(directions[..i])
      invariant forall k :: 0 <= k < i ==> FitsAfter(directions, k)
    {
      assert directions[..i + 1][..i] == directions[..i];
      var current := Segment(point, directions[i]);
      if !InI32(End(current)) {
        assert !FitsAfter(directions, i);
        return None;
      }
      point := End(current);
      line := line + [current];
    }
    assert directions[..|directions|] == directions;
    return Some(line);
  }

  /** `Direction::from_str`: `split_at(1)` panics on an empty string or a first character
      wider than one byte, the magnitude must be an `i32`, and the letter must be one of
      `UDLR`. */
  function FromStr(val: string): (r: Option<Direction>)
    ensures r.Some? <==> |val| >= 1 && val[0] in "UDLR" && ParseI32(val[1..]).Some?
    ensures r.Some? ==> r.value.mag == ParseI32(val[1..]).value
    ensures r.Some? ==> (val[0] == 'U' <==> r.value.Up?) && (val[0] == 'D' <==> r.value.Down?)
    ensures r.Some? ==> (val[0] == 'L' <==> r.value.Left?) && (val[0] == 'R' <==> r.value.Right?)
  {
    if val == [] || Utf8Width(val[0]) != 1 then None
    else
      var magnitude :- ParseI32(val[1..]);
      match val[0]
      case 'U' => Some(Up(magnitude))
      case 'D' => Some(Down(magnitude))
      case 'L' => Some(Left(magnitude))
      case 'R' => Some(Right(magnitude))
      case _ => None
  }

  /** `Direction::from_str_csv`: one direction per comma-separated item, in order; `None`
      where an item panics. */
  function FromStrCsv(val: string): (r: Option<seq<Direction>>)
    ensures r.Some? ==> |r.value| == |Split(val, ',')|
    ensures r.Some? ==> forall i :: 0 <= i < |r.value| ==> FromStr(Split(val, ',')[i]) == Some(r.value[i])
    ensures r.None? ==> exists i :: 0 <= i < |Split(val, ',')| && FromStr(Split(val, ',')[i]).None?
  {
    FromStrAll(Split(val, ','))
  }

  function FromStrAll(items: seq<string>): (r: Option<seq<Direction>>)
    ensures r.Some? ==> |r.value| == |items|
    ensures r.Some? ==> forall i :: 0 <= i < |items| ==> FromStr(items[i]) == Some(r.value[i])
    ensures r.None? ==> exists i :: 0 <= i < |items| && FromStr(items[i]).None?
  {
    if items == [] then Some([])
    else
      match FromStr(items[0])
      case None => None
      case Some(d) =>
        match FromStrAll(items[1..])
        case None => None
        case Some(rest) => Some([d] + rest)
  }

  /** An `i32` written in decimal, with a `-` when negative. */
  function IntToDecimal(v: int): (s: string)
  {
    if v < 0 then "-" + NatToDecimal(-v) else NatToDecimal(v)
  }

  lemma ParseIntToDecimal(v: int)
    requires I32Min <= v <= I32Max
    ensures ParseI32(IntToDecimal(v)) == Some(v)
  {
    if v < 0 {
      var digits := NatToDecimal(-v);
      NatToDecimalValue(-v);
      assert IntToDecimal(v)[1..] == digits;
    } else {
      ParseNatToDecimal(v, true, I32Min, I32Max);
    }
  }

  function Letter(d: Direction): char
  {
    match d
    case Up(_) => 'U'
    case Down(_) => 'D'
    case Left(_) => 'L'
    case Right(_) => 'R'
  }

  /** How a move is written: its letter, then its magnitude. */
  function Format(d: Direction): (s: string)
  {
    [Letter(d)] + IntToDecimal(d.mag)
  }

  /** Every move with an `i32` magnitude reads back from its own text. */
  lemma FromStrFormat(d: Direction)
    requires I32Min <= d.mag <= I32Max
    ensures FromStr(Format(d)) == Some(d)
  {
    ParseIntToDecimal(d.mag);
    assert Format(d)[1..] == IntToDecimal(d.mag);
  }

  function FormatAll(ds: seq<Direction>): (items: seq<string>)
    ensures |items| == |ds| && forall i :: 0 <= i < |ds| ==> items[i] == Format(ds[i])
  {
    if ds == [] then [] else [Format(ds[0])] + FormatAll(ds[1..])
  }

  /** A written move holds no comma. */
  lemma FormatNoComma(d: Direction)
    ensures ',' !in Format(d)
  {
    var digits := NatToDecimal(if d.mag < 0 then -d.mag else d.mag);
    assert forall k :: 0 <= k < |digits| ==> digits[k] != ',' by {
      forall k | 0 <= k < |digits| ensures digits[k] != ',' { assert IsDigit(digits[k]); }
    }
  }

  lemma {:induction false} FromStrAllFormat(ds: seq<Direction>)
    requires forall i :: 0 <= i < |ds| ==> I32Min <= ds[i].mag <= I32Max
    ensures FromStrAll(FormatAll(ds)) == Some(ds)
  {
    if ds != [] {
      FromStrFormat(ds[0]);
      FromStrAllFormat(ds[1..]);
      assert FormatAll(ds)[1..] == FormatAll(ds[1..]);
      assert [ds[0]] + ds[1..] == ds;
    }
  }

  /** A wire written as comma-separated moves reads back move for move. */
  lemma FromStrCsvFormat(ds: seq<Direction>)
    requires |ds| > 0 && forall i :: 0 <= i < |ds| ==> I32Min <= ds[i].mag <= I32Max
    ensures FromStrCsv(Join(FormatAll(ds), ',')) == Some(ds)
  {
    var items := FormatAll(ds);
    forall i | 0 <= i < |items| ensures ',' !in items[i] {
      FormatNoComma(ds[i]);
    }
    JoinSplit(items, ',');
    FromStrAllFormat(ds);
  }

  /** The example wire `R8,U5,L5,D3` parses to its four moves. */
  lemma ExampleParse()
    ensures FromStrCsv("R8,U5,L5,D3") == Some([Right(8), Up(5), Left(5), Down(3)])
  {
    var ds := [Right(8), Up(5), Left(5), Down(3)];
    assert Format(Right(8)) == "R8" && Format(Up(5)) == "U5";
    assert Format(Left(5)) == "L5" && Format(Down(3)) == "D3";
    var items := FormatAll(ds);
    assert items == ["R8", "U5", "L5", "D3"];
    var i2, i3 := ["R8", "U5"], ["R8", "U5", "L5"];
    assert i2[..1] == ["R8"] && i3[..2] == i2 && items[..3] == i3;
    assert Join(i2, ',') == "R8,U5";
    assert Join(i3, ',') == "R8,U5,L5";
    assert Join(items, ',') == "R8,U5,L5,D3";
    FromStrCsvFormat(ds);
  }

  /** One more move adds its displacement. */
  lemma TravelSnoc(ds: seq<Direction>, d: Direction)
    ensures Travel(ds + [d]) == Add(Travel(ds), Displacement(d))
  {
    assert (ds + [d])[..|ds|] == ds;
  }

  /** One more move adds one segment, from where the wire was. */
  lemma SegmentsSnoc(ds: seq<Direction>, d: Direction)
    ensures Segments(ds + [d]) == Segments(ds) + [Segment(Travel(ds), d)]
  {
    assert (ds + [d])[..|ds|] == ds;
  }

  /** Where the example wire is after each of its moves. */
  lemma ExampleTravel()
    ensures Travel([Right(8)]) == Point(8, 0)
    ensures Travel([Right(8), Up(5)]) == Point(8, 5)
    ensures Travel([Right(8), Up(5), Left(5)]) == Point(3, 5)
  {
    TravelSnoc([], Right(8));
    assert [] + [Right(8)] == [Right(8)];
    TravelSnoc([Right(8)], Up(5));
    assert [Right(8)] + [Up(5)] == [Right(8), Up(5)];
    TravelSnoc([Right(8), Up(5)], Left(5));
    assert [Right(8), Up(5)] + [Left(5)] == [Right(8), Up(5), Left(5)];
  }

  /** Its segments, and their ends (8,0), (8,5), (3,5), (3,2). */
  lemma ExampleBuild()
    ensures var segs := Segments([Right(8), Up(5), Left(5), Down(3)]);
      && segs == [HLine(XAxisLine(0, 0, 8)), VLine(YAxisLine(8, 0, 5)),
                  HLine(XAxisLine(5, 8, 3)), VLine(YAxisLine(3, 5, 2))]
      && [End(segs[0]), End(segs[1]), End(segs[2]), End(segs[3])] ==
         [Point(8, 0), Point(8, 5), Point(3, 5), Point(3, 2)]
  {
    ExampleTravel();
    SegmentsSnoc([], Right(8));
    assert [] + [Right(8)] == [Right(8)];
    SegmentsSnoc([Right(8)], Up(5));
    assert [Right(8)] + [Up(5)] == [Right(8), Up(5)];
    SegmentsSnoc([Right(8), Up(5)], Left(5));
    assert [Right(8), Up(5)] + [Left(5)] == [Right(8), Up(5), Left(5)];
    SegmentsSnoc([Right(8), Up(5), Left(5)], Down(3));
    assert [Right(8), Up(5), Left(5)] + [Down(3)] == [Right(8), Up(5), Left(5), Down(3)];
  }
}
