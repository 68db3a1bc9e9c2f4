/** The asteroid monitoring station of 2019 day 10: a rectangular field of asteroids, the
    straight lines of sight scanned from a candidate station, and the search for the station
    that sees the most asteroids. */
module MonitoringStation {
  import opened Outcomes
  import opened Ordering
  import opened Arithmetic

  datatype Space = Asteroid | Empty

  /** What the scan has decided about each cell. */
  datatype Visibility = Blocked | Visible | Vacant

  /** A step along a line of sight; `Ord` on the tuple struct compares `dx` first. */
  datatype Move = Move(dx: int, dy: int)

  datatype Point = Point(x: int, y: int)

  predicate MoveLess(a: Move, b: Move)
  {
    a.dx < b.dx || (a.dx == b.dx && a.dy < b.dy)
  }

  /** The derived `Ord` of `Move` is a strict total order. */
  lemma MoveOrder()
    ensures StrictTotal(MoveLess)
  {
  }

  /** The moves a field of this size scans: every nonzero step reaching at most half the
      width across and half the height down. */
  predicate Reach(m: Move, width: int, height: int)
  {
    m != Move(0, 0) && Abs(m.dx) <= width / 2 && Abs(m.dy) <= height / 2
  }

  /** The moves pushed once the outer loop has reached `x` and the inner loop `y`. */
  predicate Pushed(m: Move, x: int, y: int, height: int)
  {
    m != Move(0, 0)
    && ((Abs(m.dx) < x && Abs(m.dy) <= height / 2) || (Abs(m.dx) == x && Abs(m.dy) < y))
  }

  /** The grid rows laid end to end, as `flatten` does. */
  function Flatten(world: seq<seq<Space>>, width: nat): (r: seq<Space>)
    requires forall row :: row in world ==> |row| == width
    ensures |r| == |world| * width
  {
    if world == [] then []
    else
      var init := Flatten(world[..|world| - 1], width);
      AppendRow(|world|, width, |init|);
      init + world[|world| - 1]
  }

  /** One more row of `width` cells after `rows - 1` rows. */
  lemma AppendRow(rows: nat, width: nat, before: nat)
    requires rows >= 1 && before == (rows - 1) * width
    ensures before + width == rows * width
  {
  }

  lemma NonNegativeProduct(a: int, b: int)
    requires 0 <= a && 0 <= b
    ensures 0 <= a * b
  {
  }

  /** Division with remainder by a positive `w` is unique. */
  lemma UniqueDivision(q: int, r: int, y: int, x: int, w: int)
    requires 0 <= r < w && 0 <= x < w && q * w + r == y * w + x
    ensures q == y && r == x
  {
    if q > y {
      NonNegativeProduct(q - y - 1, w);
    } else if q < y {
      NonNegativeProduct(y - q - 1, w);
    }
  }

  lemma DivMod(x: int, y: int, w: int)
    requires 0 <= x < w && 0 <= y
    ensures (y * w + x) / w == y && (y * w + x) % w == x
  {
    UniqueDivision((y * w + x) / w, (y * w + x) % w, y, x, w);
  }

  lemma RowBelow(i: int, w: int, h: int)
    requires 0 <= i < w * h && 0 < w
    ensures i / w < h
  {
    if i / w >= h {
      NonNegativeProduct(i / w - h, w);
    }
  }

  lemma IndexBelow(x: int, y: int, w: int, h: int)
    requires 0 <= x < w && 0 <= y < h
    ensures y * w + x < w * h
  {
    NonNegativeProduct(h - y - 1, w);
  }

  /** How many cells the scan left `Visible`: the final `filter(..).count()`. */
  function CountVisible(vis: seq<Visibility>): (r: nat)
    ensures r <= |vis|
  {
    if vis == [] then 0
    else CountVisible(vis[..|vis| - 1]) + (if vis[|vis| - 1] == Visible then 1 else 0)
  }

  /** No move stands still. */
  predicate NonZero(ms: seq<Move>)
  {
    forall i :: 0 <= i < |ms| ==> ms[i] != Move(0, 0)
  }

  /** The number of asteroids in a field. */
  function Asteroids(field: seq<Space>): (r: nat)
    ensures r <= |field|
  {
    if field == [] then 0
    else Asteroids(field[..|field| - 1]) + (if field[|field| - 1] == Asteroid then 1 else 0)
  }

  /** A scan only ever turns cells to `Blocked`. */
  predicate OnlyBlocks(before: seq<Visibility>, after: seq<Visibility>)
  {
    |after| == |before| && forall i :: 0 <= i < |after| ==> after[i] == before[i] || after[i] == Blocked
  }

  /** Turning cells to `Blocked` never adds a visible cell. */
  lemma {:induction false} CountOnlyBlocks(before: seq<Visibility>, after: seq<Visibility>)
    requires OnlyBlocks(before, after)
    ensures CountVisible(after) <= CountVisible(before)
  {
    if after != [] {
      var n := |after| - 1;
      CountOnlyBlocks(before[..n], after[..n]);
    }
  }

  /** Blocking one visible cell removes exactly one from the count. */
  lemma {:induction false} CountBlockOne(vis: seq<Visibility>, i: nat)
    requires i < |vis| && vis[i] == Visible
    ensures CountVisible(vis[i := Blocked]) == CountVisible(vis) - 1
  {
    var n := |vis| - 1;
    var w := vis[i := Blocked];
    assert w[..n] == if i < n then vis[..n][i := Blocked] else vis[..n];
    if i < n {
      CountBlockOne(vis[..n], i);
    }
  }

  /** The marks a scan starts from: every asteroid `Visible`, every other cell `Vacant`. */
  function Fresh(field: seq<Space>): (r: seq<Visibility>)
    ensures |r| == |field|
    ensures forall i :: 0 <= i < |r| ==> (r[i] == Visible <==> field[i] == Asteroid)
  {
    if field == [] then []
    else Fresh(field[..|field| - 1]) + [if field[|field| - 1] == Asteroid then Visible else Vacant]
  }

  /** Counting visible cells of a fresh scan counts the asteroids. */
  lemma {:induction false} CountFresh(vis: seq<Visibility>, field: seq<Space>)
    requires |vis| == |field|
    requires forall i :: 0 <= i < |vis| ==> (vis[i] == Visible <==> field[i] == Asteroid)
    ensures CountVisible(vis) == Asteroids(field)
  {
    if vis != [] {
      CountFresh(vis[..|vis| - 1], field[..|field| - 1]);
    }
  }

  /** The point `k` steps of `m` away from `p`. */
  function Shift(p: Point, m: Move, k: nat): Point
    decreases k
  {
    if k == 0 then p else Shift(Point(p.x + m.dx, p.y + m.dy), m, k - 1)
  }

  /** Every step moves the same way, so `k >= 1` steps end at least one step past `p` in
      the direction of `m`, coordinate by coordinate. */
  lemma {:induction false} ShiftBounds(p: Point, m: Move, k: nat)
    ensures var r := Shift(p, m, k);
      (m.dx >= 0 ==> r.x >= p.x) && (m.dx <= 0 ==> r.x <= p.x)
      && (m.dy >= 0 ==> r.y >= p.y) && (m.dy <= 0 ==> r.y <= p.y)
      && (k >= 1 ==> (m.dx >= 0 ==> r.x >= p.x + m.dx) && (m.dx <= 0 ==> r.x <= p.x + m.dx))
      && (k >= 1 ==> (m.dy >= 0 ==> r.y >= p.y + m.dy) && (m.dy <= 0 ==> r.y <= p.y + m.dy))
    decreases k
  {
    if k > 0 {
      ShiftBounds(Point(p.x + m.dx, p.y + m.dy), m, k - 1);
    }
  }

  /** The order `locate_station` visits points in: by column, then by row. */
  predicate PointLess(a: Point, b: Point)
  {
    a.x < b.x || (a.x == b.x && a.y < b.y)
  }

  /** `Iterator::max_by_key` on the view counts: the position of the LAST greatest count. */
  function LastMax(counts: seq<nat>): (i: nat)
    requires |counts| > 0
    ensures i < |counts|
    ensures forall j :: 0 <= j < |counts| ==> counts[j] <= counts[i]
    ensures forall j :: i < j < |counts| ==> counts[j] < counts[i]
  {
    if |counts| == 1 then 0
    else
      var i := LastMax(counts[..|counts| - 1]);
      if counts[|counts| - 1] >= counts[i] then |counts| - 1 else i
  }

  /** The key `max_by_key` compares: the count of each entry. */
  function Counts(stations: seq<(Point, nat)>): (r: seq<nat>)
    ensures |r| == |stations| && forall k :: 0 <= k < |r| ==> r[k] == stations[k].1
  {
    seq(|stations|, k requires 0 <= k < |stations| => stations[k].1)
  }

  /** Over entries in increasing point order, the last greatest count beats every count
      at a later point and equals or beats every other. */
  lemma LastMaxAfter(stations: seq<(Point, nat)>, i: nat)
    requires |stations| > 0 && i == LastMax(Counts(stations))
    requires forall k1, k2 :: 0 <= k1 < k2 < |stations| ==> PointLess(stations[k1].0, stations[k2].0)
    ensures forall k :: 0 <= k < |stations| ==> stations[k].1 <= stations[i].1
    ensures forall k :: 0 <= k < |stations| && PointLess(stations[i].0, stations[k].0) ==> stations[k].1 < stations[i].1
  {
    var counts := Counts(stations);
    forall k | 0 <= k < |stations| && PointLess(stations[i].0, stations[k].0)
      ensures stations[k].1 < stations[i].1
    {
      assert counts[k] < counts[i];
    }
  }

  /** Some entry of `stations` is for `p`. */
  ghost predicate Listed(stations: seq<(Point, nat)>, p: Point)
  {
    exists k :: 0 <= k < |stations| && stations[k].0 == p
  }

  class AsteroidField {
    var width: int
    var height: int
    var field: seq<Space>
    var moves: seq<Move>

    /** The field is `width` by `height` and every move is nonzero, so each scan along a
        move leaves the field. */
    predicate Valid()
      reads this
    {
      0 <= width && 0 <= height && |field| == width * height
      && NonZero(moves)
    }

    /** `AsteroidField::new` */
    constructor(world: seq<seq<Space>>)
      requires |world| > 0
      requires forall row :: row in world ==> |row| == |world[0]|
      ensures width == |world[0]| && height == |world| && field == Flatten(world, |world[0]|)
      ensures StrictlySorted(moves, MoveLess) && forall m :: m in moves <==> Reach(m, width, height)
      ensures Valid()
    {
      width := |world[0]|;
      height := |world|;
      field := Flatten(world, |world[0]|);
      moves := [];
      new;
      BuildMoves();
      assert forall i :: 0 <= i < |moves| ==> moves[i] in moves;
    }

    /** `AsteroidField::build_moves`: every step within half the field in each direction,
        sorted and without repeats. */
    method BuildMoves()
      requires 0 <= width && 0 <= height
      modifies this
      ensures width == old(width) && height == old(height) && field == old(field)
      ensures StrictlySorted(moves, MoveLess)
      ensures forall m :: m in moves <==> Reach(m, width, height)
    {
      moves := [];
      var x := 0;
      while x <= width / 2
        invariant 0 <= x <= width / 2 + 1
        invariant width == old(width) && height == old(height) && field == old(field)
        invariant forall m :: m in moves <==> Pushed(m, x, 0, height)
      {
        var y := 0;
        while y <= height / 2
          invariant 0 <= y <= height / 2 + 1
          invariant width == old(width) && height == old(height) && field == old(field)
          invariant forall m :: m in moves <==> Pushed(m, x, y, height)
        {
          if x == 0 && y == 0 {
            y := y + 1;
            continue;
          }
          moves := moves + [Move(x, y)];
          moves := moves + [Move(-x, y)];
          moves := moves + [Move(x, -y)];
          moves := moves + [Move(-x, -y)];
          y := y + 1;
        }
        assert forall m :: Pushed(m, x, y, height) <==> Pushed(m, x + 1, 0, height);
        x := x + 1;
      }
      assert forall m :: Pushed(m, x, 0, height) <==> Reach(m, width, height);
      MoveOrder();
      moves := SortDedup(moves, MoveLess);
    }

    /** `AsteroidField::contains` */
    predicate Contains(p: Point)
      reads this
    {
      0 <= p.x && 0 <= p.y && p.x < width && p.y < height
    }

    /** The point stored at position `i` of the flattened field. */
    function PointAt(i: nat): Point
      reads this
      requires 0 < width
    {
      Point(i % width, i / width)
    }

    /** `AsteroidField::to_index`: the row-major position of a point of the field. */
    function ToIndex(p: Point): (r: Option<nat>)
      reads this
      ensures r.Some? <==> Contains(p)
      ensures r.Some? ==> r.value < width * height && PointAt(r.value) == p
    {
      if Contains(p) then
        DivMod(p.x, p.y, width);
        IndexBelow(p.x, p.y, width, height);
        Some(p.y * width + p.x)
      else None
    }

    /** Every position of the flattened field is the index of exactly one point. */
    lemma IndexOfPoint(i: nat)
      requires 0 <= width && i < width * height
      ensures ToIndex(PointAt(i)) == Some(i)
    {
      RowBelow(i, width, height);
    }

    /** How far a scan along `m` can still go from `look` before it leaves the field. */
    function Remaining(look: Point, m: Move): int
      reads this
    {
      if m.dx > 0 then width - look.x
      else if m.dx < 0 then look.x + 1
      else if m.dy > 0 then height - look.y
      else look.y + 1
    }

    /** The inner loop of `view_count` from the point `look`: the first asteroid met along
        `m` once `blocking` is false stays, and every asteroid after it is `Blocked`. */
    function Walk(vis: seq<Visibility>, look: Point, m: Move, blocking: bool): (r: seq<Visibility>)
      reads this
      requires Valid() && |vis| == |field| && Contains(look) && m != Move(0, 0)
      ensures OnlyBlocks(vis, r)
      decreases Remaining(look, m)
    {
      var next := Point(look.x + m.dx, look.y + m.dy);
      match ToIndex(next)
      case None => vis
      case Some(idx) =>
        if field[idx] == Asteroid then
          if blocking then Walk(vis[idx := Blocked], next, m, true)
          else Walk(vis, next, m, true)
        else Walk(vis, next, m, blocking)
    }

    /** The outer loop of `view_count`: a scan from `station` along each move in turn. */
    function Rays(vis: seq<Visibility>, station: Point, ms: seq<Move>): (r: seq<Visibility>)
      reads this
      requires Valid() && |vis| == |field| && Contains(station)
      requires NonZero(ms)
      ensures OnlyBlocks(vis, r)
    {
      if ms == [] then vis
      else
        var before := Rays(vis, station, ms[..|ms| - 1]);
        Walk(before, station, ms[|ms| - 1], false)
    }

    /** What `view_count` returns for a station in the field. */
    function Seen(station: Point): nat
      reads this
      requires Valid() && Contains(station)
    {
      var idx := ToIndex(station).value;
      if field[idx] == Empty then 0
      else CountVisible(Rays(Fresh(field)[idx := Blocked], station, moves))
    }

    /** An asteroid lies at `p`. */
    predicate AsteroidAt(p: Point)
      reads this
      requires Valid()
    {
      Contains(p) && field[ToIndex(p).value] == Asteroid
    }

    /** `view_count` is zero on an empty cell; on an asteroid it counts at most every other
        asteroid, since the station's own cell ends `Blocked`. */
    lemma SeenBound(station: Point)
      requires Valid() && Contains(station)
      ensures !AsteroidAt(station) ==> Seen(station) == 0
      ensures AsteroidAt(station) ==>
        var idx := ToIndex(station).value;
        var start := Fresh(field)[idx := Blocked];
        Rays(start, station, moves)[idx] == Blocked && Seen(station) <= Asteroids(field) - 1
    {
      var idx := ToIndex(station).value;
      if AsteroidAt(station) {
        var start := Fresh(field)[idx := Blocked];
        CountFresh(Fresh(field), field);
        CountBlockOne(Fresh(field), idx);
        CountOnlyBlocks(start, Rays(start, station, moves));
      }
    }

    /** Leaving a point of the field towards a later point of the field along `m`, the
        first step stays in the field. */
    lemma Between(look: Point, m: Move, k: nat)
      requires Contains(look) && Contains(Shift(look, m, k)) && k >= 1
      ensures Contains(Point(look.x + m.dx, look.y + m.dy))
    {
      ShiftBounds(look, m, k);
    }

    /** A scan from `look` never touches a cell that is no further along `m`. */
    lemma {:induction false} WalkBehind(vis: seq<Visibility>, look: Point, m: Move, blocking: bool, q: Point)
      requires Valid() && |vis| == |field| && Contains(look) && m != Move(0, 0)
      requires Contains(q) && Remaining(q, m) >= Remaining(look, m)
      ensures Walk(vis, look, m, blocking)[ToIndex(q).value] == vis[ToIndex(q).value]
      decreases Remaining(look, m)
    {
      var next := Point(look.x + m.dx, look.y + m.dy);
      if Contains(next) {
        var idx := ToIndex(next).value;
        assert next != q;
        assert idx != ToIndex(q).value;
        if field[idx] == Asteroid {
          if blocking {
            WalkBehind(vis[idx := Blocked], next, m, true, q);
          } else {
            WalkBehind(vis, next, m, true, q);
          }
        } else {
          WalkBehind(vis, next, m, blocking, q);
        }
      }
    }

    /** Along one move, the first asteroid the scan meets keeps the mark it had. */
    lemma {:induction false} FirstHitKept(vis: seq<Visibility>, look: Point, m: Move, j: nat)
      requires Valid() && |vis| == |field| && Contains(look) && m != Move(0, 0)
      requires j >= 1 && AsteroidAt(Shift(look, m, j))
      requires forall i :: 1 <= i < j ==> !AsteroidAt(Shift(look, m, i))
      ensures Walk(vis, look, m, false)[ToIndex(Shift(look, m, j)).value] == vis[ToIndex(Shift(look, m, j)).value]
      decreases j
    {
      var next := Point(look.x + m.dx, look.y + m.dy);
      Between(look, m, j);
      if j == 1 {
        WalkBehind(vis, next, m, true, next);
      } else {
        assert !AsteroidAt(Shift(look, m, 1));
        forall i | 1 <= i < j - 1
          ensures !AsteroidAt(Shift(next, m, i))
        {
          assert Shift(look, m, i + 1) == Shift(next, m, i);
        }
        FirstHitKept(vis, next, m, j - 1);
      }
    }

    /** Once the scan is blocking, every asteroid further along `m` is `Blocked`. */
    lemma {:induction false} LaterBlocked(vis: seq<Visibility>, look: Point, m: Move, k: nat)
      requires Valid() && |vis| == |field| && Contains(look) && m != Move(0, 0)
      requires k >= 1 && AsteroidAt(Shift(look, m, k))
      ensures Walk(vis, look, m, true)[ToIndex(Shift(look, m, k)).value] == Blocked
      decreases k
    {
      var next := Point(look.x + m.dx, look.y + m.dy);
      Between(look, m, k);
      var idx := ToIndex(next).value;
      var vis' := if field[idx] == Asteroid then vis[idx := Blocked] else vis;
      if k == 1 {
        assert vis'[idx] == Blocked;
      } else {
        LaterBlocked(vis', next, m, k - 1);
      }
    }

    /** Any asteroid behind another asteroid along the move is `Blocked` by the scan. */
    lemma {:induction false} BehindBlocked(vis: seq<Visibility>, look: Point, m: Move, blocking: bool, j: nat, k: nat)
      requires Valid() && |vis| == |field| && Contains(look) && m != Move(0, 0)
      requires 1 <= j < k && AsteroidAt(Shift(look, m, j)) && AsteroidAt(Shift(look, m, k))
      ensures Walk(vis, look, m, blocking)[ToIndex(Shift(look, m, k)).value] == Blocked
      decreases j
    {
      var next := Point(look.x + m.dx, look.y + m.dy);
      Between(look, m, k);
      var idx := ToIndex(next).value;
      var vis' := if field[idx] == Asteroid && blocking then vis[idx := Blocked] else vis;
      var blocking' := blocking || field[idx] == Asteroid;
      WalkStep(vis, look, m, blocking);
      assert Shift(look, m, k) == Shift(next, m, k - 1);
      assert Shift(look, m, j) == Shift(next, m, j - 1);
      if j == 1 {
        assert blocking';
        LaterBlocked(vis', next, m, k - 1);
      } else {
        BehindBlocked(vis', next, m, blocking', j - 1, k - 1);
      }
    }

    /** One step of the scan: the cell after `look`, when inside the field, is marked
        `Blocked` if it holds an asteroid behind another one, and then the scan goes on from
        there. */
    lemma WalkStep(vis: seq<Visibility>, look: Point, m: Move, blocking: bool)
      requires Valid() && |vis| == |field| && Contains(look) && m != Move(0, 0)
      requires Contains(Point(look.x + m.dx, look.y + m.dy))
      ensures var next := Point(look.x + m.dx, look.y + m.dy);
        var idx := ToIndex(next).value;
        Walk(vis, look, m, blocking) ==
          Walk(if field[idx] == Asteroid && blocking then vis[idx := Blocked] else vis, next, m, blocking || field[idx] == Asteroid)
    {
    }

    /** `AsteroidField::view_count`: the asteroids left visible after every move has been
        scanned from `station`. */
    method ViewCount(station: Point) returns (count: nat)
      requires Valid() && Contains(station)
      ensures count == Seen(station)
    {
      var idx := ToIndex(station).value;
      if field[idx] == Empty {
        return 0;
      }
      var vis := Fresh(field);
      vis := vis[idx := Blocked];
      ghost var start := vis;
      for k := 0 to |moves|
        invariant |vis| == |field|
        invariant vis == Rays(start, station, moves[..k])
      {
        var m := moves[k];
        assert moves[..k + 1][..k] == moves[..k];
        ghost var target := Walk(vis, station, m, false);
        var look := station;
        var blocking := false;
        while true
          invariant Contains(look) && |vis| == |field|
          invariant Walk(vis, look, m, blocking) == target
          decreases Remaining(look, m)
        {
          var next := Point(look.x + m.dx, look.y + m.dy);
          var at := ToIndex(next);
          if at.None? {
            break;
          }
          if field[at.value] == Asteroid {
            if blocking {
              vis := vis[at.value := Blocked];
            } else {
              blocking := true;
            }
          }
          look := next;
        }
        assert vis == target;
      }
      assert moves[..|moves|] == moves;
      count := CountVisible(vis);
    }

    /** `stations` holds, in visiting order, the view count of every point of the field
        before `cursor`. */
    ghost predicate Scanned(stations: seq<(Point, nat)>, cursor: Point)
      reads this
      requires Valid()
    {
      (forall k :: 0 <= k < |stations| ==>
        Contains(stations[k].0) && stations[k].1 == Seen(stations[k].0) && PointLess(stations[k].0, cursor))
      && (forall k1, k2 :: 0 <= k1 < k2 < |stations| ==> PointLess(stations[k1].0, stations[k2].0))
      && (forall p :: Contains(p) && PointLess(p, cursor) ==> Listed(stations, p))
    }

    lemma ScannedPush(stations: seq<(Point, nat)>, q: Point)
      requires Valid() && Contains(q) && Scanned(stations, q)
      ensures Scanned(stations + [(q, Seen(q))], Point(q.x, q.y + 1))
    {
      var pushed := stations + [(q, Seen(q))];
      forall p | Contains(p) && PointLess(p, Point(q.x, q.y + 1))
        ensures Listed(pushed, p)
      {
        if p == q {
          assert pushed[|stations|].0 == p;
        } else {
          var k :| 0 <= k < |stations| && stations[k].0 == p;
          assert pushed[k].0 == p;
        }
      }
    }

    lemma ScannedColumn(stations: seq<(Point, nat)>, x: int)
      requires Valid() && Scanned(stations, Point(x, height))
      ensures Scanned(stations, Point(x + 1, 0))
    {
      forall p | Contains(p) && PointLess(p, Point(x + 1, 0))
        ensures Listed(stations, p)
      {
        assert PointLess(p, Point(x, height));
      }
    }

    /** The entry `max_by_key` picks sees at least as much as every point of the field, and
        strictly more than every point visited after it. */
    lemma LocateOptimal(stations: seq<(Point, nat)>, i: nat)
      requires Valid() && Scanned(stations, Point(width, 0)) && |stations| > 0
      requires i == LastMax(Counts(stations))
      ensures forall p :: Contains(p) ==> Seen(p) <= stations[i].1
      ensures forall p :: Contains(p) && PointLess(stations[i].0, p) ==> Seen(p) < stations[i].1
    {
      LastMaxAfter(stations, i);
      forall p | Contains(p)
        ensures Seen(p) <= stations[i].1
        ensures PointLess(stations[i].0, p) ==> Seen(p) < stations[i].1
      {
        assert PointLess(p, Point(width, 0));
        var k :| 0 <= k < |stations| && stations[k].0 == p;
      }
    }

    /** The inner loop of `locate_station`: the view counts of column `x`, top to bottom,
        after those of the columns before it. */
    method ScanColumn(stations: seq<(Point, nat)>, x: int) returns (scanned: seq<(Point, nat)>)
      requires Valid() && 0 <= x < width && Scanned(stations, Point(x, 0))
      ensures Scanned(scanned, Point(x + 1, 0))
    {
      scanned := stations;
      for y := 0 to height
        invariant Scanned(scanned, Point(x, y))
      {
        var station := Point(x, y);
        var seen := ViewCount(station);
        ScannedPush(scanned, station);
        scanned := scanned + [(station, seen)];
      }
      ScannedColumn(scanned, x);
    }

    /** `AsteroidField::locate_station`: the point with the greatest view count, the last
        one visited among equals, together with its count. */
    method LocateStation() returns (station: Point, count: nat)
      requires Valid() && 0 < width && 0 < height
      ensures Contains(station) && count == Seen(station)
      ensures forall p :: Contains(p) ==> Seen(p) <= count
      ensures forall p :: Contains(p) && PointLess(station, p) ==> Seen(p) < count
    {
      var stations: seq<(Point, nat)> := [];
      for x := 0 to width
        invariant Scanned(stations, Point(x, 0))
      {
        stations := ScanColumn(stations, x);
      }
      assert Contains(Point(0, 0)) && PointLess(Point(0, 0), Point(width, 0));
      var i := LastMax(Counts(stations));
      LocateOptimal(stations, i);
      station, count := stations[i].0, stations[i].1;
    }
  }
}
