/** The painting robot of 2019 day 11: a heading that turns a quarter left or right, a
    position that steps one panel in the heading, and panel colours passed to and from the
    Intcode program as words. */
module HullPainting {
  import opened Outcomes
  import opened Text

  datatype Direction = Up | Down | Left | Right

  datatype Colour = Black | White

  /** `Colour::to_word` */
  function ToWord(c: Colour): (w: int)
    ensures w == 0 || w == 1
    ensures w == 1 <==> c == White
  {
    match c
    case Black => 0
    case White => 1
  }

  /** `Colour::from_word`: any word but 0 and 1 panics. */
  function FromWord(w: int): (r: Option<Colour>)
    ensures r.Some? <==> w == 0 || w == 1
  {
    if w == 0 then Some(Black)
    else if w == 1 then Some(White)
    else None
  }

  /** The two conversions are inverse to each other. */
  lemma WordRoundTrip(c: Colour, w: int)
    ensures FromWord(ToWord(c)) == Some(c)
    ensures FromWord(w).Some? ==> ToWord(FromWord(w).value) == w
  {
  }

  /** `Direction::rotate_left` */
  function RotateLeft(d: Direction): Direction
  {
    match d
    case Up => Left
    case Down => Right
    case Left => Down
    case Right => Up
  }

  /** `Direction::rotate_right` */
  function RotateRight(d: Direction): Direction
  {
    match d
    case Up => Right
    case Down => Left
    case Left => Up
    case Right => Down
  }

  /** A step in each heading: up is towards larger `y`, right towards larger `x`. */
  function Offset(d: Direction): (o: (int, int))
    ensures (o.0 == 0) != (o.1 == 0)
    ensures -1 <= o.0 <= 1 && -1 <= o.1 <= 1
  {
    match d
    case Up => (0, 1)
    case Down => (0, -1)
    case Left => (-1, 0)
    case Right => (1, 0)
  }

  /** The rotations are the quarter turns of the plane: right is clockwise and left is
      anticlockwise, so each undoes the other and four of either come back round. */
  lemma Rotations(d: Direction)
    ensures Offset(RotateRight(d)) == (Offset(d).1, -Offset(d).0)
    ensures Offset(RotateLeft(d)) == (-Offset(d).1, Offset(d).0)
    ensures RotateLeft(RotateRight(d)) == d && RotateRight(RotateLeft(d)) == d
    ensures RotateRight(RotateRight(RotateRight(RotateRight(d)))) == d
    ensures RotateLeft(RotateLeft(RotateLeft(RotateLeft(d)))) == d
  {
  }

  /** Headings are told apart by their steps. */
  lemma OffsetInjective(d: Direction, e: Direction)
    requires Offset(d) == Offset(e)
    ensures d == e
  {
  }

  /** The turn the robot makes for an output word: 0 turns left, 1 right, anything else
      panics. */
  function Turn(direction: Direction, w: int): (r: Option<Direction>)
    ensures r.Some? <==> w == 0 || w == 1
    ensures r.Some? ==> Offset(r.value) == if w == 0 then (-Offset(direction).1, Offset(direction).0)
                                         else (Offset(direction).1, -Offset(direction).0)
  {
    Rotations(direction);
    if w == 0 then Some(RotateLeft(direction))
    else if w == 1 then Some(RotateRight(direction))
    else None
  }

  /** `Point`, whose `move_dir` changes it in place. */
  class Point {
    var x: int
    var y: int

    constructor(x0: int, y0: int)
      ensures x == x0 && y == y0
    {
      x, y := x0, y0;
    }

    /** `Point::move_dir`: one panel in the heading; the `i32` coordinate must not
        overflow. */
    method MoveDir(dir: Direction)
      requires I32Min <= x + Offset(dir).0 <= I32Max && I32Min <= y + Offset(dir).1 <= I32Max
      modifies this
      ensures x == old(x) + Offset(dir).0 && y == old(y) + Offset(dir).1
    {
      match dir
      case Up => y := y + 1;
      case Down => y := y - 1;
      case Left => x := x - 1;
      case Right => x := x + 1;
    }
  }
}
