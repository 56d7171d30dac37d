/** The piece catalogue shared by both game variants: the seven tetromino
    shapes, the rotation counter, the per-shape rotation table of
    `calcRotate`, and the wall-kick offset of the newer `rotate`. */
module Geometry {
  import opened GridStore

  datatype Kind = O | S | Z | T | L | J | I

  /** The order in which `fillPieceQueue` and the older `createPiece` index
      the shapes. */
  const Shapes: seq<Kind> := [O, S, Z, T, L, J, I]

  predicate IsRotation(r: int)
  {
    r == 0 || r == 90 || r == 180 || r == 270
  }

  predicate Distinct(ps: seq<Point>)
  {
    forall i, j :: 0 <= i < j < |ps| ==> ps[i] != ps[j]
  }

  /** Every point moved by (dx, dy). */
  function Shifted(ps: seq<Point>, dx: int, dy: int): seq<Point>
  {
    seq(|ps|, i requires 0 <= i < |ps| => Point(ps[i].x + dx, ps[i].y + dy))
  }

  lemma ShiftedDistinct(ps: seq<Point>, dx: int, dy: int)
    requires Distinct(ps)
    ensures Distinct(Shifted(ps, dx, dy))
  {
  }

  /** The newer rotation counter step: add 90 * direction, then 360 wraps to
      0 and -90 wraps to 270. From {0, 90, 180, 270} it stays there and
      moves a quarter turn modulo 360. */
  function Turn(rotation: int, direction: int): (r: int)
    ensures IsRotation(rotation) && (direction == 1 || direction == -1) ==>
      IsRotation(r) && (r - rotation - 90 * direction) % 360 == 0
  {
    var r := rotation + 90 * direction;
    if r == 360 then 0 else if r == -90 then 270 else r
  }

  /** The older rotation counter step: only 360 wraps to 0. Its only caller
      passes direction 1, and then the counter stays in {0, 90, 180, 270}. */
  function LegacyTurn(rotation: int, direction: int): (r: int)
    ensures IsRotation(rotation) && direction == 1 ==> IsRotation(r) && r == (rotation + 90) % 360
  {
    var r := rotation + 90 * direction;
    if r == 360 then 0 else r
  }

  /** Four quarter turns either way give back the counter, and a turn back
      undoes a turn. */
  lemma TurnCycles(rotation: int)
    requires IsRotation(rotation)
    ensures Turn(Turn(Turn(Turn(rotation, 1), 1), 1), 1) == rotation
    ensures Turn(Turn(Turn(Turn(rotation, -1), -1), -1), -1) == rotation
    ensures Turn(Turn(rotation, 1), -1) == rotation && Turn(Turn(rotation, -1), 1) == rotation
  {
  }

  /** The older step leaves the four values if it is ever given direction -1. */
  lemma LegacyTurnNeedsForward()
    ensures !IsRotation(LegacyTurn(0, -1))
  {
  }

  /** `calcRotate`'s table: where the four cells of `kind` lie at
      `rotation`, as offsets from the pivot, the pivot first. */
  function Offsets(kind: Kind, rotation: int): (offsets: seq<Point>)
    requires IsRotation(rotation)
    ensures |offsets| == 4 && offsets[0] == Point(0, 0) && Distinct(offsets)
    ensures forall i :: 0 <= i < 4 ==> -1 <= offsets[i].x <= 2 && -1 <= offsets[i].y <= 2
  {
    match kind
    case T =>
      if rotation == 0 then [Point(0, 0), Point(-1, 0), Point(1, 0), Point(0, 1)]
      else if rotation == 90 then [Point(0, 0), Point(0, -1), Point(-1, 0), Point(0, 1)]
      else if rotation == 180 then [Point(0, 0), Point(-1, 0), Point(0, -1), Point(1, 0)]
      else [Point(0, 0), Point(0, -1), Point(1, 0), Point(0, 1)]
    case O =>
      [Point(0, 0), Point(0, 1), Point(1, 0), Point(1, 1)]
    case S =>
      if rotation % 180 == 0 then [Point(0, 0), Point(1, 0), Point(0, 1), Point(-1, 1)]
      else [Point(0, 0), Point(0, -1), Point(1, 0), Point(1, 1)]
    case Z =>
      if rotation % 180 == 0 then [Point(0, 0), Point(-1, 0), Point(0, 1), Point(1, 1)]
      else [Point(0, 0), Point(0, -1), Point(-1, 0), Point(-1, 1)]
    case L =>
      if rotation == 0 then [Point(0, 0), Point(-1, 0), Point(-1, 1), Point(1, 0)]
      else if rotation == 90 then [Point(0, 0), Point(0, -1), Point(-1, -1), Point(0, 1)]
      else if rotation == 180 then [Point(0, 0), Point(-1, 0), Point(1, 0), Point(1, -1)]
      else [Point(0, 0), Point(0, -1), Point(0, 1), Point(1, 1)]
    case J =>
      if rotation == 0 then [Point(0, 0), Point(-1, 0), Point(1, 0), Point(1, 1)]
      else if rotation == 90 then [Point(0, 0), Point(0, -1), Point(0, 1), Point(-1, 1)]
      else if rotation == 180 then [Point(0, 0), Point(-1, -1), Point(-1, 0), Point(1, 0)]
      else [Point(0, 0), Point(0, -1), Point(1, -1), Point(0, 1)]
    case I =>
      if rotation % 180 == 0 then [Point(0, 0), Point(-1, 0), Point(1, 0), Point(2, 0)]
      else [Point(0, 0), Point(0, -1), Point(0, 1), Point(0, 2)]
  }

  /** The four cells of `kind` around `center` at `rotation`, the pivot
      first. */
  function Shape(kind: Kind, center: Point, rotation: int): (cells: seq<Point>)
    requires IsRotation(rotation)
    ensures |cells| == 4 && cells[0] == center
    ensures Distinct(cells)
    ensures forall i :: 0 <= i < 4 ==>
      center.x - 1 <= cells[i].x <= center.x + 2 && center.y - 1 <= cells[i].y <= center.y + 2
  {
    ShiftedDistinct(Offsets(kind, rotation), center.x, center.y);
    Shifted(Offsets(kind, rotation), center.x, center.y)
  }

  /** O ignores the rotation; S, Z and I depend only on `rotation % 180`;
      T, L and J have a different geometry for each of the four values. */
  lemma ShapeSymmetry(kind: Kind, center: Point, r1: int, r2: int)
    requires IsRotation(r1) && IsRotation(r2)
    ensures kind == O ==> Shape(kind, center, r1) == Shape(kind, center, r2)
    ensures kind in {S, Z, I} ==>
      (Shape(kind, center, r1) == Shape(kind, center, r2) <==> r1 % 180 == r2 % 180)
    ensures kind in {T, L, J} ==>
      (Shape(kind, center, r1) == Shape(kind, center, r2) <==> r1 == r2)
  {
    var a, b := Shape(kind, center, r1), Shape(kind, center, r2);
    if kind != O && a == b {
      assert a[1] == b[1] && a[2] == b[2] && a[3] == b[3];
    }
  }

  /** Moving the pivot moves the whole shape. */
  lemma ShapeTranslates(kind: Kind, center: Point, rotation: int, dx: int, dy: int)
    requires IsRotation(rotation)
    ensures Shape(kind, Point(center.x + dx, center.y + dy), rotation) == Shifted(Shape(kind, center, rotation), dx, dy)
  {
  }

  /** Every cell's column lies between the side walls. */
  predicate BetweenWalls(ps: seq<Point>, columns: int)
  {
    forall i :: 0 <= i < |ps| ==> 0 <= ps[i].x < columns
  }

  /** One step of the `reduce` in the newer `rotate`: a cell left of the
      grid beyond the accumulator, or right of it by more than the
      accumulator, replaces the accumulator. A cell between the walls
      leaves it alone, and a nonzero accumulator never returns to 0. */
  function Overrun(accumulator: int, p: Point, columns: int): (r: int)
    ensures 0 <= p.x < columns ==> r == accumulator
    ensures r == 0 <==> accumulator == 0 && 0 <= p.x < columns
  {
    var maxWidth := columns - 1;
    if p.x < 0 && p.x < accumulator then p.x
    else if p.x > maxWidth && p.x - maxWidth > accumulator then p.x - maxWidth
    else accumulator
  }

  /** The `reduce` from a given accumulator: it ends at 0 exactly when it
      starts at 0 and every cell lies between the walls. */
  function OffsetFrom(ps: seq<Point>, accumulator: int, columns: int): (r: int)
    ensures BetweenWalls(ps, columns) ==> r == accumulator
    ensures r == 0 <==> accumulator == 0 && BetweenWalls(ps, columns)
    decreases |ps|
  {
    if ps == [] then accumulator
    else
      assert BetweenWalls(ps, columns) <==> 0 <= ps[0].x < columns && BetweenWalls(ps[1..], columns) by {
        assert forall i :: 1 <= i < |ps| ==> ps[i] == ps[1..][i - 1];
      }
      OffsetFrom(ps[1..], Overrun(accumulator, ps[0], columns), columns)
  }

  /** The edge offset: the reduce started at 0. It is 0 exactly when no
      cell is past a wall. */
  function EdgeOffset(ps: seq<Point>, columns: int): (r: int)
    ensures r == 0 <==> BetweenWalls(ps, columns)
  {
    OffsetFrom(ps, 0, columns)
  }

  /** The candidate cells after the edge correction: every cell moves
      sideways by the same amount, and the cells move at all exactly when
      some cell is past a wall. */
  function Corrected(ps: seq<Point>, columns: int): (r: seq<Point>)
    ensures |r| == |ps|
    ensures forall i :: 0 <= i < |ps| ==> r[i] == Point(ps[i].x - EdgeOffset(ps, columns), ps[i].y)
    ensures r == ps <==> BetweenWalls(ps, columns)
    ensures Distinct(ps) ==> Distinct(r)
  {
    var offset := EdgeOffset(ps, columns);
    if offset != 0 then
      assert |ps| > 0;
      Shifted(ps, -offset, 0)
    else ps
  }

  /** With nothing right of the grid, the reduce yields the most negative x
      (or the accumulator, when no x is below it). */
  lemma {:induction false} OffsetLeft(ps: seq<Point>, accumulator: int, columns: int)
    requires accumulator <= 0
    requires forall i :: 0 <= i < |ps| ==> ps[i].x <= columns - 1
    ensures OffsetFrom(ps, accumulator, columns) <= accumulator
    ensures forall i :: 0 <= i < |ps| ==> OffsetFrom(ps, accumulator, columns) <= ps[i].x
    ensures OffsetFrom(ps, accumulator, columns) == accumulator ||
      exists i :: 0 <= i < |ps| && OffsetFrom(ps, accumulator, columns) == ps[i].x
    decreases |ps|
  {
    if ps != [] {
      var next := Overrun(accumulator, ps[0], columns);
      OffsetLeft(ps[1..], next, columns);
      var r := OffsetFrom(ps, accumulator, columns);
      assert r == OffsetFrom(ps[1..], next, columns);
      forall i | 1 <= i < |ps|
        ensures r <= ps[i].x
      {
        assert ps[i] == ps[1..][i - 1];
      }
      if r != next {
        var k :| 0 <= k < |ps[1..]| && r == ps[1..][k].x;
        assert r == ps[k + 1].x;
      }
    }
  }

  /** With nothing left of the grid, the reduce yields the largest overrun
      past `columns - 1` (or the accumulator, when none exceeds it). */
  lemma {:induction false} OffsetRight(ps: seq<Point>, accumulator: int, columns: int)
    requires accumulator >= 0
    requires forall i :: 0 <= i < |ps| ==> ps[i].x >= 0
    ensures OffsetFrom(ps, accumulator, columns) >= accumulator
    ensures forall i :: 0 <= i < |ps| ==> ps[i].x - (columns - 1) <= OffsetFrom(ps, accumulator, columns)
    ensures OffsetFrom(ps, accumulator, columns) == accumulator ||
      exists i :: 0 <= i < |ps| && OffsetFrom(ps, accumulator, columns) == ps[i].x - (columns - 1)
    decreases |ps|
  {
    if ps != [] {
      var next := Overrun(accumulator, ps[0], columns);
      OffsetRight(ps[1..], next, columns);
      var r := OffsetFrom(ps, accumulator, columns);
      assert r == OffsetFrom(ps[1..], next, columns);
      forall i | 1 <= i < |ps|
        ensures ps[i].x - (columns - 1) <= r
      {
        assert ps[i] == ps[1..][i - 1];
      }
      if r != next {
        var k :| 0 <= k < |ps[1..]| && r == ps[1..][k].x - (columns - 1);
        assert r == ps[k + 1].x - (columns - 1);
      }
    }
  }

  /** The wall kick works: when the candidate cells span at most four
      columns and the grid has at least four, every corrected x lies in
      [0, columns); y is never changed, and cells already inside are not
      moved. */
  lemma CorrectionFits(ps: seq<Point>, columns: int)
    requires columns >= 4
    requires forall i, j :: 0 <= i < |ps| && 0 <= j < |ps| ==> ps[i].x - ps[j].x <= 3
    ensures |Corrected(ps, columns)| == |ps|
    ensures forall i :: 0 <= i < |ps| ==>
      0 <= Corrected(ps, columns)[i].x < columns && Corrected(ps, columns)[i].y == ps[i].y
    ensures (forall i :: 0 <= i < |ps| ==> 0 <= ps[i].x < columns) ==> Corrected(ps, columns) == ps
  {
    var offset := EdgeOffset(ps, columns);
    if exists i :: 0 <= i < |ps| && ps[i].x < 0 {
      var k :| 0 <= k < |ps| && ps[k].x < 0;
      assert forall i :: 0 <= i < |ps| ==> ps[i].x <= ps[k].x + 3;
      OffsetLeft(ps, 0, columns);
      assert offset < 0 by {
        assert offset <= ps[k].x;
      }
    } else {
      OffsetRight(ps, 0, columns);
      if offset != 0 {
        var k :| 0 <= k < |ps| && offset == ps[k].x - (columns - 1);
        assert forall i :: 0 <= i < |ps| ==> ps[i].x >= ps[k].x - 3;
      }
    }
  }
}
