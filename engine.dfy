/** What both `Game` variants do to a working copy of the grid: clear the
    piece's own cells, check the candidate cells, paint them; the spawn
    check-and-write; the random draws; and the invariant that the coloured
    cells of the grid are exactly the falling piece. */
module Engine {
  import opened GridStore
  import opened Geometry

  datatype Option<T> = None | Some(value: T)

  /** A value of `Math.random()`. */
  type Random = r: real | 0.0 <= r < 1.0

  /** The two `Math.random()` values that choose a piece: shape, then colour. */
  datatype Roll = Roll(shape: Random, color: Random)

  /** A queue entry `{type, color}`. */
  datatype Entry = Entry(kind: Kind, color: Color)

  /** The falling piece `movingPiece`: its cells (the pivot first), its shape,
      its rotation counter and its colour. */
  datatype Piece = Piece(position: seq<Point>, kind: Kind, rotation: int, color: Color)

  /** `shapes[Math.floor(r * 7)]` and `Math.floor(r * 6) + 1`: each of the
      seven shapes and each of the six colours owns an interval of equal
      width of the random value. */
  function Draw(roll: Roll): (e: Entry)
    ensures exists k :: 0 <= k < 7 && k as real <= roll.shape * 7.0 < (k + 1) as real && e.kind == Shapes[k]
    ensures (e.color - 1) as real <= roll.color * 6.0 < e.color as real
  {
    var k := (roll.shape * 7.0).Floor;
    assert k as real <= roll.shape * 7.0 < (k + 1) as real;
    Entry(Shapes[k], (roll.color * 6.0).Floor + 1)
  }

  /** `Math.random() > 0.5 ? DROPPED : EMPTY`, the garbage fill of one cell. */
  function Coin(r: Random): (c: Cell)
    ensures c == Dropped <==> r > 0.5
    ensures c == Empty <==> r <= 0.5
  {
    if r > 0.5 then Dropped else Empty
  }

  predicate Within(cells: Cells, ps: seq<Point>)
  {
    forall i :: 0 <= i < |ps| ==> InBounds(cells, ps[i])
  }

  /** Every candidate cell reads EMPTY; a cell off the grid reads undefined
      and so is never vacant. */
  predicate Vacant(cells: Cells, ps: seq<Point>)
  {
    forall i :: 0 <= i < |ps| ==> Get(cells, ps[i]) == Empty
  }

  /** The grid and the piece after move, rotate or fall tried the candidate
      cells `to`: if they are all EMPTY once the piece's own cells are
      cleared, the piece's colour is written there, the cells it left become
      EMPTY, no other cell changes and the piece takes the new cells;
      otherwise grid and piece are as they were. */
  function Relocate(cells: Cells, p: Piece, to: seq<Point>): (r: (Cells, Piece))
    requires Within(cells, p.position)
    ensures SameShape(r.0, cells)
    ensures Vacant(Paint(cells, p.position, Empty), to) ==>
      r.1 == p.(position := to) &&
      forall q :: Get(r.0, q) ==
        if q in to then Colored(p.color) else if q in p.position then Empty else Get(cells, q)
    ensures !Vacant(Paint(cells, p.position, Empty), to) ==> r == (cells, p)
  {
    var cleared := Paint(cells, p.position, Empty);
    if Vacant(cleared, to) then (Paint(cleared, to, Colored(p.color)), p.(position := to))
    else (cells, p)
  }

  /** The central invariant while a piece falls: it has four distinct cells,
      all holding its colour, and no other cell holds a colour. */
  ghost predicate ColorsAreActivePiece(cells: Cells, p: Piece)
  {
    |p.position| == 4 && Distinct(p.position) &&
    (forall i :: 0 <= i < 4 ==> Get(cells, p.position[i]) == Colored(p.color)) &&
    (forall q :: Get(cells, q).Colored? ==> q in p.position)
  }

  /** No cell holds a colour (between a lock and the next spawn). */
  ghost predicate NoColors(cells: Cells)
  {
    forall q :: !Get(cells, q).Colored?
  }

  /** Writing a value that is not undefined keeps every slot written. */
  lemma PaintKeepsDefined(cells: Cells, ps: seq<Point>, v: Cell)
    requires Within(cells, ps) && Defined(cells) && v != Undefined
    ensures Defined(Paint(cells, ps, v))
  {
  }

  /** The grid with the piece taken out: what it lies on. */
  function Background(cells: Cells, p: Piece): Cells
    requires Within(cells, p.position)
  {
    Paint(cells, p.position, Empty)
  }

  lemma ActiveWithin(cells: Cells, p: Piece)
    requires ColorsAreActivePiece(cells, p)
    ensures Within(cells, p.position)
  {
    forall i | 0 <= i < |p.position|
      ensures InBounds(cells, p.position[i])
    {
      assert Get(cells, p.position[i]) == Colored(p.color);
    }
  }

  /** Move, rotate and fall keep the invariant, whether they commit or not,
      and never change what the piece lies on. */
  lemma RelocateKeepsColors(cells: Cells, p: Piece, to: seq<Point>)
    requires ColorsAreActivePiece(cells, p)
    requires |to| == 4 && Distinct(to)
    ensures Within(cells, p.position)
    ensures ColorsAreActivePiece(Relocate(cells, p, to).0, Relocate(cells, p, to).1)
    ensures Within(Relocate(cells, p, to).0, Relocate(cells, p, to).1.position)
    ensures Defined(cells) ==> Defined(Relocate(cells, p, to).0)
    ensures Relocate(cells, p, to).1 == p || Relocate(cells, p, to).1 == p.(position := to)
    ensures Background(Relocate(cells, p, to).0, Relocate(cells, p, to).1) == Background(cells, p)
  {
    ActiveWithin(cells, p);
    var r := Relocate(cells, p, to);
    ActiveWithin(r.0, r.1);
    var a, b := Background(r.0, r.1), Background(cells, p);
    forall q
      ensures Get(a, q) == Get(b, q)
    {
      if Vacant(Paint(cells, p.position, Empty), to) && q in to {
        var i :| 0 <= i < |to| && to[i] == q;
        assert Get(Paint(cells, p.position, Empty), to[i]) == Empty;
      }
    }
    SameCells(a, b);
  }

  /** A candidate cell off the grid (past a side wall or the floor) rejects
      the move: grid and piece stay as they were. */
  lemma OffGridRejected(cells: Cells, p: Piece, to: seq<Point>, i: int)
    requires Within(cells, p.position) && 0 <= i < |to| && !InBounds(cells, to[i])
    ensures !Vacant(Background(cells, p), to)
    ensures Relocate(cells, p, to) == (cells, p)
  {
    assert Get(Background(cells, p), to[i]) == Undefined;
  }

  /** A relocation that succeeded can be undone: relocating the piece back
      to its old cells gives back the grid and the piece. */
  lemma RelocateUndo(cells: Cells, p: Piece, to: seq<Point>)
    requires ColorsAreActivePiece(cells, p)
    requires |to| == 4 && Distinct(to) && Vacant(Background(cells, p), to)
    ensures Within(cells, p.position)
    ensures Within(Relocate(cells, p, to).0, Relocate(cells, p, to).1.position)
    ensures Relocate(Relocate(cells, p, to).0, Relocate(cells, p, to).1, p.position) == (cells, p)
  {
    RelocateKeepsColors(cells, p, to);
    var back := Background(cells, p);
    forall i | 0 <= i < |p.position|
      ensures Get(back, p.position[i]) == Empty
    {
    }
    var restored := Paint(back, p.position, Colored(p.color));
    forall q
      ensures Get(restored, q) == Get(cells, q)
    {
      if q in p.position {
        var i :| 0 <= i < |p.position| && p.position[i] == q;
      }
    }
    SameCells(restored, cells);
  }

  /** Painting the piece's cells with DROPPED on the working copy after
      clearing them is the same as painting them DROPPED at once. */
  lemma RepaintLocked(cells: Cells, p: Piece)
    requires Within(cells, p.position)
    ensures Paint(Paint(cells, p.position, Empty), p.position, Dropped) == Paint(cells, p.position, Dropped)
  {
    var a, b := Paint(Paint(cells, p.position, Empty), p.position, Dropped), Paint(cells, p.position, Dropped);
    SameCells(a, b);
  }

  /** Locking turns the piece's cells into DROPPED, which leaves no colour on
      the grid. */
  lemma LockLeavesNoColors(cells: Cells, p: Piece)
    requires ColorsAreActivePiece(cells, p)
    ensures Within(cells, p.position)
    ensures NoColors(Paint(cells, p.position, Dropped))
  {
    ActiveWithin(cells, p);
  }

  /** The common body of move, rotate and fall on the working copy: the
      piece's cells are cleared, the candidate cells checked, and, if they
      are all EMPTY, painted with the piece's colour. */
  method TryRelocate(cells: Cells, p: Piece, to: seq<Point>) returns (next: Cells, ok: bool)
    requires Within(cells, p.position)
    ensures ok == Vacant(Background(cells, p), to)
    ensures ok ==> (next, p.(position := to)) == Relocate(cells, p, to)
  {
    next := PaintCells(cells, p.position, Empty);
    ok := CheckVacant(next, to);
    if ok {
      next := PaintCells(next, to, Colored(p.color));
    }
  }

  /** The `forEach` that writes `v` into the working copy, cell by cell. */
  method PaintCells(cells: Cells, ps: seq<Point>, v: Cell) returns (r: Cells)
    requires Within(cells, ps)
    ensures r == Paint(cells, ps, v)
  {
    r := cells;
    for i := 0 to |ps|
      invariant SameShape(r, cells)
      invariant r == Paint(cells, ps[..i], v)
    {
      assert ps[..i + 1][..i] == ps[..i];
      r := Set(r, ps[i], v);
    }
    assert ps[..|ps|] == ps;
  }

  /** The validity loop: stops at the first candidate that is off the grid or
      not EMPTY. */
  method CheckVacant(cells: Cells, ps: seq<Point>) returns (ok: bool)
    ensures ok == Vacant(cells, ps)
  {
    for i := 0 to |ps|
      invariant Vacant(cells, ps[..i])
    {
      if !InBounds(cells, ps[i]) || cells[ps[i].x][ps[i].y] != Empty {
        assert Get(cells, ps[i]) != Empty;
        return false;
      }
      assert ps[..i + 1] == ps[..i] + [ps[i]];
    }
    assert ps[..|ps|] == ps;
    return true;
  }

  /** The spawn loop of `createPiece`: each cell is checked and then written
      with the colour, unconditionally. `cantPlace` is set iff some cell was
      not EMPTY beforehand. */
  method Place(cells: Cells, ps: seq<Point>, color: Color) returns (r: Cells, cantPlace: bool)
    requires Within(cells, ps) && Distinct(ps)
    ensures r == Paint(cells, ps, Colored(color))
    ensures cantPlace == !Vacant(cells, ps)
  {
    r, cantPlace := cells, false;
    for i := 0 to |ps|
      invariant SameShape(r, cells)
      invariant r == Paint(cells, ps[..i], Colored(color))
      invariant cantPlace <==> exists j :: 0 <= j < i && Get(cells, ps[j]) != Empty
    {
      assert ps[i] !in ps[..i];
      assert Get(r, ps[i]) == Get(cells, ps[i]);
      if r[ps[i].x][ps[i].y] != Empty {
        cantPlace := true;
      }
      assert ps[..i + 1][..i] == ps[..i];
      r := Set(r, ps[i], Colored(color));
    }
    assert ps[..|ps|] == ps;
  }

  /** Where a piece appears: the middle column (the left one of the two
      middle columns when the count is even), top row. */
  function SpawnPoint(columns: nat): (p: Point)
    ensures p.y == 0 && 0 <= 2 * p.x <= columns < 2 * p.x + 2
  {
    Point(columns / 2, 0)
  }

  /** The cells of a new piece: the shape at rotation 0, the value the
      counter reaches from 270 in one step. */
  function SpawnCells(kind: Kind, columns: nat): (ps: seq<Point>)
    ensures ps == Shape(kind, SpawnPoint(columns), 0)
    ensures |ps| == 4 && Distinct(ps) && ps[0] == SpawnPoint(columns)
  {
    Shape(kind, SpawnPoint(columns), Turn(270, 1))
  }

  /** Every spawn cell is on a grid of at least 5 columns and 2 rows. */
  lemma SpawnFits(kind: Kind, cells: Cells, columns: nat, rows: nat)
    requires columns >= 5 && rows >= 2 && Shaped(cells, columns, rows)
    ensures Within(cells, SpawnCells(kind, columns))
    ensures forall i :: 0 <= i < 4 ==> 0 <= SpawnCells(kind, columns)[i].y <= 1
  {
    var ps := SpawnCells(kind, columns);
    forall i | 0 <= i < 4
      ensures 0 <= ps[i].y <= 1
    {
      match kind
      case O =>
      case S =>
      case Z =>
      case T =>
      case L =>
      case J =>
      case I =>
    }
  }

  /** A grid with no cell occupied never blocks a spawn, for any shape. */
  lemma SpawnOnEmptyGrid(kind: Kind, cells: Cells, columns: nat, rows: nat)
    requires columns >= 5 && rows >= 2 && Shaped(cells, columns, rows)
    requires forall p :: InBounds(cells, p) ==> Get(cells, p) == Empty
    ensures Vacant(cells, SpawnCells(kind, columns))
  {
    SpawnFits(kind, cells, columns, rows);
  }

  /** A spawn onto a grid without colours, when it succeeds, starts the
      invariant: the only coloured cells are the new piece's. */
  lemma SpawnStartsColors(cells: Cells, e: Entry, columns: nat)
    requires Within(cells, SpawnCells(e.kind, columns))
    requires NoColors(cells) && Vacant(cells, SpawnCells(e.kind, columns))
    ensures ColorsAreActivePiece(Paint(cells, SpawnCells(e.kind, columns), Colored(e.color)),
                                 Piece(SpawnCells(e.kind, columns), e.kind, 0, e.color))
    ensures Background(Paint(cells, SpawnCells(e.kind, columns), Colored(e.color)),
                       Piece(SpawnCells(e.kind, columns), e.kind, 0, e.color)) == cells
  {
    var ps := SpawnCells(e.kind, columns);
    var painted := Paint(cells, ps, Colored(e.color));
    var back := Paint(painted, ps, Empty);
    forall q
      ensures Get(back, q) == Get(cells, q)
    {
      if q in ps {
        var i :| 0 <= i < |ps| && ps[i] == q;
      }
    }
    SameCells(back, cells);
  }
}
