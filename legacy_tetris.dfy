/** The older `Game` (tetris.js): the same 20 x 10 grid and piece table,
    but no garbage, no queue (each piece is drawn when it spawns), no wall
    kick, a score without a lines counter, and an update loop that moves
    the piece down itself. */
module LegacyTetris {
  import opened GridStore
  import opened Geometry
  import opened Engine
  import opened LineClear
  import opened Play

  /** Milliseconds between falls; the soft-drop key switches to FastSpeed. */
  const DefaultSpeed := 500
  const FastSpeed := 75

  class Game {
    /** The inherited cell store. */
    const grid: Grid
    /** `movingPiece`; `None` stands for `false`, after a blocked spawn. */
    var movingPiece: Option<Piece>
    var score: nat
    var previousTime: int
    var updateSpeedInMs: int
    /** The update interval is installed (cleared by game over). */
    var running: bool

    /** The game state invariant: a 20 x 10 grid with every slot written,
        the update loop running exactly while there is a piece, and that
        piece `Falling`. */
    ghost predicate Valid()
      reads this, grid
    {
      grid.Valid() && grid.rows == Rows && grid.columns == Columns &&
      (running <==> movingPiece.Some?) &&
      Playable(grid.displayState, movingPiece)
    }

    /** A new game: the grid is filled with EMPTY and a piece drawn from
        `roll` is spawned, which always succeeds on the empty grid; the
        score starts at 0 and the update loop starts at `now`. */
    constructor (roll: Roll, now: int)
      ensures Valid() && fresh(grid)
      ensures Spawned(grid.displayState, movingPiece) == Spawn(EmptyGrid(), Draw(roll)) && movingPiece.Some?
      ensures score == 0 && running
      ensures previousTime == now && updateSpeedInMs == DefaultSpeed
    {
      var g := new Grid(Rows, Columns);
      var cells, piece := Opening(g, roll);
      var _ := g.Render(cells);
      grid := g;
      movingPiece := piece;
      score := 0;
      running := true;
      previousTime := now;
      updateSpeedInMs := DefaultSpeed;
      new;
    }

    /** The constructor's work on the state copy of a new grid: `fill`
        with EMPTY, then the first spawn. */
    static method Opening(g: Grid, roll: Roll) returns (cells: Cells, piece: Option<Piece>)
      requires g.Valid() && g.rows == Rows && g.columns == Columns
      ensures Spawned(cells, piece) == Spawn(EmptyGrid(), Draw(roll)) && piece.Some?
      ensures Playable(cells, piece)
    {
      cells := g.DisplayStateCopy();
      cells := g.Fill(cells, Empty);
      assert cells == EmptyGrid() by {
        assert forall x :: 0 <= x < Columns ==> cells[x] == EmptyGrid()[x];
      }
      FirstSpawnIsFalling(Draw(roll));
      cells, piece := CreatePiece(cells, roll);
    }

    /** `createPiece`: shape and colour are drawn from `roll`; the shape is
        laid out at the spawn point with the counter stepped from 270 to 0;
        its colour is written into all four cells of `cells` whatever they
        held, and the piece is returned only if all four were EMPTY before. */
    static method CreatePiece(cells: Cells, roll: Roll) returns (next: Cells, piece: Option<Piece>)
      requires Shaped(cells, Columns, Rows)
      ensures Spawned(next, piece) == Spawn(cells, Draw(roll))
    {
      var center := SpawnPoint(Columns);
      var e := Draw(roll);
      var shapePoints := Shape(e.kind, center, LegacyTurn(270, 1));
      assert shapePoints == SpawnCells(e.kind, Columns);
      SpawnFits(e.kind, cells, Columns, Rows);
      var cantPlace;
      next, cantPlace := Place(cells, shapePoints, e.color);
      if cantPlace {
        piece := None;
      } else {
        piece := Some(Piece(shapePoints, e.kind, 0, e.color));
      }
    }

    /** `calcRotate`: the counter advances a quarter turn (only 360 wraps)
        and the table gives the cells of the shape at the new counter
        around the pivot. Its callers only ever turn forward. */
    method CalcRotate(direction: int) returns (positions: seq<Point>)
      requires Valid() && movingPiece.Some? && direction == 1
      modifies this`movingPiece
      ensures Valid()
      ensures var p := old(movingPiece).value;
        movingPiece == Some(p.(rotation := LegacyTurn(p.rotation, direction))) &&
        positions == Shape(p.kind, p.position[0], LegacyTurn(p.rotation, direction))
    {
      var p := movingPiece.value;
      TurnKeepsFalling(grid.displayState, p, LegacyTurn(p.rotation, direction));
      movingPiece := Some(p.(rotation := LegacyTurn(p.rotation, direction)));
      positions := Shape(p.kind, p.position[0], movingPiece.value.rotation);
    }

    /** `rotate`: the counter advances, then the piece relocates to the
        table's cells if they are on the grid and EMPTY once its own cells
        are cleared. There is no wall kick, and a rejected rotation keeps
        grid and position but not the old counter. Without a piece (after
        game over) nothing happens. */
    method Rotate(direction: int)
      requires Valid() && direction == 1
      modifies this`movingPiece, grid
      ensures Valid()
      ensures old(movingPiece).None? ==>
        movingPiece == old(movingPiece) && grid.displayState == old(grid.displayState)
      ensures old(movingPiece).Some? ==>
        var p := old(movingPiece).value;
        var turned := p.(rotation := LegacyTurn(p.rotation, direction));
        var to := Shape(p.kind, p.position[0], turned.rotation);
        movingPiece == Some(Relocate(old(grid.displayState), turned, to).1) &&
        grid.displayState == Relocate(old(grid.displayState), turned, to).0
    {
      if movingPiece.None? {
        return;
      }
      var positions := CalcRotate(direction);
      var _ := TryPosition(positions);
    }

    /** `move`: every x shifts by `direction`, y is kept; the piece
        relocates there if no new cell leaves the grid or lands on a cell
        other than its own that is not EMPTY, and otherwise nothing changes.
        Without a piece (after game over) nothing happens. */
    method Move(direction: int)
      requires Valid()
      modifies this`movingPiece, grid
      ensures Valid()
      ensures old(movingPiece).None? ==>
        movingPiece == old(movingPiece) && grid.displayState == old(grid.displayState)
      ensures old(movingPiece).Some? ==>
        var p := old(movingPiece).value;
        var to := Shifted(p.position, direction, 0);
        movingPiece == Some(Relocate(old(grid.displayState), p, to).1) &&
        grid.displayState == Relocate(old(grid.displayState), p, to).0
    {
      if movingPiece.None? {
        return;
      }
      var p := movingPiece.value;
      ShiftedDistinct(p.position, direction, 0);
      var _ := TryPosition(Shifted(p.position, direction, 0));
    }

    /** What move and rotate share: on a copy of the state the piece's
        cells are cleared and the cells `to` checked; if they are all EMPTY
        they take the piece's colour, the piece takes them and the copy is
        rendered; otherwise the copy is dropped. */
    method TryPosition(to: seq<Point>) returns (ok: bool)
      requires Valid() && movingPiece.Some? && |to| == 4 && Distinct(to)
      modifies this`movingPiece, grid
      ensures Valid()
      ensures var p := old(movingPiece).value;
        ok == Vacant(Background(old(grid.displayState), p), to) &&
        movingPiece == Some(Relocate(old(grid.displayState), p, to).1) &&
        grid.displayState == Relocate(old(grid.displayState), p, to).0
    {
      var cells := grid.DisplayStateCopy();
      var p := movingPiece.value;
      RelocateKeepsFalling(cells, p, to);
      cells, ok := TryRelocate(cells, p, to);
      if !ok {
        return;
      }
      movingPiece := Some(p.(position := to));
      var _ := grid.Render(cells);
    }

    /** The soft-drop key is pressed. */
    method SpeedUp()
      modifies this`updateSpeedInMs
      ensures updateSpeedInMs == FastSpeed
    {
      updateSpeedInMs := FastSpeed;
    }

    /** The soft-drop key is released. */
    method SlowDown()
      modifies this`updateSpeedInMs
      ensures updateSpeedInMs == DefaultSpeed
    {
      updateSpeedInMs := DefaultSpeed;
    }

    /** `gameOver`: the update interval is cleared. */
    method GameOver()
      modifies this`running
      ensures !running
    {
      running := false;
    }

    /** One tick of the update interval at time `now`. Before
        `updateSpeedInMs` have passed since the last step nothing changes.
        Otherwise the step time is taken, and the piece moves one row down
        if those cells are on the grid and EMPTY once its own cells are
        cleared. If not, it is locked: its cells become DROPPED, full rows
        are cleared and scored, and a piece drawn from `roll` spawns; a
        blocked spawn ends the game. */
    method Update(now: int, roll: Roll)
      requires Valid() && running
      modifies this`previousTime, this`movingPiece, this`score, this`running, grid
      ensures Valid()
      ensures now - old(previousTime) < old(updateSpeedInMs) ==>
        previousTime == old(previousTime) && movingPiece == old(movingPiece) &&
        grid.displayState == old(grid.displayState) && score == old(score) && running
      ensures now - old(previousTime) >= old(updateSpeedInMs) ==>
        previousTime == now &&
        var cells, p := old(grid.displayState), old(movingPiece).value;
        var to := Shifted(p.position, 0, 1);
        if Vacant(Background(cells, p), to) then
          movingPiece == Some(Relocate(cells, p, to).1) && grid.displayState == Relocate(cells, p, to).0 &&
          score == old(score) && running
        else
          var r := Lock(cells, p, Draw(roll));
          grid.displayState == r.cells && movingPiece == r.piece &&
          score == old(score) + Points(r.count) && running == r.piece.Some?
    {
      if now - previousTime < updateSpeedInMs {
        return;
      }
      previousTime := now;
      var ok := Descend();
      if ok {
        return;
      }
      LockPiece(roll);
    }

    /** The first half of `update`'s step: on a copy of the state the
        piece's cells are cleared and the cells one row down checked; if
        they are all EMPTY the piece moves there and the copy is rendered. */
    method Descend() returns (ok: bool)
      requires Valid() && movingPiece.Some?
      modifies this`movingPiece, grid
      ensures Valid() && movingPiece.Some?
      ensures var p := old(movingPiece).value;
        var to := Shifted(p.position, 0, 1);
        ok == Vacant(Background(old(grid.displayState), p), to) &&
        movingPiece == Some(Relocate(old(grid.displayState), p, to).1) &&
        grid.displayState == Relocate(old(grid.displayState), p, to).0
    {
      var p := movingPiece.value;
      ShiftedDistinct(p.position, 0, 1);
      ok := TryPosition(Shifted(p.position, 0, 1));
    }

    /** The lock branch of `update`: on a copy of the state with the
        piece's cells cleared, those cells are painted 0 (DROPPED), full
        rows are cleared, and a new piece is created and committed. */
    method LockPiece(roll: Roll)
      requires Valid() && movingPiece.Some?
      modifies this`movingPiece, this`score, this`running, grid
      ensures Valid()
      ensures var r := Lock(old(grid.displayState), old(movingPiece).value, Draw(roll));
        grid.displayState == r.cells && movingPiece == r.piece &&
        score == old(score) + Points(r.count) && running == r.piece.Some?
    {
      var r := LockStep(grid, movingPiece.value, roll);
      Commit(r);
    }

    /** The state changes of a lock: `clearRows` adds the table value of
        the rows removed to `score`, `createPiece` installs the piece, the
        new cells are rendered, and a blocked spawn calls `gameOver`. */
    method Commit(r: Locked)
      requires grid.Valid() && grid.rows == Rows && grid.columns == Columns && running
      requires Shaped(r.cells, Columns, Rows) && Playable(r.cells, r.piece)
      modifies this`movingPiece, this`score, this`running, grid
      ensures Valid()
      ensures grid.displayState == r.cells && movingPiece == r.piece
      ensures score == old(score) + Points(r.count) && running == r.piece.Some?
    {
      score := score + Points(r.count);
      movingPiece := r.piece;
      var _ := grid.Render(r.cells);
      if r.piece.None? {
        GameOver();
      }
    }

    /** The lock on the working copy: the piece's cells, already cleared,
        are painted DROPPED, the row loop of `clearRows` removes the full
        rows, and `createPiece` spawns a piece drawn from `roll`. */
    static method LockStep(g: Grid, p: Piece, roll: Roll) returns (r: Locked)
      requires g.Valid() && g.rows == Rows && g.columns == Columns
      requires Defined(g.displayState) && Falling(g.displayState, p)
      ensures r == Lock(g.displayState, p, Draw(roll))
      ensures r.count <= 4 && Playable(r.cells, r.piece)
    {
      var cells := g.DisplayStateCopy();
      ghost var expected := Lock(cells, p, Draw(roll));
      assert expected.count <= 4 && Playable(expected.cells, expected.piece) by {
        LockIsPlayable(cells, p, Draw(roll));
      }
      var locked := DropPiece(cells, p);
      var cleared, clearCount := RemoveFullRows(locked, Columns, Rows);
      var next, piece := CreatePiece(cleared, roll);
      r := Locked(next, piece, clearCount);
    }

    /** The piece's cells on the working copy: painted EMPTY when the step
        begins, then 0 (DROPPED) once the piece cannot fall. */
    static method DropPiece(cells: Cells, p: Piece) returns (locked: Cells)
      requires Within(cells, p.position)
      ensures locked == Paint(cells, p.position, Dropped)
    {
      var back := PaintCells(cells, p.position, Empty);
      locked := PaintCells(back, p.position, Dropped);
      RepaintLocked(cells, p);
    }
  }
}
