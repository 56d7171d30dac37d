/** The newer `Game` (scripts/tetris.js): a 20 x 10 grid with optional
    garbage rows, a five-entry queue of upcoming pieces, a wall-kicking
    rotation, a lines counter and a tick-gated update loop. */
module Tetris {
  import opened GridStore
  import opened Geometry
  import opened Engine
  import opened LineClear
  import opened Play

  /** Milliseconds between falls; the soft-drop key switches to FastSpeed. */
  const DefaultSpeed := 500
  const FastSpeed := 50
  /** `fillPieceQueue` keeps at least this many upcoming pieces. */
  const QueueLength := 5

  /** The queue entries drawn from `rolls`, in order. */
  function Drawn(rolls: seq<Roll>): (es: seq<Entry>)
    ensures |es| == |rolls|
    ensures forall i :: 0 <= i < |rolls| ==> es[i] == Draw(rolls[i])
  {
    if rolls == [] then [] else Drawn(rolls[..|rolls| - 1]) + [Draw(rolls[|rolls| - 1])]
  }

  /** One random value per cell, `noise[x][y]`. */
  predicate NoiseShaped(noise: seq<seq<Random>>)
  {
    |noise| == Columns && forall x :: 0 <= x < Columns ==> |noise[x]| == Rows
  }

  /** The constructor's garbage: the cells of the bottom `height` rows,
      except the last column, become DROPPED or EMPTY by a coin flip; every
      other cell is kept. A height beyond the grid covers the whole grid. */
  function Garbage(cells: Cells, height: int, noise: seq<seq<Random>>): (r: Cells)
    requires Shaped(cells, Columns, Rows) && NoiseShaped(noise)
    ensures Shaped(r, Columns, Rows)
    ensures r[Columns - 1] == cells[Columns - 1]
    ensures forall x, y :: 0 <= x < Columns && 0 <= y < Rows && y < Rows - height ==> r[x][y] == cells[x][y]
    ensures height <= 0 ==> r == cells
  {
    var r := seq(Columns, x requires 0 <= x < Columns =>
      seq(Rows, y requires 0 <= y < Rows =>
        if Rows - height <= y && x < Columns - 1 then Coin(noise[x][y]) else cells[x][y]));
    assert height <= 0 ==> r == cells by {
      if height <= 0 {
        forall x | 0 <= x < Columns
          ensures r[x] == cells[x]
        {
        }
      }
    }
    r
  }

  /** Cell by cell: a coin flip in the bottom `height` rows outside the
      last column, the old cell everywhere else. */
  lemma GarbageCells(cells: Cells, height: int, noise: seq<seq<Random>>)
    requires Shaped(cells, Columns, Rows) && NoiseShaped(noise)
    ensures forall p :: InBounds(cells, p) ==>
      Get(Garbage(cells, height, noise), p) ==
        if Rows - height <= p.y && p.x < Columns - 1 then Coin(noise[p.x][p.y]) else Get(cells, p)
  {
  }

  /** The garbage loop: rows from the bottom up while `y > rows - height - 1`,
      columns 0 to `columns - 2`. A row index below 0 names no cell, so
      nothing is written for it. */
  method SeedGarbage(cells: Cells, height: int, noise: seq<seq<Random>>) returns (r: Cells)
    requires Shaped(cells, Columns, Rows) && NoiseShaped(noise)
    ensures r == Garbage(cells, height, noise)
  {
    r := cells;
    if height > 0 {
      var y := Rows - 1;
      while y > Rows - height - 1
        invariant Rows - height - 1 <= y <= Rows - 1
        invariant Shaped(r, Columns, Rows)
        invariant forall x, y' :: 0 <= x < Columns && 0 <= y' < Rows ==>
          r[x][y'] == if y < y' && Rows - height <= y' && x < Columns - 1 then Coin(noise[x][y']) else cells[x][y']
        decreases y - (Rows - height - 1)
      {
        for x := 0 to Columns - 1
          invariant Shaped(r, Columns, Rows)
          invariant forall x', y' :: 0 <= x' < Columns && 0 <= y' < Rows ==>
            r[x'][y'] ==
              if (y < y' || (y' == y && x' < x)) && Rows - height <= y' && x' < Columns - 1
              then Coin(noise[x'][y']) else cells[x'][y']
        {
          if 0 <= y {
            r := r[x := r[x][y := Coin(noise[x][y])]];
          }
        }
        y := y - 1;
      }
    }
    assert forall x :: 0 <= x < Columns ==> r[x] == Garbage(cells, height, noise)[x];
  }

  /** On an EMPTY grid the garbage holds nothing but DROPPED and EMPTY,
      and the last column stays EMPTY, so no row starts full. */
  lemma GarbageIsOpen(cells: Cells, height: int, noise: seq<seq<Random>>)
    requires Shaped(cells, Columns, Rows) && NoiseShaped(noise)
    requires forall p :: InBounds(cells, p) ==> Get(cells, p) == Empty
    ensures forall p :: InBounds(cells, p) ==>
      Get(Garbage(cells, height, noise), p) == Empty || Get(Garbage(cells, height, noise), p) == Dropped
    ensures NoFullRow(Garbage(cells, height, noise), Rows)
  {
    var g := Garbage(cells, height, noise);
    GarbageCells(cells, height, noise);
    forall y | 0 <= y < Rows
      ensures !FullRow(g, y)
    {
      assert Get(g, Point(Columns - 1, y)) == Empty;
    }
  }

  /** Garbage at most `rows - 2` high leaves the top two rows EMPTY, where
      every shape spawns. */
  lemma GarbageLeavesSpawnFree(cells: Cells, height: int, noise: seq<seq<Random>>, k: Kind)
    requires Shaped(cells, Columns, Rows) && NoiseShaped(noise)
    requires forall p :: InBounds(cells, p) ==> Get(cells, p) == Empty
    requires height <= Rows - 2
    ensures Vacant(Garbage(cells, height, noise), SpawnCells(k, Columns))
  {
    GarbageCells(cells, height, noise);
    SpawnFits(k, cells, Columns, Rows);
  }

  /** The grid a new game starts from is ready for a spawn: every slot
      written, no colour, no full row, and, for garbage at most
      `rows - 2` high, room for any shape at the spawn point. */
  lemma StartGridIsOpen(height: int, noise: seq<seq<Random>>, k: Kind)
    requires NoiseShaped(noise)
    ensures var g := Garbage(EmptyGrid(), height, noise);
      Defined(g) && NoColors(g) && NoFullRow(g, Rows) &&
      (height <= Rows - 2 ==> Vacant(g, SpawnCells(k, Columns)))
  {
    var g := Garbage(EmptyGrid(), height, noise);
    GarbageIsOpen(EmptyGrid(), height, noise);
    assert forall q :: InBounds(g, q) ==> InBounds(EmptyGrid(), q);
    if height <= Rows - 2 {
      GarbageLeavesSpawnFree(EmptyGrid(), height, noise, k);
    }
  }

  /** Queueing five entries, taking the first and queueing one more
      leaves the entries of the last five rolls. */
  lemma DrawnShift(rolls: seq<Roll>)
    requires |rolls| == QueueLength + 1
    ensures Drawn(rolls[..QueueLength])[1..] + [Draw(rolls[QueueLength])] == Drawn(rolls[1..])
  {
    assert rolls[..QueueLength][1..] + [rolls[QueueLength]] == rolls[1..];
  }

  /** The position a new game opens with. */
  datatype Start = Start(cells: Cells, queue: seq<Entry>, piece: Option<Piece>)

  /** The opening: the first of five queued entries is painted at the
      spawn point of the start grid, and becomes the piece if its cells
      were EMPTY; the queue then holds the entries of the last five rolls. */
  function NewGame(height: int, noise: seq<seq<Random>>, rolls: seq<Roll>): (s: Start)
    requires NoiseShaped(noise) && |rolls| == QueueLength + 1
    ensures Shaped(s.cells, Columns, Rows) && |s.queue| == QueueLength
  {
    var s := Spawn(Garbage(EmptyGrid(), height, noise), Draw(rolls[0]));
    Start(s.cells, Drawn(rolls[1..]), s.piece)
  }

  /** The opening leaves every slot written and a falling piece whenever
      there is one, and there is one for garbage at most `rows - 2` high.
      The piece is the first roll's shape and colour at the spawn point,
      on the start grid with its four cells coloured. */
  lemma NewGameIsPlayable(height: int, noise: seq<seq<Random>>, rolls: seq<Roll>)
    requires NoiseShaped(noise) && |rolls| == QueueLength + 1
    ensures var s := NewGame(height, noise, rolls);
      var start := Garbage(EmptyGrid(), height, noise);
      var e := Draw(rolls[0]);
      var ps := SpawnCells(e.kind, Columns);
      Playable(s.cells, s.piece) && (height <= Rows - 2 ==> s.piece.Some?) &&
      (s.piece.Some? <==> Vacant(start, ps)) &&
      (s.piece.Some? ==> s.piece.value == Piece(ps, e.kind, 0, e.color)) &&
      (forall q :: Get(s.cells, q) == if q in ps then Colored(e.color) else Get(start, q))
  {
    var start := Garbage(EmptyGrid(), height, noise);
    var e := Draw(rolls[0]);
    StartGridIsOpen(height, noise, e.kind);
    SpawnIsPlayable(start, e);
  }

  /** Moving down one row k times and then once more is moving k + 1 rows. */
  lemma ShiftedDown(ps: seq<Point>, k: int)
    ensures Shifted(Shifted(ps, 0, k), 0, 1) == Shifted(ps, 0, k + 1)
  {
  }

  class Game {
    /** The inherited cell store. */
    const grid: Grid
    /** `movingPiece`; `None` stands for `false`, after a blocked spawn. */
    var movingPiece: Option<Piece>
    var pieceQueue: seq<Entry>
    var score: nat
    var lines: nat
    var previousTime: int
    var updateSpeedInMs: int
    /** The update interval is installed (cleared by game over). */
    var running: bool

    /** The game state invariant: a 20 x 10 grid with every slot written,
        a full queue, no piece once the game is over, and a piece, if
        there is one, that is `Falling`. */
    ghost predicate Valid()
      reads this, grid
    {
      grid.Valid() && grid.rows == Rows && grid.columns == Columns &&
      |pieceQueue| == QueueLength &&
      (!running ==> movingPiece.None?) &&
      Playable(grid.displayState, movingPiece)
    }

    /** A new game: the grid is filled with EMPTY, garbage is added when
        `height > 0`, five pieces are queued from `rolls[..5]`, the first
        is spawned and the queue refilled from `rolls[5]`; score and lines
        start at 0 and the update loop starts at `now`. */
    constructor (height: int, noise: seq<seq<Random>>, rolls: seq<Roll>, now: int)
      requires NoiseShaped(noise) && |rolls| == QueueLength + 1
      ensures Valid() && fresh(grid)
      ensures Start(grid.displayState, pieceQueue, movingPiece) == NewGame(height, noise, rolls)
      ensures score == 0 && lines == 0 && running
      ensures previousTime == now && updateSpeedInMs == DefaultSpeed
    {
      var g := new Grid(Rows, Columns);
      var s := Opening(g, height, noise, rolls);
      var _ := g.Render(s.cells);
      grid := g;
      pieceQueue := s.queue;
      movingPiece := s.piece;
      score, lines := 0, 0;
      running := true;
      previousTime := now;
      updateSpeedInMs := DefaultSpeed;
      new;
    }

    /** The constructor's work on the state copy of a new grid: EMPTY
        everywhere, garbage, five queued pieces, the first one spawned and
        the queue topped up again. */
    static method Opening(g: Grid, height: int, noise: seq<seq<Random>>, rolls: seq<Roll>)
      returns (s: Start)
      requires g.Valid() && g.rows == Rows && g.columns == Columns
      requires NoiseShaped(noise) && |rolls| == QueueLength + 1
      ensures s == NewGame(height, noise, rolls)
      ensures Playable(s.cells, s.piece)
    {
      var cells := StartCells(g, height, noise);
      var q := FillPieceQueue([], rolls[..QueueLength]);
      assert q == Drawn(rolls[..QueueLength]);
      assert q[0] == Draw(rolls[0]);
      var piece;
      q, cells, piece := CreatePiece(q, cells, rolls[QueueLength]);
      assert q == Drawn(rolls[1..]) by {
        DrawnShift(rolls);
      }
      s := Start(cells, q, piece);
      assert Playable(cells, piece) by {
        NewGameIsPlayable(height, noise, rolls);
      }
    }

    /** `fillPieceQueue`: while fewer than five pieces wait, a drawn entry is
        pushed at the back; the entries already queued stay first, in order. */
    static method FillPieceQueue(queue: seq<Entry>, rolls: seq<Roll>) returns (q: seq<Entry>)
      requires |queue| + |rolls| >= QueueLength
      ensures |queue| >= QueueLength ==> q == queue
      ensures |queue| < QueueLength ==> q == queue + Drawn(rolls[..QueueLength - |queue|])
      ensures |q| >= QueueLength
    {
      q := queue;
      var i := 0;
      while |q| < QueueLength
        invariant 0 <= i <= |rolls|
        invariant |queue| >= QueueLength ==> i == 0
        invariant |queue| < QueueLength ==> |queue| + i <= QueueLength
        invariant q == queue + Drawn(rolls[..i])
        decreases QueueLength - |q|
      {
        assert rolls[..i + 1] == rolls[..i] + [rolls[i]];
        q := q + [Draw(rolls[i])];
        i := i + 1;
      }
    }

    /** `createPiece`: the head of the queue is taken and the queue refilled
        from `roll`; the shape is laid out at the spawn point with the
        counter stepped from 270 to 0; its colour is written into all four
        cells of `cells` whatever they held, and the piece is returned only
        if all four were EMPTY before. */
    static method CreatePiece(queue: seq<Entry>, cells: Cells, roll: Roll) returns (q: seq<Entry>, next: Cells, piece: Option<Piece>)
      requires Shaped(cells, Columns, Rows) && |queue| == QueueLength
      ensures q == queue[1..] + [Draw(roll)]
      ensures Spawned(next, piece) == Spawn(cells, queue[0])
    {
      var center := SpawnPoint(Columns);
      var e := queue[0];
      q := FillPieceQueue(queue[1..], [roll]);
      assert q == queue[1..] + [Draw(roll)] by {
        assert [roll][..1] == [roll];
      }
      var shapePoints := Shape(e.kind, center, Turn(270, 1));
      assert shapePoints == SpawnCells(e.kind, Columns);
      SpawnFits(e.kind, cells, Columns, Rows);
      var cantPlace;
      next, cantPlace := Place(cells, shapePoints, e.color);
      if cantPlace {
        piece := None;
      } else {
        piece := Some(Piece(shapePoints, e.kind, 0, e.color));
      }
    }

    /** The first steps of the constructor on a new grid: a JSON copy of
        the unwritten state, `fill` with EMPTY, then the garbage. */
    static method StartCells(g: Grid, height: int, noise: seq<seq<Random>>) returns (cells: Cells)
      requires g.Valid() && g.rows == Rows && g.columns == Columns && NoiseShaped(noise)
      ensures cells == Garbage(EmptyGrid(), height, noise)
    {
      cells := g.DisplayStateCopy();
      cells := g.Fill(cells, Empty);
      assert cells == EmptyGrid() by {
        assert forall x :: 0 <= x < Columns ==> cells[x] == EmptyGrid()[x];
      }
      cells := SeedGarbage(cells, height, noise);
    }

    /** `calcRotate`: the counter takes a quarter step in `direction` and
        the table gives the cells of the shape at the new counter around the
        pivot. */
    method CalcRotate(direction: int) returns (positions: seq<Point>)
      requires Valid() && movingPiece.Some? && (direction == 1 || direction == -1)
      modifies this`movingPiece
      ensures Valid()
      ensures var p := old(movingPiece).value;
        movingPiece == Some(p.(rotation := Turn(p.rotation, direction))) &&
        positions == Shape(p.kind, p.position[0], Turn(p.rotation, direction))
    {
      var p := movingPiece.value;
      TurnKeepsFalling(grid.displayState, p, Turn(p.rotation, direction));
      movingPiece := Some(p.(rotation := Turn(p.rotation, direction)));
      positions := Shape(p.kind, p.position[0], movingPiece.value.rotation);
    }

    /** `rotate`: the counter advances; the new cells are pushed back inside
        the side walls; then the piece relocates there if those cells are
        EMPTY once its own cells are cleared. A rejected rotation keeps grid
        and position but not the old counter. Without a piece nothing
        happens. */
    method Rotate(direction: int)
      requires Valid() && (direction == 1 || direction == -1)
      modifies this`movingPiece, grid
      ensures Valid()
      ensures old(movingPiece).None? ==>
        movingPiece == old(movingPiece) && grid.displayState == old(grid.displayState)
      ensures old(movingPiece).Some? ==>
        var p := old(movingPiece).value;
        var turned := p.(rotation := Turn(p.rotation, direction));
        var to := Corrected(Shape(p.kind, p.position[0], turned.rotation), Columns);
        movingPiece == Some(Relocate(old(grid.displayState), turned, to).1) &&
        grid.displayState == Relocate(old(grid.displayState), turned, to).0
    {
      if movingPiece.None? {
        return;
      }
      var positions := CalcRotate(direction);
      positions := PushInside(positions);
      var _ := TryPosition(positions);
    }

    /** The `reduce` of `rotate` and the shift by the offset it finds. */
    static method PushInside(positions: seq<Point>) returns (r: seq<Point>)
      requires |positions| == 4 && Distinct(positions)
      ensures r == Corrected(positions, Columns) && |r| == 4 && Distinct(r)
    {
      r := positions;
      var offset := EdgeOffset(positions, Columns);
      if offset != 0 {
        r := Shifted(positions, -offset, 0);
        ShiftedDistinct(positions, -offset, 0);
      }
    }

    /** `move`: every x shifts by `direction`, y is kept; the piece
        relocates there if no new cell leaves the grid or lands on a cell
        other than its own that is not EMPTY, and otherwise nothing changes. */
    method Move(direction: int)
      requires Valid()
      modifies this`movingPiece, grid
      ensures Valid()
      ensures old(movingPiece).None? ==>
        movingPiece == old(movingPiece) && grid.displayState == old(grid.displayState)
      ensures old(movingPiece).Some? ==>
        var p := old(movingPiece).value;
        var to := Shifted(p.position, direction, 0);
        movingPiece == Some(Relocate(old(grid.displayState), p, to).1) &&
        grid.displayState == Relocate(old(grid.displayState), p, to).0
    {
      if movingPiece.None? {
        return;
      }
      var p := movingPiece.value;
      ShiftedDistinct(p.position, direction, 0);
      var _ := TryPosition(Shifted(p.position, direction, 0));
    }

    /** `fall`: every y grows by 1; `fell` is true, and the piece relocates,
        exactly when the new cells are on the grid and EMPTY once the piece's
        own cells are cleared. Either way what the piece lies on is
        unchanged. Without a piece it reports false. */
    method Fall() returns (fell: bool)
      requires Valid()
      modifies this`movingPiece, grid
      ensures Valid()
      ensures old(movingPiece).None? ==>
        !fell && movingPiece == old(movingPiece) && grid.displayState == old(grid.displayState)
      ensures old(movingPiece).Some? ==>
        var p := old(movingPiece).value;
        var to := Shifted(p.position, 0, 1);
        fell == Vacant(Background(old(grid.displayState), p), to) &&
        movingPiece == Some(Relocate(old(grid.displayState), p, to).1) &&
        grid.displayState == Relocate(old(grid.displayState), p, to).0 &&
        Background(grid.displayState, movingPiece.value) == Background(old(grid.displayState), p)
    {
      if movingPiece.None? {
        return false;
      }
      var p := movingPiece.value;
      ShiftedDistinct(p.position, 0, 1);
      fell := TryPosition(Shifted(p.position, 0, 1));
    }

    /** What move, rotate and fall share: on a copy of the state the
        piece's cells are cleared and the cells `to` checked; if they are
        all EMPTY they take the piece's colour, the piece takes them and the
        copy is rendered; otherwise the copy is dropped. Either way the piece
        stays falling on the same background. */
    method TryPosition(to: seq<Point>) returns (ok: bool)
      requires Valid() && movingPiece.Some? && |to| == 4 && Distinct(to)
      modifies this`movingPiece, grid
      ensures Valid()
      ensures var p := old(movingPiece).value;
        ok == Vacant(Background(old(grid.displayState), p), to) &&
        movingPiece == Some(Relocate(old(grid.displayState), p, to).1) &&
        grid.displayState == Relocate(old(grid.displayState), p, to).0 &&
        Background(grid.displayState, movingPiece.value) == Background(old(grid.displayState), p)
    {
      var cells := grid.DisplayStateCopy();
      var p := movingPiece.value;
      RelocateKeepsFalling(cells, p, to);
      cells, ok := TryRelocate(cells, p, to);
      if !ok {
        return;
      }
      movingPiece := Some(p.(position := to));
      var _ := grid.Render(cells);
    }

    /** The hard drop `while (this.fall()) {}`: it terminates, with the piece
        some whole number of rows lower, on the same background, and unable
        to fall any further. */
    method HardDrop()
      requires Valid()
      modifies this`movingPiece, grid
      ensures Valid()
      ensures old(movingPiece).None? ==>
        movingPiece == old(movingPiece) && grid.displayState == old(grid.displayState)
      ensures old(movingPiece).Some? ==>
        var p := old(movingPiece).value;
        movingPiece.Some? &&
        (exists k: nat :: movingPiece.value == p.(position := Shifted(p.position, 0, k))) &&
        Background(grid.displayState, movingPiece.value) == Background(old(grid.displayState), p) &&
        !Vacant(Background(grid.displayState, movingPiece.value), Shifted(movingPiece.value.position, 0, 1))
    {
      if movingPiece.None? {
        return;
      }
      ghost var p0 := movingPiece.value;
      ghost var back := Background(grid.displayState, p0);
      ghost var k: nat := 0;
      assert Shifted(p0.position, 0, 0) == p0.position;
      var fell := true;
      while fell
        invariant Valid() && movingPiece.Some?
        invariant movingPiece.value == p0.(position := Shifted(p0.position, 0, k))
        invariant Background(grid.displayState, movingPiece.value) == back
        invariant !fell ==> !Vacant(back, Shifted(movingPiece.value.position, 0, 1))
        decreases Rows - movingPiece.value.position[0].y + (if fell then 1 else 0)
      {
        assert InBounds(grid.displayState, movingPiece.value.position[0]);
        fell := Fall();
        if fell {
          ShiftedDown(p0.position, k);
          k := k + 1;
        }
      }
    }

    /** The soft-drop key is pressed. */
    method SpeedUp()
      modifies this`updateSpeedInMs
      ensures updateSpeedInMs == FastSpeed
    {
      updateSpeedInMs := FastSpeed;
    }

    /** The soft-drop key is released. */
    method SlowDown()
      modifies this`updateSpeedInMs
      ensures updateSpeedInMs == DefaultSpeed
    {
      updateSpeedInMs := DefaultSpeed;
    }

    /** `gameOver`: the update interval is cleared. */
    method GameOver()
      modifies this`running
      ensures !running
    {
      running := false;
    }

    /** One tick of the update interval at time `now`. Before
        `updateSpeedInMs` have passed since the last step nothing changes.
        Otherwise the step time is taken; without a piece the step stops
        there. A piece that can fall falls. One that cannot is locked: its
        cells become DROPPED, full rows are cleared and scored (at most four),
        and the next piece spawns from the queue, which is refilled from
        `roll`; a blocked spawn ends the game. */
    method Update(now: int, roll: Roll)
      requires Valid() && running
      modifies this`previousTime, this`movingPiece, this`pieceQueue, this`score, this`lines, this`running, grid
      ensures Valid()
      ensures now - old(previousTime) < old(updateSpeedInMs) ==>
        previousTime == old(previousTime) && movingPiece == old(movingPiece) &&
        grid.displayState == old(grid.displayState) && running &&
        score == old(score) && lines == old(lines) && pieceQueue == old(pieceQueue)
      ensures now - old(previousTime) >= old(updateSpeedInMs) ==> previousTime == now
      ensures now - old(previousTime) >= old(updateSpeedInMs) && old(movingPiece).None? ==>
        movingPiece.None? && grid.displayState == old(grid.displayState) && running &&
        score == old(score) && lines == old(lines) && pieceQueue == old(pieceQueue)
      ensures now - old(previousTime) >= old(updateSpeedInMs) && old(movingPiece).Some? ==>
        var cells, p := old(grid.displayState), old(movingPiece).value;
        var to := Shifted(p.position, 0, 1);
        if Vacant(Background(cells, p), to) then
          movingPiece == Some(Relocate(cells, p, to).1) && grid.displayState == Relocate(cells, p, to).0 &&
          score == old(score) && lines == old(lines) && pieceQueue == old(pieceQueue) && running
        else
          var r := Lock(cells, p, old(pieceQueue)[0]);
          grid.displayState == r.cells && movingPiece == r.piece &&
          pieceQueue == old(pieceQueue)[1..] + [Draw(roll)] &&
          lines == old(lines) + r.count && score == old(score) + Points(r.count) &&
          running == r.piece.Some?
    {
      if now - previousTime < updateSpeedInMs {
        return;
      }
      previousTime := now;
      if movingPiece.None? {
        return;
      }
      var fell := Fall();
      if fell {
        return;
      }
      LockPiece(roll);
    }

    /** The rest of `update` once the piece could not fall: its cells
        become DROPPED on a copy of the state, full rows are cleared, the
        next piece is created, and the outcome is committed. */
    method LockPiece(roll: Roll)
      requires Valid() && movingPiece.Some?
      modifies this`movingPiece, this`pieceQueue, this`score, this`lines, this`running, grid
      ensures Valid()
      ensures var r := Lock(old(grid.displayState), old(movingPiece).value, old(pieceQueue)[0]);
        grid.displayState == r.cells && movingPiece == r.piece &&
        pieceQueue == old(pieceQueue)[1..] + [Draw(roll)] &&
        lines == old(lines) + r.count && score == old(score) + Points(r.count) &&
        running == r.piece.Some?
    {
      var r, q := LockStep(grid, movingPiece.value, pieceQueue, roll);
      Commit(r, q);
    }

    /** The state changes of a lock: `clearRows` adds the rows removed to
        `lines` and their table value to `score`, `createPiece` installs the
        queue and the piece, a blocked spawn calls `gameOver`, and the new
        cells are rendered. */
    method Commit(r: Locked, queue: seq<Entry>)
      requires grid.Valid() && grid.rows == Rows && grid.columns == Columns && running
      requires Shaped(r.cells, Columns, Rows) && |queue| == QueueLength && Playable(r.cells, r.piece)
      modifies this`movingPiece, this`pieceQueue, this`score, this`lines, this`running, grid
      ensures Valid()
      ensures grid.displayState == r.cells && pieceQueue == queue && movingPiece == r.piece
      ensures lines == old(lines) + r.count && score == old(score) + Points(r.count)
      ensures running == r.piece.Some?
    {
      lines := lines + r.count;
      score := score + Points(r.count);
      pieceQueue := queue;
      movingPiece := r.piece;
      if r.piece.None? {
        GameOver();
      }
      var _ := grid.Render(r.cells);
    }

    /** The lock on the working copy: the piece's cells are painted DROPPED,
        the row loop of `clearRows` removes the full rows, and `createPiece`
        spawns the head of the queue. */
    static method LockStep(g: Grid, p: Piece, queue: seq<Entry>, roll: Roll) returns (r: Locked, q: seq<Entry>)
      requires g.Valid() && g.rows == Rows && g.columns == Columns
      requires Defined(g.displayState) && Falling(g.displayState, p) && |queue| == QueueLength
      ensures r == Lock(g.displayState, p, queue[0])
      ensures q == queue[1..] + [Draw(roll)]
      ensures r.count <= 4 && Playable(r.cells, r.piece)
    {
      var cells := g.DisplayStateCopy();
      ghost var expected := Lock(cells, p, queue[0]);
      assert expected.count <= 4 && Playable(expected.cells, expected.piece) by {
        LockIsPlayable(cells, p, queue[0]);
      }
      var locked := PaintCells(cells, p.position, Dropped);
      var cleared, clearCount := RemoveFullRows(locked, Columns, Rows);
      var next, piece;
      q, next, piece := CreatePiece(queue, cleared, roll);
      r := Locked(next, piece, clearCount);
    }
  }
}
