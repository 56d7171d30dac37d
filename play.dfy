/** What both `Game` classes share on their 20 x 10 grid: the invariant of
    a falling piece, and the lock that turns a piece that cannot fall into
    DROPPED cells, clears full rows and spawns the next piece. */
module Play {
  import opened GridStore
  import opened Geometry
  import opened Engine
  import opened LineClear

  const Rows: nat := 20
  const Columns: nat := 10

  /** The grid after `fill(grid, EMPTY)`. */
  function EmptyGrid(): Cells
  {
    seq(Columns, _ => seq(Rows, _ => Empty))
  }

  /** What holds of a falling piece: its counter is one of the four
      values, it lies on the grid, the cells holding a colour are exactly
      its four cells, and no row of what it lies on is full. */
  ghost predicate Falling(cells: Cells, p: Piece)
  {
    IsRotation(p.rotation) && Within(cells, p.position) &&
    ColorsAreActivePiece(cells, p) && NoFullRow(Background(cells, p), Rows)
  }

  /** The grid part of the game state invariant: every slot written, and
      the piece, if there is one, falling. */
  ghost predicate Playable(cells: Cells, piece: Option<Piece>)
  {
    Defined(cells) && (piece.Some? ==> Falling(cells, piece.value))
  }

  /** Move, rotate and fall keep a falling piece falling, leave every slot
      written and never change what the piece lies on. */
  lemma RelocateKeepsFalling(cells: Cells, p: Piece, to: seq<Point>)
    requires Falling(cells, p) && Defined(cells) && |to| == 4 && Distinct(to)
    ensures Falling(Relocate(cells, p, to).0, Relocate(cells, p, to).1)
    ensures Defined(Relocate(cells, p, to).0)
    ensures Background(Relocate(cells, p, to).0, Relocate(cells, p, to).1) == Background(cells, p)
  {
    RelocateKeepsColors(cells, p, to);
  }

  /** Giving a falling piece another of the four counter values keeps it
      falling. */
  lemma TurnKeepsFalling(cells: Cells, p: Piece, rotation: int)
    requires Falling(cells, p) && IsRotation(rotation)
    ensures Falling(cells, p.(rotation := rotation))
  {
    var q := p.(rotation := rotation);
    assert q.position == p.position && q.color == p.color;
    assert Background(cells, q) == Background(cells, p);
  }

  /** What `createPiece` leaves on a working copy: the grid and the new
      piece, `None` when the spawn was blocked. */
  datatype Spawned = Spawned(cells: Cells, piece: Option<Piece>)

  /** `createPiece` on `cells` for the entry `e`: the colour is written into
      the four spawn cells whatever they held, and the piece takes them only
      if all four were EMPTY. */
  function Spawn(cells: Cells, e: Entry): (s: Spawned)
    requires Shaped(cells, Columns, Rows)
    ensures Shaped(s.cells, Columns, Rows)
    ensures s.piece.Some? ==> s.piece.value == Piece(SpawnCells(e.kind, Columns), e.kind, 0, e.color)
  {
    var ps := SpawnCells(e.kind, Columns);
    SpawnFits(e.kind, cells, Columns, Rows);
    Spawned(Paint(cells, ps, Colored(e.color)),
            if Vacant(cells, ps) then Some(Piece(ps, e.kind, 0, e.color)) else None)
  }

  /** A spawn onto a grid with every slot written, no colour and no full
      row keeps every slot written and, exactly when the spawn cells were
      EMPTY, starts a falling piece; only the spawn cells change. */
  lemma SpawnIsPlayable(cells: Cells, e: Entry)
    requires Shaped(cells, Columns, Rows) && Defined(cells) && NoColors(cells) && NoFullRow(cells, Rows)
    ensures var s := Spawn(cells, e); var ps := SpawnCells(e.kind, Columns);
      Playable(s.cells, s.piece) && (s.piece.Some? <==> Vacant(cells, ps)) &&
      (forall q :: Get(s.cells, q) == if q in ps then Colored(e.color) else Get(cells, q))
  {
    var ps := SpawnCells(e.kind, Columns);
    SpawnFits(e.kind, cells, Columns, Rows);
    PaintKeepsDefined(cells, ps, Colored(e.color));
    if Vacant(cells, ps) {
      SpawnStartsColors(cells, e, Columns);
    }
  }

  /** On an EMPTY grid every spawn succeeds and starts a falling piece. */
  lemma FirstSpawnIsFalling(e: Entry)
    ensures Spawn(EmptyGrid(), e).piece.Some?
    ensures Playable(Spawn(EmptyGrid(), e).cells, Spawn(EmptyGrid(), e).piece)
  {
    var g := EmptyGrid();
    SpawnOnEmptyGrid(e.kind, g, Columns, Rows);
    forall y | 0 <= y < Rows
      ensures !FullRow(g, y)
    {
      assert Get(g, Point(0, y)) == Empty;
    }
    SpawnIsPlayable(g, e);
  }

  /** Locking a falling piece and clearing rows leaves a grid with every
      slot written, no colour and no full row, after at most four rows
      were removed. */
  lemma LockLeavesClearGrid(cells: Cells, p: Piece)
    requires Shaped(cells, Columns, Rows) && Defined(cells) && Falling(cells, p)
    ensures var locked := Paint(cells, p.position, Dropped);
      Count(FullMask(locked, Rows)) <= 4 &&
      Shaped(Cleared(locked, Rows), Columns, Rows) &&
      Defined(Cleared(locked, Rows)) && NoColors(Cleared(locked, Rows)) &&
      NoFullRow(Cleared(locked, Rows), Rows)
  {
    var locked := Paint(cells, p.position, Dropped);
    LockLeavesNoColors(cells, p);
    LockClearsAtMostFour(cells, p, Rows);
    ClearedKeepsKinds(locked, Rows);
    ClearedHasNoFullRow(locked, Rows);
  }

  /** What `update` leaves when the piece cannot fall: the new grid, the
      next piece (None when its spawn was blocked) and the number of rows
      removed. */
  datatype Locked = Locked(cells: Cells, piece: Option<Piece>, count: nat)

  /** The lock branch of `update` on the values it reads: the piece's cells
      become DROPPED, full rows are removed, and the entry `e` is spawned. */
  function Lock(cells: Cells, p: Piece, e: Entry): (r: Locked)
    requires Shaped(cells, Columns, Rows) && Within(cells, p.position)
    ensures Shaped(r.cells, Columns, Rows)
    ensures r.piece.Some? ==> r.piece.value == Piece(SpawnCells(e.kind, Columns), e.kind, 0, e.color)
  {
    var locked := Paint(cells, p.position, Dropped);
    var s := Spawn(Cleared(locked, Rows), e);
    Locked(s.cells, s.piece, Count(FullMask(locked, Rows)))
  }

  /** Locking a falling piece removes at most four rows; the next piece
      takes the four spawn cells, which it finds EMPTY exactly when the
      spawn succeeds, and is falling on what is left; every slot stays
      written. */
  lemma LockIsPlayable(cells: Cells, p: Piece, e: Entry)
    requires Shaped(cells, Columns, Rows) && Defined(cells) && Falling(cells, p)
    ensures var r := Lock(cells, p, e);
      var cleared := Cleared(Paint(cells, p.position, Dropped), Rows);
      var ps := SpawnCells(e.kind, Columns);
      r.count <= 4 && Playable(r.cells, r.piece) &&
      (r.piece.Some? <==> Vacant(cleared, ps)) &&
      (forall q :: Get(r.cells, q) == if q in ps then Colored(e.color) else Get(cleared, q))
  {
    var cleared := Cleared(Paint(cells, p.position, Dropped), Rows);
    LockLeavesClearGrid(cells, p);
    SpawnIsPlayable(cleared, e);
  }
}
