/** The 2-D cell store of grid.js: a column-major array of cell values,
    `cells[x][y]` with y = 0 at the top, and the `Grid` object that holds
    the current display state and swaps it wholesale on `render`. */
module GridStore {

  /** A colour index, 1..6 (the non-zero numeric keys of cssClassMap). */
  type Color = c: int | 1 <= c <= 6 witness 1

  /** A cell value. `Empty` is EMPTY (null), `Dropped` is DROPPED (0),
      `Colored(c)` a falling piece of colour c. `Undefined` is what a slot
      holds before it is first written, and what reading past the end of a
      column yields; it is not EMPTY, so the game treats it as occupied. */
  datatype Cell = Undefined | Empty | Dropped | Colored(color: Color)

  datatype Point = Point(x: int, y: int)

  /** The cell array, indexed `cells[x][y]`. */
  type Cells = seq<seq<Cell>>

  predicate Shaped(cells: Cells, columns: nat, rows: nat)
  {
    |cells| == columns && forall x :: 0 <= x < columns ==> |cells[x]| == rows
  }

  predicate SameShape(a: Cells, b: Cells)
  {
    |a| == |b| && forall x :: 0 <= x < |a| ==> |a[x]| == |b[x]|
  }

  predicate InBounds(cells: Cells, p: Point)
  {
    0 <= p.x < |cells| && 0 <= p.y < |cells[p.x]|
  }

  /** Reading `cells[x][y]`: a coordinate outside the store reads as undefined. */
  function Get(cells: Cells, p: Point): Cell
  {
    if InBounds(cells, p) then cells[p.x][p.y] else Undefined
  }

  /** Writing `cells[x][y] = v` into a working copy. */
  function Set(cells: Cells, p: Point, v: Cell): (r: Cells)
    requires InBounds(cells, p)
    ensures SameShape(r, cells)
    ensures forall q :: Get(r, q) == if q == p then v else Get(cells, q)
  {
    cells[p.x := cells[p.x][p.y := v]]
  }

  /** Two stores of the same shape that read alike everywhere are equal. */
  lemma {:induction false} SameCells(a: Cells, b: Cells)
    requires SameShape(a, b)
    requires forall q :: Get(a, q) == Get(b, q)
    ensures a == b
  {
    forall x | 0 <= x < |a|
      ensures a[x] == b[x]
    {
      forall y | 0 <= y < |a[x]|
        ensures a[x][y] == b[x][y]
      {
        assert Get(a, Point(x, y)) == Get(b, Point(x, y));
      }
    }
  }

  /** Writing `v` into every cell of `ps`, in order (the `forEach` writes of
      the game code): the cells of `ps` read `v`, every other cell is kept. */
  function Paint(cells: Cells, ps: seq<Point>, v: Cell): (r: Cells)
    requires forall i :: 0 <= i < |ps| ==> InBounds(cells, ps[i])
    ensures SameShape(r, cells)
    ensures forall q :: Get(r, q) == if q in ps then v else Get(cells, q)
    decreases |ps|
  {
    if ps == [] then cells
    else
      var init, last := ps[..|ps| - 1], ps[|ps| - 1];
      assert ps == init + [last];
      var painted := Paint(cells, init, v);
      assert InBounds(cells, last) && |painted[last.x]| == |cells[last.x]|;
      Set(painted, last, v)
  }

  /** Every slot has been written: no cell reads undefined. */
  ghost predicate Defined(cells: Cells)
  {
    forall p :: InBounds(cells, p) ==> Get(cells, p) != Undefined
  }

  /** The store with every cell set to `value`. */
  function Filled(cells: Cells, value: Cell): (r: Cells)
    ensures SameShape(r, cells)
    ensures forall p :: InBounds(cells, p) ==> Get(r, p) == value
  {
    seq(|cells|, x requires 0 <= x < |cells| => seq(|cells[x]|, _ => value))
  }

  class Grid {
    const rows: nat
    const columns: nat
    /** The current state; it alone determines what is displayed. */
    var displayState: Cells

    ghost predicate Valid()
      reads this
    {
      Shaped(displayState, columns, rows)
    }

    /** `columns` arrays of `rows` cells each, none of them written yet. */
    constructor (rows: nat, columns: nat)
      ensures Valid() && this.rows == rows && this.columns == columns
      ensures forall p :: InBounds(displayState, p) ==> Get(displayState, p) == Undefined
    {
      this.rows := rows;
      this.columns := columns;
      displayState := seq(columns, _ => seq(rows, _ => Undefined));
    }

    /** A deep copy of the current state through a JSON round trip. Cells
        are values, so writes to the copy never reach `displayState`. The
        round trip turns an undefined slot into null, i.e. EMPTY; once every
        slot has been written the copy equals the state. */
    function DisplayStateCopy(): (copy: Cells)
      reads this
      requires Valid()
      ensures Shaped(copy, columns, rows)
      ensures Defined(copy)
      ensures forall p :: InBounds(displayState, p) && Get(displayState, p) != Undefined ==>
        Get(copy, p) == Get(displayState, p)
      ensures Defined(displayState) ==> copy == displayState
    {
      var state := displayState;
      var copy := seq(columns, x requires 0 <= x < columns =>
        seq(rows, y requires 0 <= y < rows =>
          if state[x][y] == Undefined then Empty else state[x][y]));
      assert forall p :: InBounds(state, p) ==> Get(copy, p) == if Get(state, p) == Undefined then Empty else Get(state, p);
      assert Defined(state) ==> copy == state by {
        if Defined(state) {
          SameCells(copy, state);
        }
      }
      copy
    }

    /** `fill(grid, value)`: writes `value` into every cell of every inner
        array; the dimensions are kept. */
    method Fill(cells: Cells, value: Cell) returns (r: Cells)
      ensures r == Filled(cells, value)
    {
      r := cells;
      for x := 0 to |cells|
        invariant SameShape(r, cells)
        invariant forall x' :: 0 <= x' < x ==> r[x'] == Filled(cells, value)[x']
        invariant forall x' :: x <= x' < |cells| ==> r[x'] == cells[x']
      {
        ghost var before := r;
        for y := 0 to |cells[x]|
          invariant SameShape(r, cells)
          invariant forall x' :: 0 <= x' < |cells| && x' != x ==> r[x'] == before[x']
          invariant forall y' :: 0 <= y' < y ==> r[x][y'] == value
          invariant forall y' :: y <= y' < |cells[x]| ==> r[x][y'] == cells[x][y']
        {
          r := r[x := r[x][y := value]];
        }
      }
    }

    /** Installs `next` as the current state. `touched` is the set of
        coordinates whose display class is rewritten: exactly those whose old
        and new values differ. */
    method Render(next: Cells) returns (touched: set<Point>)
      requires Valid() && Shaped(next, columns, rows)
      modifies this
      ensures Valid() && displayState == next
      ensures forall p :: p in touched <==> InBounds(next, p) && Get(old(displayState), p) != Get(next, p)
    {
      touched := {};
      for x := 0 to columns
        invariant forall p :: p in touched <==>
          InBounds(next, p) && p.x < x && Get(displayState, p) != Get(next, p)
      {
        for y := 0 to rows
          invariant forall p :: p in touched <==>
            InBounds(next, p) && (p.x < x || (p.x == x && p.y < y)) && Get(displayState, p) != Get(next, p)
        {
          if displayState[x][y] != next[x][y] {
            touched := touched + {Point(x, y)};
          }
        }
      }
      displayState := next;
    }
  }
}
