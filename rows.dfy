/** Line clearing and scoring, shared by both variants of `clearRows`:
    every full row is removed, each column gets an EMPTY cell on top per
    removed row, and the count is scored with a fixed table. */
module LineClear {
  import opened GridStore
  import opened Geometry
  import opened Engine

  /** Row y is full when none of its cells is EMPTY. */
  predicate FullRow(cells: Cells, y: int)
  {
    forall x :: 0 <= x < |cells| ==> Get(cells, Point(x, y)) != Empty
  }

  /** No row of the grid is full. */
  ghost predicate NoFullRow(cells: Cells, rows: nat)
  {
    forall y :: 0 <= y < rows ==> !FullRow(cells, y)
  }

  /** Which rows of the grid, top to bottom, are full. */
  function FullMask(cells: Cells, rows: nat): (m: seq<bool>)
    ensures |m| == rows && forall y :: 0 <= y < rows ==> m[y] == FullRow(cells, y)
  {
    seq(rows, y => FullRow(cells, y))
  }

  /** The number of true entries. */
  function Count(m: seq<bool>): nat
  {
    if m == [] then 0 else Count(m[..|m| - 1]) + (if m[|m| - 1] then 1 else 0)
  }

  /** The entries of `s` whose row is not marked, in order. */
  function Keep<T>(s: seq<T>, m: seq<bool>): (r: seq<T>)
    requires |s| == |m|
    ensures |r| + Count(m) == |s|
    ensures forall e :: e in r ==> e in s
  {
    if s == [] then []
    else
      var init := Keep(s[..|s| - 1], m[..|m| - 1]);
      assert forall e :: e in init ==> e in s[..|s| - 1];
      init + (if m[|m| - 1] then [] else [s[|s| - 1]])
  }

  function Blank(n: nat): seq<Cell>
  {
    seq(n, _ => Empty)
  }

  /** The two-phase reading of line clearing: decide which rows are full,
      then drop them from every column and put that many EMPTY cells on top.
      Every column keeps its length. */
  function Cleared(cells: Cells, rows: nat): (r: Cells)
    requires Shaped(cells, |cells|, rows)
    ensures Shaped(r, |cells|, rows)
    ensures NoFullRow(cells, rows) ==> r == cells
  {
    var m := FullMask(cells, rows);
    var r := seq(|cells|, x requires 0 <= x < |cells| => Blank(Count(m)) + Keep(cells[x], m));
    assert NoFullRow(cells, rows) ==> r == cells by {
      if NoFullRow(cells, rows) {
        forall x | 0 <= x < |cells|
          ensures r[x] == cells[x]
        {
          KeepNone(cells[x], m);
        }
      }
    }
    r
  }

  /** `clearRows` scoring table: 100, 300, 500 and 800 points for one to
      four rows, nothing otherwise; more rows at once never score less. */
  function Points(clearCount: nat): (points: nat)
    ensures points > 0 <==> 1 <= clearCount <= 4
    ensures 1 <= clearCount <= 4 ==> points >= 100 * clearCount
    ensures 2 <= clearCount <= 4 ==> points > Points(clearCount - 1) + 100
  {
    match clearCount
    case 1 => 100
    case 2 => 300
    case 3 => 500
    case 4 => 800
    case _ => 0
  }

  /** One row of the scan, for one column: above `y` the column has been
      rebuilt (`top`, exactly `y` cells long), from `y` down it is the
      original. */
  lemma {:induction false} ColumnStep(col: seq<Cell>, m: seq<bool>, y: nat, c: nat)
    requires |col| == |m| && y < |m| && c == Count(m[..y])
    ensures |Blank(c) + Keep(col[..y], m[..y])| == y
    ensures Count(m[..y + 1]) == c + (if m[y] then 1 else 0)
    ensures m[y] ==>
      [Empty] + Blank(c) + Keep(col[..y], m[..y]) + col[y + 1..] ==
      Blank(c + 1) + Keep(col[..y + 1], m[..y + 1]) + col[y + 1..]
    ensures !m[y] ==>
      Blank(c) + Keep(col[..y], m[..y]) + col[y..] ==
      Blank(c) + Keep(col[..y + 1], m[..y + 1]) + col[y + 1..]
  {
    assert col[..y + 1][..y] == col[..y];
    assert m[..y + 1][..y] == m[..y];
    assert col[..y + 1][y] == col[y];
    assert col[y..] == [col[y]] + col[y + 1..];
    assert Blank(c + 1) == [Empty] + Blank(c);
  }

  lemma {:induction false} CountStep(m: seq<bool>, y: nat)
    requires y < |m|
    ensures Count(m[..y + 1]) == Count(m[..y]) + (if m[y] then 1 else 0)
  {
    assert m[..y + 1][..y] == m[..y];
  }

  /** The inner check of `clearRows`: row `y` is full, stopping at the
      first EMPTY cell. */
  method RowIsFull(cells: Cells, y: nat) returns (clear: bool)
    requires forall x :: 0 <= x < |cells| ==> y < |cells[x]|
    ensures clear == FullRow(cells, y)
  {
    clear := true;
    for x := 0 to |cells|
      invariant clear <==> forall x' :: 0 <= x' < x ==> cells[x'][y] != Empty
    {
      if cells[x][y] == Empty {
        assert Get(cells, Point(x, y)) == Empty;
        clear := false;
        break;
      }
    }
  }

  /** `cells[x].splice(y, 1); cells[x].unshift(EMPTY)` for every column:
      row `y` is removed and an EMPTY cell goes on top. */
  method DropRow(cells: Cells, y: nat) returns (out: Cells)
    requires forall x :: 0 <= x < |cells| ==> y < |cells[x]|
    ensures |out| == |cells|
    ensures forall x :: 0 <= x < |cells| ==> out[x] == [Empty] + cells[x][..y] + cells[x][y + 1..]
  {
    out := cells;
    for x := 0 to |cells|
      invariant |out| == |cells|
      invariant forall x' :: 0 <= x' < x ==> out[x'] == [Empty] + cells[x'][..y] + cells[x'][y + 1..]
      invariant forall x' :: x <= x' < |cells| ==> out[x'] == cells[x']
    {
      out := out[x := out[x][..y] + out[x][y + 1..]];
      out := out[x := [Empty] + out[x]];
    }
  }

  /** The state of the row scan before row `y`: every column is `c` EMPTY
      cells, its kept cells above `y`, then its original cells from `y` on. */
  ghost predicate Scanned(out: Cells, cells: Cells, m: seq<bool>, y: nat, c: nat)
    requires y <= |m| && forall x :: 0 <= x < |cells| ==> |cells[x]| == |m|
  {
    |out| == |cells| &&
    forall x :: 0 <= x < |cells| ==> out[x] == Blank(c) + Keep(cells[x][..y], m[..y]) + cells[x][y..]
  }

  /** Before row `y` is scanned, it still holds its original cells. */
  lemma ScannedRowIsOriginal(out: Cells, cells: Cells, m: seq<bool>, y: nat, c: nat)
    requires y < |m| && (forall x :: 0 <= x < |cells| ==> |cells[x]| == |m|)
    requires c == Count(m[..y]) && Scanned(out, cells, m, y, c)
    ensures forall x :: 0 <= x < |out| ==> y < |out[x]| && out[x][y] == cells[x][y]
    ensures FullRow(out, y) == FullRow(cells, y)
  {
    forall x | 0 <= x < |cells|
      ensures y < |out[x]| && out[x][y] == cells[x][y]
    {
      ColumnStep(cells[x], m, y, c);
    }
    assert forall x :: 0 <= x < |cells| ==> Get(out, Point(x, y)) == Get(cells, Point(x, y));
  }

  /** Scanning row `y`: dropping it when it is full, keeping it otherwise,
      moves the scan state on to row `y + 1`. */
  lemma ScanStep(before: Cells, out: Cells, cells: Cells, m: seq<bool>, y: nat, c: nat)
    requires y < |m| && (forall x :: 0 <= x < |cells| ==> |cells[x]| == |m|)
    requires c == Count(m[..y]) && Scanned(before, cells, m, y, c)
    requires |out| == |cells|
    requires m[y] ==> forall x :: 0 <= x < |cells| ==> out[x] == [Empty] + before[x][..y] + before[x][y + 1..]
    requires !m[y] ==> out == before
    ensures Count(m[..y + 1]) == c + (if m[y] then 1 else 0)
    ensures Scanned(out, cells, m, y + 1, c + (if m[y] then 1 else 0))
  {
    CountStep(m, y);
    forall x | 0 <= x < |cells|
      ensures out[x] == Blank(c + (if m[y] then 1 else 0)) + Keep(cells[x][..y + 1], m[..y + 1]) + cells[x][y + 1..]
    {
      ColumnStep(cells[x], m, y, c);
      var top := Blank(c) + Keep(cells[x][..y], m[..y]);
      assert before[x] == top + cells[x][y..];
      if m[y] {
        assert before[x][..y] == top && before[x][y + 1..] == cells[x][y + 1..];
      }
    }
  }

  /** After the last row the scan state is the two-phase result. */
  lemma ScanDone(out: Cells, cells: Cells, rows: nat, c: nat)
    requires Shaped(cells, |cells|, rows)
    requires c == Count(FullMask(cells, rows)) && Scanned(out, cells, FullMask(cells, rows), rows, c)
    ensures out == Cleared(cells, rows)
  {
    var m := FullMask(cells, rows);
    assert m[..rows] == m;
    var whole := Cleared(cells, rows);
    forall x | 0 <= x < |cells|
      ensures out[x] == whole[x]
    {
      assert cells[x][..rows] == cells[x] && cells[x][rows..] == [];
      assert out[x] == Blank(c) + Keep(cells[x], m);
    }
  }

  /** The row loop of `clearRows`. Rows are scanned top-down and a removal
      only shifts the rows above `y`, so every row from `y` down is still the
      original one when it is scanned: the loop removes exactly the rows
      that were full beforehand, each once. */
  method RemoveFullRows(cells: Cells, columns: nat, rows: nat) returns (out: Cells, clearCount: nat)
    requires Shaped(cells, columns, rows)
    ensures out == Cleared(cells, rows)
    ensures clearCount == Count(FullMask(cells, rows))
  {
    ghost var m := FullMask(cells, rows);
    out, clearCount := cells, 0;
    for y := 0 to rows
      invariant clearCount == Count(m[..y]) && Scanned(out, cells, m, y, clearCount)
    {
      ScannedRowIsOriginal(out, cells, m, y, clearCount);
      var clear := RowIsFull(out, y);
      ghost var before, c0 := out, clearCount;
      if clear {
        clearCount := clearCount + 1;
        out := DropRow(out, y);
      }
      ScanStep(before, out, cells, m, y, c0);
    }
    assert m[..rows] == m;
    ScanDone(out, cells, rows, clearCount);
  }

  /** The indices of the rows a mask keeps, top to bottom. */
  function KeptRows(m: seq<bool>): (ks: seq<nat>)
    ensures |ks| + Count(m) == |m|
    ensures forall j :: 0 <= j < |ks| ==> ks[j] < |m| && !m[ks[j]]
    ensures forall i, j :: 0 <= i < j < |ks| ==> ks[i] < ks[j]
  {
    if m == [] then []
    else KeptRows(m[..|m| - 1]) + (if m[|m| - 1] then [] else [|m| - 1])
  }

  /** Every row the mask does not mark is among the kept rows. */
  lemma {:induction false} KeptRowsComplete(m: seq<bool>, y: nat)
    requires y < |m| && !m[y]
    ensures y in KeptRows(m)
    decreases |m|
  {
    var n := |m| - 1;
    if y < n {
      KeptRowsComplete(m[..n], y);
    }
  }

  /** The j-th kept entry comes from the j-th kept row. */
  lemma {:induction false} KeepAt<T>(s: seq<T>, m: seq<bool>)
    requires |s| == |m|
    ensures |Keep(s, m)| == |KeptRows(m)|
    ensures forall j :: 0 <= j < |KeptRows(m)| ==> Keep(s, m)[j] == s[KeptRows(m)[j]]
    decreases |s|
  {
    if s != [] {
      var n := |s| - 1;
      KeepAt(s[..n], m[..n]);
      forall j | 0 <= j < |KeptRows(m[..n])|
        ensures s[..n][KeptRows(m[..n])[j]] == s[KeptRows(m[..n])[j]]
      {
      }
    }
  }

  /** With no row marked, nothing is dropped. */
  lemma {:induction false} KeepNone<T>(s: seq<T>, m: seq<bool>)
    requires |s| == |m| && forall y :: 0 <= y < |m| ==> !m[y]
    ensures Count(m) == 0 && Keep(s, m) == s
    decreases |s|
  {
    if s != [] {
      var n := |s| - 1;
      KeepNone(s[..n], m[..n]);
      assert s == s[..n] + [s[n]];
    }
  }

  /** After clearing, the top `Count` rows are EMPTY and below them the
      surviving rows follow in their old order, whole: row `Count + j` of
      the result is the j-th row that was not full. */
  lemma ClearedRows(cells: Cells, rows: nat)
    requires Shaped(cells, |cells|, rows)
    ensures var m := FullMask(cells, rows); var r := Cleared(cells, rows);
      forall x, y :: 0 <= x < |cells| && 0 <= y < rows ==>
        r[x][y] == if y < Count(m) then Empty else cells[x][KeptRows(m)[y - Count(m)]]
  {
    var m := FullMask(cells, rows);
    var r := Cleared(cells, rows);
    forall x, y | 0 <= x < |cells| && 0 <= y < rows
      ensures r[x][y] == if y < Count(m) then Empty else cells[x][KeptRows(m)[y - Count(m)]]
    {
      KeepAt(cells[x], m);
    }
  }

  /** On a grid at least one column wide, clearing leaves no full row. */
  lemma ClearedHasNoFullRow(cells: Cells, rows: nat)
    requires |cells| >= 1 && Shaped(cells, |cells|, rows)
    ensures NoFullRow(Cleared(cells, rows), rows)
  {
    var m := FullMask(cells, rows);
    var r := Cleared(cells, rows);
    ClearedRows(cells, rows);
    forall y | 0 <= y < rows
      ensures !FullRow(r, y)
    {
      if y < Count(m) {
        assert Get(r, Point(0, y)) == Empty;
      } else {
        var k := KeptRows(m)[y - Count(m)];
        assert !FullRow(cells, k);
        var x :| 0 <= x < |cells| && Get(cells, Point(x, k)) == Empty;
        assert Get(r, Point(x, y)) == Empty;
      }
    }
  }

  /** Clearing twice clears nothing more. */
  lemma ClearedIdempotent(cells: Cells, rows: nat)
    requires |cells| >= 1 && Shaped(cells, |cells|, rows)
    ensures Count(FullMask(Cleared(cells, rows), rows)) == 0
    ensures Cleared(Cleared(cells, rows), rows) == Cleared(cells, rows)
  {
    var r := Cleared(cells, rows);
    ClearedHasNoFullRow(cells, rows);
    var m := FullMask(r, rows);
    forall x | 0 <= x < |r|
      ensures Keep(r[x], m) == r[x]
    {
      KeepNone(r[x], m);
    }
    KeepNone(r[0], m);
    forall x | 0 <= x < |r|
      ensures Cleared(r, rows)[x] == r[x]
    {
      assert Blank(0) == [];
    }
  }

  /** Clearing only moves cells within their column and adds EMPTY ones:
      it brings in no colour and no undefined cell. */
  lemma ClearedKeepsKinds(cells: Cells, rows: nat)
    requires Shaped(cells, |cells|, rows)
    ensures NoColors(cells) ==> NoColors(Cleared(cells, rows))
    ensures Defined(cells) ==> Defined(Cleared(cells, rows))
  {
    var r := Cleared(cells, rows);
    forall q | InBounds(r, q)
      ensures Get(r, q) == Empty || exists y :: 0 <= y < rows && Get(cells, Point(q.x, y)) == Get(r, q)
    {
      var col := cells[q.x];
      var kept := Keep(col, FullMask(cells, rows));
      if r[q.x][q.y] in kept {
        var y :| 0 <= y < |col| && col[y] == r[q.x][q.y];
        assert Get(cells, Point(q.x, y)) == col[y];
      }
    }
  }

  /** A mask whose marked rows all lie in `rs` marks at most `|rs|` rows. */
  lemma {:induction false} CountAtMost(m: seq<bool>, rs: set<int>)
    requires forall y :: 0 <= y < |m| && m[y] ==> y in rs
    ensures Count(m) <= |rs|
    decreases |m|
  {
    if m != [] {
      var n := |m| - 1;
      if m[n] {
        CountAtMost(m[..n], rs - {n});
      } else {
        CountAtMost(m[..n], rs);
      }
    }
  }

  /** A row that fills up when the piece locks holds one of its cells. */
  lemma LockedFullRowHoldsPiece(cells: Cells, p: Piece, y: int)
    requires Within(cells, p.position)
    requires !FullRow(Background(cells, p), y)
    requires FullRow(Paint(cells, p.position, Dropped), y)
    ensures exists i :: 0 <= i < |p.position| && p.position[i].y == y
  {
    var back := Background(cells, p);
    var x :| 0 <= x < |back| && Get(back, Point(x, y)) == Empty;
    assert Point(x, y) in p.position;
    var i :| 0 <= i < |p.position| && p.position[i] == Point(x, y);
  }

  /** When no row of the background is full, a lock completes at most four
      rows (only rows holding one of the piece's cells can fill up), so the
      `default` case of the scoring table is never reached. */
  lemma LockClearsAtMostFour(cells: Cells, p: Piece, rows: nat)
    requires Within(cells, p.position) && |p.position| == 4
    requires NoFullRow(Background(cells, p), rows)
    ensures Count(FullMask(Paint(cells, p.position, Dropped), rows)) <= 4
  {
    var ps := p.position;
    var ys := {ps[0].y, ps[1].y, ps[2].y, ps[3].y};
    var m := FullMask(Paint(cells, ps, Dropped), rows);
    forall y | 0 <= y < rows && m[y]
      ensures y in ys
    {
      LockedFullRowHoldsPiece(cells, p, y);
    }
    CountAtMost(m, ys);
    assert |ys| <= 4 by {
      assert ys == {ps[0].y} + {ps[1].y} + {ps[2].y} + {ps[3].y};
    }
  }
}
