/**
  The order in which the two canvas cursors of the terminal preview visit a grid
  (src/preview/terminal/ui/cache.rs and canvas_render.rs): row by row, left to right,
  yielding the cells a test accepts.
*/
module RowMajor {
  /** Every row holds at least `cols` cells. */
  predicate Covers<T>(grid: seq<seq<T>>, cols: nat) {
    forall row | 0 <= row < |grid| :: |grid[row]| >= cols
  }

  /** Row-major order on (row, column) pairs. */
  predicate Before(a: (nat, nat), b: (nat, nat)) {
    a.0 < b.0 || (a.0 == b.0 && a.1 < b.1)
  }

  /** The accepted cells at or after (y, x), in row-major order; an `x` past the last
      column continues with the next row. */
  function OnCells<T>(grid: seq<seq<T>>, cols: nat, on: T -> bool, y: nat, x: nat): seq<(nat, nat)>
    requires Covers(grid, cols)
    decreases |grid| - y, cols - x
  {
    if y >= |grid| || cols == 0 then []
    else if x >= cols then OnCells(grid, cols, on, y + 1, 0)
    else
      var rest := OnCells(grid, cols, on, y, x + 1);
      if on(grid[y][x]) then [(y, x)] + rest else rest
  }

  /** The cell `c` is in the grid, accepted, and at or after (y, x). */
  predicate SoundCell<T>(c: (nat, nat), grid: seq<seq<T>>, cols: nat, on: T -> bool, y: nat, x: nat)
    requires Covers(grid, cols)
  {
    c.0 < |grid| && c.1 < cols && on(grid[c.0][c.1]) && (c.0 > y || (c.0 == y && c.1 >= x))
  }

  /** Each cell of `r` is in the grid, accepted, and at or after (y, x). */
  predicate SoundFrom<T>(r: seq<(nat, nat)>, grid: seq<seq<T>>, cols: nat, on: T -> bool, y: nat, x: nat)
    requires Covers(grid, cols)
  {
    forall i | 0 <= i < |r| :: SoundCell(r[i], grid, cols, on, y, x)
  }

  /** `r` is strictly increasing in row-major order, so no cell comes twice. */
  predicate Increasing(r: seq<(nat, nat)>) {
    forall i, j | 0 <= i < j < |r| :: Before(r[i], r[j])
  }

  /** Every accepted cell at or after (y, x) is in `r`. */
  predicate CompleteFrom<T>(r: seq<(nat, nat)>, grid: seq<seq<T>>, cols: nat, on: T -> bool, y: nat, x: nat)
    requires Covers(grid, cols)
  {
    forall row, col | y <= row < |grid| && 0 <= col < cols && (row > y || col >= x)
      && on(grid[row][col]) :: (row, col) in r
  }

  /** Every cell the walk yields is in the grid, accepted, and at or after (y, x). */
  lemma {:induction false} OnCellsSound<T>(grid: seq<seq<T>>, cols: nat, on: T -> bool, y: nat, x: nat)
    requires Covers(grid, cols)
    ensures SoundFrom(OnCells(grid, cols, on, y, x), grid, cols, on, y, x)
    decreases |grid| - y, cols - x
  {
    if y >= |grid| || cols == 0 {
    } else if x >= cols {
      OnCellsSound(grid, cols, on, y + 1, 0);
    } else {
      OnCellsSound(grid, cols, on, y, x + 1);
      SoundStep(grid, cols, on, y, x);
    }
  }

  lemma SoundStep<T>(grid: seq<seq<T>>, cols: nat, on: T -> bool, y: nat, x: nat)
    requires Covers(grid, cols) && y < |grid| && x < cols
    requires SoundFrom(OnCells(grid, cols, on, y, x + 1), grid, cols, on, y, x + 1)
    ensures SoundFrom(OnCells(grid, cols, on, y, x), grid, cols, on, y, x)
  {
    var rest := OnCells(grid, cols, on, y, x + 1);
    var r := OnCells(grid, cols, on, y, x);
    var head := if on(grid[y][x]) then [(y, x)] else [];
    assert r == head + rest;
    forall i | 0 <= i < |r|
      ensures SoundCell(r[i], grid, cols, on, y, x)
    {
      if i < |head| {
        assert r[i] == (y, x);
      } else {
        assert r[i] == rest[i - |head|];
        assert SoundCell(rest[i - |head|], grid, cols, on, y, x + 1);
      }
    }
  }

  /** The walk is strictly increasing in row-major order. */
  lemma {:induction false} OnCellsIncreasing<T>(grid: seq<seq<T>>, cols: nat, on: T -> bool, y: nat, x: nat)
    requires Covers(grid, cols)
    ensures Increasing(OnCells(grid, cols, on, y, x))
    decreases |grid| - y, cols - x
  {
    if y >= |grid| || cols == 0 {
    } else if x >= cols {
      OnCellsIncreasing(grid, cols, on, y + 1, 0);
    } else {
      OnCellsIncreasing(grid, cols, on, y, x + 1);
      OnCellsSound(grid, cols, on, y, x + 1);
      IncreasingStep(grid, cols, on, y, x);
    }
  }

  lemma IncreasingStep<T>(grid: seq<seq<T>>, cols: nat, on: T -> bool, y: nat, x: nat)
    requires Covers(grid, cols) && y < |grid| && x < cols
    requires Increasing(OnCells(grid, cols, on, y, x + 1))
    requires SoundFrom(OnCells(grid, cols, on, y, x + 1), grid, cols, on, y, x + 1)
    ensures Increasing(OnCells(grid, cols, on, y, x))
  {
    var rest := OnCells(grid, cols, on, y, x + 1);
    if on(grid[y][x]) {
      forall k | 0 <= k < |rest| ensures Before((y, x), rest[k]) {
        assert SoundCell(rest[k], grid, cols, on, y, x + 1);
      }
      ConsIncreasing((y, x), rest);
    }
  }

  /** A cell before every cell of an increasing walk can be put in front of it. */
  lemma ConsIncreasing(c: (nat, nat), rest: seq<(nat, nat)>)
    requires Increasing(rest)
    requires forall k | 0 <= k < |rest| :: Before(c, rest[k])
    ensures Increasing([c] + rest)
  {
    var r := [c] + rest;
    forall i, j | 0 <= i < j < |r|
      ensures Before(r[i], r[j])
    {
      assert r[j] == rest[j - 1];
      if i > 0 {
        assert r[i] == rest[i - 1];
      }
    }
  }

  /** Every accepted cell at or after (y, x) is yielded. */
  lemma {:induction false} OnCellsComplete<T>(grid: seq<seq<T>>, cols: nat, on: T -> bool, y: nat, x: nat)
    requires Covers(grid, cols)
    ensures CompleteFrom(OnCells(grid, cols, on, y, x), grid, cols, on, y, x)
    decreases |grid| - y, cols - x
  {
    if y >= |grid| || cols == 0 {
    } else if x >= cols {
      OnCellsComplete(grid, cols, on, y + 1, 0);
    } else {
      OnCellsComplete(grid, cols, on, y, x + 1);
    }
  }

  /** One cell of the walk: the cell itself if accepted, then the rest of its row. */
  lemma OnCellsStep<T>(grid: seq<seq<T>>, cols: nat, on: T -> bool, y: nat, x: nat)
    requires Covers(grid, cols) && y < |grid| && x < cols
    ensures OnCells(grid, cols, on, y, x)
            == (if on(grid[y][x]) then [(y, x)] else []) + OnCells(grid, cols, on, y, x + 1)
  {
  }

  /** Past the last column the walk continues at the start of the next row. */
  lemma OnCellsWrap<T>(grid: seq<seq<T>>, cols: nat, on: T -> bool, y: nat, x: nat)
    requires Covers(grid, cols) && x >= cols
    ensures OnCells(grid, cols, on, y, x) == OnCells(grid, cols, on, y + 1, 0)
  {
  }

  /** Past the last row nothing is left. */
  lemma OnCellsPast<T>(grid: seq<seq<T>>, cols: nat, on: T -> bool, y: nat, x: nat)
    requires Covers(grid, cols) && y >= |grid|
    ensures OnCells(grid, cols, on, y, x) == []
  {
  }

  // ------------------------------------------------------------ a cursor over the walk

  /** Where a `next_x_y` cursor may stand: inside a row (column 0 when there are no
      columns, and then no rows), and at (0, 0) before its first step. */
  predicate CursorAt<T>(grid: seq<seq<T>>, cols: nat, start: bool, y: nat, x: nat) {
    Covers(grid, cols)
    && (cols == 0 ==> x == 0 && grid == [])
    && (cols > 0 ==> x < cols)
    && (!start ==> x == 0 && y == 0)
  }

  /** The cells a cursor has still to yield: everything after (y, x) once started,
      the whole walk before. */
  function CursorPending<T>(grid: seq<seq<T>>, cols: nat, on: T -> bool, start: bool, y: nat, x: nat): seq<(nat, nat)>
    requires Covers(grid, cols)
  {
    if start then OnCells(grid, cols, on, y, x + 1) else OnCells(grid, cols, on, 0, 0)
  }

  /** One step of the cursor, as (row, column): the first step stays put, later steps
      move one column right and wrap to the start of the next row. */
  function Advanced(cols: nat, start: bool, y: nat, x: nat): (nat, nat) {
    if !start then (y, x)
    else if x + 1 < cols then (y, x + 1)
    else (y + 1, 0)
  }

  /** A step keeps the cursor in place, and either lands on a row and yields that cell
      first, or runs past the last row with nothing left before or after it. */
  lemma AdvanceStep<T>(grid: seq<seq<T>>, cols: nat, on: T -> bool, start: bool, y: nat, x: nat)
    requires CursorAt(grid, cols, start, y, x)
    ensures CursorAt(grid, cols, true, Advanced(cols, start, y, x).0, Advanced(cols, start, y, x).1)
    ensures var (y1, x1) := Advanced(cols, start, y, x);
      y1 < |grid| ==>
        x1 < cols &&
        CursorPending(grid, cols, on, start, y, x)
          == (if on(grid[y1][x1]) then [(y1, x1)] else []) + CursorPending(grid, cols, on, true, y1, x1)
    ensures var (y1, x1) := Advanced(cols, start, y, x);
      y1 >= |grid| ==>
        CursorPending(grid, cols, on, start, y, x) == [] && CursorPending(grid, cols, on, true, y1, x1) == []
  {
    var (y1, x1) := Advanced(cols, start, y, x);
    if start && x + 1 >= cols {
      OnCellsWrap(grid, cols, on, y, x + 1);
    }
    if y1 < |grid| {
      OnCellsStep(grid, cols, on, y1, x1);
    } else {
      OnCellsPast(grid, cols, on, y1, x1);
      OnCellsPast(grid, cols, on, y1, x1 + 1);
    }
  }
}
