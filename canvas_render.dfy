/**
  The canvas form of a rendered glyph (src/preview/terminal/ui/canvas_render.rs): a
  cursor over a `RenderResult` that yields a canvas point for every non-blank char.
  Canvas sizes are whole numbers held in `f64` by the source; here they are integers.
*/
module CanvasRender {
  import opened Wrappers
  import opened RowMajor
  import opened TerminalRender

  function NotBlank(c: char): bool { c != ' ' }

  /** What the cursor needs of the chars: every row as long as the first, and no rows
      when the first is empty (otherwise the first visit, at (0, 0), is out of bounds). */
  predicate Indexable(chars: seq<seq<char>>) {
    Covers(chars, Width(chars)) && (Width(chars) == 0 ==> chars == [])
  }

  /** How many columns of each row `next` indexes: the first row's length, or just
      column 0 when that length is 0 (the first visit is (0, 0) and every later step
      wraps to the next row). */
  function VisitedColumns(chars: seq<seq<char>>): nat {
    if Width(chars) == 0 then 1 else Width(chars)
  }

  /** `self.chars.0[self.y][self.x]` is out of bounds, and the source panics, exactly
      when some row is shorter than the columns visited in it: those are the inputs
      `Indexable` excludes. */
  lemma PanicsExactlyWhenNotIndexable(chars: seq<seq<char>>)
    ensures !Indexable(chars) <==> exists y | 0 <= y < |chars| :: |chars[y]| < VisitedColumns(chars)
  {
    if Width(chars) == 0 && chars != [] {
      assert |chars[0]| < VisitedColumns(chars);
    }
  }

  /** The non-blank cells of a render result, row-major. */
  function InkCells(chars: seq<seq<char>>): seq<(nat, nat)>
    requires Indexable(chars)
  {
    OnCells(chars, Width(chars), NotBlank, 0, 0)
  }

  /** The ink cells are exactly the non-blank chars, each once, row-major; the column
      bound is the first row's length and the row bound is the number of rows. */
  lemma InkCellsExact(chars: seq<seq<char>>)
    requires Indexable(chars)
    ensures SoundFrom(InkCells(chars), chars, Width(chars), NotBlank, 0, 0)
    ensures Increasing(InkCells(chars))
    ensures CompleteFrom(InkCells(chars), chars, Width(chars), NotBlank, 0, 0)
  {
    OnCellsSound(chars, Width(chars), NotBlank, 0, 0);
    OnCellsIncreasing(chars, Width(chars), NotBlank, 0, 0);
    OnCellsComplete(chars, Width(chars), NotBlank, 0, 0);
  }

  /** Where a cell lands: shifted by the padding, with y flipped, since the canvas
      origin is at the bottom left. */
  function Point(hPad: int, vPad: int, height: int, cell: (nat, nat)): (int, int) {
    (cell.1 + hPad, height - cell.0 - vPad)
  }

  class RenderResultPoints {
    var start: bool
    var x: nat
    var y: nat
    const height: int
    const hPad: int
    const vPad: int
    const chars: seq<seq<char>>

    ghost predicate Valid()
      reads this
    {
      Indexable(chars) && CursorAt(chars, Width(chars), start, y, x)
    }

    ghost function Pending(): seq<(nat, nat)>
      reads this
      requires Valid()
    {
      CursorPending(chars, Width(chars), NotBlank, start, y, x)
    }

    /** `RenderResultPoints::new`: centred on a `width` by `height` canvas, each padding
        rounded down. */
    constructor (chars: seq<seq<char>>, width: int, height: int)
      requires Indexable(chars)
      ensures Valid() && this.chars == chars && this.height == height && !start
      ensures 2 * hPad <= width - Width(chars) < 2 * hPad + 2
      ensures 2 * vPad <= height - Height(chars) < 2 * vPad + 2
      ensures Pending() == InkCells(chars)
      ensures hPad == (width - Width(chars)) / 2 && vPad == (height - Height(chars)) / 2
    {
      this.hPad := (width - Width(chars)) / 2;
      this.vPad := (height - Height(chars)) / 2;
      this.height := height;
      this.chars := chars;
      start := false;
      x := 0;
      y := 0;
    }

    /** `next_x_y`: the first call only sets `start`, later calls advance one column and
        wrap to the next row. True while on a row. */
    method NextXY() returns (onGrid: bool)
      requires Valid()
      modifies this
      ensures Valid()
      ensures start
      ensures !old(start) ==> x == 0 && y == 0
      ensures old(start) && old(x) + 1 < Width(chars) ==> x == old(x) + 1 && y == old(y)
      ensures old(start) && old(x) + 1 >= Width(chars) ==> x == 0 && y == old(y) + 1
      ensures onGrid <==> y < |chars|
      ensures onGrid ==> old(Pending()) == (if NotBlank(chars[y][x]) then [(y, x)] else []) + Pending()
      ensures !onGrid ==> old(Pending()) == [] && Pending() == []
    {
      AdvanceStep(chars, Width(chars), NotBlank, start, y, x);
      if start {
        x := x + 1;
        if x >= Width(chars) {
          y := y + 1;
          x := 0;
        }
      } else {
        start := true;
      }
      onGrid := y < |chars|;
    }

    /** `Iterator::next`: the next non-blank cell as a canvas point, or None. */
    method Next() returns (r: Option<(int, int)>)
      requires Valid()
      modifies this
      ensures Valid()
      ensures old(Pending()) == [] ==> r.None? && Pending() == []
      ensures old(Pending()) != [] ==>
        r == Some(Point(hPad, vPad, height, old(Pending())[0])) && Pending() == old(Pending())[1..]
    {
      ghost var before := Pending();
      while true
        invariant Valid() && Pending() == before
        decreases (if start then |chars| - y else |chars| + 1), Width(chars) - x
      {
        var onGrid := NextXY();
        if !onGrid {
          return None;
        }
        if chars[y][x] != ' ' {
          return Some((x + hPad, height - y - vPad));
        }
      }
    }
  }

  /** One drained point: it is the point of the next pending cell, and the cells still
      pending after it are the rest. */
  lemma DrainStep(points: seq<(int, int)>, cells: seq<(nat, nat)>, pending: seq<(nat, nat)>,
                  hPad: int, vPad: int, height: int, p: (int, int))
    requires |points| <= |cells| && pending == cells[|points|..] && pending != []
    requires p == Point(hPad, vPad, height, pending[0])
    requires forall i | 0 <= i < |points| :: points[i] == Point(hPad, vPad, height, cells[i])
    ensures |points + [p]| <= |cells| && pending[1..] == cells[|points + [p]|..]
    ensures forall i | 0 <= i < |points + [p]| :: (points + [p])[i] == Point(hPad, vPad, height, cells[i])
  {
  }

  /** `Shape::points`, drained: one point per non-blank char, in row-major order. */
  method Points(chars: seq<seq<char>>, width: int, height: int) returns (points: seq<(int, int)>)
    requires Indexable(chars)
    ensures |points| == |InkCells(chars)|
    ensures forall i | 0 <= i < |points| ::
      points[i] == Point((width - Width(chars)) / 2, (height - Height(chars)) / 2, height, InkCells(chars)[i])
  {
    var cursor := new RenderResultPoints(chars, width, height);
    ghost var cells := InkCells(chars);
    ghost var hPad, vPad := (width - Width(chars)) / 2, (height - Height(chars)) / 2;
    points := [];
    while true
      invariant cursor.Valid() && cursor.chars == chars && cursor.height == height
      invariant cursor.hPad == hPad && cursor.vPad == vPad
      invariant |points| <= |cells|
      invariant cursor.Pending() == cells[|points|..]
      invariant forall i | 0 <= i < |points| :: points[i] == Point(hPad, vPad, height, cells[i])
      decreases |cursor.Pending()|
    {
      ghost var pending := cursor.Pending();
      var r := cursor.Next();
      if r.None? {
        break;
      }
      DrainStep(points, cells, pending, hPad, vPad, height, r.value);
      points := points + [r.value];
    }
  }
}
