/**
  The neighbour-sampling driver of the terminal preview
  (src/preview/terminal/render/mod.rs): every pixel of a gray bitmap is handed to a
  per-pixel rule together with its up, left, right and down samples, zero past the
  edges; the result is a grid of whatever the rule yields.
*/
module TerminalRender {
  import opened Utf8

  /** The five arguments of `gray_to_char`. */
  datatype Samples = Samples(up: byte, left: byte, gray: byte, right: byte, down: byte)

  /** `bitmap.get(0).map(|row| row.len()).unwrap_or_default()`. */
  function FirstWidth<T>(grid: seq<seq<T>>): (w: nat)
    ensures grid != [] ==> w == |grid[0]|
    ensures grid == [] ==> w == 0
  {
    if grid == [] then 0 else |grid[0]|
  }

  /** Every row is at least as long as the first, so no index of `render` panics. */
  predicate WellShaped(bitmap: seq<seq<byte>>) {
    forall row | 0 <= row < |bitmap| :: |bitmap[row]| >= FirstWidth(bitmap)
  }

  /** The pixel at (row, col) with zero padding outside the first-row-wide grid; the
      reference the samples are measured against. */
  function Pixel(bitmap: seq<seq<byte>>, row: int, col: int): byte
    requires WellShaped(bitmap)
  {
    if 0 <= row < |bitmap| && 0 <= col < FirstWidth(bitmap) then bitmap[row][col] else 0
  }

  /** The samples `render` takes at (row, col), as written: the right sample re-reads the
      centre pixel. */
  function SamplesAt(bitmap: seq<seq<byte>>, row: nat, col: nat): Samples
    requires WellShaped(bitmap) && row < |bitmap| && col < FirstWidth(bitmap)
  {
    var height, width := |bitmap|, FirstWidth(bitmap);
    var gray := bitmap[row][col];
    var l := if col > 0 then bitmap[row][col - 1] else 0;
    var r := if col < width - 1 then bitmap[row][col] else 0;
    var u := if row > 0 then bitmap[row - 1][col] else 0;
    var d := if row < height - 1 then bitmap[row + 1][col] else 0;
    Samples(u, l, gray, r, d)
  }

  /** The centre, up, left and down samples are the zero-padded neighbours; the right
      sample is the centre pixel except in the last column, where it is 0. */
  lemma SamplesAreNeighbours(bitmap: seq<seq<byte>>, row: nat, col: nat)
    requires WellShaped(bitmap) && row < |bitmap| && col < FirstWidth(bitmap)
    ensures SamplesAt(bitmap, row, col).gray == Pixel(bitmap, row, col)
    ensures SamplesAt(bitmap, row, col).up == Pixel(bitmap, row - 1, col)
    ensures SamplesAt(bitmap, row, col).left == Pixel(bitmap, row, col - 1)
    ensures SamplesAt(bitmap, row, col).down == Pixel(bitmap, row + 1, col)
    ensures SamplesAt(bitmap, row, col).right
            == if col + 1 < FirstWidth(bitmap) then Pixel(bitmap, row, col) else 0
  {
  }

  /** The right neighbour is not looked at: two bitmaps that differ only to the right of
      a pixel give that pixel the same samples. */
  lemma RightNeighbourUnread(a: seq<seq<byte>>, b: seq<seq<byte>>, row: nat, col: nat)
    requires WellShaped(a) && WellShaped(b)
    requires |a| == |b| && FirstWidth(a) == FirstWidth(b)
    requires row < |a| && col + 1 < FirstWidth(a)
    requires forall i, j | 0 <= i < |a| && 0 <= j < FirstWidth(a) && (i, j) != (row, col + 1) ::
      a[i][j] == b[i][j]
    ensures SamplesAt(a, row, col) == SamplesAt(b, row, col)
  {
    assert a[row][col] == b[row][col];
    if col > 0 { assert a[row][col - 1] == b[row][col - 1]; }
    if row > 0 { assert a[row - 1][col] == b[row - 1][col]; }
    if row + 1 < |a| { assert a[row + 1][col] == b[row + 1][col]; }
  }

  /** `CharBitmapRender::render`: one output row per bitmap row, each as wide as the first
      bitmap row, every cell the rule applied to that cell's samples. */
  function Render<P>(bitmap: seq<seq<byte>>, rule: Samples -> P): (r: seq<seq<P>>)
    requires WellShaped(bitmap)
    ensures |r| == |bitmap|
    ensures forall row | 0 <= row < |r| :: |r[row]| == FirstWidth(bitmap)
    ensures forall row, col | 0 <= row < |r| && 0 <= col < |r[row]| ::
      r[row][col] == rule(SamplesAt(bitmap, row, col))
  {
    seq(|bitmap|, row requires 0 <= row < |bitmap| =>
      seq(FirstWidth(bitmap), col requires 0 <= col < FirstWidth(bitmap) =>
        rule(SamplesAt(bitmap, row, col))))
  }

  // ------------------------------------------------------------ RenderResult

  /** `RenderResult::height`. */
  function Height(result: seq<seq<char>>): nat { |result| }

  /** `RenderResult::width`: the first row's length, 0 without rows. */
  function Width(result: seq<seq<char>>): nat { FirstWidth(result) }

  /** A rendered bitmap has the bitmap's height and first-row width. */
  lemma RenderDimensions(bitmap: seq<seq<byte>>, rule: Samples -> char)
    requires WellShaped(bitmap)
    ensures Height(Render(bitmap, rule)) == |bitmap|
    ensures Width(Render(bitmap, rule)) == FirstWidth(bitmap)
  {
  }

  /** The text `Display` writes: each row's chars followed by a newline. */
  function Text(result: seq<seq<char>>): string {
    if result == [] then [] else result[0] + "\n" + Text(result[1..])
  }

  function SumLengths(rows: seq<seq<char>>): nat {
    if rows == [] then 0 else |rows[0]| + SumLengths(rows[1..])
  }

  /** The text is as long as all rows together plus one newline per row. */
  lemma {:induction false} TextLength(result: seq<seq<char>>)
    ensures |Text(result)| == SumLengths(result) + |result|
  {
    if result != [] {
      TextLength(result[1..]);
    }
  }

  lemma TextAppend(rows: seq<seq<char>>, row: seq<char>)
    ensures Text(rows + [row]) == Text(rows) + row + "\n"
  {
    if rows == [] {
      assert ([] + [row])[1..] == [];
    } else {
      assert (rows + [row])[1..] == rows[1..] + [row];
      TextAppend(rows[1..], row);
    }
  }

  /** `Display::fmt`: writes char by char into the formatter, here an output string. */
  method Display(result: seq<seq<char>>) returns (out: string)
    ensures out == Text(result)
  {
    out := [];
    var i := 0;
    while i < |result|
      invariant 0 <= i <= |result|
      invariant out == Text(result[..i])
    {
      var line := result[i];
      var j := 0;
      while j < |line|
        invariant 0 <= j <= |line|
        invariant out == Text(result[..i]) + line[..j]
      {
        out := out + [line[j]];
        j := j + 1;
        assert line[..j] == line[..j - 1] + [line[j - 1]];
      }
      assert line[..j] == line;
      out := out + "\n";
      assert result[..i + 1] == result[..i] + [line];
      TextAppend(result[..i], line);
      i := i + 1;
    }
    assert result[..i] == result;
  }

  /** The lines of a text, each ended by a newline; a last line without one is kept. */
  function Lines(s: string): seq<string>
    decreases |s|
  {
    if s == [] then []
    else
      var i := NewlineIndex(s);
      if i == |s| then [s] else [s[..i]] + Lines(s[i + 1..])
  }

  /** Index of the first newline, or the length when there is none. */
  function NewlineIndex(s: string): (i: nat)
    ensures i <= |s|
    ensures i < |s| ==> s[i] == '\n'
    ensures forall k | 0 <= k < i :: s[k] != '\n'
  {
    if s == [] then 0 else if s[0] == '\n' then 0 else 1 + NewlineIndex(s[1..])
  }

  predicate NoNewline(row: seq<char>) {
    forall k | 0 <= k < |row| :: row[k] != '\n'
  }

  /** Splitting the written text at its newlines gives back the rows, when no char of the
      grid is itself a newline. */
  lemma {:induction false} LinesOfText(result: seq<seq<char>>)
    requires forall row | 0 <= row < |result| :: NoNewline(result[row])
    ensures Lines(Text(result)) == result
  {
    if result != [] {
      var s := Text(result);
      var row := result[0];
      assert NoNewline(row);
      assert s == row + ("\n" + Text(result[1..]));
      NewlineAfter(row, Text(result[1..]));
      assert s[..|row|] == row;
      assert s[|row| + 1..] == Text(result[1..]);
      LinesOfText(result[1..]);
    }
  }

  lemma NewlineAfter(row: seq<char>, rest: string)
    requires NoNewline(row)
    ensures NewlineIndex(row + ("\n" + rest)) == |row|
  {
    var s := row + ("\n" + rest);
    assert s[|row|] == '\n';
    assert forall k | 0 <= k < |row| :: s[k] == row[k];
  }
}
