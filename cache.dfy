/**
  The glyph cache of the terminal preview (src/preview/terminal/ui/cache.rs): the
  render types, the cache key and its derived order, the table of char renderers, the
  canvas shape with its point cursor, and the paragraph form of a rendered glyph.
  Canvas coordinates are whole numbers held in `f64` by the source; here they are
  integers, and `floor(a / 2.0)` is integer floor division.
*/
module Cache {
  import opened Wrappers
  import opened Text
  import opened RowMajor
  import opened TerminalRender
  import Ascii
  import Moon
  import Mono

  // ------------------------------------------------------------ render types

  datatype RenderType = AsciiLevel10 | AsciiLevel70 | Moon | Mono

  /** Position in the declaration, which the derived `Ord` follows. */
  function Rank(rt: RenderType): (n: nat)
    ensures n < 4
  {
    match rt
    case AsciiLevel10 => 0
    case AsciiLevel70 => 1
    case Moon => 2
    case Mono => 3
  }

  function CmpNat(a: nat, b: nat): Ordering {
    if a < b then Less else if a == b then Equal else Greater
  }

  function CmpRenderType(a: RenderType, b: RenderType): Ordering {
    CmpNat(Rank(a), Rank(b))
  }

  /** AsciiLevel10 < AsciiLevel70 < Moon < Mono, and these are all the render types. */
  lemma RenderTypeOrder(rt: RenderType)
    ensures CmpRenderType(AsciiLevel10, AsciiLevel70) == Less
    ensures CmpRenderType(AsciiLevel70, Moon) == Less
    ensures CmpRenderType(Moon, Mono) == Less
    ensures rt in {AsciiLevel10, AsciiLevel70, Moon, Mono}
  {
  }

  /** Ranks are distinct, so the derived order is total and agrees with equality. */
  lemma RankInjective(a: RenderType, b: RenderType)
    ensures Rank(a) == Rank(b) <==> a == b
    ensures CmpRenderType(a, b) == Equal <==> a == b
  {
  }

  // ------------------------------------------------------------ cache key

  newtype u32 = x: int | 0 <= x < 0x1_0000_0000

  datatype CacheKey = CacheKey(index: nat, rt: RenderType, height: u32, width: u32)

  /** The derived `Ord` of `CacheKey`: the fields compared in declaration order. */
  function CmpKey(a: CacheKey, b: CacheKey): (o: Ordering)
    ensures o == Equal <==> a == b
  {
    RankInjective(a.rt, b.rt);
    if a.index != b.index then CmpNat(a.index, b.index)
    else if a.rt != b.rt then CmpRenderType(a.rt, b.rt)
    else if a.height != b.height then CmpNat(a.height as nat, b.height as nat)
    else CmpNat(a.width as nat, b.width as nat)
  }

  /** The key order is lexicographic over (index, rt, height, width). */
  predicate LexLess(a: CacheKey, b: CacheKey) {
    a.index < b.index
    || (a.index == b.index && Rank(a.rt) < Rank(b.rt))
    || (a.index == b.index && a.rt == b.rt && a.height < b.height)
    || (a.index == b.index && a.rt == b.rt && a.height == b.height && a.width < b.width)
  }

  lemma CmpKeyIsLexicographic(a: CacheKey, b: CacheKey)
    ensures CmpKey(a, b) == Less <==> LexLess(a, b)
    ensures CmpKey(a, b) == Greater <==> LexLess(b, a)
  {
    RankInjective(a.rt, b.rt);
  }

  lemma CmpKeyTransitive(a: CacheKey, b: CacheKey, c: CacheKey)
    requires CmpKey(a, b) == Less && CmpKey(b, c) == Less
    ensures CmpKey(a, c) == Less
  {
    CmpKeyIsLexicographic(a, b);
    CmpKeyIsLexicographic(b, c);
    CmpKeyIsLexicographic(a, c);
  }

  // ------------------------------------------------------------ renderer tables

  /** A boxed char renderer. */
  datatype CharRender = AsciiRender(ascii: Ascii.AsciiRender) | MoonRender(moon: Moon.MoonRender)

  predicate ValidRender(r: CharRender) {
    match r
    case AsciiRender(a) => Ascii.Valid(a)
    case MoonRender(m) => Moon.Valid(m)
  }

  function GrayToChar(r: CharRender, s: Samples): char
    requires ValidRender(r)
  {
    match r
    case AsciiRender(a) => Ascii.GrayToChar(a, s)
    case MoonRender(m) => Moon.GrayToChar(m, s)
  }

  /** `CHAR_RENDERS`. */
  function CharRenders(): (m: map<RenderType, CharRender>)
    ensures m.Keys == {AsciiLevel10, AsciiLevel70, Moon}
    ensures Mono !in m
    ensures forall rt | rt in m :: ValidRender(m[rt])
  {
    map[AsciiLevel10 := AsciiRender(Ascii.New(Ascii.Level10)),
        AsciiLevel70 := AsciiRender(Ascii.New(Ascii.Level70)),
        Moon := MoonRender(Moon.New())]
  }

  /** `MONO_RENDER`: the bool renderer, the only one for `Mono`. */
  function MonoRender(): Mono.MonoRender { Mono.MonoRender }

  /** Each table entry renders with the matching rule. */
  lemma CharRendersEntries(s: Samples)
    ensures GrayToChar(CharRenders()[AsciiLevel10], s) == Ascii.GrayToChar(Ascii.New(Ascii.Level10), s)
    ensures GrayToChar(CharRenders()[AsciiLevel70], s) == Ascii.GrayToChar(Ascii.New(Ascii.Level70), s)
    ensures GrayToChar(CharRenders()[Moon], s) == Moon.GrayToChar(Moon.New(), s)
  {
  }

  // ------------------------------------------------------------ grid

  /** `grid::Grid`: `rows` rows of `cols` cells; a grid without columns has no rows. */
  datatype Grid<T> = Grid(rows: nat, cols: nat, cells: seq<seq<T>>)

  predicate ValidGrid<T>(g: Grid<T>) {
    |g.cells| == g.rows
    && (forall row | 0 <= row < g.rows :: |g.cells[row]| == g.cols)
    && (g.cols == 0 ==> g.rows == 0)
  }

  // ------------------------------------------------------------ canvas shape

  datatype GlyphCanvasShape = GlyphCanvasShape(hPad: int, vPad: int, canvasHeight: int, bitmap: Grid<bool>)

  /** `GlyphCanvasShape::new`: the glyph is centred, each padding rounded down. */
  function NewShape(bitmap: Grid<bool>, canvasWidth: int, canvasHeight: int): (s: GlyphCanvasShape)
    ensures 2 * s.hPad <= canvasWidth - bitmap.cols < 2 * s.hPad + 2
    ensures 2 * s.vPad <= canvasHeight - bitmap.rows < 2 * s.vPad + 2
    ensures s.canvasHeight == canvasHeight && s.bitmap == bitmap
  {
    GlyphCanvasShape((canvasWidth - bitmap.cols) / 2, (canvasHeight - bitmap.rows) / 2, canvasHeight, bitmap)
  }

  /** Where a cell lands on the canvas: shifted by the padding, with y flipped, since the
      canvas origin is at the bottom left. */
  function CanvasPoint(shape: GlyphCanvasShape, cell: (nat, nat)): (int, int) {
    (cell.1 + shape.hPad, shape.canvasHeight - cell.0 - shape.vPad)
  }

  function Identity(b: bool): bool { b }

  /** The set cells of the shape, row-major. */
  function SetCells(shape: GlyphCanvasShape): seq<(nat, nat)>
    requires ValidGrid(shape.bitmap)
  {
    OnCells(shape.bitmap.cells, shape.bitmap.cols, Identity, 0, 0)
  }

  /** The set cells are exactly the true cells of the bitmap, each once, row-major. */
  lemma SetCellsExact(shape: GlyphCanvasShape)
    requires ValidGrid(shape.bitmap)
    ensures SoundFrom(SetCells(shape), shape.bitmap.cells, shape.bitmap.cols, Identity, 0, 0)
    ensures Increasing(SetCells(shape))
    ensures CompleteFrom(SetCells(shape), shape.bitmap.cells, shape.bitmap.cols, Identity, 0, 0)
  {
    OnCellsSound(shape.bitmap.cells, shape.bitmap.cols, Identity, 0, 0);
    OnCellsIncreasing(shape.bitmap.cells, shape.bitmap.cols, Identity, 0, 0);
    OnCellsComplete(shape.bitmap.cells, shape.bitmap.cols, Identity, 0, 0);
  }

  /** `GlyphCanvasShapePoints`: a cursor over the shape's cells. */
  class GlyphCanvasShapePoints {
    const shape: GlyphCanvasShape
    var start: bool
    var x: nat
    var y: nat

    ghost predicate Valid()
      reads this
    {
      ValidGrid(shape.bitmap) && CursorAt(shape.bitmap.cells, shape.bitmap.cols, start, y, x)
    }

    /** The points still to come, as cells. */
    ghost function Pending(): seq<(nat, nat)>
      reads this
      requires Valid()
    {
      CursorPending(shape.bitmap.cells, shape.bitmap.cols, Identity, start, y, x)
    }

    /** `GlyphCanvasShapePoints::new`. */
    constructor (shape: GlyphCanvasShape)
      requires ValidGrid(shape.bitmap)
      ensures Valid() && this.shape == shape && !start
      ensures Pending() == SetCells(shape)
    {
      this.shape := shape;
      start := false;
      x := 0;
      y := 0;
    }

    /** `next_x_y`: the first call only sets `start` and stays at (0, 0); later calls
        move one column right, wrapping to the next row. True while on a row. */
    method NextXY() returns (onGrid: bool)
      requires Valid()
      modifies this
      ensures Valid()
      ensures start
      ensures !old(start) ==> x == 0 && y == 0
      ensures old(start) && old(x) + 1 < shape.bitmap.cols ==> x == old(x) + 1 && y == old(y)
      ensures old(start) && old(x) + 1 >= shape.bitmap.cols ==> x == 0 && y == old(y) + 1
      ensures onGrid <==> y < shape.bitmap.rows
      ensures onGrid ==> old(Pending()) == (if shape.bitmap.cells[y][x] then [(y, x)] else []) + Pending()
      ensures !onGrid ==> old(Pending()) == [] && Pending() == []
    {
      AdvanceStep(shape.bitmap.cells, shape.bitmap.cols, Identity, start, y, x);
      if start {
        x := x + 1;
        if x >= shape.bitmap.cols {
          y := y + 1;
          x := 0;
        }
      } else {
        start := true;
      }
      onGrid := y < shape.bitmap.rows;
    }

    /** `Iterator::next`: the next set cell as a canvas point, or None after the last. */
    method Next() returns (r: Option<(int, int)>)
      requires Valid()
      modifies this
      ensures Valid()
      ensures old(Pending()) == [] ==> r.None? && Pending() == []
      ensures old(Pending()) != [] ==>
        r == Some(CanvasPoint(shape, old(Pending())[0])) && Pending() == old(Pending())[1..]
    {
      ghost var before := Pending();
      while true
        invariant Valid() && Pending() == before
        decreases (if start then shape.bitmap.rows - y else shape.bitmap.rows + 1),
                  shape.bitmap.cols - x
      {
        var onGrid := NextXY();
        if !onGrid {
          return None;
        }
        if shape.bitmap.cells[y][x] {
          return Some(CanvasPoint(shape, (y, x)));
        }
      }
    }
  }

  /** `Shape::draw` without the painter: every point the cursor yields, in order. */
  method Points(shape: GlyphCanvasShape) returns (points: seq<(int, int)>)
    requires ValidGrid(shape.bitmap)
    ensures |points| == |SetCells(shape)|
    ensures forall i | 0 <= i < |points| :: points[i] == CanvasPoint(shape, SetCells(shape)[i])
  {
    var cursor := new GlyphCanvasShapePoints(shape);
    ghost var cells := SetCells(shape);
    points := [];
    while true
      invariant cursor.Valid() && cursor.shape == shape
      invariant |points| <= |cells|
      invariant cursor.Pending() == cells[|points|..]
      invariant forall i | 0 <= i < |points| :: points[i] == CanvasPoint(shape, cells[i])
      decreases |cursor.Pending()|
    {
      ghost var pending := cursor.Pending();
      var r := cursor.Next();
      if r.None? {
        break;
      }
      assert pending[0] == cells[|points|];
      assert cells[|points|..][1..] == cells[|points| + 1..];
      points := points + [r.value];
    }
  }

  // ------------------------------------------------------------ paragraph

  datatype GlyphParagraph = GlyphParagraph(lines: seq<string>)

  /** `GlyphParagraph::new`: one line per grid row, holding that row's chars. */
  function NewParagraph(bitmap: Grid<char>): (p: GlyphParagraph)
    requires ValidGrid(bitmap)
    ensures |p.lines| == bitmap.rows
    ensures forall i | 0 <= i < bitmap.rows :: p.lines[i] == bitmap.cells[i] && |p.lines[i]| == bitmap.cols
  {
    GlyphParagraph(seq(bitmap.rows, i requires 0 <= i < bitmap.rows => bitmap.cells[i]))
  }
}
