/**
  The ASCII-ramp rule (src/preview/terminal/render/ascii.rs): a gray value picks one of
  L ramp chars by `floor(gray * L / 256)`. The float multiplier L/256 is dyadic, so the
  product is exact and the integer quotient below is the same number.
*/
module Ascii {
  import opened Utf8
  import opened TerminalRender
  import opened Text

  const Level10Ramp: string := " .:-=+*#%@"
  // Written in pieces of ten so that the solver can index it.
  const Level70Ramp: string :=
    " .'`^\",:;I" + "l!i><~+_-?" + "][}{1)(|\\/" + "tfjrxnuvcz" + "XYUJCLQ0OZ" + "mwqpdbkhao" + "*#MW&8%B@$"

  datatype AsciiRenders = Level10 | Level70

  /** The ramp chars and the numerator of the multiplier `level / 256`. */
  datatype AsciiRender = AsciiRender(ramp: seq<char>, level: nat)

  predicate Valid(render: AsciiRender) {
    render.level == |render.ramp| && 1 <= render.level <= 256
  }

  function Ramp(renderType: AsciiRenders): string {
    match renderType
    case Level10 => Level10Ramp
    case Level70 => Level70Ramp
  }

  /** `AsciiRender::new`. */
  function New(renderType: AsciiRenders): (r: AsciiRender)
    ensures Valid(r)
    ensures r.ramp == Ramp(renderType)
  {
    RampFacts();
    var ramp := Ramp(renderType);
    AsciiRender(ramp, |ramp|)
  }

  /** The 10- and 70-char ramps both run from a blank to their densest char. */
  lemma RampFacts()
    ensures |Level10Ramp| == 10 && Level10Ramp[0] == ' ' && Level10Ramp[9] == '@'
    ensures |Level70Ramp| == 70 && Level70Ramp[0] == ' ' && Level70Ramp[69] == '$'
  {
  }

  /** The bucket of a gray value, `floor(gray * level / 256)`. */
  function Bucket(gray: byte, level: nat): (index: nat)
    requires 1 <= level <= 256
    ensures index < level
  {
    BucketBelow(gray, level);
    gray as nat * level / 256
  }

  lemma BucketBelow(gray: byte, level: nat)
    requires 1 <= level
    ensures gray as nat * level / 256 < level
  {
    assert gray as nat * level <= 255 * level;
    assert 255 * level < 256 * level;
  }

  /** `gray_to_char`: only the gray sample is used. */
  function GrayToChar(render: AsciiRender, s: Samples): (c: char)
    requires Valid(render)
    ensures c in render.ramp
  {
    render.ramp[Bucket(s.gray, render.level)]
  }

  /** Black is the blank at the head of the ramp, white the last ramp char. */
  lemma GrayExtremes(renderType: AsciiRenders, s: Samples)
    ensures s.gray == 0 ==> GrayToChar(New(renderType), s) == ' '
    ensures s.gray == 255 ==> GrayToChar(New(renderType), s) == Ramp(renderType)[|Ramp(renderType)| - 1]
  {
    RampFacts();
    var level := |Ramp(renderType)|;
    if s.gray == 255 {
      BucketOfWhite(level);
    }
  }

  lemma BucketOfWhite(level: nat)
    requires 1 <= level <= 256
    ensures Bucket(255, level) == level - 1
  {
    assert 255 * level == 256 * (level - 1) + (256 - level);
  }

  /** A lighter pixel never picks an earlier ramp char. */
  lemma BucketMonotone(g1: byte, g2: byte, level: nat)
    requires 1 <= level <= 256 && g1 <= g2
    ensures Bucket(g1, level) <= Bucket(g2, level)
  {
    var a, b := g1 as nat * level, g2 as nat * level;
    assert a <= b;
    assert 256 * (a / 256) <= a;
    DivLowerBound(b, 256, a / 256);
  }

  /** The neighbour samples never matter. */
  lemma IgnoresNeighbours(render: AsciiRender, s: Samples, t: Samples)
    requires Valid(render) && s.gray == t.gray
    ensures GrayToChar(render, s) == GrayToChar(render, t)
  {
  }

  /** Rendering a bitmap with a ramp: every cell is a ramp char, the bucket of its
      pixel. */
  lemma RenderCells(renderType: AsciiRenders, bitmap: seq<seq<byte>>, row: nat, col: nat)
    requires WellShaped(bitmap) && row < |bitmap| && col < FirstWidth(bitmap)
    ensures var render := New(renderType);
      Render(bitmap, s => GrayToChar(render, s))[row][col]
        == render.ramp[Bucket(bitmap[row][col], render.level)]
  {
  }
}
