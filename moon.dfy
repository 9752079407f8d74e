/**
  The moon-phase rule (src/preview/terminal/render/moon.rs): five pairs of moon symbols,
  from full to new; the gray value picks the pair, and the horizontal gradient picks the
  waxing or waning member.
*/
module Moon {
  import opened Utf8
  import opened TerminalRender

  /** Full, gibbous, quarter, crescent and new moon, each as (waning, waxing) symbols;
      the first and last pairs repeat one symbol. */
  const MoonChars: seq<seq<char>> := [
    ['\U{1F315}', '\U{1F315}'],
    ['\U{1F316}', '\U{1F314}'],
    ['\U{1F317}', '\U{1F313}'],
    ['\U{1F318}', '\U{1F312}'],
    ['\U{1F311}', '\U{1F311}']
  ]

  /** The pair count and the numerator of the multiplier `pair_count / 256`. */
  datatype MoonRender = MoonRender(pairCount: nat, level: nat)

  predicate Valid(render: MoonRender) {
    render.pairCount == |MoonChars| && render.level == render.pairCount
  }

  lemma TableShape()
    ensures |MoonChars| == 5
    ensures forall i | 0 <= i < 5 :: |MoonChars[i]| == 2
    ensures MoonChars[0][0] == MoonChars[0][1] && MoonChars[4][0] == MoonChars[4][1]
  {
  }

  /** `MoonRender::new`. */
  function New(): (r: MoonRender)
    ensures Valid(r)
  {
    MoonRender(|MoonChars|, |MoonChars|)
  }

  /** The pair index of a non-black pixel, `floor((255 - gray) * 5 / 256)`. */
  function PairIndex(render: MoonRender, gray: byte): (index: nat)
    requires Valid(render)
    ensures index < render.pairCount
  {
    assert (255 - gray as nat) * 5 <= 255 * 5;
    (255 - gray as nat) * render.level / 256
  }

  /** `gray_to_char`. */
  function GrayToChar(render: MoonRender, s: Samples): (c: char)
    requires Valid(render)
    ensures s.gray == 0 ==> c == MoonChars[4][0]
    ensures s.gray != 0 && s.left < s.right ==> c == MoonChars[PairIndex(render, s.gray)][1]
    ensures s.gray != 0 && s.left >= s.right ==> c == MoonChars[PairIndex(render, s.gray)][0]
  {
    if s.gray == 0 then MoonChars[render.pairCount - 1][0]
    else
      var index := PairIndex(render, s.gray);
      if s.left < s.right then MoonChars[index][1] else MoonChars[index][0]
  }

  /** White is the full moon, and the index falls as the pixel gets lighter. */
  lemma PairIndexFacts(render: MoonRender, g1: byte, g2: byte)
    requires Valid(render) && 0 < g1 <= g2
    ensures PairIndex(render, 255) == 0
    ensures PairIndex(render, g2) <= PairIndex(render, g1) <= 4
  {
    var a, b := (255 - g2 as nat) * 5, (255 - g1 as nat) * 5;
    assert a <= b;
    var qa, qb := a / 256, b / 256;
    assert a == qa * 256 + a % 256;
    assert b == qb * 256 + b % 256;
  }

  /** A black pixel is the new moon whatever its neighbours; with the right sample
      being the centre pixel, the waxing symbol appears exactly when the left neighbour
      is darker than the pixel, outside the last column. */
  lemma RenderCells(bitmap: seq<seq<byte>>, row: nat, col: nat)
    requires WellShaped(bitmap) && row < |bitmap| && col < FirstWidth(bitmap)
    ensures var c := Render(bitmap, s => GrayToChar(New(), s))[row][col];
      var gray := bitmap[row][col];
      (gray == 0 ==> c == MoonChars[4][0]) &&
      (gray != 0 ==>
        c == MoonChars[PairIndex(New(), gray)]
               [if Pixel(bitmap, row, col - 1) < (if col + 1 < FirstWidth(bitmap) then gray else 0) then 1 else 0])
  {
    SamplesAreNeighbours(bitmap, row, col);
  }
}
