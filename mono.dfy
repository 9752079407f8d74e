/**
  The monochrome rule (src/preview/terminal/render/mono.rs): a pixel is on exactly when
  it is fully white. The renderer has no state; its pixel type is `bool`.
*/
module Mono {
  import opened Utf8
  import opened TerminalRender

  datatype MonoRender = MonoRender

  /** `render_pixel`: `gray == u8::MAX`. */
  function RenderPixel(render: MonoRender, s: Samples): (on: bool)
    ensures on <==> s.gray == 255
  {
    s.gray == 255
  }

  /** Rendering a bitmap: a cell is on iff its pixel is 255, neighbours aside. */
  lemma RenderCells(bitmap: seq<seq<byte>>, row: nat, col: nat)
    requires WellShaped(bitmap) && row < |bitmap| && col < FirstWidth(bitmap)
    ensures Render(bitmap, s => RenderPixel(MonoRender, s))[row][col] <==> bitmap[row][col] == 255
    ensures bitmap[row][col] < 255 ==> !Render(bitmap, s => RenderPixel(MonoRender, s))[row][col]
  {
  }
}
