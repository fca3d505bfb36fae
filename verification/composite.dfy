/** CombineReplace: the thickened edge map laid over the stylised image.
    Wherever the edge map's colour is black, the stylised pixel becomes
    opaque black; everywhere else it is left as it is. */
module Composite {
  import opened Pixels

  function CombinePixel(edge: Pixel, styled: Pixel): (p: Pixel)
    ensures IsBlack(edge) ==> p == MapRgb(BlackRgb)
    ensures !IsBlack(edge) ==> p == styled
  {
    if IsBlack(edge) then MapRgb(RgbOf(edge)) else styled
  }

  /** CombineReplace(h, w, BluredSurface, pixels, QuantizedSurface,
      Quantized_Pixels) over every cell. */
  function CombineReplace(edges: seq<Pixel>, styled: seq<Pixel>): (out: seq<Pixel>)
    requires |edges| == |styled|
    ensures |out| == |styled|
    ensures forall i :: 0 <= i < |styled| ==> out[i] == CombinePixel(edges[i], styled[i])
  {
    seq(|styled|, i requires 0 <= i < |styled| => CombinePixel(edges[i], styled[i]))
  }

  /** The result is black exactly where the edge map or the stylised image
      is black, opaque black wherever the edge map is, and the stylised
      pixel everywhere else. */
  lemma CombineCells(edges: seq<Pixel>, styled: seq<Pixel>, i: int)
    requires |edges| == |styled| && 0 <= i < |styled|
    ensures IsBlack(CombineReplace(edges, styled)[i]) <==> IsBlack(edges[i]) || IsBlack(styled[i])
    ensures IsBlack(edges[i]) ==> CombineReplace(edges, styled)[i] == MapRgb(BlackRgb)
    ensures !IsBlack(edges[i]) ==> CombineReplace(edges, styled)[i] == styled[i]
  {
  }

  /** Combining a second time with the same edge map changes nothing. */
  lemma CombineIdempotent(edges: seq<Pixel>, styled: seq<Pixel>)
    requires |edges| == |styled|
    ensures CombineReplace(edges, CombineReplace(edges, styled)) == CombineReplace(edges, styled)
  {
  }
}
