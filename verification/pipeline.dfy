/** The order in which the program applies the stages to one image.

    The colour image is quantized to 16 colours for the stylised picture
    and, separately, to 2 colours for the edge map.  The 2-colour image is
    turned gray and handed to EdgeDetection as both inputs.  The 16-colour
    image is recoloured against the dot template.  The edge map is thickened
    and laid over the recoloured image.  The gray conversion works in floating
    point and is a parameter here: any map from a colour to a gray level. */
module Pipeline {
  import opened Pixels
  import opened Grid
  import opened MedianCut
  import opened Quantize
  import opened Edges
  import opened BenDay
  import opened Thicken
  import opened Composite

  /** The pictures the viewer can show: the 16-colour image before the dots,
      the thickened edge map, and the final picture. */
  datatype Outputs = Outputs(quantized: seq<Pixel>, edges: seq<Pixel>, final: seq<Pixel>)

  /** The gray surface CovertGrayscale makes of the 2-colour image. */
  function GraySurface(px: seq<Pixel>, luma: Rgb -> byte): (g: seq<Pixel>)
    ensures |g| == |px|
    ensures forall i :: 0 <= i < |px| ==> g[i] == Gray(luma(RgbOf(px[i])))
  {
    seq(|px|, i requires 0 <= i < |px| => Gray(luma(RgbOf(px[i]))))
  }

  /** The outer ring of the edge map of a surface against itself is the zero
      word; thickening keeps it black, so compositing paints it black. */
  lemma FrameIsBlack(w: nat, h: nat, gray: seq<Pixel>, styled: seq<Pixel>)
    requires IsImage(w, h, gray) && IsImage(w, h, styled)
    ensures var final := CombineReplace(ThickenEdges(w, h, EdgeDetection(w, h, gray, gray)), styled);
            forall i :: 0 <= i < w * h && !Inside(w, h, i % w, i / w, 1) ==> final[i] == MapRgb(BlackRgb)
  {
    var thick := ThickenEdges(w, h, EdgeDetection(w, h, gray, gray));
    forall i | 0 <= i < w * h && !Inside(w, h, i % w, i / w, 1)
      ensures CombineReplace(thick, styled)[i] == MapRgb(BlackRgb)
    {
      FrameCell(w, h, gray, styled, i);
    }
  }

  /** Each cell of the final picture is black where the edge map is black
      and the dotted colour of the quantized cell elsewhere. */
  lemma FinalCells(thick: seq<Pixel>, quantized: seq<Pixel>, template: seq<Pixel>)
    requires |thick| == |quantized| == |template|
    ensures var final := CombineReplace(thick, BenDaySurface(quantized, template));
            forall i :: 0 <= i < |thick| ==>
              (IsBlack(thick[i]) ==> final[i] == MapRgb(BlackRgb)) &&
              (!IsBlack(thick[i]) ==> final[i] == BenDayPixel(quantized[i], template[i]))
  {
  }

  /** One cell of the outer ring. */
  lemma FrameCell(w: nat, h: nat, gray: seq<Pixel>, styled: seq<Pixel>, i: int)
    requires IsImage(w, h, gray) && IsImage(w, h, styled)
    requires 0 <= i < w * h && w >= 1 && !Inside(w, h, i % w, i / w, 1)
    ensures CombineReplace(ThickenEdges(w, h, EdgeDetection(w, h, gray, gray)), styled)[i] == MapRgb(BlackRgb)
  {
    var edges := EdgeDetection(w, h, gray, gray);
    var x, y := i % w, i / w;
    CellOfIndex(w, h, i);
    SameInputsOuterRing(w, h, gray, x, y);
    assert i == y * w + x;
    assert IsBlack(edges[i]);
    ThickenKeepsBlack(w, h, edges, i);
    CombineCells(ThickenEdges(w, h, edges), styled, i);
  }

  method Stylise(w: nat, h: nat, original: seq<Pixel>, template: seq<Pixel>, luma: Rgb -> byte)
    returns (r: Result<Outputs>)
    requires IsImage(w, h, original) && IsImage(w, h, template)
    ensures r.Ok? <==> |original| >= 1
    ensures r.Err? ==> r.error == EmptyBucket
    ensures r.Ok? ==> IsImage(w, h, r.value.quantized) && IsImage(w, h, r.value.edges) && IsImage(w, h, r.value.final)
    ensures r.Ok? ==> exists p16 :: MedianCutPalette(original, 16, p16) && r.value.quantized == Recolour(original, p16)
    ensures r.Ok? ==> exists p2 ::
              && MedianCutPalette(original, 2, p2)
              && r.value.edges == ThickenEdges(w, h, EdgeDetection(w, h, GraySurface(Recolour(original, p2), luma),
                                                                  GraySurface(Recolour(original, p2), luma)))
    ensures r.Ok? ==> forall i :: 0 <= i < w * h && !Inside(w, h, i % w, i / w, 1) ==>
              r.value.final[i] == MapRgb(BlackRgb)
    ensures r.Ok? ==> forall i :: 0 <= i < w * h ==>
              (IsBlack(r.value.edges[i]) ==> r.value.final[i] == MapRgb(BlackRgb)) &&
              (!IsBlack(r.value.edges[i]) ==> r.value.final[i] == BenDayPixel(r.value.quantized[i], template[i]))
  {
    if |original| == 0 {
      return Err(EmptyBucket);
    }
    PowerOfTwoFits(|original|, 4);
    PowerOfTwoFits(|original|, 1);
    var q16 := ColourQuantization(original, 16);
    var q2 := ColourQuantization(original, 2);
    var gray := GraySurface(q2.value.pixels, luma);
    var edges := EdgeDetection(w, h, gray, gray);
    var styled := BenDaySurface(q16.value.pixels, template);
    var thick := ThickenEdges(w, h, edges);
    var final := CombineReplace(thick, styled);
    FrameIsBlack(w, h, gray, styled);
    FinalCells(thick, q16.value.pixels, template);
    assert MedianCutPalette(original, 16, q16.value.palette) && q16.value.pixels == Recolour(original, q16.value.palette);
    assert MedianCutPalette(original, 2, q2.value.palette) && q2.value.pixels == Recolour(original, q2.value.palette);
    return Ok(Outputs(q16.value.pixels, thick, final));
  }
}
