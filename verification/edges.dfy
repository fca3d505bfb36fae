/** EdgeDetection: the difference of the two blurs.

    The light surface is blurred with the 3 x 3 kernel, the heavy surface
    with the 5 x 5 kernel, and every cell of the result is the 32-bit word of
    the heavy pixel minus the word of the light pixel, wrapping modulo 2^32.
    A cell is an edge (black) exactly where the two words agree in their
    colour bytes. */
module Edges {
  import opened Pixels
  import opened Grid
  import opened Blur

  /** The word difference heavy - light of one cell, unsigned. */
  function EdgePixel(light: Pixel, heavy: Pixel): (e: Pixel)
    ensures (ToWord(e) + ToWord(light)) % WordModulus == ToWord(heavy)
  {
    var diff := ToWord(heavy) - ToWord(light);
    var d := diff % WordModulus;
    ToFromWord(d);
    DivModUnique(d + ToWord(light), WordModulus, -(diff / WordModulus), ToWord(heavy));
    FromWord(d)
  }

  /** The subtraction loop over every cell of the two surfaces. */
  function EdgeMap(light: seq<Pixel>, heavy: seq<Pixel>): (out: seq<Pixel>)
    requires |light| == |heavy|
    ensures |out| == |light|
    ensures forall i :: 0 <= i < |light| ==> out[i] == EdgePixel(light[i], heavy[i])
  {
    seq(|light|, i requires 0 <= i < |light| => EdgePixel(light[i], heavy[i]))
  }

  /** EdgeDetection(h, w, BluredSurface, pixels, GreaterBluredSurface,
      GBS_Pixels): both blurs, then the difference. */
  function EdgeDetection(w: nat, h: nat, px: seq<Pixel>, gbs: seq<Pixel>): (out: seq<Pixel>)
    requires IsImage(w, h, px) && IsImage(w, h, gbs)
    ensures IsImage(w, h, out)
  {
    LightWellFormed();
    HeavyWellFormed();
    EdgeMap(BlurImage(w, h, px, Light), BlurImage(w, h, gbs, Heavy))
  }

  // ---------------------------------------------------------------------------
  // The difference of two gray pixels

  /** Subtracting an opaque gray l from an opaque gray g: when g >= l the
      alphas cancel and the result is the transparent gray g - l; when g < l
      the subtraction borrows through every byte, leaving alpha 0xFF and a
      blue byte one above the other two. */
  lemma GrayEdge(l: byte, g: byte)
    ensures g >= l ==> EdgePixel(Gray(l), Gray(g)) == Pixel(0, g - l, g - l, g - l)
    ensures g < l ==> EdgePixel(Gray(l), Gray(g)) == Pixel(0xFF, 0xFF - (l - g), 0xFF - (l - g), 0x100 - (l - g))
  {
    var diff := ToWord(Gray(g)) - ToWord(Gray(l));
    assert diff == (g - l) * 0x1_0101;
    if g >= l {
      var p := Pixel(0, g - l, g - l, g - l);
      DivModUnique(diff, WordModulus, 0, ToWord(p));
      FromToWord(p);
    } else {
      var e := l - g;
      var p := Pixel(0xFF, 0xFF - e, 0xFF - e, 0x100 - e);
      assert ToWord(p) == WordModulus - e * 0x1_0101;
      DivModUnique(diff, WordModulus, -1, ToWord(p));
      FromToWord(p);
    }
  }

  /** Two opaque grays give an edge exactly when they are the same level. */
  lemma GrayEdgeBlack(l: byte, g: byte)
    ensures IsBlack(EdgePixel(Gray(l), Gray(g))) <==> l == g
  {
    GrayEdge(l, g);
  }

  /** A pixel minus itself is the all-zero word: black and transparent. */
  lemma EdgeOfSame(p: Pixel)
    ensures EdgePixel(p, p) == Pixel(0, 0, 0, 0)
  {
    DivModUnique(0, WordModulus, 0, 0);
    FromToWord(Pixel(0, 0, 0, 0));
  }

  // ---------------------------------------------------------------------------
  // The three rings of the edge map

  /** Outside the light blur's region neither blur writes, so the edge map
      there is the difference of the two input pixels. */
  lemma EdgeOuterRing(w: nat, h: nat, px: seq<Pixel>, gbs: seq<Pixel>, x: int, y: int)
    requires IsImage(w, h, px) && IsImage(w, h, gbs)
    requires 0 <= x < w && 0 <= y < h && !Inside(w, h, x, y, 1)
    ensures 0 <= y * w + x < w * h
    ensures EdgeDetection(w, h, px, gbs)[y * w + x] == EdgePixel(px[y * w + x], gbs[y * w + x])
  {
    LightWellFormed();
    HeavyWellFormed();
    CellInRange(w, h, x, y);
    IndexOfCell(w, h, x, y);
  }

  /** In the ring written by the light blur only, the edge map is the heavy
      input pixel minus the light blur. */
  lemma EdgeMiddleRing(w: nat, h: nat, px: seq<Pixel>, gbs: seq<Pixel>, x: int, y: int)
    requires IsImage(w, h, px) && IsImage(w, h, gbs)
    requires Inside(w, h, x, y, 1) && !Inside(w, h, x, y, 2)
    ensures 0 <= y * w + x < w * h
    ensures EdgeDetection(w, h, px, gbs)[y * w + x] == EdgePixel(Gray(BlurLevel(w, h, px, Light, x, y)), gbs[y * w + x])
  {
    LightWellFormed();
    HeavyWellFormed();
    BlurRange(w, h, px, Light, x, y);
    BlurImageAt(w, h, px, Light, x, y);
    IndexOfCell(w, h, x, y);
  }

  /** Where both blurs write, the edge map is the heavy blur minus the light
      blur, and it is black exactly when the two blurred levels agree. */
  lemma EdgeInterior(w: nat, h: nat, px: seq<Pixel>, gbs: seq<Pixel>, x: int, y: int)
    requires IsImage(w, h, px) && IsImage(w, h, gbs) && Inside(w, h, x, y, 2)
    ensures 0 <= y * w + x < w * h
    ensures EdgeDetection(w, h, px, gbs)[y * w + x] ==
              EdgePixel(Gray(BlurLevel(w, h, px, Light, x, y)), Gray(BlurLevel(w, h, gbs, Heavy, x, y)))
    ensures IsBlack(EdgeDetection(w, h, px, gbs)[y * w + x]) <==>
              BlurAt(w, h, px, Light, x, y) == BlurAt(w, h, gbs, Heavy, x, y)
  {
    LightWellFormed();
    HeavyWellFormed();
    BlurRange(w, h, px, Light, x, y);
    BlurRange(w, h, gbs, Heavy, x, y);
    BlurImageAt(w, h, px, Light, x, y);
    BlurImageAt(w, h, gbs, Heavy, x, y);
    GrayEdgeBlack(BlurLevel(w, h, px, Light, x, y), BlurLevel(w, h, gbs, Heavy, x, y));
  }

  // ---------------------------------------------------------------------------
  // Flat images

  /** Every cell of the surface is the opaque gray v. */
  ghost predicate FlatImage(pixels: seq<Pixel>, v: byte)
  {
    forall i :: 0 <= i < |pixels| ==> pixels[i] == Gray(v)
  }

  /** Every window of a flat surface is flat. */
  lemma FlatWindow(w: nat, h: nat, pixels: seq<Pixel>, k: Kernel, x: int, y: int, v: byte)
    requires IsImage(w, h, pixels) && Inside(w, h, x, y, k.radius) && FlatImage(pixels, v)
    ensures Window(w, h, pixels, k, x, y) == Flat(Side(k) * Side(k), v)
  {
    var s := Side(k);
    var vs := Window(w, h, pixels, k, x, y);
    forall j | 0 <= j < s * s
      ensures vs[j] == v
    {
      WindowCell(s, j);
      CellInRange(w, h, x - k.radius + j % s, y - k.radius + j / s);
    }
  }

  /** The blurred level of a flat window under a kernel. */
  lemma FlatLevel(w: nat, h: nat, pixels: seq<Pixel>, k: Kernel, x: int, y: int, v: byte)
    requires k == Light || k == Heavy
    requires IsImage(w, h, pixels) && Inside(w, h, x, y, k.radius) && FlatImage(pixels, v)
    ensures Shaped(k)
    ensures BlurLevel(w, h, pixels, k, x, y) == Conv(Flat(|k.weights|, v), k.weights, k.divisor, |k.weights|)
  {
    LightWellFormed();
    HeavyWellFormed();
    BlurRange(w, h, pixels, k, x, y);
    FlatWindow(w, h, pixels, k, x, y, v);
  }

  /** On a flat surface of level 128 (as the pipeline passes it: the same
      gray surface as both inputs) the interior of the edge map is not black:
      the light blur keeps 128 while the heavy one darkens it to 115. */
  lemma FlatMidGrayInterior(w: nat, h: nat, g: seq<Pixel>, x: int, y: int)
    requires IsImage(w, h, g) && FlatImage(g, 128) && Inside(w, h, x, y, 2)
    ensures 0 <= y * w + x < w * h
    ensures EdgeDetection(w, h, g, g)[y * w + x] == Pixel(0xFF, 0xF2, 0xF2, 0xF3)
  {
    EdgeInterior(w, h, g, g, x, y);
    FlatLevel(w, h, g, Light, x, y, 128);
    FlatLevel(w, h, g, Heavy, x, y, 128);
    MidGrayWindow();
    assert BlurLevel(w, h, g, Light, x, y) == 128 && BlurLevel(w, h, g, Heavy, x, y) == 115;
    GrayEdge(128, 115);
  }

  /** On a flat white surface both blurs give 247, so the whole interior of
      the edge map is black. */
  lemma FlatWhiteInterior(w: nat, h: nat, g: seq<Pixel>, x: int, y: int)
    requires IsImage(w, h, g) && FlatImage(g, 255) && Inside(w, h, x, y, 2)
    ensures 0 <= y * w + x < w * h
    ensures IsBlack(EdgeDetection(w, h, g, g)[y * w + x])
  {
    EdgeInterior(w, h, g, g, x, y);
    FlatLevel(w, h, g, Light, x, y, 255);
    FlatLevel(w, h, g, Heavy, x, y, 255);
    WhiteWindow();
    GrayEdgeBlack(247, 247);
  }

  /** When both inputs are the same surface, as in the pipeline, the outer
      ring of the edge map is the all-zero word. */
  lemma SameInputsOuterRing(w: nat, h: nat, g: seq<Pixel>, x: int, y: int)
    requires IsImage(w, h, g) && 0 <= x < w && 0 <= y < h && !Inside(w, h, x, y, 1)
    ensures 0 <= y * w + x < w * h
    ensures EdgeDetection(w, h, g, g)[y * w + x] == Pixel(0, 0, 0, 0)
  {
    EdgeOuterRing(w, h, g, g, x, y);
    EdgeOfSame(g[y * w + x]);
  }

  /** On a flat surface of level 128 the ring written by the light blur
      only is black: the light blur keeps 128, equal to the unblurred heavy
      input. */
  lemma FlatMidGrayMiddleRing(w: nat, h: nat, g: seq<Pixel>, x: int, y: int)
    requires IsImage(w, h, g) && FlatImage(g, 128)
    requires Inside(w, h, x, y, 1) && !Inside(w, h, x, y, 2)
    ensures 0 <= y * w + x < w * h
    ensures IsBlack(EdgeDetection(w, h, g, g)[y * w + x])
  {
    EdgeMiddleRing(w, h, g, g, x, y);
    FlatLevel(w, h, g, Light, x, y, 128);
    MidGrayWindow();
    GrayEdgeBlack(128, 128);
  }

  /** A 4 x 4 surface of gray 128 has no cell two away from every edge, so
      every cell of its edge map is black. */
  lemma FourByFourMidGray(g: seq<Pixel>, i: int)
    requires IsImage(4, 4, g) && FlatImage(g, 128) && 0 <= i < 16
    ensures IsBlack(EdgeDetection(4, 4, g, g)[i])
  {
    var x, y := i % 4, i / 4;
    assert 0 <= x < 4 && 0 <= y < 4 && i == y * 4 + x;
    if 1 <= x < 3 && 1 <= y < 3 {
      FlatMidGrayMiddleRing(4, 4, g, x, y);
    } else {
      SameInputsOuterRing(4, 4, g, x, y);
    }
  }
}
