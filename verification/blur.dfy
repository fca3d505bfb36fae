/** The two convolution blurs of EdgeDetection.

    Both read the gray level (the red channel) of a square window around an
    interior cell, multiply each sample by its kernel weight and floor-divide
    each product separately by the kernel's divisor, then add the terms.  All
    sums are computed before any cell is written, so every output depends on
    the input surface only, and only the cells at least `radius` away from
    the border are written, as opaque gray. */
module Blur {
  import opened Pixels
  import opened Grid

  /** A square kernel of side 2 * radius + 1, weights row by row. */
  datatype Kernel = Kernel(radius: nat, weights: seq<int>, divisor: nat)

  /** The light blur: 3 x 3 weights over 16. */
  const Light: Kernel := Kernel(1, [1, 2, 1,
                                    2, 4, 2,
                                    1, 2, 1], 16)

  /** The heavy blur's 5 x 5 weights, which add up to 273. */
  const HeavyWeights: seq<int> := [1,  4,  7,  4, 1,
                                   4, 16, 26, 16, 4,
                                   7, 26, 41, 26, 7,
                                   4, 16, 26, 16, 4,
                                   1,  4,  7,  4, 1]

  /** The heavy blur: the weights above over 265. */
  const Heavy: Kernel := Kernel(2, HeavyWeights, 265)

  function Side(k: Kernel): nat
  {
    2 * k.radius + 1
  }

  /** One weight per cell of the square and a non-zero divisor. */
  predicate Shaped(k: Kernel)
  {
    |k.weights| == Side(k) * Side(k) && k.divisor >= 1
  }

  /** Shaped, with no negative weight. */
  predicate WellFormed(k: Kernel)
  {
    && Shaped(k)
    && forall j :: 0 <= j < |k.weights| ==> k.weights[j] >= 0
  }

  // ---------------------------------------------------------------------------
  // Sums of floored terms

  /** r_j = r_j * weight_j / divisor for the first n samples, added up. */
  function Conv(vals: seq<int>, ws: seq<int>, d: nat, n: nat): int
    requires n <= |vals| == |ws| && d >= 1
  {
    if n == 0 then 0 else Conv(vals, ws, d, n - 1) + vals[n - 1] * ws[n - 1] / d
  }

  /** The plain weighted sum of the first n samples, no rounding. */
  function Dot(vals: seq<int>, ws: seq<int>, n: nat): int
    requires n <= |vals| == |ws|
  {
    if n == 0 then 0 else Dot(vals, ws, n - 1) + vals[n - 1] * ws[n - 1]
  }

  /** The sum of the first n weights. */
  function WeightSum(ws: seq<int>, n: nat): int
    requires n <= |ws|
  {
    if n == 0 then 0 else WeightSum(ws, n - 1) + ws[n - 1]
  }

  lemma DivMonotone(a: int, b: int, d: int)
    requires d >= 1
    ensures a <= b ==> a / d <= b / d
  {
    var qa, qb := a / d, b / d;
    assert a == qa * d + a % d && b == qb * d + b % d;
    if qa > qb {
      AtLeastDivisor(qa - qb, d);
      assert (qa - qb) * d == qa * d - qb * d;
    }
  }

  /** One term grows with its sample. */
  lemma TermMonotone(a: int, b: int, wt: int, d: int)
    requires a <= b && wt >= 0 && d >= 1
    ensures a * wt / d <= b * wt / d
  {
    assert b * wt - a * wt == (b - a) * wt;
    assert (b - a) * wt >= 0;
    DivMonotone(a * wt, b * wt, d);
  }

  /** Raising any samples never lowers the blurred value. */
  lemma {:induction false} ConvMonotone(vals: seq<int>, vals': seq<int>, ws: seq<int>, d: nat, n: nat)
    requires n <= |vals| == |vals'| == |ws| && d >= 1
    requires forall j :: 0 <= j < n ==> vals[j] <= vals'[j] && ws[j] >= 0
    ensures Conv(vals, ws, d, n) <= Conv(vals', ws, d, n)
  {
    if n > 0 {
      ConvMonotone(vals, vals', ws, d, n - 1);
      TermMonotone(vals[n - 1], vals'[n - 1], ws[n - 1], d);
    }
  }

  /** Flooring each term loses at most what exact division would keep:
      d * Conv <= Dot. */
  lemma {:induction false} ConvBelowDot(vals: seq<int>, ws: seq<int>, d: nat, n: nat)
    requires n <= |vals| == |ws| && d >= 1
    ensures d * Conv(vals, ws, d, n) <= Dot(vals, ws, n)
  {
    if n > 0 {
      ConvBelowDot(vals, ws, d, n - 1);
      var t := vals[n - 1] * ws[n - 1];
      assert t == (t / d) * d + t % d;
      assert d * Conv(vals, ws, d, n) == d * Conv(vals, ws, d, n - 1) + d * (t / d);
    }
  }

  /** A weighted sum of samples no larger than m is at most m times the weight. */
  lemma {:induction false} DotBelowMax(vals: seq<int>, ws: seq<int>, n: nat, m: int)
    requires n <= |vals| == |ws|
    requires forall j :: 0 <= j < n ==> vals[j] <= m && ws[j] >= 0
    ensures Dot(vals, ws, n) <= m * WeightSum(ws, n)
  {
    if n > 0 {
      DotBelowMax(vals, ws, n - 1, m);
      var v, wt := vals[n - 1], ws[n - 1];
      assert m * wt - v * wt == (m - v) * wt;
      assert (m - v) * wt >= 0;
      assert m * WeightSum(ws, n) == m * WeightSum(ws, n - 1) + m * wt;
    }
  }

  /** When every sample is d * c, no term is rounded: the result is c times
      the weight sum. */
  lemma {:induction false} ConvOfMultiple(vals: seq<int>, ws: seq<int>, d: nat, n: nat, c: int)
    requires n <= |vals| == |ws| && d >= 1
    requires forall j :: 0 <= j < n ==> vals[j] == d * c
    ensures Conv(vals, ws, d, n) == c * WeightSum(ws, n)
  {
    if n > 0 {
      ConvOfMultiple(vals, ws, d, n - 1, c);
      var wt := ws[n - 1];
      assert d * c * wt == (c * wt) * d;
      DivModUnique(d * c * wt, d, c * wt, 0);
      assert c * WeightSum(ws, n) == c * WeightSum(ws, n - 1) + c * wt;
    }
  }

  // ---------------------------------------------------------------------------
  // Windows and blurred surfaces

  /** Entry j of a window of side s is row j / s, column j % s. */
  lemma WindowCell(s: nat, j: int)
    requires s >= 1 && 0 <= j < s * s
    ensures 0 <= j % s < s && 0 <= j / s < s
  {
    assert j == (j / s) * s + j % s;
    if j / s >= s {
      MulLe(s, j / s, s);
    }
  }

  /** Tap j of the window around (x, y): the gray level in row j / s and
      column j % s of the window, s being the kernel's side. */
  function Tap(w: nat, h: nat, pixels: seq<Pixel>, k: Kernel, x: int, y: int, j: int): byte
    requires IsImage(w, h, pixels) && Inside(w, h, x, y, k.radius) && 0 <= j < Side(k) * Side(k)
  {
    var s := Side(k);
    WindowCell(s, j);
    Level(w, h, pixels, x - k.radius + j % s, y - k.radius + j / s)
  }

  /** The gray levels of the window around (x, y), row by row. */
  function Window(w: nat, h: nat, pixels: seq<Pixel>, k: Kernel, x: int, y: int): (vs: seq<int>)
    requires IsImage(w, h, pixels) && Inside(w, h, x, y, k.radius)
    ensures |vs| == Side(k) * Side(k)
    ensures forall j :: 0 <= j < |vs| ==> 0 <= vs[j] < 0x100
  {
    seq(Side(k) * Side(k), j requires 0 <= j < Side(k) * Side(k) => Tap(w, h, pixels, k, x, y, j))
  }

  /** The blurred gray level of an interior cell. */
  function BlurAt(w: nat, h: nat, pixels: seq<Pixel>, k: Kernel, x: int, y: int): int
    requires IsImage(w, h, pixels) && Inside(w, h, x, y, k.radius) && Shaped(k)
  {
    var vs := Window(w, h, pixels, k, x, y);
    Conv(vs, k.weights, k.divisor, |vs|)
  }

  /** The byte SDL_MapRGB receives for an interior cell: the blurred level is
      stored as a Uint32 and passed as a Uint8, which keeps its low byte. */
  function BlurLevel(w: nat, h: nat, pixels: seq<Pixel>, k: Kernel, x: int, y: int): byte
    requires IsImage(w, h, pixels) && Inside(w, h, x, y, k.radius) && Shaped(k)
  {
    BlurAt(w, h, pixels, k, x, y) % 0x100
  }

  /** The first loop nest of each blur computes BlurAt for every interior
      cell into a scratch array; the second writes MapRGB(v, v, v) there. */
  function BlurImage(w: nat, h: nat, pixels: seq<Pixel>, k: Kernel): (out: seq<Pixel>)
    requires IsImage(w, h, pixels) && Shaped(k)
    ensures IsImage(w, h, out)
    ensures forall i :: 0 <= i < |pixels| && !Inside(w, h, i % w, i / w, k.radius) ==> out[i] == pixels[i]
    ensures forall i :: 0 <= i < |pixels| && Inside(w, h, i % w, i / w, k.radius) ==>
              out[i] == Gray(BlurLevel(w, h, pixels, k, i % w, i / w))
  {
    seq(|pixels|, i requires 0 <= i < |pixels| =>
      CellOfIndex(w, h, i);
      if Inside(w, h, i % w, i / w, k.radius) then Gray(BlurLevel(w, h, pixels, k, i % w, i / w))
      else pixels[i])
  }

  // ---------------------------------------------------------------------------
  // Properties of the two kernels

  lemma LightWellFormed()
    ensures WellFormed(Light) && WeightSum(Light.weights, 9) == 16
  {
  }

  /** The 25 heavy weights one by one. */
  lemma HeavyEntries()
    ensures |HeavyWeights| == 25
    ensures var ws := HeavyWeights; ws[0] == 1 && ws[1] == 4 && ws[2] == 7 && ws[3] == 4 && ws[4] == 1 && ws[5] == 4 && ws[6] == 16 && ws[7] == 26 && ws[8] == 16 && ws[9] == 4 && ws[10] == 7 && ws[11] == 26 && ws[12] == 41 && ws[13] == 26 && ws[14] == 7 && ws[15] == 4 && ws[16] == 16 && ws[17] == 26 && ws[18] == 16 && ws[19] == 4 && ws[20] == 1 && ws[21] == 4 && ws[22] == 7 && ws[23] == 4 && ws[24] == 1
  {
  }

  lemma HeavyWellFormed()
    ensures WellFormed(Heavy)
  {
    HeavyEntries();
  }

  /** The heavy weights add up to 273, more than the divisor 265. */
  lemma HeavyWeightSum()
    ensures WeightSum(HeavyWeights, 25) == 273
  {
    HeavyEntries();
    assert WeightSum(HeavyWeights, 1) == 1;
    assert WeightSum(HeavyWeights, 2) == 5;
    assert WeightSum(HeavyWeights, 3) == 12;
    assert WeightSum(HeavyWeights, 4) == 16;
    assert WeightSum(HeavyWeights, 5) == 17;
    assert WeightSum(HeavyWeights, 6) == 21;
    assert WeightSum(HeavyWeights, 7) == 37;
    assert WeightSum(HeavyWeights, 8) == 63;
    assert WeightSum(HeavyWeights, 9) == 79;
    assert WeightSum(HeavyWeights, 10) == 83;
    assert WeightSum(HeavyWeights, 11) == 90;
    assert WeightSum(HeavyWeights, 12) == 116;
    assert WeightSum(HeavyWeights, 13) == 157;
    assert WeightSum(HeavyWeights, 14) == 183;
    assert WeightSum(HeavyWeights, 15) == 190;
    assert WeightSum(HeavyWeights, 16) == 194;
    assert WeightSum(HeavyWeights, 17) == 210;
    assert WeightSum(HeavyWeights, 18) == 236;
    assert WeightSum(HeavyWeights, 19) == 252;
    assert WeightSum(HeavyWeights, 20) == 256;
    assert WeightSum(HeavyWeights, 21) == 257;
    assert WeightSum(HeavyWeights, 22) == 261;
    assert WeightSum(HeavyWeights, 23) == 268;
    assert WeightSum(HeavyWeights, 24) == 272;
    assert WeightSum(HeavyWeights, 25) == 273;
  }

  /** A window of n equal samples v. */
  function Flat(n: nat, v: int): (vs: seq<int>)
    ensures |vs| == n && forall j :: 0 <= j < n ==> vs[j] == v
  {
    seq(n, _ => v)
  }

  /** A white window blurs to 247 under either kernel: 255 is not a
      multiple of 16, and the heavy weights add up to 273 but are divided by
      265. */
  lemma WhiteWindow()
    ensures Conv(Flat(9, 255), Light.weights, 16, 9) == 247
    ensures Conv(Flat(25, 255), Heavy.weights, 265, 25) == 247
  {
    var l, hv := Flat(9, 255), Flat(25, 255);
    HeavyEntries();
    assert Conv(hv, Heavy.weights, 265, 1) == 0;
    assert Conv(hv, Heavy.weights, 265, 2) == 3;
    assert Conv(hv, Heavy.weights, 265, 3) == 9;
    assert Conv(hv, Heavy.weights, 265, 4) == 12;
    assert Conv(hv, Heavy.weights, 265, 5) == 12;
    assert Conv(hv, Heavy.weights, 265, 6) == 15;
    assert Conv(hv, Heavy.weights, 265, 7) == 30;
    assert Conv(hv, Heavy.weights, 265, 8) == 55;
    assert Conv(hv, Heavy.weights, 265, 9) == 70;
    assert Conv(hv, Heavy.weights, 265, 10) == 73;
    assert Conv(hv, Heavy.weights, 265, 11) == 79;
    assert Conv(hv, Heavy.weights, 265, 12) == 104;
    assert Conv(hv, Heavy.weights, 265, 13) == 143;
    assert Conv(hv, Heavy.weights, 265, 14) == 168;
    assert Conv(hv, Heavy.weights, 265, 15) == 174;
    assert Conv(hv, Heavy.weights, 265, 16) == 177;
    assert Conv(hv, Heavy.weights, 265, 17) == 192;
    assert Conv(hv, Heavy.weights, 265, 18) == 217;
    assert Conv(hv, Heavy.weights, 265, 19) == 232;
    assert Conv(hv, Heavy.weights, 265, 20) == 235;
    assert Conv(hv, Heavy.weights, 265, 21) == 235;
    assert Conv(hv, Heavy.weights, 265, 22) == 238;
    assert Conv(hv, Heavy.weights, 265, 23) == 244;
    assert Conv(hv, Heavy.weights, 265, 24) == 247;
    assert Conv(hv, Heavy.weights, 265, 25) == 247;
  }

  /** A mid-gray window of 128 blurs to 128 under the light kernel but to 115
      under the heavy one. */
  lemma MidGrayWindow()
    ensures Conv(Flat(9, 128), Light.weights, 16, 9) == 128
    ensures Conv(Flat(25, 128), Heavy.weights, 265, 25) == 115
  {
    var l, hv := Flat(9, 128), Flat(25, 128);
    HeavyEntries();
    assert Conv(hv, Heavy.weights, 265, 1) == 0;
    assert Conv(hv, Heavy.weights, 265, 2) == 1;
    assert Conv(hv, Heavy.weights, 265, 3) == 4;
    assert Conv(hv, Heavy.weights, 265, 4) == 5;
    assert Conv(hv, Heavy.weights, 265, 5) == 5;
    assert Conv(hv, Heavy.weights, 265, 6) == 6;
    assert Conv(hv, Heavy.weights, 265, 7) == 13;
    assert Conv(hv, Heavy.weights, 265, 8) == 25;
    assert Conv(hv, Heavy.weights, 265, 9) == 32;
    assert Conv(hv, Heavy.weights, 265, 10) == 33;
    assert Conv(hv, Heavy.weights, 265, 11) == 36;
    assert Conv(hv, Heavy.weights, 265, 12) == 48;
    assert Conv(hv, Heavy.weights, 265, 13) == 67;
    assert Conv(hv, Heavy.weights, 265, 14) == 79;
    assert Conv(hv, Heavy.weights, 265, 15) == 82;
    assert Conv(hv, Heavy.weights, 265, 16) == 83;
    assert Conv(hv, Heavy.weights, 265, 17) == 90;
    assert Conv(hv, Heavy.weights, 265, 18) == 102;
    assert Conv(hv, Heavy.weights, 265, 19) == 109;
    assert Conv(hv, Heavy.weights, 265, 20) == 110;
    assert Conv(hv, Heavy.weights, 265, 21) == 110;
    assert Conv(hv, Heavy.weights, 265, 22) == 111;
    assert Conv(hv, Heavy.weights, 265, 23) == 114;
    assert Conv(hv, Heavy.weights, 265, 24) == 115;
    assert Conv(hv, Heavy.weights, 265, 25) == 115;
  }

  /** Every blurred level of either kernel lies in [0, 247], so the value
      handed to SDL_MapRGB never wraps and the written cell is opaque gray
      at exactly that level. */
  lemma BlurRange(w: nat, h: nat, pixels: seq<Pixel>, k: Kernel, x: int, y: int)
    requires k == Light || k == Heavy
    requires IsImage(w, h, pixels) && Inside(w, h, x, y, k.radius)
    ensures WellFormed(k)
    ensures 0 <= BlurAt(w, h, pixels, k, x, y) <= 247
    ensures BlurLevel(w, h, pixels, k, x, y) == BlurAt(w, h, pixels, k, x, y)
  {
    LightWellFormed();
    HeavyWellFormed();
    WhiteWindow();
    var vs := Window(w, h, pixels, k, x, y);
    WindowRange(vs, k);
    var v := BlurAt(w, h, pixels, k, x, y);
    DivModUnique(v, 0x100, 0, v);
  }

  /** A window of byte samples blurs into [0, c], c being what a white
      window blurs to. */
  lemma WindowRange(vs: seq<int>, k: Kernel)
    requires WellFormed(k) && |vs| == |k.weights|
    requires forall j :: 0 <= j < |vs| ==> 0 <= vs[j] < 0x100
    ensures 0 <= Conv(vs, k.weights, k.divisor, |vs|) <= Conv(Flat(|vs|, 255), k.weights, k.divisor, |vs|)
  {
    var n := |vs|;
    ConvMonotone(Flat(n, 0), vs, k.weights, k.divisor, n);
    ConvOfMultiple(Flat(n, 0), k.weights, k.divisor, n, 0);
    ConvMonotone(vs, Flat(n, 255), k.weights, k.divisor, n);
  }

  /** Cell (x, y) of the blurred surface, for an interior cell, is the
      opaque gray of the low byte of the blurred level. */
  lemma BlurImageAt(w: nat, h: nat, pixels: seq<Pixel>, k: Kernel, x: int, y: int)
    requires IsImage(w, h, pixels) && WellFormed(k) && Inside(w, h, x, y, k.radius)
    ensures 0 <= y * w + x < |pixels|
    ensures BlurImage(w, h, pixels, k)[y * w + x] == Gray(BlurLevel(w, h, pixels, k, x, y))
  {
    CellInRange(w, h, x, y);
    IndexOfCell(w, h, x, y);
  }

  /** The blurred level depends only on the cells within `radius` of (x, y):
      two surfaces that agree there blur to the same level. */
  lemma BlurLocal(w: nat, h: nat, p1: seq<Pixel>, p2: seq<Pixel>, k: Kernel, x: int, y: int)
    requires IsImage(w, h, p1) && IsImage(w, h, p2) && WellFormed(k) && Inside(w, h, x, y, k.radius)
    requires forall cx, cy :: x - k.radius <= cx <= x + k.radius && y - k.radius <= cy <= y + k.radius ==>
               Level(w, h, p1, cx, cy) == Level(w, h, p2, cx, cy)
    ensures BlurAt(w, h, p1, k, x, y) == BlurAt(w, h, p2, k, x, y)
  {
    var s := Side(k);
    forall j | 0 <= j < s * s
      ensures Tap(w, h, p1, k, x, y, j) == Tap(w, h, p2, k, x, y, j)
    {
      WindowCell(s, j);
    }
    assert Window(w, h, p1, k, x, y) == Window(w, h, p2, k, x, y);
  }

  /** Raising any sample of the window never lowers the blurred level. */
  lemma BlurMonotone(w: nat, h: nat, p1: seq<Pixel>, p2: seq<Pixel>, k: Kernel, x: int, y: int)
    requires IsImage(w, h, p1) && IsImage(w, h, p2) && WellFormed(k) && Inside(w, h, x, y, k.radius)
    requires forall cx, cy :: x - k.radius <= cx <= x + k.radius && y - k.radius <= cy <= y + k.radius ==>
               Level(w, h, p1, cx, cy) <= Level(w, h, p2, cx, cy)
    ensures BlurAt(w, h, p1, k, x, y) <= BlurAt(w, h, p2, k, x, y)
  {
    var s := Side(k);
    var v1, v2 := Window(w, h, p1, k, x, y), Window(w, h, p2, k, x, y);
    forall j | 0 <= j < s * s
      ensures v1[j] <= v2[j] && k.weights[j] >= 0
    {
      WindowCell(s, j);
    }
    ConvMonotone(v1, v2, k.weights, k.divisor, s * s);
  }

  /** A black window stays black. */
  lemma BlurOfBlack(w: nat, h: nat, pixels: seq<Pixel>, k: Kernel, x: int, y: int)
    requires IsImage(w, h, pixels) && Shaped(k) && Inside(w, h, x, y, k.radius)
    requires forall cx, cy :: x - k.radius <= cx <= x + k.radius && y - k.radius <= cy <= y + k.radius ==>
               Level(w, h, pixels, cx, cy) == 0
    ensures BlurAt(w, h, pixels, k, x, y) == 0
  {
    var s := Side(k);
    var vs := Window(w, h, pixels, k, x, y);
    forall j | 0 <= j < s * s
      ensures vs[j] == k.divisor * 0
    {
      WindowCell(s, j);
    }
    ConvOfMultiple(vs, k.weights, k.divisor, s * s, 0);
  }

  /** The light kernel's weights add up to its divisor, so a window whose
      samples are all 16 * c keeps level 16 * c. */
  lemma LightKeepsMultiplesOf16(w: nat, h: nat, pixels: seq<Pixel>, x: int, y: int, c: int)
    requires IsImage(w, h, pixels) && Inside(w, h, x, y, 1)
    requires forall cx, cy :: x - 1 <= cx <= x + 1 && y - 1 <= cy <= y + 1 ==> Level(w, h, pixels, cx, cy) == 16 * c
    ensures WellFormed(Light) && BlurAt(w, h, pixels, Light, x, y) == 16 * c
  {
    LightWellFormed();
    var vs := Window(w, h, pixels, Light, x, y);
    forall j | 0 <= j < 9
      ensures vs[j] == 16 * c
    {
      WindowCell(3, j);
    }
    ConvOfMultiple(vs, Light.weights, 16, 9, c);
  }

  /** The light blur never brightens: its level is at most the brightest
      sample of the window. */
  lemma LightBelowWindowMax(w: nat, h: nat, pixels: seq<Pixel>, x: int, y: int, m: int)
    requires IsImage(w, h, pixels) && Inside(w, h, x, y, 1)
    requires forall cx, cy :: x - 1 <= cx <= x + 1 && y - 1 <= cy <= y + 1 ==> Level(w, h, pixels, cx, cy) <= m
    ensures WellFormed(Light) && BlurAt(w, h, pixels, Light, x, y) <= m
  {
    LightWellFormed();
    var vs := Window(w, h, pixels, Light, x, y);
    forall j | 0 <= j < 9
      ensures vs[j] <= m
    {
      WindowCell(3, j);
    }
    ConvBelowDot(vs, Light.weights, 16, 9);
    DotBelowMax(vs, Light.weights, 9, m);
    var v := BlurAt(w, h, pixels, Light, x, y);
    if v > m {
      MulLe(m + 1, v, 16);
    }
  }
}
