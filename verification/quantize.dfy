/** ColourQuantization: median-cut quantization of a whole surface to at most
    n colours, followed by replacing every pixel with its nearest palette
    entry.  Pixels are read row by row, so the sample sequence is the flat
    pixel sequence (index y * w + x). */
module Quantize {
  import opened Pixels
  import opened ManualSort
  import opened MedianCut
  import opened Nearest

  /** The palette the median cut wrote and the recoloured pixels. */
  datatype Quantized = Quantized(palette: seq<Rgb>, pixels: seq<Pixel>)

  /** The colour array filled from the surface with SDL_GetRGB. */
  function Colours(px: seq<Pixel>): (cs: seq<Rgb>)
    ensures |cs| == |px| && forall i :: 0 <= i < |px| ==> cs[i] == RgbOf(px[i])
  {
    seq(|px|, i requires 0 <= i < |px| => RgbOf(px[i]))
  }

  /** MaxElementCount = totalsize / n, plus one when the division leaves a
      remainder: the least m with m * n >= total. */
  function MaxElementCount(total: nat, n: nat): (m: nat)
    requires n >= 1
    ensures total <= m * n
    ensures m == 0 || (m - 1) * n < total
  {
    var q := total / n;
    assert total == q * n + total % n;
    if total % n > 0 then q + 1 else q
  }

  /** Every pixel replaced by the opaque colour of its nearest palette entry. */
  function Recolour(px: seq<Pixel>, palette: seq<Rgb>): (out: seq<Pixel>)
    requires |palette| >= 1
    ensures |out| == |px|
    ensures forall i :: 0 <= i < |px| ==>
              exists k :: IsFirstNearest(palette, RgbOf(px[i]), k) && out[i] == MapRgb(palette[k])
    ensures forall i :: 0 <= i < |px| ==> out[i].a == 0xFF && RgbOf(out[i]) in palette
  {
    var out := seq(|px|, i requires 0 <= i < |px| => MapRgb(palette[NearestIndex(palette, RgbOf(px[i]))]));
    assert forall i :: 0 <= i < |px| ==>
             IsFirstNearest(palette, RgbOf(px[i]), NearestIndex(palette, RgbOf(px[i])));
    out
  }

  /** palette is what the median cut writes for px with palette size n: at
      least one and at most n entries, each in every channel band that holds
      all pixels, and, for some rearrangement cs of the pixels' colours (the
      colour array as the cut leaves it) in which every bucket larger than
      a leaf has its first half at or below its second half on its widest
      channel, one entry per leaf bucket in order, the floor mean of that
      bucket of cs. */
  ghost predicate MedianCutPalette(px: seq<Pixel>, n: nat, palette: seq<Rgb>)
  {
    && n >= 1 && |px| >= 1
    && 1 <= |palette| <= n
    && EntriesWithinBucket(palette, 0, Colours(px), 0, |px|)
    && MaxElementCount(|px|, n) >= 1
    && exists cs :: Perm(Colours(px), cs, 0, |px| - 1)
         && MedianSplits(cs, MaxElementCount(|px|, n))
         && LeafMeans(palette, 0, cs, LeafRanges(0, |px|, MaxElementCount(|px|, n)))
  }

  /** ColourQuantization(surface, w, h, pixels, n) with the palette limited to
      the entries the median cut actually wrote.  A palette size of 0 divides
      by zero, an empty image divides by zero in its only leaf, and a cut with
      more leaves than n writes past the palette array: each is an error. */
  method ColourQuantization(px: seq<Pixel>, n: nat) returns (r: Result<Quantized>)
    ensures n == 0 ==> r == Err(ZeroPaletteSize)
    ensures n >= 1 && |px| == 0 ==> r == Err(EmptyBucket)
    ensures n >= 1 && |px| >= 1 ==>
              (r.Ok? <==> LeafCount(|px|, MaxElementCount(|px|, n)) <= n)
    ensures n >= 1 && r.Err? && |px| >= 1 ==> r == Err(PaletteOverflow)
    ensures r.Ok? ==> |r.value.palette| == LeafCount(|px|, MaxElementCount(|px|, n)) <= n
    ensures r.Ok? ==> EntriesWithinBucket(r.value.palette, 0, Colours(px), 0, |px|)
    ensures r.Ok? ==> |r.value.palette| >= 1 && r.value.pixels == Recolour(px, r.value.palette)
    ensures r.Ok? ==> MedianCutPalette(px, n, r.value.palette)
  {
    if n == 0 {
      return Err(ZeroPaletteSize);
    }
    var total := |px|;
    var maxCount := MaxElementCount(total, n);
    var cut := MedianCut.MedianCut(Colours(px), 0, total, maxCount, []);
    if cut.Err? {
      return Err(cut.error);
    }
    var palette := cut.value.palette;
    if |palette| > n {
      return Err(PaletteOverflow);
    }
    LeafCountPositive(total, maxCount);
    assert Perm(Colours(px), cut.value.colour, 0, total - 1);
    assert cut.value.colour[0..total] == cut.value.colour;
    return Ok(Quantized(palette, Recolour(px, palette)));
  }

  /** With n a power of two (the program uses 16 and 2) the cut never has
      more than n leaves, so every non-empty image quantizes. */
  lemma PowerOfTwoFits(total: nat, k: nat)
    requires total >= 1
    ensures LeafCount(total, MaxElementCount(total, Pow2(k))) <= Pow2(k)
  {
    var m := MaxElementCount(total, Pow2(k));
    assert m >= 1;
    assert total <= Pow2(k) * m;
    LeafCountAtMost(total, m, k);
  }

  /** Multiplying by a positive n keeps the order of two numbers. */
  lemma MulMonotone(a: int, b: int, n: int)
    requires n >= 1
    ensures a * n <= b * n <==> a <= b
  {
    if a > b {
      AtLeastDivisor(a - b, n);
      assert (a - b) * n == a * n - b * n;
    } else {
      assert (b - a) * n == b * n - a * n;
      assert (b - a) * n >= 0;
    }
  }

  /** When n = 2^k divides the pixel count, the palette has exactly n entries. */
  lemma DividingSizeFillsPalette(m: nat, k: nat)
    requires m >= 1
    ensures MaxElementCount(Pow2(k) * m, Pow2(k)) == m
    ensures LeafCount(Pow2(k) * m, m) == Pow2(k)
  {
    var n := Pow2(k);
    var e := MaxElementCount(n * m, n);
    MulMonotone(m, e, n);
    MulMonotone(m, e - 1, n);
    LeafCountExact(m, k);
  }

  /** A 17-pixel image with n = 16 has leaves of at most 2 samples and only 9
      of them. */
  lemma SmallImagePalette()
    ensures MaxElementCount(17, 16) == 2
    ensures LeafCount(17, 2) == 9
  {
  }

  /** n = 3 is not a power of two: 6 pixels give leaves of 2 samples and 4
      leaves, one more than the palette array holds. */
  lemma NonPowerOfTwoOverflows()
    ensures MaxElementCount(6, 3) == 2
    ensures LeafCount(6, 2) == 4
  {
  }

  /** The colours of a black, white, black, white image. */
  lemma BlackWhiteColours(px: seq<Pixel>)
    requires |px| == 4 && forall i :: 0 <= i < 4 ==> RgbOf(px[i]) == if i % 2 == 0 then Rgb(0, 0, 0) else Rgb(255, 255, 255)
    ensures multiset(Colours(px)) == multiset([Rgb(0, 0, 0), Rgb(255, 255, 255), Rgb(0, 0, 0), Rgb(255, 255, 255)])
  {
    assert Colours(px) == [Rgb(0, 0, 0), Rgb(255, 255, 255), Rgb(0, 0, 0), Rgb(255, 255, 255)];
  }

  /** Black, white, black, white at n = 2: the cut sorts the two blacks
      into the first leaf, so the palette is black then white and no grey
      in between. */
  lemma BlackWhitePalette(px: seq<Pixel>, palette: seq<Rgb>)
    requires |px| == 4 && forall i :: 0 <= i < 4 ==> RgbOf(px[i]) == if i % 2 == 0 then Rgb(0, 0, 0) else Rgb(255, 255, 255)
    requires MedianCutPalette(px, 2, palette)
    ensures palette == [Rgb(0, 0, 0), Rgb(255, 255, 255)]
  {
    assert MaxElementCount(|px|, 2) == 2;
    var cs :| Perm(Colours(px), cs, 0, |px| - 1) && MedianSplits(cs, 2) && LeafMeans(palette, 0, cs, LeafRanges(0, |px|, 2));
    BlackWhiteColours(px);
    BlackWhiteSplit(cs);
    BlackWhiteMeans(palette, cs);
  }

  /** An image whose pixels all have colour c gets the palette [c, ..., c]
      and, when its pixels are opaque, comes back unchanged. */
  lemma ConstantImageKeepsColour(px: seq<Pixel>, palette: seq<Rgb>, c: Rgb)
    requires |palette| >= 1
    requires forall i :: 0 <= i < |px| ==> RgbOf(px[i]) == c
    requires EntriesWithinBucket(palette, 0, Colours(px), 0, |px|)
    requires |px| >= 1
    ensures forall k :: 0 <= k < |palette| ==> palette[k] == c
    ensures forall i :: 0 <= i < |px| ==> Recolour(px, palette)[i] == MapRgb(c)
    ensures (forall i :: 0 <= i < |px| ==> px[i].a == 0xFF) ==> Recolour(px, palette) == px
  {
    var cs := Colours(px);
    assert InBand(cs, RedAxis, 0, |px| - 1, c.r, c.r);
    assert InBand(cs, GreenAxis, 0, |px| - 1, c.g, c.g);
    assert InBand(cs, BlueAxis, 0, |px| - 1, c.b, c.b);
    assert EntriesInBand(palette, 0, RedAxis, c.r, c.r);
    assert EntriesInBand(palette, 0, GreenAxis, c.g, c.g);
    assert EntriesInBand(palette, 0, BlueAxis, c.b, c.b);
    forall k | 0 <= k < |palette|
      ensures palette[k] == c
    {
      assert Key(palette[k], RedAxis) == c.r;
      assert Key(palette[k], GreenAxis) == c.g;
      assert Key(palette[k], BlueAxis) == c.b;
    }
    forall i | 0 <= i < |px|
      ensures Recolour(px, palette)[i] == MapRgb(c)
    {
      ExactEntryWins(palette, c, 0);
    }
  }

  // ---------------------------------------------------------------------------
  // The palette search as written

  /** The rows the program's search runs over: the n rows of the palette
      array, of which the first |written| were written by the leaves and the
      rest still hold whatever the array held before (rows). */
  function SearchTable(written: seq<Rgb>, rows: seq<Rgb>): (table: seq<Rgb>)
    requires |written| <= |rows|
    ensures |table| == |rows|
    ensures table[..|written|] == written
    ensures forall k :: |written| <= k < |rows| ==> table[k] == rows[k]
  {
    written + rows[|written|..]
  }

  /** A pixel nearer to an unwritten row than to every written entry takes
      the unwritten row's colour, which is not in the quantized palette. */
  lemma UnwrittenEntryChosen()
    ensures var written := [Rgb(0, 0, 0)];
            var table := SearchTable(written, [Rgb(0, 0, 0), Rgb(255, 255, 255)]);
            && NearestIndex(table, Rgb(255, 255, 255)) == 1
            && RgbOf(Recolour([Gray(255)], table)[0]) !in written
  {
    var table := SearchTable([Rgb(0, 0, 0)], [Rgb(0, 0, 0), Rgb(255, 255, 255)]);
    assert table == [Rgb(0, 0, 0), Rgb(255, 255, 255)];
    ExactEntryWins(table, Rgb(255, 255, 255), 1);
  }
}
