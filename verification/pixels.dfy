/** Pixel words of an ARGB8888 surface.

    Every surface of the pipeline is converted to ARGB8888, so reading a
    pixel's colour is a matter of shifts and masks, and writing a colour
    always produces an opaque word (alpha 0xFF).  A pixel is kept as its four
    bytes; the packed 32-bit word is only built where the program does
    arithmetic on whole words (the edge map). */
module Pixels {

  type byte = x: int | 0 <= x < 0x100

  const WordModulus: int := 0x1_0000_0000

  type word = x: int | 0 <= x < WordModulus

  datatype Pixel = Pixel(a: byte, r: byte, g: byte, b: byte)

  /** An (R,G,B) colour sample, alpha dropped. */
  datatype Rgb = Rgb(r: byte, g: byte, b: byte)

  /** The colour part of a pixel, as read by SDL_GetRGB. */
  function RgbOf(p: Pixel): Rgb
  {
    Rgb(p.r, p.g, p.b)
  }

  /** The word written by SDL_MapRGB on an ARGB8888 surface: always opaque. */
  function MapRgb(c: Rgb): (p: Pixel)
    ensures p.a == 0xFF
    ensures RgbOf(p) == c
  {
    Pixel(0xFF, c.r, c.g, c.b)
  }

  /** An opaque gray pixel, R = G = B = v. */
  function Gray(v: byte): Pixel
  {
    MapRgb(Rgb(v, v, v))
  }

  const BlackRgb: Rgb := Rgb(0, 0, 0)
  const WhiteRgb: Rgb := Rgb(255, 255, 255)

  /** The colour part is (0,0,0); alpha is not looked at. */
  predicate IsBlack(p: Pixel)
  {
    RgbOf(p) == BlackRgb
  }

  /** The 32-bit ARGB8888 word of a pixel. */
  function ToWord(p: Pixel): (w: word)
  {
    p.a * 0x100_0000 + p.r * 0x1_0000 + p.g * 0x100 + p.b
  }

  /** Splitting a word into its bytes. */
  function FromWord(w: word): (p: Pixel)
  {
    Pixel(w / 0x100_0000, (w / 0x1_0000) % 0x100, (w / 0x100) % 0x100, w % 0x100)
  }

  /** If n = q*d + m with 0 <= m < d, then q and m are the quotient and remainder. */
  lemma DivModUnique(n: int, d: int, q: int, m: int)
    requires 0 < d && 0 <= m < d && n == q * d + m
    ensures n / d == q && n % d == m
  {
    var q', m' := n / d, n % d;
    assert n == q' * d + m' && 0 <= m' < d;
    assert (q - q') * d == m' - m by {
      assert q * d - q' * d == (q - q') * d;
    }
    if q > q' {
      AtLeastDivisor(q - q', d);
    } else if q < q' {
      AtLeastDivisor(q' - q, d);
    }
  }

  /** A positive multiple of d is at least d. */
  lemma AtLeastDivisor(k: int, d: int)
    requires k >= 1 && d > 0
    ensures k * d >= d
  {
    assert k * d == (k - 1) * d + d;
  }

  /** Packing then unpacking a pixel gives it back. */
  lemma {:induction false} FromToWord(p: Pixel)
    ensures FromWord(ToWord(p)) == p
  {
    var w := ToWord(p);
    DivModUnique(w, 0x100_0000, p.a, p.r * 0x1_0000 + p.g * 0x100 + p.b);
    DivModUnique(w, 0x1_0000, p.a * 0x100 + p.r, p.g * 0x100 + p.b);
    DivModUnique(w / 0x1_0000, 0x100, p.a, p.r);
    DivModUnique(w, 0x100, p.a * 0x1_0000 + p.r * 0x100 + p.g, p.b);
    DivModUnique(w / 0x100, 0x100, p.a * 0x100 + p.r, p.g);
  }

  /** Unpacking then packing a word gives it back. */
  lemma {:induction false} ToFromWord(w: word)
    ensures ToWord(FromWord(w)) == w
  {
    var p := FromWord(w);
    assert w == (w / 0x100) * 0x100 + w % 0x100;
    assert w / 0x100 == ((w / 0x100) / 0x100) * 0x100 + (w / 0x100) % 0x100;
    assert (w / 0x100) / 0x100 == w / 0x1_0000;
    assert w / 0x1_0000 == ((w / 0x1_0000) / 0x100) * 0x100 + (w / 0x1_0000) % 0x100;
    assert (w / 0x1_0000) / 0x100 == w / 0x100_0000;
  }

  /** Two pixels with the same word are the same pixel. */
  lemma ToWordInjective(p: Pixel, q: Pixel)
    requires ToWord(p) == ToWord(q)
    ensures p == q
  {
    FromToWord(p);
    FromToWord(q);
  }
}
