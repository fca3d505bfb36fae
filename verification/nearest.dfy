/** The closest-palette-colour search of ColourQuantization.

    The program measures the distance between a pixel and a palette entry as
    (int) sqrt(a + b + c), the truncated square root of the squared
    Euclidean distance, and keeps the first entry with the smallest such
    value: a later entry replaces the current one only when strictly
    closer. */
module Nearest {
  import opened Pixels

  function Square(d: int): nat
  {
    d * d
  }

  /** The truncated square root: the largest r with r * r <= n. */
  function ISqrt(n: nat): (r: nat)
    ensures r * r <= n < (r + 1) * (r + 1)
    decreases n
  {
    if n < 4 then
      if n == 0 then 0 else 1
    else
      var h := ISqrt(n / 4);
      HalvedRoot(n, h);
      if (2 * h + 1) * (2 * h + 1) <= n then 2 * h + 1 else 2 * h
  }

  /** The root of n lies in [2h, 2h + 1] when h is the root of n / 4. */
  lemma HalvedRoot(n: nat, h: nat)
    requires h * h <= n / 4 < (h + 1) * (h + 1)
    ensures (2 * h) * (2 * h) <= n < (2 * h + 2) * (2 * h + 2)
  {
    var q := n / 4;
    assert n == 4 * q + n % 4;
    assert (2 * h) * (2 * h) == 4 * (h * h);
    assert (2 * h + 2) * (2 * h + 2) == 4 * ((h + 1) * (h + 1));
  }

  lemma SquareMonotone(a: nat, b: nat)
    requires a <= b
    ensures a * a <= b * b
  {
    assert b * b - a * a == (b - a) * (b + a);
  }

  /** Only one r has r * r <= n < (r + 1)^2, so ISqrt is that root. */
  lemma ISqrtUnique(n: nat, r: nat)
    requires r * r <= n < (r + 1) * (r + 1)
    ensures ISqrt(n) == r
  {
    var s := ISqrt(n);
    if s < r {
      SquareMonotone(s + 1, r);
    } else if r < s {
      SquareMonotone(r + 1, s);
    }
  }

  /** Euclidean_Distance of the program for a pixel c and a palette entry p. */
  function Distance(p: Rgb, c: Rgb): (d: nat)
    ensures d == 0 <==> p == c
  {
    SquareZero(p.r - c.r);
    SquareZero(p.g - c.g);
    SquareZero(p.b - c.b);
    ISqrt(Square(p.r - c.r) + Square(p.g - c.g) + Square(p.b - c.b))
  }

  /** The program subtracts an 8-bit sample from an unsigned 32-bit palette
      value, so a negative difference wraps around; squaring the wrapped value
      modulo 2^32 still gives the true square. */
  lemma WrappedSquare(p: byte, c: byte)
    ensures ((p - c) % WordModulus) * ((p - c) % WordModulus) % WordModulus == Square(p - c)
  {
    var d: int := p - c;
    var sq := d * d;
    assert sq <= 255 * 255 by {
      if d >= 0 { SquareMonotone(d, 255); } else { SquareMonotone(-d, 255); assert (-d) * (-d) == sq; }
    }
    if d >= 0 {
      DivModUnique(d, WordModulus, 0, d);
      DivModUnique(sq, WordModulus, 0, sq);
    } else {
      var w := d + WordModulus;
      DivModUnique(d, WordModulus, -1, w);
      var q := 2 * d + WordModulus;
      assert w * w == q * WordModulus + sq by {
        assert w * w == d * d + 2 * d * WordModulus + WordModulus * WordModulus;
      }
      DivModUnique(w * w, WordModulus, q, sq);
    }
  }

  /** Only 0 squares to 0. */
  lemma SquareZero(d: int)
    ensures Square(d) == 0 <==> d == 0
  {
    if d > 0 {
      AtLeastDivisor(d, d);
    } else if d < 0 {
      AtLeastDivisor(-d, -d);
      assert (-d) * (-d) == d * d;
    }
  }

  /** i is the entry the search keeps for pixel c: no entry is closer, and
      every earlier entry is strictly farther. */
  ghost predicate IsFirstNearest(palette: seq<Rgb>, c: Rgb, i: int)
  {
    && 0 <= i < |palette|
    && (forall k :: 0 <= k < |palette| ==> Distance(palette[i], c) <= Distance(palette[k], c))
    && (forall k :: 0 <= k < i ==> Distance(palette[i], c) < Distance(palette[k], c))
  }

  /** The `for (z = 0; z < colour_palette_no; z++)` search over the entries
      of palette: entry 0 first, then a strictly closer entry replaces the
      one kept. */
  function NearestIndex(palette: seq<Rgb>, c: Rgb): (i: nat)
    requires |palette| >= 1
    ensures IsFirstNearest(palette, c, i)
    decreases |palette|
  {
    if |palette| == 1 then 0
    else
      var init := palette[..|palette| - 1];
      var j := NearestIndex(init, c);
      assert forall k :: 0 <= k < |init| ==> init[k] == palette[k];
      if Distance(palette[|palette| - 1], c) < Distance(palette[j], c) then |palette| - 1 else j
  }

  /** Two indices both first-nearest are the same. */
  lemma FirstNearestUnique(palette: seq<Rgb>, c: Rgb, i: int, j: int)
    requires IsFirstNearest(palette, c, i) && IsFirstNearest(palette, c, j)
    ensures i == j
  {
    var di, dj := Distance(palette[i], c), Distance(palette[j], c);
    assert di <= dj && dj <= di;
  }

  /** An entry equal to the pixel is at distance 0, so the search keeps an
      entry at distance 0, which is the pixel's own colour. */
  lemma ExactEntryWins(palette: seq<Rgb>, c: Rgb, k: int)
    requires 0 <= k < |palette| && palette[k] == c
    ensures palette[NearestIndex(palette, c)] == c
  {
    var i := NearestIndex(palette, c);
    assert Distance(palette[k], c) == 0 by { ISqrtUnique(0, 0); }
    var p := palette[i];
    var sum := Square(p.r - c.r) + Square(p.g - c.g) + Square(p.b - c.b);
    assert ISqrt(sum) == 0;
    SquareZero(p.r - c.r);
    SquareZero(p.g - c.g);
    SquareZero(p.b - c.b);
  }

  /** Squared distances 1 and 2 both truncate to 1, so the search keeps the
      first of two entries even when the second is strictly closer in
      Euclidean terms. */
  lemma TruncationTie()
    ensures var c := Rgb(0, 0, 0);
            var palette := [Rgb(1, 1, 0), Rgb(1, 0, 0)];
            && Square(1) + Square(1) > Square(1)
            && NearestIndex(palette, c) == 0
  {
    ISqrtUnique(2, 1);
    ISqrtUnique(1, 1);
  }
}
