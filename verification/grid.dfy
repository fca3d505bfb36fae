/** A w x h surface stored row by row: pixel (x, y) is entry y * w + x. */
module Grid {
  import opened Pixels

  /** pixels has one entry per cell of a w x h grid. */
  predicate IsImage(w: nat, h: nat, pixels: seq<Pixel>)
  {
    |pixels| == w * h
  }

  /** (x, y) is at least r cells away from every edge of the grid; r = 1 is
      the region [1, w-1) x [1, h-1), r = 2 the region [2, w-2) x [2, h-2). */
  predicate Inside(w: nat, h: nat, x: int, y: int, r: nat)
  {
    r <= x < w - r && r <= y < h - r
  }

  /** Multiplying by a positive w keeps the order of two numbers. */
  lemma MulLe(a: int, b: int, w: int)
    requires w >= 1 && a <= b
    ensures a * w <= b * w
  {
    assert b * w - a * w == (b - a) * w;
    assert (b - a) * w >= 0;
  }

  /** Cell (x, y) of the grid is entry y * w + x, and that entry is in range. */
  lemma CellInRange(w: nat, h: nat, x: int, y: int)
    requires 0 <= x < w && 0 <= y < h
    ensures 0 <= y * w + x < w * h
  {
    MulLe(y, h - 1, w);
    assert (h - 1) * w == h * w - w;
    MulLe(0, y, w);
  }

  /** Entry i of the grid is cell (i % w, i / w). */
  lemma CellOfIndex(w: nat, h: nat, i: int)
    requires 0 <= i < w * h
    ensures w >= 1
    ensures 0 <= i % w < w && 0 <= i / w < h
    ensures i == (i / w) * w + i % w
  {
    var y := i / w;
    if y >= h {
      MulLe(h, y, w);
    }
  }

  /** Cell (x, y) is entry y * w + x, and no other. */
  lemma IndexOfCell(w: nat, h: nat, x: int, y: int)
    requires 0 <= x < w && 0 <= y < h
    ensures (y * w + x) % w == x && (y * w + x) / w == y
  {
    DivModUnique(y * w + x, w, y, x);
  }

  /** The red channel of cell (x, y): the gray level every kernel reads. */
  function Level(w: nat, h: nat, pixels: seq<Pixel>, x: int, y: int): (v: byte)
    requires IsImage(w, h, pixels) && 0 <= x < w && 0 <= y < h
  {
    CellInRange(w, h, x, y);
    pixels[y * w + x].r
  }
}
