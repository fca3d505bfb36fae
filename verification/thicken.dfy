/** ThickenEdges: dilation of the black pixels of the edge map.

    Every interior cell (at least one cell away from each border) whose
    colour is black stamps its 3 x 3 neighbourhood: after the pass, each
    stamped cell holds opaque black.  The cells to stamp are all collected
    from the map as it was before the pass, and only then written.

    The program collects the stamps in a list of cell indices, nine per
    black interior cell, in a buffer of (h - 1) * (w - 1) entries.  Before
    stamping a black cell it tries to skip cells already in the list, but
    the loop doing so stops after the first entry. */
module Thicken {
  import opened Pixels
  import opened Grid

  // ---------------------------------------------------------------------------
  // Cells that stamp

  /** (x, y) is an interior cell whose colour is black. */
  predicate BlackAt(w: nat, h: nat, edges: seq<Pixel>, x: int, y: int)
  {
    if IsImage(w, h, edges) && Inside(w, h, x, y, 1) then
      CellInRange(w, h, x, y);
      IsBlack(edges[y * w + x])
    else
      false
  }

  /** Some black interior cell has (x, y) in its 3 x 3 neighbourhood. */
  predicate Stamped(w: nat, h: nat, edges: seq<Pixel>, x: int, y: int)
  {
    || BlackAt(w, h, edges, x - 1, y - 1) || BlackAt(w, h, edges, x, y - 1) || BlackAt(w, h, edges, x + 1, y - 1)
    || BlackAt(w, h, edges, x - 1, y)     || BlackAt(w, h, edges, x, y)     || BlackAt(w, h, edges, x + 1, y)
    || BlackAt(w, h, edges, x - 1, y + 1) || BlackAt(w, h, edges, x, y + 1) || BlackAt(w, h, edges, x + 1, y + 1)
  }

  /** The thickened edge map: every stamped cell becomes opaque black (what
      SDL_MapRGB(0, 0, 0) writes), every other cell keeps its pixel. */
  function ThickenEdges(w: nat, h: nat, edges: seq<Pixel>): (out: seq<Pixel>)
    requires IsImage(w, h, edges)
    ensures IsImage(w, h, out)
    ensures forall i :: 0 <= i < |edges| ==> out[i] == edges[i] || out[i] == MapRgb(BlackRgb)
    ensures forall i :: 0 <= i < |edges| ==>
              (IsBlack(out[i]) <==> IsBlack(edges[i]) || Stamped(w, h, edges, i % w, i / w))
    ensures forall i :: 0 <= i < |edges| && out[i] != edges[i] ==> Stamped(w, h, edges, i % w, i / w)
  {
    seq(|edges|, i requires 0 <= i < |edges| =>
      CellOfIndex(w, h, i);
      if Stamped(w, h, edges, i % w, i / w) then MapRgb(BlackRgb) else edges[i])
  }

  /** Thickening never clears a black cell. */
  lemma ThickenKeepsBlack(w: nat, h: nat, edges: seq<Pixel>, i: int)
    requires IsImage(w, h, edges) && 0 <= i < |edges| && IsBlack(edges[i])
    ensures IsBlack(ThickenEdges(w, h, edges)[i])
  {
  }

  /** Cell (x, y) of the thickened map, in coordinates. */
  lemma ThickenCell(w: nat, h: nat, edges: seq<Pixel>, x: int, y: int)
    requires IsImage(w, h, edges) && 0 <= x < w && 0 <= y < h
    ensures 0 <= y * w + x < |edges|
    ensures Stamped(w, h, edges, x, y) ==> ThickenEdges(w, h, edges)[y * w + x] == MapRgb(BlackRgb)
    ensures !Stamped(w, h, edges, x, y) ==> ThickenEdges(w, h, edges)[y * w + x] == edges[y * w + x]
  {
    CellInRange(w, h, x, y);
    IndexOfCell(w, h, x, y);
  }

  /** Dilation is not idempotent: on a 5 x 5 white map with a black centre
      the first pass blackens the 3 x 3 block around the centre, and the
      second pass grows that block to the whole map, corner included. */
  lemma ThickenNotIdempotent()
    ensures var e := seq(25, i => if i == 12 then Pixel(0, 0, 0, 0) else MapRgb(WhiteRgb));
            var once := ThickenEdges(5, 5, e);
            && once[0] == MapRgb(WhiteRgb)
            && ThickenEdges(5, 5, once)[0] == MapRgb(BlackRgb)
  {
    var e := seq(25, i => if i == 12 then Pixel(0, 0, 0, 0) else MapRgb(WhiteRgb));
    var once := ThickenEdges(5, 5, e);
    assert BlackAt(5, 5, e, 2, 2) by { CellInRange(5, 5, 2, 2); }
    ThickenCell(5, 5, e, 1, 1);
    ThickenCell(5, 5, e, 0, 0);
    assert !Stamped(5, 5, e, 0, 0) by {
      assert e[6] == MapRgb(WhiteRgb) && !IsBlack(e[6]);
      assert !BlackAt(5, 5, e, 1, 1);
    }
    assert BlackAt(5, 5, once, 1, 1) by { CellInRange(5, 5, 1, 1); }
    ThickenCell(5, 5, once, 0, 0);
  }

  // ---------------------------------------------------------------------------
  // The mark list as written

  /** Entry i of the grid as a black interior cell. */
  predicate BlackCell(w: nat, h: nat, edges: seq<Pixel>, c: int)
  {
    w >= 1 && 0 <= c < w * h && BlackAt(w, h, edges, c % w, c / w)
  }

  /** The nine indices the program appends for the black cell c, row by row:
      (y-1)*w + (x-1) first and (y+1)*w + (x+1) last. */
  function StampOf(w: nat, c: int): (s: seq<int>)
    ensures |s| == 9
    ensures s[0] == c - w - 1 && s[4] == c
  {
    [c - w - 1, c - w, c - w + 1, c - 1, c, c + 1, c + w - 1, c + w, c + w + 1]
  }

  /** The list after scanning the first n cells in row order, as written:
      a black interior cell is skipped when it equals the first entry of the
      list, which is all the duplicate loop looks at before it breaks. */
  function ScanMarks(w: nat, h: nat, edges: seq<Pixel>, n: nat): seq<int>
    requires n <= w * h
  {
    if n == 0 then []
    else
      var prev := ScanMarks(w, h, edges, n - 1);
      var c := n - 1;
      if BlackCell(w, h, edges, c) && !(|prev| > 0 && prev[0] == c) then prev + StampOf(w, c) else prev
  }

  /** The same scan with no duplicate check. */
  function PlainMarks(w: nat, h: nat, edges: seq<Pixel>, n: nat): seq<int>
    requires n <= w * h
  {
    if n == 0 then []
    else
      var prev := PlainMarks(w, h, edges, n - 1);
      if BlackCell(w, h, edges, n - 1) then prev + StampOf(w, n - 1) else prev
  }

  /** The duplicate check never skips a cell: the first entry of the list is
      the upper-left neighbour of the first black cell, which comes before
      every cell scanned after it. */
  lemma {:induction false} DuplicateCheckNeverFires(w: nat, h: nat, edges: seq<Pixel>, n: nat)
    requires n <= w * h
    ensures ScanMarks(w, h, edges, n) == PlainMarks(w, h, edges, n)
    ensures |PlainMarks(w, h, edges, n)| > 0 ==> PlainMarks(w, h, edges, n)[0] < n - 1
  {
    if n > 0 {
      DuplicateCheckNeverFires(w, h, edges, n - 1);
    }
  }

  /** The number of black interior cells among the first n. */
  function BlackCount(w: nat, h: nat, edges: seq<Pixel>, n: nat): nat
    requires n <= w * h
  {
    if n == 0 then 0
    else BlackCount(w, h, edges, n - 1) + (if BlackCell(w, h, edges, n - 1) then 1 else 0)
  }

  /** Nine marks per black interior cell. */
  lemma {:induction false} MarkCount(w: nat, h: nat, edges: seq<Pixel>, n: nat)
    requires n <= w * h
    ensures |PlainMarks(w, h, edges, n)| == 9 * BlackCount(w, h, edges, n)
  {
    if n > 0 {
      MarkCount(w, h, edges, n - 1);
    }
  }

  /** The list holds the stamps of exactly the black interior cells
      scanned so far. */
  lemma {:induction false} PlainMarksMembers(w: nat, h: nat, edges: seq<Pixel>, n: nat, v: int)
    requires n <= w * h
    ensures v in PlainMarks(w, h, edges, n) <==>
              exists c :: 0 <= c < n && BlackCell(w, h, edges, c) && v in StampOf(w, c)
  {
    if n > 0 {
      PlainMarksMembers(w, h, edges, n - 1, v);
    }
  }

  /** Moving from interior cell (x, y) by at most one cell in each direction
      stays inside the grid, and the index moves by dy * w + dx. */
  lemma Offset(w: nat, h: nat, x: int, y: int, dx: int, dy: int)
    requires Inside(w, h, x, y, 1) && -1 <= dx <= 1 && -1 <= dy <= 1
    ensures var v := (y * w + x) + dy * w + dx;
            && 0 <= v < w * h
            && v % w == x + dx && v / w == y + dy
  {
    assert (y + dy) * w == y * w + dy * w;
    CellInRange(w, h, x + dx, y + dy);
    IndexOfCell(w, h, x + dx, y + dy);
  }

  /** A cell at most one step from a black interior cell is stamped. */
  lemma StampedFrom(w: nat, h: nat, edges: seq<Pixel>, vx: int, vy: int, cx: int, cy: int)
    requires BlackAt(w, h, edges, cx, cy) && -1 <= vx - cx <= 1 && -1 <= vy - cy <= 1
    ensures Stamped(w, h, edges, vx, vy)
  {
  }

  /** The stamp of c holds c + dy * w + dx for every offset in {-1, 0, 1}. */
  lemma StampMember(w: nat, c: int, dx: int, dy: int)
    requires -1 <= dx <= 1 && -1 <= dy <= 1
    ensures c + dy * w + dx in StampOf(w, c)
  {
    var s := StampOf(w, c);
    if dy == -1 {
      assert c + dy * w + dx == s[dx + 1];
    } else if dy == 0 {
      assert c + dy * w + dx == s[dx + 4];
    } else {
      assert c + dy * w + dx == s[dx + 7];
    }
  }

  /** Every entry of the stamp of c is c + dy * w + dx for some offset. */
  lemma StampOffset(w: nat, c: int, v: int) returns (dx: int, dy: int)
    requires v in StampOf(w, c)
    ensures -1 <= dx <= 1 && -1 <= dy <= 1 && v == c + dy * w + dx
  {
    var s := StampOf(w, c);
    var k :| 0 <= k < 9 && s[k] == v;
    dx, dy := k % 3 - 1, k / 3 - 1;
    if k < 3 {
      assert v == c - w + dx;
    } else if k < 6 {
      assert v == c + dx;
    } else {
      assert v == c + w + dx;
    }
  }

  /** The cells of the stamp of c are stamped cells of the grid. */
  lemma StampEntry(w: nat, h: nat, edges: seq<Pixel>, c: int, v: int)
    requires BlackCell(w, h, edges, c) && v in StampOf(w, c)
    ensures 0 <= v < w * h
    ensures Stamped(w, h, edges, v % w, v / w)
  {
    var x, y := c % w, c / w;
    CellOfIndex(w, h, c);
    assert BlackAt(w, h, edges, x, y);
    var dx, dy := StampOffset(w, c, v);
    Offset(w, h, x, y, dx, dy);
    StampedFrom(w, h, edges, v % w, v / w, x, y);
  }

  /** A cell next to a black interior cell (cx, cy) lies in that cell's
      stamp. */
  lemma NeighbourInStamp(w: nat, h: nat, edges: seq<Pixel>, v: int, cx: int, cy: int)
    requires IsImage(w, h, edges) && 0 <= v < w * h && BlackAt(w, h, edges, cx, cy)
    requires w >= 1 && -1 <= v % w - cx <= 1 && -1 <= v / w - cy <= 1
    ensures 0 <= cy * w + cx < w * h && BlackCell(w, h, edges, cy * w + cx)
    ensures v in StampOf(w, cy * w + cx)
  {
    var q, m := v / w, v % w;
    var dx, dy := m - cx, q - cy;
    var c := cy * w + cx;
    CellInRange(w, h, cx, cy);
    IndexOfCell(w, h, cx, cy);
    assert v == q * w + m;
    assert dy * w == q * w - cy * w;
    assert c + dy * w + dx == v;
    StampMember(w, c, dx, dy);
  }

  /** A cell is in some black cell's stamp exactly when it is stamped. */
  lemma InStampIffStamped(w: nat, h: nat, edges: seq<Pixel>, v: int)
    requires IsImage(w, h, edges) && 0 <= v < w * h
    ensures w >= 1
    ensures (exists c :: 0 <= c < w * h && BlackCell(w, h, edges, c) && v in StampOf(w, c)) <==>
              Stamped(w, h, edges, v % w, v / w)
  {
    CellOfIndex(w, h, v);
    var x, y := v % w, v / w;
    if exists c :: 0 <= c < w * h && BlackCell(w, h, edges, c) && v in StampOf(w, c) {
      var c :| 0 <= c < w * h && BlackCell(w, h, edges, c) && v in StampOf(w, c);
      StampEntry(w, h, edges, c, v);
    }
    if Stamped(w, h, edges, x, y) {
      var cx, cy;
      if BlackAt(w, h, edges, x - 1, y - 1) { cx, cy := x - 1, y - 1; }
      else if BlackAt(w, h, edges, x, y - 1) { cx, cy := x, y - 1; }
      else if BlackAt(w, h, edges, x + 1, y - 1) { cx, cy := x + 1, y - 1; }
      else if BlackAt(w, h, edges, x - 1, y) { cx, cy := x - 1, y; }
      else if BlackAt(w, h, edges, x, y) { cx, cy := x, y; }
      else if BlackAt(w, h, edges, x + 1, y) { cx, cy := x + 1, y; }
      else if BlackAt(w, h, edges, x - 1, y + 1) { cx, cy := x - 1, y + 1; }
      else if BlackAt(w, h, edges, x, y + 1) { cx, cy := x, y + 1; }
      else { cx, cy := x + 1, y + 1; }
      NeighbourInStamp(w, h, edges, v, cx, cy);
    }
  }

  /** The pixel array after the final loop of the program: every listed
      index overwritten with opaque black. */
  function ApplyMarks(px: seq<Pixel>, marks: seq<int>): (out: seq<Pixel>)
    requires forall j :: 0 <= j < |marks| ==> 0 <= marks[j] < |px|
    ensures |out| == |px|
    ensures forall i :: 0 <= i < |px| ==> out[i] == (if i in marks then MapRgb(BlackRgb) else px[i])
  {
    if |marks| == 0 then px
    else ApplyMarks(px, marks[..|marks| - 1])[marks[|marks| - 1] := MapRgb(BlackRgb)]
  }

  /** Every listed index is a cell of the grid. */
  lemma {:induction false} MarksInRange(w: nat, h: nat, edges: seq<Pixel>, n: nat)
    requires IsImage(w, h, edges) && n <= w * h
    ensures forall j :: 0 <= j < |PlainMarks(w, h, edges, n)| ==> 0 <= PlainMarks(w, h, edges, n)[j] < |edges|
  {
    if n > 0 {
      MarksInRange(w, h, edges, n - 1);
      if BlackCell(w, h, edges, n - 1) {
        var s := StampOf(w, n - 1);
        forall k | 0 <= k < 9
          ensures 0 <= s[k] < |edges|
        {
          StampEntry(w, h, edges, n - 1, s[k]);
        }
      }
    }
  }

  /** Writing the list the program collects gives the thickened map: the
      list and the stamp predicate mark the same cells. */
  lemma AsWrittenAgrees(w: nat, h: nat, edges: seq<Pixel>)
    requires IsImage(w, h, edges)
    ensures var marks := ScanMarks(w, h, edges, w * h);
            && (forall j :: 0 <= j < |marks| ==> 0 <= marks[j] < |edges|)
            && ApplyMarks(edges, marks) == ThickenEdges(w, h, edges)
  {
    DuplicateCheckNeverFires(w, h, edges, w * h);
    MarksInRange(w, h, edges, w * h);
    var marks := PlainMarks(w, h, edges, w * h);
    var out := ApplyMarks(edges, marks);
    var thick := ThickenEdges(w, h, edges);
    forall i | 0 <= i < |edges|
      ensures out[i] == thick[i]
    {
      PlainMarksMembers(w, h, edges, w * h, i);
      InStampIffStamped(w, h, edges, i);
    }
  }

  // ---------------------------------------------------------------------------
  // The mark buffer

  /** The number of ints the program allocates for the list. */
  function Capacity(w: nat, h: nat): int
  {
    (h - 1) * (w - 1)
  }

  /** A 3 x 3 map whose centre is black: the program appends nine marks to
      a buffer of four. */
  lemma MarkBufferOverflow()
    ensures var e := seq(9, i => if i == 4 then Pixel(0, 0, 0, 0) else MapRgb(WhiteRgb));
            |ScanMarks(3, 3, e, 9)| == 9 > Capacity(3, 3)
  {
    var e := seq(9, i => if i == 4 then Pixel(0, 0, 0, 0) else MapRgb(WhiteRgb));
    DuplicateCheckNeverFires(3, 3, e, 9);
    MarkCount(3, 3, e, 9);
    assert BlackCell(3, 3, e, 4) by { CellInRange(3, 3, 1, 1); }
    forall c | 0 <= c < 9 && c != 4
      ensures !BlackCell(3, 3, e, c)
    {
      CellOfIndex(3, 3, c);
    }
    assert BlackCount(3, 3, e, 1) == 0;
    assert BlackCount(3, 3, e, 2) == 0;
    assert BlackCount(3, 3, e, 3) == 0;
    assert BlackCount(3, 3, e, 4) == 0;
    assert BlackCount(3, 3, e, 5) == 1;
    assert BlackCount(3, 3, e, 6) == 1;
    assert BlackCount(3, 3, e, 7) == 1;
    assert BlackCount(3, 3, e, 8) == 1;
    assert BlackCount(3, 3, e, 9) == 1;
  }
}
