/** BenDay: recolouring of the quantized image against a dot template.

    Pass 1 snaps colours near red, blue, yellow, black and white to five
    fixed colours.  Every rule tests the colour the pixel had before the
    pass, and a later rule that matches overwrites an earlier one.  Pass 2
    leaves the five snapped colours alone and turns some of the remaining
    pixels white, depending on how dark they are and on the template pixel
    at the same place. */
module BenDay {
  import opened Pixels

  const Red: Rgb := Rgb(200, 0, 0)
  const Blue: Rgb := Rgb(0, 40, 170)
  const Yellow: Rgb := Rgb(250, 220, 100)

  predicate NearRed(c: Rgb)    { c.r > 150 && c.g < 50 && c.b < 50 }
  predicate NearBlue(c: Rgb)   { c.r < 125 && c.g < 125 && c.b > 150 }
  predicate NearYellow(c: Rgb) { c.r > 220 && c.g > 170 && c.b < 130 }
  predicate NearBlack(c: Rgb)  { c.r < 100 && c.g < 100 && c.b < 100 }
  predicate NearWhite(c: Rgb)  { c.r > 200 && c.g > 200 && c.b > 200 }

  /** One of the five colours pass 1 writes. */
  predicate IsSnapped(c: Rgb)
  {
    c == Red || c == Blue || c == Yellow || c == BlackRgb || c == WhiteRgb
  }

  // ---------------------------------------------------------------------------
  // Pass 1

  /** Pass 1 on one pixel as written: five independent ifs on the colour
      read before the pass, each overwriting the pixel when it matches. */
  function Snap(p: Pixel): Pixel
  {
    var c := RgbOf(p);
    var p1 := if NearRed(c) then MapRgb(Red) else p;
    var p2 := if NearBlue(c) then MapRgb(Blue) else p1;
    var p3 := if NearYellow(c) then MapRgb(Yellow) else p2;
    var p4 := if NearBlack(c) then MapRgb(BlackRgb) else p3;
    if NearWhite(c) then MapRgb(WhiteRgb) else p4
  }

  /** The first rule, in the order red, blue, yellow, black, white, that
      matches c, and the colour it snaps to. */
  datatype Rule = RedRule | BlueRule | YellowRule | BlackRule | WhiteRule | NoRule

  function FirstRule(c: Rgb): Rule
  {
    if NearRed(c) then RedRule
    else if NearBlue(c) then BlueRule
    else if NearYellow(c) then YellowRule
    else if NearBlack(c) then BlackRule
    else if NearWhite(c) then WhiteRule
    else NoRule
  }

  function Target(rule: Rule): Rgb
    requires rule != NoRule
  {
    match rule
    case RedRule => Red
    case BlueRule => Blue
    case YellowRule => Yellow
    case BlackRule => BlackRgb
    case WhiteRule => WhiteRgb
  }

  /** The number of rules matching c. */
  function Matches(c: Rgb): nat
  {
    (if NearRed(c) then 1 else 0) + (if NearBlue(c) then 1 else 0) + (if NearYellow(c) then 1 else 0)
    + (if NearBlack(c) then 1 else 0) + (if NearWhite(c) then 1 else 0)
  }

  /** No colour matches two rules. */
  lemma RulesDisjoint(c: Rgb)
    ensures Matches(c) <= 1
  {
  }

  /** Because the rules are disjoint, the overwrite order of the program and
      a first-match classification agree: a pixel matching a rule becomes the
      opaque target of that rule, any other pixel is left as it is. */
  lemma SnapIsFirstMatch(p: Pixel)
    ensures FirstRule(RgbOf(p)) == NoRule ==> Snap(p) == p
    ensures FirstRule(RgbOf(p)) != NoRule ==> Snap(p) == MapRgb(Target(FirstRule(RgbOf(p))))
  {
  }

  /** Each of the five targets satisfies its own rule. */
  lemma TargetsMatchOwnRule()
    ensures NearRed(Red) && NearBlue(Blue) && NearYellow(Yellow)
    ensures NearBlack(BlackRgb) && NearWhite(WhiteRgb)
  {
  }

  /** Pass 1 yields either the unchanged pixel or an opaque snapped colour;
      it snaps exactly the pixels that match a rule. */
  lemma SnapResult(p: Pixel)
    ensures Snap(p) == p || (Snap(p).a == 0xFF && IsSnapped(RgbOf(Snap(p))))
    ensures Snap(p) != p ==> FirstRule(RgbOf(p)) != NoRule
  {
  }

  /** Pass 1 twice is pass 1 once. */
  lemma SnapIdempotent(p: Pixel)
    ensures Snap(Snap(p)) == Snap(p)
  {
    SnapIsFirstMatch(p);
    var q := Snap(p);
    SnapIsFirstMatch(q);
  }

  // ---------------------------------------------------------------------------
  // Pass 2

  /** The darkness test of pass 2: the channel sum below 200. */
  predicate Dark(c: Rgb)
  {
    c.r + c.b + c.g < 200
  }

  /** A dark pixel turns white when no template channel is 255. */
  predicate NoFullChannel(t: Rgb)
  {
    t.r != 255 && t.g != 255 && t.b != 255
  }

  /** Pass 2 on one pixel q against the template pixel t. */
  function Dot(q: Pixel, t: Pixel): Pixel
  {
    var c, tc := RgbOf(q), RgbOf(t);
    if IsSnapped(c) then q
    else if Dark(c) then (if NoFullChannel(tc) then MapRgb(WhiteRgb) else q)
    else if tc == WhiteRgb then MapRgb(WhiteRgb)
    else q
  }

  /** Pass 2 writes nothing but opaque white, and it writes it exactly when
      the pixel is not snapped and either it is dark and the template has no
      full channel, or it is not dark and the template is pure white. */
  lemma DotWritesWhite(q: Pixel, t: Pixel)
    ensures Dot(q, t) == q || Dot(q, t) == MapRgb(WhiteRgb)
    ensures Dot(q, t) == MapRgb(WhiteRgb) <==>
              || q == MapRgb(WhiteRgb)
              || (&& !IsSnapped(RgbOf(q))
                  && (if Dark(RgbOf(q)) then NoFullChannel(RgbOf(t)) else RgbOf(t) == WhiteRgb))
  {
  }

  /** A snapped pixel passes pass 2 unchanged, whatever the template. */
  lemma DotKeepsSnapped(q: Pixel, t: Pixel)
    requires IsSnapped(RgbOf(q))
    ensures Dot(q, t) == q
  {
  }

  /** A dark pixel over a pure white template pixel stays as it is, and a
      light pixel over a template pixel with no full channel stays as it is:
      the two rules never whiten the same pixel for the same template. */
  lemma DotComplementary(q: Pixel, t: Pixel)
    requires !IsSnapped(RgbOf(q))
    ensures RgbOf(t) == WhiteRgb && Dark(RgbOf(q)) ==> Dot(q, t) == q
    ensures NoFullChannel(RgbOf(t)) && !Dark(RgbOf(q)) ==> Dot(q, t) == q
  {
  }

  /** Pass 2 twice against the same template is pass 2 once. */
  lemma DotIdempotent(q: Pixel, t: Pixel)
    ensures Dot(Dot(q, t), t) == Dot(q, t)
  {
  }

  // ---------------------------------------------------------------------------
  // Both passes over a surface

  /** Both passes on one pixel. */
  function BenDayPixel(q: Pixel, t: Pixel): Pixel
  {
    Dot(Snap(q), t)
  }

  /** BenDay(h, w, QuantizedSurface, Quantized_Pixels, BenDaySurface,
      BenDay_Pixels): pass 1 over every pixel, then pass 2 over every pixel.
      Each pass reads and writes only the pixel at hand, so the two loops
      over the surface are one map over the pixels. */
  function BenDaySurface(quantized: seq<Pixel>, template: seq<Pixel>): (out: seq<Pixel>)
    requires |quantized| == |template|
    ensures |out| == |quantized|
    ensures forall i :: 0 <= i < |quantized| ==>
              out[i] == Dot(Snap(quantized[i]), template[i])
  {
    seq(|quantized|, i requires 0 <= i < |quantized| => BenDayPixel(quantized[i], template[i]))
  }

  /** Each output pixel is the input pixel, an opaque snapped colour, or
      opaque white; and it is snapped or white whenever the input matched a
      snap rule. */
  lemma BenDayPixelResult(q: Pixel, t: Pixel)
    ensures var r := BenDayPixel(q, t);
            r == q || (r.a == 0xFF && IsSnapped(RgbOf(r)))
    ensures FirstRule(RgbOf(q)) != NoRule ==>
              BenDayPixel(q, t) == MapRgb(Target(FirstRule(RgbOf(q))))
  {
    SnapIsFirstMatch(q);
    SnapResult(q);
    DotWritesWhite(Snap(q), t);
  }

  /** Recolouring an already recoloured surface against the same template
      changes nothing. */
  lemma BenDayIdempotent(quantized: seq<Pixel>, template: seq<Pixel>)
    requires |quantized| == |template|
    ensures BenDaySurface(BenDaySurface(quantized, template), template) == BenDaySurface(quantized, template)
  {
    var once := BenDaySurface(quantized, template);
    forall i | 0 <= i < |quantized|
      ensures BenDayPixel(once[i], template[i]) == once[i]
    {
      var q, t := quantized[i], template[i];
      SnapIdempotent(q);
      DotWritesWhite(Snap(q), t);
      if once[i] == Snap(q) {
        DotIdempotent(Snap(q), t);
      }
    }
  }
}
