/** Width arithmetic of the two-column resizable split view. Pixel widths and
    column fractions are modelled as exact reals. */
module SplitLayout {

  /** Narrowest width, in pixels, either column may be given. */
  const MinColumnPx: real := 320.0

  function Max(a: real, b: real): real {
    if a >= b then a else b
  }

  function Min(a: real, b: real): real {
    if a <= b then a else b
  }

  /** Both columns can meet the minimum only in a container wider than this. */
  predicate Roomy(containerWidth: real) {
    containerWidth > MinColumnPx * 2.0
  }

  /** The column width the layout accepts for a requested width `px`. In a
      narrow container the request is ignored; otherwise it is pulled into the
      range that leaves both columns at least `MinColumnPx` wide. */
  function ClampColumnPx(px: real, containerWidth: real): (r: real)
    ensures r >= MinColumnPx
    ensures !Roomy(containerWidth) ==> r == MinColumnPx && r >= containerWidth / 2.0
    ensures Roomy(containerWidth) ==> containerWidth - r >= MinColumnPx
    ensures Roomy(containerWidth) ==>
      || r == px
      || (px < MinColumnPx && r == MinColumnPx)
      || (px > containerWidth - MinColumnPx && r == containerWidth - MinColumnPx)
  {
    if containerWidth <= MinColumnPx * 2.0 then
      Max(MinColumnPx, containerWidth / 2.0)
    else
      Min(Max(px, MinColumnPx), containerWidth - MinColumnPx)
  }

  function FractionToPx(fraction: real, containerWidth: real): (r: real)
    ensures containerWidth != 0.0 ==> PxToFraction(r, containerWidth) == fraction
  {
    containerWidth * fraction
  }

  /** The share of the container a width represents; one half for a
      zero-width container. */
  function PxToFraction(px: real, containerWidth: real): (r: real)
    ensures containerWidth == 0.0 ==> r == 0.5
    ensures containerWidth != 0.0 ==> r * containerWidth == px
  {
    if containerWidth == 0.0 then 0.5 else px / containerWidth
  }

  /** Smallest and largest fraction that keeps both columns wide enough. */
  function MinFraction(containerWidth: real): real
    requires containerWidth != 0.0
  {
    MinColumnPx / containerWidth
  }

  function MaxFraction(containerWidth: real): real
    requires containerWidth != 0.0
  {
    (containerWidth - MinColumnPx) / containerWidth
  }

  /** Resize by `deltaPx` (an arrow-key step): the result never lets either
      column drop below the minimum, and a step that stays inside the bounds
      moves the fraction by exactly `deltaPx / containerWidth`. */
  function ApplyKeyboardResize(currentFraction: real, containerWidth: real, deltaPx: real): (r: real)
    ensures Roomy(containerWidth) ==>
      MinFraction(containerWidth) <= r <= MaxFraction(containerWidth)
    ensures Roomy(containerWidth)
      && MinColumnPx <= containerWidth * currentFraction + deltaPx <= containerWidth - MinColumnPx
      ==> r == currentFraction + deltaPx / containerWidth
    ensures 0.0 != containerWidth && !Roomy(containerWidth) ==> r == MinFraction(containerWidth)
    ensures containerWidth == 0.0 ==> r == 0.5
  {
    var currentPx := FractionToPx(currentFraction, containerWidth);
    var nextPx := ClampColumnPx(currentPx + deltaPx, containerWidth);
    FractionBounds(nextPx, containerWidth);
    PxToFraction(nextPx, containerWidth)
  }

  /** Repair of a stored fraction: the result always respects the minimum, and
      a fraction that already does is returned unchanged. */
  function EnforceMinimumFraction(fraction: real, containerWidth: real): (r: real)
    ensures Roomy(containerWidth) ==>
      MinFraction(containerWidth) <= r <= MaxFraction(containerWidth)
    ensures Roomy(containerWidth)
      && MinFraction(containerWidth) <= fraction <= MaxFraction(containerWidth)
      ==> r == fraction
    ensures 0.0 != containerWidth && !Roomy(containerWidth) ==> r == MinFraction(containerWidth)
    ensures containerWidth == 0.0 ==> r == 0.5
  {
    var px := ClampColumnPx(FractionToPx(fraction, containerWidth), containerWidth);
    FractionBounds(px, containerWidth);
    PxToFraction(px, containerWidth)
  }

  /** A width that leaves both columns wide enough is a fraction between the
      smallest and the largest allowed. */
  lemma FractionBounds(px: real, containerWidth: real)
    ensures Roomy(containerWidth) && MinColumnPx <= px <= containerWidth - MinColumnPx ==>
      MinFraction(containerWidth) <= PxToFraction(px, containerWidth) <= MaxFraction(containerWidth)
  {
    if Roomy(containerWidth) && MinColumnPx <= px <= containerWidth - MinColumnPx {
      DivideMonotone(MinColumnPx, px, containerWidth);
      DivideMonotone(px, containerWidth - MinColumnPx, containerWidth);
    }
  }

  /** In a roomy container a width already in range is left alone. */
  lemma ClampKeepsInRange(px: real, containerWidth: real)
    requires Roomy(containerWidth)
    requires MinColumnPx <= px <= containerWidth - MinColumnPx
    ensures ClampColumnPx(px, containerWidth) == px
  {
  }

  /** Clamping picks the allowed width closest to the request. */
  lemma ClampIsNearest(px: real, containerWidth: real, other: real)
    requires Roomy(containerWidth)
    requires MinColumnPx <= other <= containerWidth - MinColumnPx
    ensures Dist(ClampColumnPx(px, containerWidth), px) <= Dist(other, px)
  {
  }

  function Dist(a: real, b: real): real {
    if a >= b then a - b else b - a
  }

  lemma ClampIdempotent(px: real, containerWidth: real)
    ensures ClampColumnPx(ClampColumnPx(px, containerWidth), containerWidth)
         == ClampColumnPx(px, containerWidth)
  {
  }

  /** Fractions and pixels convert into each other without loss. */
  lemma FractionRoundTrip(fraction: real, containerWidth: real)
    requires containerWidth != 0.0
    ensures PxToFraction(FractionToPx(fraction, containerWidth), containerWidth) == fraction
  {
  }

  lemma PxRoundTrip(px: real, containerWidth: real)
    requires containerWidth != 0.0
    ensures FractionToPx(PxToFraction(px, containerWidth), containerWidth) == px
  {
  }

  /** A larger step never yields a narrower column. */
  lemma ResizeMonotone(fraction: real, containerWidth: real, d1: real, d2: real)
    requires containerWidth > 0.0
    requires d1 <= d2
    ensures ApplyKeyboardResize(fraction, containerWidth, d1)
         <= ApplyKeyboardResize(fraction, containerWidth, d2)
  {
    var base := FractionToPx(fraction, containerWidth);
    var p1 := ClampColumnPx(base + d1, containerWidth);
    var p2 := ClampColumnPx(base + d2, containerWidth);
    ClampMonotone(base + d1, base + d2, containerWidth);
    assert p1 / containerWidth <= p2 / containerWidth by {
      DivideMonotone(p1, p2, containerWidth);
    }
  }

  lemma ClampMonotone(a: real, b: real, containerWidth: real)
    requires a <= b
    ensures ClampColumnPx(a, containerWidth) <= ClampColumnPx(b, containerWidth)
  {
  }

  lemma DivideMonotone(a: real, b: real, w: real)
    requires a <= b && w > 0.0
    ensures a / w <= b / w
  {
    assert b / w - a / w == (b - a) / w;
  }

  /** A zero step only repairs the fraction. */
  lemma ZeroStepEnforcesMinimum(fraction: real, containerWidth: real)
    ensures ApplyKeyboardResize(fraction, containerWidth, 0.0)
         == EnforceMinimumFraction(fraction, containerWidth)
  {
  }

  lemma EnforceIdempotent(fraction: real, containerWidth: real)
    ensures EnforceMinimumFraction(EnforceMinimumFraction(fraction, containerWidth), containerWidth)
         == EnforceMinimumFraction(fraction, containerWidth)
  {
  }

  /** Growing a 0.6 column of a 960 px container by 48 px widens it without
      passing the upper bound. */
  lemma KeyboardResizeExample()
    ensures 0.6 < ApplyKeyboardResize(0.6, 960.0, 48.0) <= (960.0 - MinColumnPx) / 960.0
  {
  }

  /** Half the minimum fraction is raised to at least the minimum. */
  lemma EnforceMinimumExample()
    ensures EnforceMinimumFraction(MinColumnPx / 960.0 / 2.0, 960.0) >= MinColumnPx / 960.0
  {
  }

  lemma ClampNarrowExample()
    ensures ClampColumnPx(10.0, 700.0) >= MinColumnPx
  {
  }
}
