/** The size an image is sent at. The square root is exact here; the source takes it in 64-bit floats. */
module PayloadSize {
  import opened Wrappers

  const MAX_PIXELS: nat := 1_440_000

  datatype Size = Size(width: nat, height: nat)

  ghost predicate IsSquareRoot(root: real -> real) {
    forall x: real | x >= 0.0 :: root(x) >= 0.0 && root(x) * root(x) == x
  }

  function AtLeastOne(n: nat): nat {
    if n == 0 then 1 else n
  }

  function Shrink(n: nat, ratio: real): nat
    requires ratio >= 0.0
  {
    ProductIsPositive(n as real, ratio);
    AtLeastOne((n as real * ratio).Floor)
  }

  lemma ProductIsPositive(a: real, b: real)
    requires a >= 0.0 && b >= 0.0
    ensures a * b >= 0.0
  {
  }

  function Pixels(s: Size): nat {
    s.width * s.height
  }

  /** `under_pixel_ceiling`, given the ratio of the sides for a size over the ceiling. */
  function UnderCeiling(s: Size, ratio: real): Size
    requires ratio >= 0.0
  {
    if Pixels(s) <= MAX_PIXELS then s else Size(Shrink(s.width, ratio), Shrink(s.height, ratio))
  }

  /** A frame bounded in width, its height in proportion. */
  function WithinWidth(s: Size, maxWidth: nat): Size {
    if s.width <= maxWidth || s.width == 0 then s
    else Size(AtLeastOne(maxWidth), AtLeastOne(s.height * maxWidth / s.width))
  }

  ghost function RatioOf(root: real -> real, s: Size): real
    requires IsSquareRoot(root) && Pixels(s) > 0
    ensures RatioOf(root, s) >= 0.0
    ensures RatioOf(root, s) * RatioOf(root, s) * Pixels(s) as real == MAX_PIXELS as real
  {
    var x := MAX_PIXELS as real / Pixels(s) as real;
    RatioTimes(MAX_PIXELS as real, Pixels(s) as real);
    root(x)
  }

  lemma RatioTimes(a: real, b: real)
    requires a >= 0.0 && b > 0.0
    ensures a / b >= 0.0 && a / b * b == a
  {
  }

  /** `fit_payload`. */
  ghost function FitPayload(root: real -> real, s: Size, maxWidth: nat): Option<Size>
    requires IsSquareRoot(root)
  {
    if s.width == 0 || s.height == 0 then None
    else
      var within := WithinWidth(s, maxWidth);
      HasPixels(within);
      Some(UnderCeiling(within, RatioOf(root, within)))
  }

  lemma HasPixels(s: Size)
    ensures Pixels(s) > 0 <==> s.width > 0 && s.height > 0
  {
  }

  // ----- What a payload's size is -----

  lemma ShrinkShrinks(n: nat, ratio: real)
    requires 0.0 <= ratio <= 1.0 && n > 0
    ensures 1 <= Shrink(n, ratio) <= n
  {
    assert n as real * ratio <= n as real * 1.0;
  }

  lemma RatioAtMostOne(ratio: real, pixels: nat)
    requires ratio >= 0.0 && ratio * ratio * pixels as real == MAX_PIXELS as real && pixels > MAX_PIXELS
    ensures ratio <= 1.0
  {
    var square: real := ratio * ratio;
    Squares(ratio, 1.0);
    ScaleBy(square, 1.0, pixels as real);
  }

  lemma WidthBoundShrinks(s: Size, maxWidth: nat)
    requires s.width > 0 && s.height > 0
    ensures var w := WithinWidth(s, maxWidth);
      1 <= w.width <= s.width && 1 <= w.height <= s.height && w.width <= AtLeastOne(maxWidth)
  {
    if s.width > maxWidth {
      ProportionAtMost(s.height, maxWidth, s.width);
    }
  }

  lemma ProportionAtMost(h: nat, m: nat, w: nat)
    requires 0 < w && m <= w
    ensures h * m / w <= h
  {
    Times(h, m, w);
    Untimes(w, h * m / w, h);
  }

  lemma Times(k: nat, a: nat, b: nat)
    requires a <= b
    ensures k * a <= k * b
  {
  }

  lemma Untimes(k: nat, a: nat, b: nat)
    requires k > 0
    ensures k * a <= k * b ==> a <= b
  {
    if a > b {
      Times(k, b + 1, a);
      assert k * (b + 1) == k * b + k;
    }
  }

  /** A frame without pixels gives nothing; any other keeps at least a pixel a side, is never enlarged,
      and keeps to the width. */
  lemma PayloadsOnlyShrink(root: real -> real, s: Size, maxWidth: nat)
    requires IsSquareRoot(root)
    ensures FitPayload(root, s, maxWidth).None? <==> s.width == 0 || s.height == 0
    ensures FitPayload(root, s, maxWidth).Some? ==>
      var fit := FitPayload(root, s, maxWidth).value;
      1 <= fit.width <= s.width && 1 <= fit.height <= s.height && fit.width <= AtLeastOne(maxWidth)
  {
    if s.width > 0 && s.height > 0 {
      WidthBoundShrinks(s, maxWidth);
      var w := WithinWidth(s, maxWidth);
      HasPixels(w);
      var ratio := RatioOf(root, w);
      if Pixels(w) > MAX_PIXELS {
        RatioAtMostOne(ratio, Pixels(w));
        ShrinkShrinks(w.width, ratio);
        ShrinkShrinks(w.height, ratio);
      }
    }
  }

  // ----- The ceiling -----

  /** A side so long beside the other that the ceiling is passed when the other stops at one pixel. */
  predicate TooThin(long: nat, short: nat) {
    long * MAX_PIXELS >= (MAX_PIXELS + 1) * (MAX_PIXELS + 1) * short
  }

  lemma Squares(x: real, c: real)
    requires x >= 0.0 && c >= 0.0
    ensures x >= c <==> x * x >= c * c
  {
    assert x * x - c * c == (x - c) * (x + c);
    if x > c {
      Positive(x - c, x + c);
    } else if x < c {
      Positive(c - x, x + c);
      assert (c - x) * (x + c) == -((x - c) * (x + c));
    }
  }

  lemma Positive(a: real, b: real)
    requires a > 0.0 && b > 0.0
    ensures a * b > 0.0
  {
  }

  /** A scaled side against a bound, by whole numbers: `(a * ratio)^2 * b` is `a * MAX_PIXELS`. */
  lemma ScaledSide(a: nat, b: nat, ratio: real, c: nat)
    requires a > 0 && b > 0 && ratio >= 0.0
    requires ratio * ratio * (a * b) as real == MAX_PIXELS as real
    ensures a as real * ratio >= c as real <==> a * MAX_PIXELS >= c * c * b
  {
    var x: real := a as real * ratio;
    var ra: real, rb: real, m: real, rc: real := a as real, b as real, MAX_PIXELS as real, c as real;
    assert (a * b) as real == ra * rb;
    assert x * x * rb == ra * m by {
      assert x * x * rb == ra * (ratio * ratio * (ra * rb));
    }
    Squares(x, rc);
    ScaleBy(x * x, rc * rc, rb);
    assert (a * MAX_PIXELS) as real == ra * m;
    assert (c * c) as real == rc * rc;
    assert (c * c * b) as real == rc * rc * rb;
  }

  lemma ScaleBy(x: real, y: real, k: real)
    requires k > 0.0
    ensures x >= y <==> x * k >= y * k
  {
  }

  lemma SidesUnderCeiling(x: real, y: real, a: nat, b: nat)
    requires x >= 0.0 && y >= 0.0 && a as real <= x && b as real <= y && x * y == MAX_PIXELS as real
    ensures a * b <= MAX_PIXELS
  {
    assert a as real * b as real <= x * b as real <= x * y;
    assert (a * b) as real == a as real * b as real;
  }

  lemma SidesAndCeiling(x: real, y: real, a: nat, b: nat)
    requires x >= 0.0 && y >= 0.0 && x * y == MAX_PIXELS as real && a >= 1 && b >= 1
    requires if x >= 1.0 then a as real <= x else a == 1
    requires if y >= 1.0 then b as real <= y else b == 1
    ensures a * b <= MAX_PIXELS <==> a <= MAX_PIXELS && b <= MAX_PIXELS
  {
    SidesOverCeiling(a, b);
    if x >= 1.0 && y >= 1.0 {
      SidesUnderCeiling(x, y, a, b);
    }
  }

  /** The shrunk size keeps the ceiling exactly when neither side is so long that it passes it alone. */
  lemma CeilingKept(s: Size, ratio: real)
    requires s.width > 0 && s.height > 0 && Pixels(s) > MAX_PIXELS && ratio >= 0.0
    requires ratio * ratio * Pixels(s) as real == MAX_PIXELS as real
    ensures Pixels(UnderCeiling(s, ratio)) <= MAX_PIXELS <==> !TooThin(s.width, s.height) && !TooThin(s.height, s.width)
  {
    hide Shrink, TooThin;
    LongSide(s.width, s.height, ratio);
    LongSide(s.height, s.width, ratio);
    ProductOfSides(s, ratio);
    ProductIsPositive(s.width as real, ratio);
    ProductIsPositive(s.height as real, ratio);
    ShrinkBounds(s.width, ratio);
    ShrinkBounds(s.height, ratio);
    SidesAndCeiling(s.width as real * ratio, s.height as real * ratio, Shrink(s.width, ratio), Shrink(s.height, ratio));
  }

  lemma LongSide(long: nat, short: nat, ratio: real)
    requires long > 0 && short > 0 && ratio >= 0.0
    requires ratio * ratio * Pixels(Size(short, long)) as real == MAX_PIXELS as real
          || ratio * ratio * Pixels(Size(long, short)) as real == MAX_PIXELS as real
    ensures TooThin(long, short) <==> Shrink(long, ratio) > MAX_PIXELS
  {
    hide Shrink;
    Commutes(long, short);
    ScaledSide(long, short, ratio, MAX_PIXELS + 1);
    ShrinkBounds(long, ratio);
  }

  lemma Commutes(a: nat, b: nat)
    ensures a * b == b * a
  {
  }

  lemma ShrinkBounds(n: nat, ratio: real)
    requires ratio >= 0.0
    ensures var x: real := n as real * ratio;
      && Shrink(n, ratio) >= 1
      && (x >= 1.0 ==> Shrink(n, ratio) as real <= x)
      && (x < 1.0 ==> Shrink(n, ratio) == 1)
      && (x >= (MAX_PIXELS + 1) as real <==> Shrink(n, ratio) > MAX_PIXELS)
  {
  }

  lemma ProductOfSides(s: Size, ratio: real)
    ensures (s.width as real * ratio) * (s.height as real * ratio) == ratio * ratio * Pixels(s) as real
  {
    var w: real, h: real := s.width as real, s.height as real;
    assert (s.width * s.height) as real == w * h;
  }

  lemma SidesOverCeiling(a: nat, b: nat)
    requires a >= 1 && b >= 1
    ensures a > MAX_PIXELS || b > MAX_PIXELS ==> a * b > MAX_PIXELS
    ensures a == 1 ==> a * b == b
    ensures b == 1 ==> a * b == a
  {
  }

  /** The documented ceiling holds exactly when the frame, once bounded in width, is within it already or
      has no side that passes it alone. */
  lemma CeilingKeptIff(root: real -> real, s: Size, maxWidth: nat)
    requires IsSquareRoot(root) && s.width > 0 && s.height > 0
    ensures var within := WithinWidth(s, maxWidth);
      Pixels(FitPayload(root, s, maxWidth).value) <= MAX_PIXELS <==>
      || Pixels(within) <= MAX_PIXELS
      || (!TooThin(within.width, within.height) && !TooThin(within.height, within.width))
  {
    hide Pixels, UnderCeiling, TooThin, IsSquareRoot;
    WidthBoundShrinks(s, maxWidth);
    var within := WithinWidth(s, maxWidth);
    HasPixels(within);
    var ratio := RatioOf(root, within);
    if Pixels(within) > MAX_PIXELS {
      CeilingKept(within, ratio);
    }
    SmallIsKept(within, ratio);
  }

  lemma SmallIsKept(s: Size, ratio: real)
    requires ratio >= 0.0
    ensures Pixels(s) <= MAX_PIXELS ==> UnderCeiling(s, ratio) == s
  {
  }

  /** A frame one pixel wide is one that passes it, at any width asked for. */
  lemma ThinFramePassesCeiling(root: real -> real, maxWidth: nat)
    requires IsSquareRoot(root) && maxWidth > 0
    ensures Pixels(FitPayload(root, Size(1, 1_440_003), maxWidth).value) > MAX_PIXELS
  {
    hide IsSquareRoot, FitPayload;
    CeilingKeptIff(root, Size(1, 1_440_003), maxWidth);
  }

  // ----- The size sent -----

  /** `k` is `p / q` rounded down, or 1 where that is less. */
  ghost predicate IsShare(k: nat, p: nat, q: nat) {
    if k == 1 then p < 2 * q else 1 < k && k * q <= p < (k + 1) * q
  }

  lemma ShareIs(p: nat, q: nat)
    requires q > 0
    ensures IsShare(AtLeastOne(p / q), p, q)
  {
    var k := p / q;
    assert p == q * k + p % q;
    assert (k + 1) * q == q * k + q;
  }

  /** Past the width asked for, the width is that, or a pixel, and the height is its share in the proportion of the
      frame. */
  lemma BoundedInProportion(s: Size, maxWidth: nat)
    requires s.width > 0
    ensures s.width <= maxWidth ==> WithinWidth(s, maxWidth) == s
    ensures s.width > maxWidth ==>
      && WithinWidth(s, maxWidth).width == (if maxWidth == 0 then 1 else maxWidth)
      && IsShare(WithinWidth(s, maxWidth).height, s.height * maxWidth, s.width)
  {
    ShareIs(s.height * maxWidth, s.width);
  }

  /** A side scaled so that its square is `a * MAX_PIXELS / b`, rounded down, or 1 where that is less. */
  ghost predicate IsScaled(k: nat, a: nat, b: nat) {
    1 <= k && (k > 1 ==> k * k * b <= a * MAX_PIXELS) && a * MAX_PIXELS < (k + 1) * (k + 1) * b
  }

  lemma ScaledIs(a: nat, b: nat, ratio: real)
    requires a > 0 && b > 0 && ratio >= 0.0
    requires ratio * ratio * (a * b) as real == MAX_PIXELS as real
    ensures IsScaled(Shrink(a, ratio), a, b)
  {
    ProductIsPositive(a as real, ratio);
    var k := Shrink(a, ratio);
    ScaledSide(a, b, ratio, k);
    ScaledSide(a, b, ratio, k + 1);
    FloorOf(a as real * ratio);
  }

  lemma FloorOf(x: real)
    requires x >= 0.0
    ensures x.Floor as real <= x < (x.Floor + 1) as real
  {
  }

  lemma UnderCeilingIs(s: Size, ratio: real)
    requires s.width > 0 && s.height > 0 && ratio >= 0.0
    requires ratio * ratio * Pixels(s) as real == MAX_PIXELS as real
    ensures s.width * s.height <= 1_440_000 ==> UnderCeiling(s, ratio) == s
    ensures s.width * s.height > 1_440_000 ==>
      && IsScaled(UnderCeiling(s, ratio).width, s.width, s.height)
      && IsScaled(UnderCeiling(s, ratio).height, s.height, s.width)
  {
    hide IsScaled, Shrink;
    Commutes(s.width, s.height);
    ScaledIs(s.width, s.height, ratio);
    ScaledIs(s.height, s.width, ratio);
  }

  /** Over the ceiling both sides are scaled by the one ratio that would meet it, rounded down and never to nothing;
      under it the bounded size is kept. */
  lemma FitIsScaled(root: real -> real, s: Size, maxWidth: nat)
    requires IsSquareRoot(root) && s.width > 0 && s.height > 0
    ensures var (within, fit) := (WithinWidth(s, maxWidth), FitPayload(root, s, maxWidth).value);
      if within.width * within.height <= 1_440_000 then fit == within
      else IsScaled(fit.width, within.width, within.height) && IsScaled(fit.height, within.height, within.width)
  {
    hide IsSquareRoot, IsScaled, Pixels, UnderCeiling;
    WidthBoundShrinks(s, maxWidth);
    var w := WithinWidth(s, maxWidth);
    hide WithinWidth;
    HasPixels(w);
    UnderCeilingIs(w, RatioOf(root, w));
  }
}
