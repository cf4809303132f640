/** The resize geometry of one image: a "cover" scale that makes the resized
    image at least as large as the target box in both dimensions, followed by
    a centred crop to exactly the target box. Scale and products are exact
    reals; `round` is Python's round-half-to-even on those exact values. */
module CoverCrop {

  datatype Size = Size(width: int, height: int)

  /** A crop rectangle as (left, top, right, bottom), right and bottom
      exclusive, in the coordinates of the resized image. */
  datatype Box = Box(left: int, top: int, right: int, bottom: int)

  /** The scale factor, the size after resizing and the crop taken from it. */
  datatype Fit = Fit(scale: real, resized: Size, crop: Box)

  /** `n` is an integer nearest to `x` (ties either way). */
  predicate Nearest(x: real, n: int)
  {
    x - 0.5 <= n as real <= x + 0.5
  }

  /** Round half to even, as Python's `round` does for one argument. */
  function RoundHalfEven(x: real): (n: int)
    ensures Nearest(x, n)
    ensures x - x.Floor as real == 0.5 ==> n % 2 == 0
    ensures x - x.Floor as real != 0.5 ==> -0.5 < n as real - x < 0.5
  {
    var f := x.Floor;
    var frac := x - f as real;
    if frac < 0.5 then f
    else if frac > 0.5 then f + 1
    else if f % 2 == 0 then f
    else f + 1
  }

  /** A nearest integer to a value at least `m` is itself at least `m`. */
  lemma NearestNotBelow(x: real, n: int, m: int)
    requires Nearest(x, n)
    requires x >= m as real
    ensures n >= m
  {
  }

  /** A nearest integer to an integer is that integer. */
  lemma NearestOfInteger(m: int, n: int)
    requires Nearest(m as real, n)
    ensures n == m
  {
  }

  predicate PositiveSize(s: Size)
  {
    s.width >= 1 && s.height >= 1
  }

  /** `scale = max(tw / ow, th / oh)`: the smallest factor at which the
      scaled original covers the target in both dimensions. */
  function CoverScale(orig: Size, target: Size): (s: real)
    requires orig.width > 0 && orig.height > 0
    ensures orig.width as real * s >= target.width as real
    ensures orig.height as real * s >= target.height as real
    ensures orig.width as real * s == target.width as real
         || orig.height as real * s == target.height as real
  {
    var sw := target.width as real / orig.width as real;
    var sh := target.height as real / orig.height as real;
    assert orig.width as real * sw == target.width as real;
    assert orig.height as real * sh == target.height as real;
    if sw >= sh then
      assert orig.height as real * sw >= orig.height as real * sh;
      sw
    else
      assert orig.width as real * sh >= orig.width as real * sw;
      sh
  }

  /** The crop box has the target's size. */
  predicate HasSize(b: Box, target: Size)
  {
    b.right - b.left == target.width && b.bottom - b.top == target.height
  }

  /** The crop box lies inside an image of size `s`. */
  predicate Inside(b: Box, s: Size)
  {
    0 <= b.left && b.right <= s.width && 0 <= b.top && b.bottom <= s.height
  }

  /** The margins left and right of the box differ by at most one pixel and
      any odd pixel goes to the right; likewise top and bottom. */
  predicate Centred(b: Box, s: Size)
  {
    && b.left <= s.width - b.right <= b.left + 1
    && b.top <= s.height - b.bottom <= b.top + 1
  }

  /** `f` fits an `orig`-sized image to `target` by covering: one common
      factor scales both sides so that both reach their targets and one
      meets it exactly, each scaled side is rounded to a nearest integer,
      and the crop has the target's size and sits centred inside the
      resized image. */
  predicate CoverFit(orig: Size, target: Size, f: Fit)
  {
    && orig.width as real * f.scale >= target.width as real
    && orig.height as real * f.scale >= target.height as real
    && (orig.width as real * f.scale == target.width as real
        || orig.height as real * f.scale == target.height as real)
    && Nearest(orig.width as real * f.scale, f.resized.width)
    && Nearest(orig.height as real * f.scale, f.resized.height)
    && HasSize(f.crop, target)
    && Inside(f.crop, f.resized)
    && Centred(f.crop, f.resized)
  }

  /** `left = (new_w - tw) // 2`, `top = (new_h - th) // 2`, and the box
      extends by the target size from there. Python's `//` floors; so does
      Dafny's `/` because the divisor is positive. */
  function CentredCrop(resized: Size, target: Size): (b: Box)
    requires resized.width >= target.width && resized.height >= target.height
    ensures HasSize(b, target)
    ensures Inside(b, resized)
    ensures Centred(b, resized)
  {
    var left := (resized.width - target.width) / 2;
    var top := (resized.height - target.height) / 2;
    Box(left, top, left + target.width, top + target.height)
  }

  /** The geometry the resizer applies to an `orig`-sized image for a
      `target` box is a cover fit, and the resized image itself covers the
      target with one side exactly its target. */
  function CoverAndCrop(orig: Size, target: Size): (f: Fit)
    requires orig.width > 0 && orig.height > 0 && PositiveSize(target)
    ensures CoverFit(orig, target, f)
    ensures f.resized.width >= target.width && f.resized.height >= target.height
    ensures f.resized.width == target.width || f.resized.height == target.height
  {
    var s := CoverScale(orig, target);
    var w := RoundHalfEven(orig.width as real * s);
    var h := RoundHalfEven(orig.height as real * s);
    CoverFitsAnyNearestRounding(orig, target, s, w, h);
    NearestRoundingIsCoverFit(orig, target, s, w, h);
    Fit(s, Size(w, h), CentredCrop(Size(w, h), target))
  }

  /** The geometry does not depend on the tie-breaking rule of `round`: for
      any nearest-integer rounding of the two scaled sides, the resized image
      covers the target and one side equals its target exactly. */
  lemma CoverFitsAnyNearestRounding(orig: Size, target: Size, s: real, w: int, h: int)
    requires orig.width > 0 && orig.height > 0
    requires s == CoverScale(orig, target)
    requires Nearest(orig.width as real * s, w) && Nearest(orig.height as real * s, h)
    ensures w >= target.width && h >= target.height
    ensures w == target.width || h == target.height
  {
    NearestNotBelow(orig.width as real * s, w, target.width);
    NearestNotBelow(orig.height as real * s, h, target.height);
    if orig.width as real * s == target.width as real {
      NearestOfInteger(target.width, w);
    } else {
      NearestOfInteger(target.height, h);
    }
  }

  /** Any nearest-integer rounding of the sides scaled by the cover scale,
      followed by the centred crop, is a cover fit. */
  lemma NearestRoundingIsCoverFit(orig: Size, target: Size, s: real, w: int, h: int)
    requires orig.width > 0 && orig.height > 0 && PositiveSize(target)
    requires s == CoverScale(orig, target)
    requires Nearest(orig.width as real * s, w) && Nearest(orig.height as real * s, h)
    ensures w >= target.width && h >= target.height
    ensures CoverFit(orig, target, Fit(s, Size(w, h), CentredCrop(Size(w, h), target)))
  {
    CoverFitsAnyNearestRounding(orig, target, s, w, h);
  }
}
