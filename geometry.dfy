/**
 * The integer geometry of the aspect-fit resize: which of the two scale
 * factors is used, the floored scaled size, and where the scaled image sits
 * inside the target box once the short axis has been padded.
 *
 * The scale factors are exact rationals `num / den`, not floating-point
 * values, and the comparison that picks one is done by cross-multiplication.
 */
module Geometry {

  datatype Size = Size(width: nat, height: nat)

  /** An exact scale factor `num / den`. */
  datatype Ratio = Ratio(num: nat, den: nat)

  /** The rectangle of the target box that the scaled image occupies. */
  datatype Region = Region(top: nat, left: nat, rows: nat, cols: nat)
  {
    predicate Contains(i: int, j: int)
    {
      top <= i < top + rows && left <= j < left + cols
    }
  }

  /**
   * Scaling by `width / imgWidth` would make the image taller than the box:
   * `imgHeight * (width / imgWidth) > height`, multiplied through by `imgWidth`.
   */
  predicate UsesHeightScale(imgWidth: nat, imgHeight: nat, width: nat, height: nat)
  {
    imgHeight * width > height * imgWidth
  }

  /** The single uniform scale applied to both axes. */
  function ScaleFactor(imgWidth: nat, imgHeight: nat, width: nat, height: nat): (r: Ratio)
    requires imgWidth >= 1 && imgHeight >= 1
    ensures r.den >= 1
    ensures UsesHeightScale(imgWidth, imgHeight, width, height) ==> imgHeight * r.num == height * r.den
    ensures !UsesHeightScale(imgWidth, imgHeight, width, height) ==> imgWidth * r.num == width * r.den
  {
    if UsesHeightScale(imgWidth, imgHeight, width, height) then Ratio(height, imgHeight)
    else Ratio(width, imgWidth)
  }

  lemma DivBelow(a: nat, b: nat, c: nat)
    requires b >= 1 && a < b * c
    ensures a / b < c
  {
  }

  lemma DivAtMost(a: nat, b: nat, c: nat)
    requires b >= 1 && a <= b * c
    ensures a / b <= c
  {
  }

  lemma DivExact(a: nat, b: nat)
    requires b >= 1
    ensures (b * a) / b == a
  {
    var q := (b * a) / b;
    FloorBounds(b * a, b);
    if q < a {
      MulMonotone(q + 1, a, b);
    } else if q > a {
      MulMonotone(a + 1, q, b);
    }
  }

  lemma MulMonotone(x: nat, y: nat, b: nat)
    requires x <= y
    ensures x * b <= y * b
  {
  }

  /**
   * The floored scaled size, `int(img_width * scalar)` by
   * `int(img_height * scalar)` computed exactly: it never leaves the box.
   */
  function ScaledSize(imgWidth: nat, imgHeight: nat, width: nat, height: nat): (s: Size)
    requires imgWidth >= 1 && imgHeight >= 1
    ensures s.width <= width && s.height <= height
  {
    var r := ScaleFactor(imgWidth, imgHeight, width, height);
    var s := Size((imgWidth * r.num) / r.den, (imgHeight * r.num) / r.den);
    if UsesHeightScale(imgWidth, imgHeight, width, height) then
      DivExact(height, imgHeight);
      DivBelow(imgWidth * height, imgHeight, width);
      s
    else
      DivExact(width, imgWidth);
      DivAtMost(imgHeight * width, imgWidth, height);
      s
  }

  /**
   * Exactly one axis is scaled onto its target: the width scale fills the
   * width, the height scale fills the height and leaves the width short.
   */
  lemma OneAxisMatches(imgWidth: nat, imgHeight: nat, width: nat, height: nat)
    requires imgWidth >= 1 && imgHeight >= 1
    ensures var s := ScaledSize(imgWidth, imgHeight, width, height);
      if UsesHeightScale(imgWidth, imgHeight, width, height)
      then s.height == height && s.width < width
      else s.width == width
  {
    if UsesHeightScale(imgWidth, imgHeight, width, height) {
      DivExact(height, imgHeight);
      DivBelow(imgWidth * height, imgHeight, width);
    } else {
      DivExact(width, imgWidth);
    }
  }

  /**
   * The scaled size needs no padding exactly when the image and the box have
   * the same aspect ratio.
   */
  lemma ExactFitIff(imgWidth: nat, imgHeight: nat, width: nat, height: nat)
    requires imgWidth >= 1 && imgHeight >= 1
    ensures ScaledSize(imgWidth, imgHeight, width, height) == Size(width, height)
        <==> imgHeight * width == height * imgWidth
  {
    OneAxisMatches(imgWidth, imgHeight, width, height);
    var s := ScaledSize(imgWidth, imgHeight, width, height);
    if !UsesHeightScale(imgWidth, imgHeight, width, height) {
      var q := (imgHeight * width) / imgWidth;
      assert s.height == q;
      assert q * imgWidth + (imgHeight * width) % imgWidth == imgHeight * width;
      if imgHeight * width == height * imgWidth {
        DivExact(height, imgWidth);
        assert imgWidth * height == imgHeight * width;
      }
      if q == height {
        assert height * imgWidth <= imgHeight * width;
      }
    }
  }

  /**
   * No distortion beyond truncation: the scaled size is the image scaled by
   * one exact factor, and the axis that is not matched to its target loses
   * less than one pixel against the source aspect ratio.
   */
  lemma AspectPreserved(imgWidth: nat, imgHeight: nat, width: nat, height: nat)
    requires imgWidth >= 1 && imgHeight >= 1
    ensures var s := ScaledSize(imgWidth, imgHeight, width, height);
      var r := ScaleFactor(imgWidth, imgHeight, width, height);
      && s.width * r.den <= imgWidth * r.num < (s.width + 1) * r.den
      && s.height * r.den <= imgHeight * r.num < (s.height + 1) * r.den
      && (UsesHeightScale(imgWidth, imgHeight, width, height) ==>
            0 <= imgWidth * s.height - imgHeight * s.width < imgHeight)
      && (!UsesHeightScale(imgWidth, imgHeight, width, height) ==>
            0 <= imgHeight * s.width - imgWidth * s.height < imgWidth)
  {
    var s := ScaledSize(imgWidth, imgHeight, width, height);
    var r := ScaleFactor(imgWidth, imgHeight, width, height);
    FloorBounds(imgWidth * r.num, r.den);
    FloorBounds(imgHeight * r.num, r.den);
    OneAxisMatches(imgWidth, imgHeight, width, height);
  }

  lemma FloorBounds(a: nat, b: nat)
    requires b >= 1
    ensures (a / b) * b <= a < (a / b + 1) * b
  {
  }

  /**
   * `diff // 2` before and `diff - diff // 2` after: the two bands fill the
   * gap exactly and the odd pixel, if any, goes after.
   */
  function SplitPadding(diff: nat): (p: (nat, nat))
    ensures p.0 + p.1 == diff
    ensures p.0 <= p.1 <= p.0 + 1
    ensures p.1 == p.0 <==> diff % 2 == 0
  {
    (diff / 2, diff - diff / 2)
  }

  /**
   * Where the scaled image lands in the target box: on the padded axis it is
   * centred with the odd pixel after it, on the other axis it fills the box.
   */
  function Placement(imgWidth: nat, imgHeight: nat, width: nat, height: nat): (p: Region)
    requires imgWidth >= 1 && imgHeight >= 1
    ensures p.rows == ScaledSize(imgWidth, imgHeight, width, height).height
    ensures p.cols == ScaledSize(imgWidth, imgHeight, width, height).width
    ensures p.top + p.rows <= height && p.left + p.cols <= width
    ensures p.top <= height - p.top - p.rows <= p.top + 1
    ensures p.left <= width - p.left - p.cols <= p.left + 1
    ensures (p.top == 0 && p.rows == height) || (p.left == 0 && p.cols == width)
  {
    var s := ScaledSize(imgWidth, imgHeight, width, height);
    OneAxisMatches(imgWidth, imgHeight, width, height);
    if s == Size(width, height) then
      Region(0, 0, height, width)
    else if s.width == width then
      Region(SplitPadding(height - s.height).0, 0, s.height, s.width)
    else
      Region(0, SplitPadding(width - s.width).0, s.height, s.width)
  }

  /**
   * A tall 100 x 200 image into a 50 x 50 box is scaled to 25 x 50 and
   * pillarboxed 12 | 13; a wide 300 x 100 image into a 100 x 100 box is
   * scaled to 100 x 33 and letterboxed 33 over 34.
   */
  lemma WorkedExamples()
    ensures ScaledSize(100, 200, 50, 50) == Size(25, 50)
    ensures Placement(100, 200, 50, 50) == Region(0, 12, 50, 25)
    ensures ScaledSize(300, 100, 100, 100) == Size(100, 33)
    ensures Placement(300, 100, 100, 100) == Region(33, 0, 33, 100)
    ensures ScaledSize(640, 480, 640, 480) == Size(640, 480)
  {
  }
}
