/**
 * `resize_img` and the parts of the resize driver that decide something:
 * the fill-colour and target-size checks and the per-image success count.
 *
 * `cv2.resize` is the parameter `resample`: only the size of what it returns
 * is known, never its pixel values.
 */
module BatchResize {
  import opened Wrappers
  import opened Raster
  import opened Geometry

  /** `cv2.resize` raises when asked for an empty output. */
  datatype ResizeError = EmptyScaledSize

  /** The resampler returns a grid of exactly the requested size. */
  ghost predicate ResamplesTo(resample: (Image, nat, nat) -> Image)
  {
    forall img: Image, w: nat, h: nat :: IsGrid(resample(img, w, h), h, w)
  }

  /** Neither floored dimension is zero, so `cv2.resize` accepts the size. */
  predicate Resizable(img: Image, width: nat, height: nat)
    requires IsImage(img)
  {
    var s := ScaledSize(Width(img), Height(img), width, height);
    s.width >= 1 && s.height >= 1
  }

  /**
   * The aspect-fit resize: scale uniformly into the `width` x `height` box,
   * then pad the short axis with `fill` bands, the odd band after the image.
   * Every output pixel is either the resampled image's pixel shifted by the
   * placement offset, or `fill`.
   */
  method ResizeImg(img: Image, width: nat, height: nat, fill: Pixel,
                   resample: (Image, nat, nat) -> Image)
    returns (r: Result<Image, ResizeError>)
    requires IsImage(img)
    requires ResamplesTo(resample)
    ensures r.Ok? <==> Resizable(img, width, height)
    ensures r.Ok? ==> IsGrid(r.value, height, width)
    ensures r.Ok? ==>
      var s := ScaledSize(Width(img), Height(img), width, height);
      var p := Placement(Width(img), Height(img), width, height);
      var scaled := resample(img, s.width, s.height);
      forall i, j :: 0 <= i < height && 0 <= j < width ==>
        r.value[i][j] == (if p.Contains(i, j) then scaled[i - p.top][j - p.left] else fill)
    ensures r.Ok? && ScaledSize(Width(img), Height(img), width, height) == Size(width, height) ==>
      r.value == resample(img, width, height)
  {
    var s := ScaledSize(Width(img), Height(img), width, height);
    if s.width == 0 || s.height == 0 {
      return Err(EmptyScaledSize);
    }
    var resized := resample(img, s.width, s.height);
    assert IsGrid(resized, s.height, s.width);
    OneAxisMatches(Width(img), Height(img), width, height);
    ghost var p := Placement(Width(img), Height(img), width, height);

    if s == Size(width, height) {
      return Ok(resized);
    }

    if s.width == width {
      var (topRows, bottomRows) := SplitPadding(height - s.height);
      var top := SolidBlock(topRows, width, fill);
      var bottom := SolidBlock(bottomRows, width, fill);
      var topGrid, bottomGrid := ToGrid(top), ToGrid(bottom);
      resized := topGrid + resized;
      resized := resized + bottomGrid;
      assert p.top == topRows && p.left == 0;
      forall i, j | 0 <= i < height && 0 <= j < width
        ensures resized[i][j] == (if p.Contains(i, j) then resample(img, s.width, s.height)[i - p.top][j - p.left] else fill)
      {
        if i < topRows {
          assert resized[i] == topGrid[i];
        } else if i < topRows + s.height {
        } else {
          assert resized[i] == bottomGrid[i - topRows - s.height];
        }
      }
    } else {
      var (leftCols, rightCols) := SplitPadding(width - s.width);
      var left := SolidBlock(height, leftCols, fill);
      var right := SolidBlock(height, rightCols, fill);
      var leftGrid, rightGrid := ToGrid(left), ToGrid(right);
      resized := Beside(leftGrid, resized);
      resized := Beside(resized, rightGrid);
      assert p.top == 0 && p.left == leftCols;
      forall i, j | 0 <= i < height && 0 <= j < width
        ensures resized[i][j] == (if p.Contains(i, j) then resample(img, s.width, s.height)[i - p.top][j - p.left] else fill)
      {
        assert resized[i] == leftGrid[i] + resample(img, s.width, s.height)[i] + rightGrid[i];
      }
    }
    r := Ok(resized);
  }

  /** The settings the driver validates before touching any image. */
  datatype Config = Config(width: nat, height: nat, fill: Pixel)

  datatype ArgsError = ColorOutOfRange | NonPositiveSize

  predicate InByteRange(x: int) { 0 <= x <= 255 }

  /**
   * The driver's checks: a fill colour, if given, must have every channel in
   * [0, 255] (checked first), and width and height must both be at least 1.
   * Without a colour the fill is black.
   */
  function ValidateArgs(fill: Option<(int, int, int)>, width: int, height: int): (r: Result<Config, ArgsError>)
    ensures r.Ok? <==>
      (fill.Some? ==> InByteRange(fill.value.0) && InByteRange(fill.value.1) && InByteRange(fill.value.2))
      && width >= 1 && height >= 1
    ensures r == Err(ColorOutOfRange) <==>
      fill.Some? && !(InByteRange(fill.value.0) && InByteRange(fill.value.1) && InByteRange(fill.value.2))
    ensures r.Ok? ==> r.value.width == width && r.value.height == height
    ensures r.Ok? && fill.Some? ==> r.value.fill == Pixel(fill.value.0, fill.value.1, fill.value.2)
    ensures r.Ok? && fill.None? ==> r.value.fill == Black
  {
    match fill
    case Some((c0, c1, c2)) =>
      if c0 > 255 || c1 > 255 || c2 > 255 || c0 < 0 || c1 < 0 || c2 < 0 then Err(ColorOutOfRange)
      else if width < 1 || height < 1 then Err(NonPositiveSize)
      else Ok(Config(width, height, Pixel(c0, c1, c2)))
    case None =>
      if width < 1 || height < 1 then Err(NonPositiveSize)
      else Ok(Config(width, height, Black))
  }

  /** How many of `frames` can be resized to `width` x `height`. */
  function CountResizable(frames: seq<Image>, width: nat, height: nat): (n: nat)
    requires forall k :: 0 <= k < |frames| ==> IsImage(frames[k])
    ensures n <= |frames|
    ensures n == |frames| <==> forall k :: 0 <= k < |frames| ==> Resizable(frames[k], width, height)
  {
    if frames == [] then 0
    else
      var init := frames[..|frames| - 1];
      var last := frames[|frames| - 1];
      assert forall k :: 0 <= k < |init| ==> init[k] == frames[k];
      CountResizable(init, width, height) + (if Resizable(last, width, height) then 1 else 0)
  }

  /**
   * The driver's loop: resize every image in listing order, counting the
   * ones that succeed; a failure is skipped and the loop goes on.
   */
  method ResizeBatch(frames: seq<Image>, config: Config, resample: (Image, nat, nat) -> Image)
    returns (outputs: seq<Option<Image>>, success: nat)
    requires forall k :: 0 <= k < |frames| ==> IsImage(frames[k])
    requires ResamplesTo(resample)
    ensures |outputs| == |frames|
    ensures success == CountResizable(frames, config.width, config.height)
    ensures success <= |frames|
    ensures forall k :: 0 <= k < |frames| ==>
      (outputs[k].Some? <==> Resizable(frames[k], config.width, config.height))
    ensures forall k :: 0 <= k < |frames| && outputs[k].Some? ==>
      IsGrid(outputs[k].value, config.height, config.width)
  {
    outputs, success := [], 0;
    for k := 0 to |frames|
      invariant |outputs| == k
      invariant success == CountResizable(frames[..k], config.width, config.height)
      invariant forall m :: 0 <= m < k ==>
        (outputs[m].Some? <==> Resizable(frames[m], config.width, config.height))
      invariant forall m :: 0 <= m < k && outputs[m].Some? ==>
        IsGrid(outputs[m].value, config.height, config.width)
    {
      assert frames[..k + 1][..k] == frames[..k];
      var r := ResizeImg(frames[k], config.width, config.height, config.fill, resample);
      if r.Ok? {
        outputs := outputs + [Some(r.value)];
        success := success + 1;
      } else {
        outputs := outputs + [None];
      }
    }
    assert frames[..|frames|] == frames;
  }

  /**
   * The resize driver after argument parsing: a bad fill colour or target
   * size stops the run before any image is touched; otherwise every image is
   * attempted and the successes are counted.
   */
  method RunResize(fill: Option<(int, int, int)>, width: int, height: int,
                   frames: seq<Image>, resample: (Image, nat, nat) -> Image)
    returns (outputs: seq<Option<Image>>, success: nat, err: Option<ArgsError>)
    requires forall k :: 0 <= k < |frames| ==> IsImage(frames[k])
    requires ResamplesTo(resample)
    ensures err.Some? <==> ValidateArgs(fill, width, height).Err?
    ensures err.Some? ==> outputs == [] && success == 0 && err.value == ValidateArgs(fill, width, height).error
    ensures err.None? ==> |outputs| == |frames| && success == CountResizable(frames, width, height)
    ensures err.None? ==> forall k :: 0 <= k < |frames| ==>
      && (outputs[k].Some? <==> Resizable(frames[k], width, height))
      && (outputs[k].Some? ==> IsGrid(outputs[k].value, height, width))
    ensures success <= |frames|
  {
    var config := ValidateArgs(fill, width, height);
    if config.Err? {
      return [], 0, Some(config.error);
    }
    outputs, success := ResizeBatch(frames, config.value, resample);
    err := None;
  }
}
