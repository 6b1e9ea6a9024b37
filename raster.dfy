/**
 * Images as dense grids of 3-channel 8-bit pixels, the shape numpy gives an
 * OpenCV frame (rows x columns x 3). A grid is a sequence of rows.
 */
module Raster {

  /** One 8-bit channel value, the element type of an `np.uint8` buffer. */
  type Byte = x: int | 0 <= x < 256

  /** A pixel's three channels in buffer order (OpenCV reads them as B, G, R). */
  datatype Pixel = Pixel(c0: Byte, c1: Byte, c2: Byte)

  /** The value `np.zeros` gives every pixel of a fresh buffer. */
  const Black := Pixel(0, 0, 0)

  type Image = seq<seq<Pixel>>

  /** `g` has exactly `rows` rows, each of exactly `cols` pixels. */
  predicate IsGrid(g: Image, rows: nat, cols: nat)
  {
    |g| == rows && forall i :: 0 <= i < rows ==> |g[i]| == cols
  }

  /** A decoded image: at least one row, at least one column, rectangular. */
  predicate IsImage(g: Image)
  {
    |g| >= 1 && |g[0]| >= 1 && IsGrid(g, |g|, |g[0]|)
  }

  function Height(g: Image): nat { |g| }

  function Width(g: Image): nat
    requires |g| >= 1
  {
    |g[0]|
  }

  /** The contents of a 2-D pixel buffer, row by row. */
  function ToGrid(a: array2<Pixel>): (g: Image)
    reads a
    // The ensures unfold the comprehension for callers' proofs.
    ensures IsGrid(g, a.Length0, a.Length1)
    ensures forall i, j :: 0 <= i < a.Length0 && 0 <= j < a.Length1 ==> g[i][j] == a[i, j]
  {
    seq(a.Length0, i reads a requires 0 <= i < a.Length0 =>
      seq(a.Length1, j reads a requires 0 <= j < a.Length1 => a[i, j]))
  }

  /** `np.concatenate((a, b), axis = 1)`: the rows of `a` and `b` joined side by side. */
  function Beside(a: Image, b: Image): (g: Image)
    requires |a| == |b|
    // The ensures unfold the comprehension for callers' proofs.
    ensures |g| == |a|
    ensures forall i :: 0 <= i < |g| ==> g[i] == a[i] + b[i]
  {
    seq(|a|, i requires 0 <= i < |a| => a[i] + b[i])
  }

  /**
   * `np.zeros((rows, cols, 3), np.uint8)` followed by `block[:,:] = color`:
   * a fresh buffer, every pixel of which is then overwritten with `color`.
   */
  method SolidBlock(rows: nat, cols: nat, color: Pixel) returns (block: array2<Pixel>)
    ensures block.Length0 == rows && block.Length1 == cols
    ensures forall i, j :: 0 <= i < rows && 0 <= j < cols ==> block[i, j] == color
  {
    block := new Pixel[rows, cols]((i, j) => Black);
    for i := 0 to rows
      invariant forall r, c :: 0 <= r < i && 0 <= c < cols ==> block[r, c] == color
    {
      for j := 0 to cols
        invariant forall r, c :: 0 <= r < i && 0 <= c < cols ==> block[r, c] == color
        invariant forall c :: 0 <= c < j ==> block[i, c] == color
      {
        block[i, j] := color;
      }
    }
  }
}
