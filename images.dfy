/**
 * Images as the script sees them: 8-bit channels laid out as rows of pixels.
 * A frame from the camera is a grid of blue-green-red pixels, the colour space
 * conversion gives a grid of hue-saturation-value pixels, and a mask is a grid
 * of single 8-bit values.
 */
module Images {

  /** An unsigned 8-bit value (numpy's uint8). */
  type Byte = x: int | 0 <= x < 256

  datatype Bgr = Bgr(b: Byte, g: Byte, r: Byte)

  /** OpenCV's 8-bit HSV: hue in [0,179], saturation and value in [0,255]. */
  datatype Hsv = Hsv(h: Byte, s: Byte, v: Byte)

  /** Rows of cells; row i, column j is g[i][j]. */
  type Grid<T> = seq<seq<T>>

  type Frame = Grid<Bgr>
  type HsvImage = Grid<Hsv>
  type Mask = Grid<Byte>

  /** Both grids have the same number of rows and each row the same length. */
  predicate SameShape<A, B>(x: Grid<A>, y: Grid<B>)
  {
    |x| == |y| && forall i :: 0 <= i < |x| ==> |x[i]| == |y[i]|
  }

  predicate IsZero(m: Mask)
  {
    forall i, j :: 0 <= i < |m| && 0 <= j < |m[i]| ==> m[i][j] == 0
  }

  predicate IsFull(m: Mask)
  {
    forall i, j :: 0 <= i < |m| && 0 <= j < |m[i]| ==> m[i][j] == 255
  }

  /** `np.zeros_like`: an all-zero mask of the given grid's shape. */
  function ZerosLike<A>(g: Grid<A>): (z: Mask)
    ensures SameShape(z, g) && IsZero(z)
  {
    seq(|g|, i requires 0 <= i < |g| => seq(|g[i]|, j => 0))
  }

  /** An all-zero mask is determined by its shape. */
  lemma ZeroMaskIsZerosLike<A>(m: Mask, g: Grid<A>)
    requires IsZero(m) && SameShape(m, g)
    ensures m == ZerosLike(g)
  {
    var z := ZerosLike(g);
    forall i | 0 <= i < |m|
      ensures m[i] == z[i]
    {
      assert |m[i]| == |z[i]|;
    }
  }

  /** `cv2.flip(img, 1)`: a mirror image about the vertical axis, each row reversed. */
  function Mirror<A>(g: Grid<A>): (m: Grid<A>)
    ensures SameShape(m, g)
    ensures forall i, j :: 0 <= i < |g| && 0 <= j < |g[i]| ==> m[i][|g[i]| - 1 - j] == g[i][j]
  {
    seq(|g|, i requires 0 <= i < |g| =>
      seq(|g[i]|, j requires 0 <= j < |g[i]| => g[i][|g[i]| - 1 - j]))
  }

  /** Flipping twice gives the frame back. */
  lemma MirrorTwice<A>(g: Grid<A>)
    ensures Mirror(Mirror(g)) == g
  {
    var m := Mirror(Mirror(g));
    forall i | 0 <= i < |g|
      ensures m[i] == g[i]
    {
      assert |m[i]| == |g[i]|;
      forall j | 0 <= j < |g[i]|
        ensures m[i][j] == g[i][j]
      {
        assert Mirror(g)[i][|g[i]| - 1 - j] == g[i][j];
      }
    }
  }
}
