/** Rasters shared by the compositor, the label store and the array
    utilities: RGB pixels, rectangular grids of cells, and the in-place
    rectangular window update from which every write of the compositor
    is built. */
module Raster {

  datatype Option<T> = None | Some(value: T)

  /** The Python and numpy exceptions raised on the modelled paths. */
  datatype PyError = ValueError | TypeError | AssertionError | IndexError

  /** One pixel of a 3-channel raster, channels in r, g, b order. */
  datatype Rgb = Rgb(r: int, g: int, b: int)

  /** The all-zero pixel: background, "not foreground". */
  const Black := Rgb(0, 0, 0)

  /** The modulus of a fixed-width unsigned element type (256 for uint8). */
  type Modulus = m: int | 0 < m witness 1

  /** An h x w x 3 image, stored row by row; never mutated by the model. */
  type Sprite = seq<seq<Rgb>>

  /** A grid has `h` rows of `w` cells each. */
  predicate Rectangular<T>(g: seq<seq<T>>, h: int, w: int)
  {
    |g| == h && forall i :: 0 <= i < |g| ==> |g[i]| == w
  }

  /** Number of columns of a grid (0 for a grid without rows). */
  function Width<T>(g: seq<seq<T>>): nat
  {
    if |g| == 0 then 0 else |g[0]|
  }

  /** All rows of the grid have the same length. */
  predicate IsRect<T>(g: seq<seq<T>>)
  {
    Rectangular(g, |g|, Width(g))
  }

  /** Pixel (i, j) of an image, Black outside it. */
  function PixelAt(img: Sprite, i: int, j: int): Rgb
  {
    if 0 <= i < |img| && 0 <= j < |img[i]| then img[i][j] else Black
  }

  /** The footprint of an image: some channel of pixel (i, j) is nonzero
      (numpy's any over the channel axis). */
  predicate Foreground(img: Sprite, i: int, j: int)
  {
    PixelAt(img, i, j) != Black
  }

  /** Every channel of the pixel fits in an unsigned byte. */
  predicate ByteRgb(c: Rgb)
  {
    0 <= c.r < 256 && 0 <= c.g < 256 && 0 <= c.b < 256
  }

  /** The contents of a 2-dimensional array, row by row. */
  function Cells<T>(a: array2<T>): (g: seq<seq<T>>)
    reads a
    ensures Rectangular(g, a.Length0, a.Length1)
    ensures forall i, j :: 0 <= i < a.Length0 && 0 <= j < a.Length1 ==> g[i][j] == a[i, j]
  {
    seq(a.Length0, i requires 0 <= i < a.Length0 reads a =>
      seq(a.Length1, j requires 0 <= j < a.Length1 reads a => a[i, j]))
  }

  /** Cell (i, j) lies in the h x w window whose top-left corner is (p, q). */
  predicate InWindow(i: int, j: int, p: int, q: int, h: int, w: int)
  {
    p <= i < p + h && q <= j < q + w
  }

  /** The grid after cell (p + i, q + j) of the h x w window at (p, q) is
      replaced by f(i, j, old cell), for every cell of the window that lies
      in the grid; every other cell is kept. */
  function MapWindow<T>(g: seq<seq<T>>, p: int, q: int, h: int, w: int, f: (int, int, T) -> T): (r: seq<seq<T>>)
    ensures |r| == |g| && forall i :: 0 <= i < |g| ==> |r[i]| == |g[i]|
    ensures forall i, j :: 0 <= i < |g| && 0 <= j < |g[i]| ==>
      r[i][j] == if InWindow(i, j, p, q, h, w) then f(i - p, j - q, g[i][j]) else g[i][j]
  {
    seq(|g|, i requires 0 <= i < |g| =>
      seq(|g[i]|, j requires 0 <= j < |g[i]| =>
        if InWindow(i, j, p, q, h, w) then f(i - p, j - q, g[i][j]) else g[i][j]))
  }

  /** Two grids with the same shape and the same cells are equal. */
  lemma GridsEqual<T>(g1: seq<seq<T>>, g2: seq<seq<T>>)
    requires |g1| == |g2|
    requires forall i :: 0 <= i < |g1| ==> |g1[i]| == |g2[i]|
    requires forall i, j :: 0 <= i < |g1| && 0 <= j < |g1[i]| ==> g1[i][j] == g2[i][j]
    ensures g1 == g2
  {
    forall i | 0 <= i < |g1|
      ensures g1[i] == g2[i]
    {
    }
  }

  /** numpy's in-place `np.add(a[p:p+h, q:q+w], x, out=a[p:p+h, q:q+w])`,
      generalised to any cellwise update f: the window is rewritten cell by
      cell and the rest of the array is left alone. */
  method UpdateWindow<T>(a: array2<T>, p: int, q: int, h: int, w: int, f: (int, int, T) -> T)
    requires 0 <= p && 0 <= h && p + h <= a.Length0
    requires 0 <= q && 0 <= w && q + w <= a.Length1
    modifies a
    ensures Cells(a) == MapWindow(old(Cells(a)), p, q, h, w, f)
  {
    ghost var before := Cells(a);
    var i := 0;
    while i < h
      invariant 0 <= i <= h
      invariant forall r, c :: 0 <= r < a.Length0 && 0 <= c < a.Length1 ==>
        a[r, c] == if InWindow(r, c, p, q, i, w) then f(r - p, c - q, before[r][c]) else before[r][c]
    {
      var j := 0;
      while j < w
        invariant 0 <= j <= w
        invariant forall r, c :: 0 <= r < a.Length0 && 0 <= c < a.Length1 ==>
          a[r, c] == if InWindow(r, c, p, q, i, w) || (r == p + i && q <= c < q + j)
                     then f(r - p, c - q, before[r][c]) else before[r][c]
      {
        a[p + i, q + j] := f(i, j, a[p + i, q + j]);
        j := j + 1;
      }
      i := i + 1;
    }
    GridsEqual(Cells(a), MapWindow(before, p, q, h, w, f));
  }
}
