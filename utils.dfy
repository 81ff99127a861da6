/** The array utilities used around the generator: cropping the zero
    padding off an image, splitting an integer mask into one binary channel
    per label value, and cutting an image out with its annotation mask.
    Images are RGB rasters; a channel value is "ink" when it is nonzero. */
module Utils {
  import opened Raster

  /** A value, or the exception raised instead. */
  datatype Outcome<T> = Done(value: T) | Failed(error: PyError)

  // ---------------------------------------------------------------------
  // np.nonzero over a boolean vector: first and last set position

  /** The first k >= from with b[k] set. */
  function FirstSet(b: seq<bool>, from: nat): (r: Option<nat>)
    requires from <= |b|
    ensures r.Some? ==> from <= r.value < |b| && b[r.value] && forall k :: from <= k < r.value ==> !b[k]
    ensures r.None? ==> forall k :: from <= k < |b| ==> !b[k]
    decreases |b| - from
  {
    if from == |b| then None
    else if b[from] then Some(from)
    else FirstSet(b, from + 1)
  }

  /** The last k < upto with b[k] set. */
  function LastSet(b: seq<bool>, upto: nat): (r: Option<nat>)
    requires upto <= |b|
    ensures r.Some? ==> r.value < upto && b[r.value] && forall k :: r.value < k < upto ==> !b[k]
    ensures r.None? ==> forall k :: 0 <= k < upto ==> !b[k]
  {
    if upto == 0 then None
    else if b[upto - 1] then Some(upto - 1)
    else LastSet(b, upto - 1)
  }

  // ---------------------------------------------------------------------
  // crop_image

  /** Row i holds a pixel with a nonzero channel. */
  predicate RowHasInk(img: Sprite, i: int)
  {
    exists j :: 0 <= j < Width(img) && Foreground(img, i, j)
  }

  /** Column j holds a pixel with a nonzero channel. */
  predicate ColHasInk(img: Sprite, j: int)
  {
    exists i :: 0 <= i < |img| && Foreground(img, i, j)
  }

  /** `np.any(img, axis=(1, 2))`: one flag per row. */
  function RowInk(img: Sprite): (r: seq<bool>)
    ensures |r| == |img| && forall i :: 0 <= i < |img| ==> (r[i] <==> RowHasInk(img, i))
  {
    seq(|img|, i => RowHasInk(img, i))
  }

  /** `np.any(img, axis=(0, 2))`: one flag per column. */
  function ColInk(img: Sprite): (r: seq<bool>)
    ensures |r| == Width(img) && forall j :: 0 <= j < Width(img) ==> (r[j] <==> ColHasInk(img, j))
  {
    seq(Width(img), j => ColHasInk(img, j))
  }

  /** First and last inked row and column (all inclusive). */
  datatype Box = Box(top: nat, bottom: nat, left: nat, right: nat)

  /** The image has no pixel with a nonzero channel. */
  predicate AllZero(img: Sprite)
  {
    forall i, j :: 0 <= i < |img| && 0 <= j < Width(img) ==> !Foreground(img, i, j)
  }

  /** b is the bounding box of the ink: its edges touch ink, and every
      inked pixel lies inside it. */
  predicate IsInkBox(img: Sprite, b: Box)
  {
    && b.top <= b.bottom < |img| && b.left <= b.right < Width(img)
    && RowHasInk(img, b.top) && RowHasInk(img, b.bottom) && ColHasInk(img, b.left) && ColHasInk(img, b.right)
    && forall i, j :: 0 <= i < |img| && 0 <= j < Width(img) && Foreground(img, i, j) ==>
         b.top <= i <= b.bottom && b.left <= j <= b.right
  }

  /** `_y[0], _y[-1], _x[0], _x[-1]`: the ink's bounding box, or nothing
      when the image has no ink (where indexing the empty `_y` fails). */
  function InkBox(img: Sprite): (r: Option<Box>)
    requires IsRect(img)
    ensures r.None? <==> AllZero(img)
    ensures r.Some? ==> IsInkBox(img, r.value)
  {
    var rows := RowInk(img);
    var cols := ColInk(img);
    var ys := FirstSet(rows, 0);
    var yf := LastSet(rows, |rows|);
    var xs := FirstSet(cols, 0);
    var xf := LastSet(cols, |cols|);
    if ys.None? || yf.None? || xs.None? || xf.None? then
      assert AllZero(img) by {
        forall i, j | 0 <= i < |img| && 0 <= j < Width(img)
          ensures !Foreground(img, i, j)
        {
          if ys.None? || yf.None? {
            assert !rows[i];
          } else {
            assert !cols[j];
          }
        }
      }
      None
    else
      var b := Box(ys.value, yf.value, xs.value, xf.value);
      assert !AllZero(img) by {
        assert rows[b.top];
      }
      assert forall i, j :: 0 <= i < |img| && 0 <= j < Width(img) && Foreground(img, i, j) ==>
          b.top <= i <= b.bottom && b.left <= j <= b.right by {
        forall i, j | 0 <= i < |img| && 0 <= j < Width(img) && Foreground(img, i, j)
          ensures b.top <= i <= b.bottom && b.left <= j <= b.right
        {
          assert rows[i] && cols[j];
        }
      }
      Some(b)
  }

  /** The window [r0, r1) x [c0, c1) of a grid. */
  function SubGrid(g: Sprite, r0: nat, r1: nat, c0: nat, c1: nat): (r: Sprite)
    requires r0 <= r1 <= |g| && c0 <= c1 && forall i :: r0 <= i < r1 ==> c1 <= |g[i]|
    ensures Rectangular(r, r1 - r0, c1 - c0)
    ensures forall i, j :: 0 <= i < r1 - r0 && 0 <= j < c1 - c0 ==> r[i][j] == g[r0 + i][c0 + j]
  {
    seq(r1 - r0, i requires 0 <= i < r1 - r0 => g[r0 + i][c0..c1])
  }

  /** `crop_image` as written: `img[_ys:_yf, _xs:_xf]`. The slice ends are
      exclusive, so the last inked row and column are not part of the
      result. An image without ink raises an IndexError. */
  function CropImage(img: Sprite): (r: Outcome<Sprite>)
    requires IsRect(img)
    ensures r.Failed? <==> AllZero(img)
    ensures r.Failed? ==> r.error == IndexError
    ensures r.Done? ==> (
      && InkBox(img).Some?
      && var b := InkBox(img).value;
         && Rectangular(r.value, b.bottom - b.top, b.right - b.left)
         && forall i, j :: 0 <= i < b.bottom - b.top && 0 <= j < b.right - b.left ==>
              r.value[i][j] == img[b.top + i][b.left + j])
  {
    match InkBox(img)
    case None => Failed(IndexError)
    case Some(b) => Done(SubGrid(img, b.top, b.bottom, b.left, b.right))
  }

  /** The crop the function's name promises: the whole ink bounding box,
      both ends included. */
  function CropImageInclusive(img: Sprite): (r: Outcome<Sprite>)
    requires IsRect(img)
    ensures r.Failed? <==> AllZero(img)
    ensures r.Done? ==> (
      && InkBox(img).Some?
      && var b := InkBox(img).value;
         Rectangular(r.value, b.bottom - b.top + 1, b.right - b.left + 1))
  {
    match InkBox(img)
    case None => Failed(IndexError)
    case Some(b) => Done(SubGrid(img, b.top, b.bottom + 1, b.left, b.right + 1))
  }

  /** The inclusive crop removes only zero padding: every inked pixel of
      the image is in the crop, at its position relative to the box. */
  lemma InclusiveCropKeepsAllInk(img: Sprite, i: int, j: int)
    requires IsRect(img) && 0 <= i < |img| && 0 <= j < Width(img) && Foreground(img, i, j)
    ensures var r := CropImageInclusive(img); var b := InkBox(img).value;
      r.Done? && b.top <= i <= b.bottom && b.left <= j <= b.right &&
      r.value[i - b.top][j - b.left] == img[i][j]
  {
    assert !AllZero(img);
  }

  /** The crop as written loses ink: a one-pixel image is cropped to an
      image with no rows. */
  lemma CropImageDropsLastInk()
    ensures var img := [[Rgb(7, 7, 7)]];
      IsRect(img) && Foreground(img, 0, 0) && CropImage(img) == Done([])
  {
    var img := [[Rgb(7, 7, 7)]];
    assert PixelAt(img, 0, 0) == Rgb(7, 7, 7) && Width(img) == 1;
    assert Foreground(img, 0, 0);
    assert RowHasInk(img, 0) && ColHasInk(img, 0);
    assert !AllZero(img);
    var b := InkBox(img).value;
    assert b == Box(0, 0, 0, 0);
  }

  // ---------------------------------------------------------------------
  // extract_binary_mask

  /** The channel vector of one mask cell: one binary channel per
      dictionary value, set exactly where the cell equals that value, so
      all of them 0 when the cell's value is not listed. */
  function OneHot(x: int, values: seq<int>): (r: seq<int>)
    ensures |r| == |values|
    ensures forall k :: 0 <= k < |r| ==> r[k] == 0 || r[k] == 1
    ensures forall k :: 0 <= k < |r| ==> (r[k] == 1 <==> x == values[k])
    ensures x !in values ==> forall k :: 0 <= k < |r| ==> r[k] == 0
  {
    seq(|values|, k requires 0 <= k < |values| => if x == values[k] then 1 else 0)
  }

  /** `np.stack([np.where(mask == i, 1, 0) for i in dictionary.values()],
      axis=-1)`: one binary channel per dictionary value, in dictionary
      order. Stacking no arrays raises a ValueError. */
  function ExtractBinaryMask(mask: seq<seq<int>>, values: seq<int>): (r: Outcome<seq<seq<seq<int>>>>)
    ensures r.Failed? <==> |values| == 0
    ensures r.Failed? ==> r.error == ValueError
    ensures r.Done? ==> (|r.value| == |mask| && forall i :: 0 <= i < |mask| ==> |r.value[i]| == |mask[i]|)
  {
    if |values| == 0 then Failed(ValueError)
    else Done(seq(|mask|, i requires 0 <= i < |mask| =>
           seq(|mask[i]|, j requires 0 <= j < |mask[i]| => OneHot(mask[i][j], values))))
  }

  /** Reading a channel vector back: the value of the first set channel,
      0 (background) when none is set. */
  function DecodeFrom(ch: seq<int>, values: seq<int>, k: nat): int
    requires |ch| == |values| && k <= |values|
    decreases |values| - k
  {
    if k == |values| then 0
    else if ch[k] == 1 then values[k]
    else DecodeFrom(ch, values, k + 1)
  }

  /** Round trip: decoding a cell's channels gives back the cell's value
      when it is a dictionary value, and 0 when it is not. */
  lemma {:induction false} OneHotDecodes(x: int, values: seq<int>, k: nat)
    requires k <= |values|
    requires forall t :: 0 <= t < k ==> values[t] != x
    ensures DecodeFrom(OneHot(x, values), values, k) == if x in values then x else 0
    decreases |values| - k
  {
    if k < |values| && values[k] != x {
      OneHotDecodes(x, values, k + 1);
    }
  }

  /** In the stacked mask, channel k of a cell is 1 exactly when the cell
      equals dictionary value k; with distinct dictionary values each cell
      therefore has at most one channel set. */
  lemma ChannelsAreOneHot(mask: seq<seq<int>>, values: seq<int>, i: int, j: int)
    requires 0 < |values| && 0 <= i < |mask| && 0 <= j < |mask[i]|
    ensures var ch := ExtractBinaryMask(mask, values).value[i][j];
      && (forall k :: 0 <= k < |values| ==> (ch[k] == 1 <==> values[k] == mask[i][j]))
      && ((forall a, b :: 0 <= a < b < |values| ==> values[a] != values[b]) ==>
            forall a, b :: 0 <= a < b < |values| ==> ch[a] == 0 || ch[b] == 0)
  {
  }

  // ---------------------------------------------------------------------
  // the masking step of extract_image

  /** `filename[-3:] == "png"`. */
  predicate PngName(filename: string)
  {
    |filename| >= 3 && filename[|filename| - 3..] == "png"
  }

  /** `filename[:-3] + "jpg"`: the image that belongs to the mask file. */
  function JpgName(filename: string): (r: string)
    requires PngName(filename)
    ensures |r| == |filename| && r[..|r| - 3] == filename[..|filename| - 3] && r[|r| - 3..] == "jpg"
  {
    filename[..|filename| - 3] + "jpg"
  }

  /** The image name and the mask name differ only in the extension. */
  lemma JpgNameRoundTrip(filename: string)
    requires PngName(filename)
    ensures !PngName(JpgName(filename))
    ensures JpgName(filename)[..|filename| - 3] + "png" == filename
  {
    var r := JpgName(filename);
    assert r[|r| - 3..][0] == 'j';
    assert filename == filename[..|filename| - 3] + filename[|filename| - 3..];
  }

  /** `img[np.any(mask, axis=2) == 0] = 0`: pixels outside the mask's
      footprint become Black, the others are kept. */
  function MaskImage(img: Sprite, mask: Sprite): (r: Sprite)
    ensures |r| == |img| && forall i :: 0 <= i < |img| ==> |r[i]| == |img[i]|
    ensures forall i, j :: 0 <= i < |r| && 0 <= j < |r[i]| && Foreground(r, i, j) ==>
      Foreground(mask, i, j) && r[i][j] == img[i][j]
  {
    seq(|img|, i requires 0 <= i < |img| =>
      seq(|img[i]|, j requires 0 <= j < |img[i]| => if Foreground(mask, i, j) then img[i][j] else Black))
  }

  /** The cut-out keeps every pixel under the mask's footprint, and
      masking again changes nothing. */
  lemma MaskImageKeepsFootprint(img: Sprite, mask: Sprite)
    ensures var r := MaskImage(img, mask);
      && (forall i, j :: 0 <= i < |r| && 0 <= j < |r[i]| && Foreground(mask, i, j) ==> r[i][j] == img[i][j])
      && MaskImage(r, mask) == r
  {
    var r := MaskImage(img, mask);
    var rr := MaskImage(r, mask);
    forall i | 0 <= i < |r|
      ensures rr[i] == r[i]
    {
    }
  }

  /** The masking step of `extract_image`, given the contents of the mask
      file `filename` and of the image file `JpgName(filename)`: the name
      must end in "png" (AssertionError), and the mask and the image must
      have the same height and width (numpy's boolean indexing raises an
      IndexError otherwise). */
  function ExtractImage(filename: string, maskFile: Sprite, imageFile: Sprite): (r: Outcome<Sprite>)
    requires IsRect(maskFile) && IsRect(imageFile)
    ensures !PngName(filename) ==> r == Failed(AssertionError)
    ensures PngName(filename) && (|maskFile| != |imageFile| || Width(maskFile) != Width(imageFile)) ==>
      r == Failed(IndexError)
    ensures r.Done? <==> PngName(filename) && |maskFile| == |imageFile| && Width(maskFile) == Width(imageFile)
    ensures r.Done? ==> (
      && Rectangular(r.value, |imageFile|, Width(imageFile))
      && forall i, j :: 0 <= i < |imageFile| && 0 <= j < Width(imageFile) ==>
           (Foreground(r.value, i, j) ==> Foreground(maskFile, i, j)) &&
           (Foreground(maskFile, i, j) ==> r.value[i][j] == imageFile[i][j]))
  {
    if !PngName(filename) then Failed(AssertionError)
    else if |maskFile| != |imageFile| || Width(maskFile) != Width(imageFile) then Failed(IndexError)
    else
      MaskImageKeepsFootprint(imageFile, maskFile);
      Done(MaskImage(imageFile, maskFile))
  }
}
