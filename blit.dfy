/** What one call of the compositor (`_canvas_append`) does to the contents
    of the canvas and of the mask, stated on values. Every write is an
    in-place numpy addition whose result is cast back ("unsafe" casting) to
    the element type of the array written, i.e. a wrap-around addition:
    modulo 256 on the uint8 canvas, modulo the mask modulus on the mask. */
module Blit {
  import opened Raster

  /** The canvas is uint8. */
  const CanvasModulus: Modulus := 256

  /** `mode`: "label" writes the label under the sprite's footprint; any
      other string takes the pattern branch. */
  datatype Mode = LabelMode | PatternMode

  /** `format`: "pixel", "COCO", or anything else (which the compositor's
      assertion rejects). */
  datatype Format = Pixel | Coco | Unsupported

  /** One cell of a COCO (4-channel) mask: channel 0 is the label, channels
      1-3 the colour of the instance. */
  datatype InstanceCell = InstanceCell(labelId: int, color: Rgb)

  /** `mask_label`: an integer (label mode, or a pattern broadcast over the
      window), a 2-D pattern for a pixel mask, or a 4-channel pattern for a
      COCO mask. */
  datatype MaskLabel = Scalar(v: int) | FlatGrid(flat: seq<seq<int>>) | CellGrid(cells: seq<seq<InstanceCell>>)

  /** The contents of a mask: a pixel (2-D) or a COCO (4-channel) mask. */
  datatype MaskGrid = FlatCells(flat: seq<seq<int>>) | LayeredCells(layered: seq<seq<InstanceCell>>)

  /** Channelwise wrap-around addition. */
  function AddRgb(c: Rgb, s: Rgb, m: Modulus): Rgb
  {
    Rgb((c.r + s.r) % m, (c.g + s.g) % m, (c.b + s.b) % m)
  }

  // ----- canvas writes -----

  /** Window cell update of `np.add(canvas[win], img, out=canvas[win])`. */
  function SpriteAdder(img: Sprite): (int, int, Rgb) -> Rgb
  {
    (i: int, j: int, c: Rgb) => AddRgb(c, PixelAt(img, i, j), CanvasModulus)
  }

  /** The canvas after the sprite is added into the window at (p, q): a
      uint8 canvas stays uint8, whatever the sprite holds (the sum wraps
      around). */
  function AddSprite(g: seq<seq<Rgb>>, p: int, q: int, img: Sprite): (r: seq<seq<Rgb>>)
    ensures CanvasInRange(g) ==> CanvasInRange(r)
  {
    MapWindow(g, p, q, |img|, Width(img), SpriteAdder(img))
  }

  /** One channel of `np.add(c, s, where=(c == 0), out=c)`: a zero channel
      receives the sprite's value, a painted one is left as it is. */
  function FillChannel(x: int, s: int): int
  {
    if x == 0 then s % CanvasModulus else x
  }

  function GapFiller(img: Sprite): (int, int, Rgb) -> Rgb
  {
    (i: int, j: int, c: Rgb) => var s := PixelAt(img, i, j);
      Rgb(FillChannel(c.r, s.r), FillChannel(c.g, s.g), FillChannel(c.b, s.b))
  }

  /** The canvas after the mask-less (preview) form of the compositor: a
      painted channel is never touched, a zero channel in the window
      receives the sprite's channel, and nothing outside the window
      changes. */
  function FillGaps(g: seq<seq<Rgb>>, p: int, q: int, img: Sprite): (r: seq<seq<Rgb>>)
    ensures |r| == |g| && forall i :: 0 <= i < |g| ==> |r[i]| == |g[i]|
    ensures forall i, j :: 0 <= i < |g| && 0 <= j < |g[i]| ==>
      var c, d := g[i][j], r[i][j];
      && (c.r != 0 ==> d.r == c.r) && (c.g != 0 ==> d.g == c.g) && (c.b != 0 ==> d.b == c.b)
      && (!InWindow(i, j, p, q, |img|, Width(img)) ==> d == c)
    ensures forall i, j :: 0 <= i < |g| && 0 <= j < |g[i]| && InWindow(i, j, p, q, |img|, Width(img)) ==>
      var c, d, s := g[i][j], r[i][j], PixelAt(img, i - p, j - q);
      && (c.r == 0 ==> d.r == s.r % 256) && (c.g == 0 ==> d.g == s.g % 256) && (c.b == 0 ==> d.b == s.b % 256)
  {
    MapWindow(g, p, q, |img|, Width(img), GapFiller(img))
  }

  // ----- mask writes -----

  /** `mask[win] += mask_label * any(img, axis=2)`. */
  function LabelAdder(img: Sprite, labelId: int, m: Modulus): (int, int, int) -> int
  {
    (i: int, j: int, x: int) => (x + (if Foreground(img, i, j) then labelId else 0)) % m
  }

  /** The pattern value added at window cell (i, j) of a pixel mask. */
  function FlatPatternAt(ml: MaskLabel, i: int, j: int): int
  {
    match ml
    case Scalar(v) => v
    case FlatGrid(g) => if 0 <= i < |g| && 0 <= j < |g[i]| then g[i][j] else 0
    case CellGrid(_) => 0
  }

  /** `mask[win] += mask_label`, with no footprint filter. */
  function PatternAdder(ml: MaskLabel, m: Modulus): (int, int, int) -> int
  {
    (i: int, j: int, x: int) => (x + FlatPatternAt(ml, i, j)) % m
  }

  /** Channel 0 gains the label and channels 1-3 the instance colour under
      the footprint (`np.any(img, axis=2, keepdims=True) * color`). */
  function InstanceAdder(img: Sprite, labelId: int, color: Rgb, m: Modulus): (int, int, InstanceCell) -> InstanceCell
  {
    (i: int, j: int, x: InstanceCell) => var fg := Foreground(img, i, j);
      InstanceCell((x.labelId + (if fg then labelId else 0)) % m, AddRgb(x.color, if fg then color else Black, m))
  }

  /** The pattern value added at window cell (i, j) of a COCO mask; an
      integer broadcasts over all four channels. */
  function CellPatternAt(ml: MaskLabel, i: int, j: int): InstanceCell
  {
    match ml
    case Scalar(v) => InstanceCell(v, Rgb(v, v, v))
    case CellGrid(g) => if 0 <= i < |g| && 0 <= j < |g[i]| then g[i][j] else InstanceCell(0, Black)
    case FlatGrid(_) => InstanceCell(0, Black)
  }

  function CellPatternAdder(ml: MaskLabel, m: Modulus): (int, int, InstanceCell) -> InstanceCell
  {
    (i: int, j: int, x: InstanceCell) => var d := CellPatternAt(ml, i, j);
      InstanceCell((x.labelId + d.labelId) % m, AddRgb(x.color, d.color, m))
  }

  /** `np.stack((mask, 0, 0, 0), axis=-1)`: a pixel mask becomes a COCO
      mask of the same shape, whose values stay in the element range. */
  function Promote(g: seq<seq<int>>): (r: seq<seq<InstanceCell>>)
    ensures |r| == |g| && forall i :: 0 <= i < |g| ==> |r[i]| == |g[i]|
    ensures forall m: Modulus :: FlatInRange(g, m) ==> LayeredInRange(r, m)
  {
    seq(|g|, i requires 0 <= i < |g| => seq(|g[i]|, j requires 0 <= j < |g[i]| => InstanceCell(g[i][j], Black)))
  }

  /** Channel 0 of a COCO mask. */
  function Channel0(g: seq<seq<InstanceCell>>): seq<seq<int>>
  {
    seq(|g|, i requires 0 <= i < |g| => seq(|g[i]|, j requires 0 <= j < |g[i]| => g[i][j].labelId))
  }

  /** The arguments the compositor's mask branch can work with, for a mask
      that is a pixel mask (`isFlat`) or a COCO mask and an h x w sprite: a
      pixel format needs a pixel mask, label mode an integer label, and a
      pattern must be an integer or an h x w grid of the mask's own kind
      (numpy raises a broadcasting error otherwise). */
  predicate MaskArgsFit(isFlat: bool, ml: MaskLabel, mode: Mode, format: Format, h: int, w: int)
  {
    && (format == Pixel ==> isFlat)
    && (mode == LabelMode ==> ml.Scalar?)
    && (mode == PatternMode && format == Pixel ==> ml.Scalar? || (ml.FlatGrid? && Rectangular(ml.flat, h, w)))
    && (mode == PatternMode && format == Coco ==> ml.Scalar? || (ml.CellGrid? && Rectangular(ml.cells, h, w)))
  }

  /** The mask after the compositor writes the sprite at (p, q). */
  function MaskWrite(v: MaskGrid, p: int, q: int, img: Sprite, ml: MaskLabel, mode: Mode, format: Format,
                     color: Rgb, m: Modulus): (r: MaskGrid)
    requires format != Unsupported && MaskArgsFit(v.FlatCells?, ml, mode, format, |img|, Width(img))
    ensures r.FlatCells? <==> format == Pixel
    ensures forall i, j :: !InWindow(i, j, p, q, |img|, Width(img)) ==> LabelAt(r, i, j) == LabelAt(v, i, j)
  {
    var h, w := |img|, Width(img);
    if format == Pixel then
      FlatCells(MapWindow(v.flat, p, q, h, w, if mode == LabelMode then LabelAdder(img, ml.v, m) else PatternAdder(ml, m)))
    else
      var base := if v.FlatCells? then Promote(v.flat) else v.layered;
      LayeredCells(MapWindow(base, p, q, h, w,
        if mode == LabelMode then InstanceAdder(img, ml.v, color, m) else CellPatternAdder(ml, m)))
  }

  // ----- the overlap test of the placement searches -----

  /** The value the overlap test reads at mask cell (r, c): the cell of a
      pixel mask, channel 0 of a COCO mask; 0 outside the mask. */
  function LabelAt(v: MaskGrid, r: int, c: int): int
  {
    match v
    case FlatCells(g) => if 0 <= r < |g| && 0 <= c < |g[r]| then g[r][c] else 0
    case LayeredCells(g) => if 0 <= r < |g| && 0 <= c < |g[r]| then g[r][c].labelId else 0
  }

  /** `np.any(np.multiply(check_zone, img_mask))`: some footprint cell of
      the sprite placed at (p, q) lands on a nonzero mask cell. */
  predicate Overlaps(v: MaskGrid, p: int, q: int, img: Sprite)
    ensures Overlaps(v, p, q, img) ==> 0 < |img| && 0 < Width(img)
  {
    exists i, j | 0 <= i < |img| && 0 <= j < Width(img) :: Foreground(img, i, j) && LabelAt(v, p + i, q + j) != 0
  }

  /** An overlap needs both a footprint cell of the sprite and a labelled
      mask cell: a sprite without foreground, or a mask still empty, never
      overlaps. */
  lemma NoOverlapWithoutInkOrLabel(v: MaskGrid, p: int, q: int, img: Sprite)
    ensures (forall i, j :: !Foreground(img, i, j)) ==> !Overlaps(v, p, q, img)
    ensures (forall r, c :: LabelAt(v, r, c) == 0) ==> !Overlaps(v, p, q, img)
  {
  }

  // ----- value ranges -----

  predicate CanvasInRange(g: seq<seq<Rgb>>)
  {
    forall i, j :: 0 <= i < |g| && 0 <= j < |g[i]| ==> ByteRgb(g[i][j])
  }

  predicate FlatInRange(g: seq<seq<int>>, m: Modulus)
  {
    forall i, j :: 0 <= i < |g| && 0 <= j < |g[i]| ==> 0 <= g[i][j] < m
  }

  predicate RgbInRange(c: Rgb, m: Modulus)
  {
    0 <= c.r < m && 0 <= c.g < m && 0 <= c.b < m
  }

  predicate LayeredInRange(g: seq<seq<InstanceCell>>, m: Modulus)
  {
    forall i, j :: 0 <= i < |g| && 0 <= j < |g[i]| ==> 0 <= g[i][j].labelId < m && RgbInRange(g[i][j].color, m)
  }

  /** Adding 0 to a value already reduced modulo m leaves it unchanged. */
  lemma AddZeroMod(x: int, m: Modulus)
    requires 0 <= x < m
    ensures (x + 0) % m == x
  {
  }

  // ----- properties of one write -----

  /** Pixel format, label mode: the mask changes only under the sprite's
      footprint, where it gains the label (modulo m). */
  lemma LabelWriteFollowsFootprint(g: seq<seq<int>>, p: int, q: int, img: Sprite, labelId: int, m: Modulus)
    requires FlatInRange(g, m)
    ensures var r := MapWindow(g, p, q, |img|, Width(img), LabelAdder(img, labelId, m));
      |r| == |g| &&
      forall i, j :: 0 <= i < |g| && 0 <= j < |g[i]| ==>
        |r[i]| == |g[i]| &&
        r[i][j] == if InWindow(i, j, p, q, |img|, Width(img)) && Foreground(img, i - p, j - q)
                   then (g[i][j] + labelId) % m else g[i][j]
  {
    var r := MapWindow(g, p, q, |img|, Width(img), LabelAdder(img, labelId, m));
    forall i, j | 0 <= i < |g| && 0 <= j < |g[i]|
      ensures r[i][j] == if InWindow(i, j, p, q, |img|, Width(img)) && Foreground(img, i - p, j - q)
                         then (g[i][j] + labelId) % m else g[i][j]
    {
      AddZeroMod(g[i][j], m);
    }
  }

  /** Pixel format, label mode, at a point the overlap test accepts: every
      footprint cell receives exactly the label, and every cell that was
      already occupied keeps its value (the new sprite and the old
      occupancy are disjoint). */
  lemma FreeLabelWriteIsDisjoint(g: seq<seq<int>>, p: int, q: int, img: Sprite, labelId: int, m: Modulus)
    requires FlatInRange(g, m) && 0 <= labelId < m
    requires IsRect(img) && Rectangular(g, |g|, Width(g))
    requires 0 <= p && p + |img| <= |g| && 0 <= q && q + Width(img) <= Width(g)
    requires !Overlaps(FlatCells(g), p, q, img)
    ensures var r := MapWindow(g, p, q, |img|, Width(img), LabelAdder(img, labelId, m));
      Rectangular(r, |g|, Width(g)) &&
      (forall i, j :: 0 <= i < |img| && 0 <= j < Width(img) && Foreground(img, i, j) ==> r[p + i][q + j] == labelId) &&
      (forall i, j :: 0 <= i < |g| && 0 <= j < |g[i]| && g[i][j] != 0 ==> r[i][j] == g[i][j])
  {
    var r := MapWindow(g, p, q, |img|, Width(img), LabelAdder(img, labelId, m));
    forall i, j | 0 <= i < |img| && 0 <= j < Width(img) && Foreground(img, i, j)
      ensures r[p + i][q + j] == labelId
    {
      FreeFootprintCellGetsLabel(g, p, q, img, labelId, m, i, j);
    }
    forall i, j | 0 <= i < |g| && 0 <= j < |g[i]| && g[i][j] != 0
      ensures r[i][j] == g[i][j]
    {
      OccupiedCellKept(g, p, q, img, labelId, m, i, j);
    }
  }

  /** One footprint cell of a free placement: it was empty, so it now
      holds exactly the label. */
  lemma FreeFootprintCellGetsLabel(g: seq<seq<int>>, p: int, q: int, img: Sprite, labelId: int, m: Modulus,
                                   i: int, j: int)
    requires 0 <= labelId < m
    requires 0 <= p + i < |g| && 0 <= q + j < |g[p + i]|
    requires 0 <= i < |img| && 0 <= j < Width(img) && Foreground(img, i, j)
    requires !Overlaps(FlatCells(g), p, q, img)
    ensures MapWindow(g, p, q, |img|, Width(img), LabelAdder(img, labelId, m))[p + i][q + j] == labelId
  {
    assert LabelAt(FlatCells(g), p + i, q + j) == 0;
    assert InWindow(p + i, q + j, p, q, |img|, Width(img));
  }

  /** One occupied cell under a free placement: the overlap test found no
      footprint cell over it, so it keeps its value. */
  lemma OccupiedCellKept(g: seq<seq<int>>, p: int, q: int, img: Sprite, labelId: int, m: Modulus, i: int, j: int)
    requires FlatInRange(g, m)
    requires 0 <= i < |g| && 0 <= j < |g[i]| && g[i][j] != 0
    requires !Overlaps(FlatCells(g), p, q, img)
    ensures MapWindow(g, p, q, |img|, Width(img), LabelAdder(img, labelId, m))[i][j] == g[i][j]
  {
    if InWindow(i, j, p, q, |img|, Width(img)) {
      assert LabelAt(FlatCells(g), p + (i - p), q + (j - q)) != 0;
      assert !Foreground(img, i - p, j - q);
      AddZeroMod(g[i][j], m);
    }
  }

  /** Pattern mode has no footprint filter: the mask write depends on the
      sprite's size only, never on which of its pixels are foreground. */
  lemma PatternWriteIgnoresFootprint(v: MaskGrid, p: int, q: int, img1: Sprite, img2: Sprite, ml: MaskLabel,
                                     format: Format, color: Rgb, m: Modulus)
    requires |img1| == |img2| && Width(img1) == Width(img2)
    requires format != Unsupported && MaskArgsFit(v.FlatCells?, ml, PatternMode, format, |img1|, Width(img1))
    ensures MaskWrite(v, p, q, img1, ml, PatternMode, format, color, m)
         == MaskWrite(v, p, q, img2, ml, PatternMode, format, color, m)
  {
  }

  /** Promotion keeps the old mask as channel 0 and zeroes channels 1-3. */
  lemma {:induction false} PromoteKeepsChannel0(g: seq<seq<int>>)
    ensures Channel0(Promote(g)) == g
    ensures forall i, j :: 0 <= i < |g| && 0 <= j < |g[i]| ==> Promote(g)[i][j].color == Black
  {
    GridsEqual(Channel0(Promote(g)), g);
  }

  /** In COCO format the overlap test reads channel 0 only: it answers as
      it would on the pixel mask held in channel 0. */
  lemma OverlapReadsChannel0(g: seq<seq<InstanceCell>>, p: int, q: int, img: Sprite)
    ensures Overlaps(LayeredCells(g), p, q, img) <==> Overlaps(FlatCells(Channel0(g)), p, q, img)
  {
    forall r, c
      ensures LabelAt(LayeredCells(g), r, c) == LabelAt(FlatCells(Channel0(g)), r, c)
    {
    }
  }

  /** Channel 0 of a COCO label write is exactly the pixel-format label
      write on channel 0 of the mask, whether or not the mask had to be
      promoted first. */
  lemma CocoChannel0IsPixelWrite(v: MaskGrid, p: int, q: int, img: Sprite, labelId: int, color: Rgb, m: Modulus)
    ensures var base := if v.FlatCells? then v.flat else Channel0(v.layered);
      Channel0(MaskWrite(v, p, q, img, Scalar(labelId), LabelMode, Coco, color, m).layered)
      == MaskWrite(FlatCells(base), p, q, img, Scalar(labelId), LabelMode, Pixel, color, m).flat
  {
    var base := if v.FlatCells? then v.flat else Channel0(v.layered);
    var layers := if v.FlatCells? then Promote(v.flat) else v.layered;
    if v.FlatCells? {
      PromoteKeepsChannel0(v.flat);
    }
    assert Channel0(layers) == base;
    var written := MapWindow(layers, p, q, |img|, Width(img), InstanceAdder(img, labelId, color, m));
    var right := MapWindow(base, p, q, |img|, Width(img), LabelAdder(img, labelId, m));
    assert MaskWrite(v, p, q, img, Scalar(labelId), LabelMode, Coco, color, m).layered == written;
    assert MaskWrite(FlatCells(base), p, q, img, Scalar(labelId), LabelMode, Pixel, color, m).flat == right;
    var left := Channel0(written);
    forall i, j | 0 <= i < |left| && 0 <= j < |left[i]|
      ensures left[i][j] == right[i][j]
    {
      assert left[i][j] == written[i][j].labelId;
      assert base[i][j] == layers[i][j].labelId;
    }
    GridsEqual(left, right);
  }

  /** COCO format, label mode: under the footprint the colour channels gain
      the instance colour; off the footprint and outside the window they
      keep their values. */
  lemma InstanceColorFollowsFootprint(g: seq<seq<InstanceCell>>, p: int, q: int, img: Sprite, labelId: int,
                                      color: Rgb, m: Modulus)
    requires LayeredInRange(g, m)
    ensures var r := MapWindow(g, p, q, |img|, Width(img), InstanceAdder(img, labelId, color, m));
      forall i, j :: 0 <= i < |g| && 0 <= j < |g[i]| ==>
        r[i][j].color == if InWindow(i, j, p, q, |img|, Width(img)) && Foreground(img, i - p, j - q)
                         then AddRgb(g[i][j].color, color, m) else g[i][j].color
  {
    var r: seq<seq<InstanceCell>> := MapWindow(g, p, q, |img|, Width(img), InstanceAdder(img, labelId, color, m));
    forall i, j | 0 <= i < |g| && 0 <= j < |g[i]|
      ensures r[i][j].color == if InWindow(i, j, p, q, |img|, Width(img)) && Foreground(img, i - p, j - q)
                               then AddRgb(g[i][j].color, color, m) else g[i][j].color
    {
      var c := g[i][j].color;
      AddZeroMod(c.r, m);
      AddZeroMod(c.g, m);
      AddZeroMod(c.b, m);
    }
  }

  /** The preview canvas is filled with 255: no channel is 0, so the
      mask-less compositor leaves it exactly as it was. */
  lemma FillGapsOnPaintedCanvas(g: seq<seq<Rgb>>, p: int, q: int, img: Sprite)
    requires forall i, j :: 0 <= i < |g| && 0 <= j < |g[i]| ==> g[i][j].r != 0 && g[i][j].g != 0 && g[i][j].b != 0
    ensures FillGaps(g, p, q, img) == g
  {
    GridsEqual(FillGaps(g, p, q, img), g);
  }

  /** The window is empty: every canvas pixel there is Black. */
  predicate WindowEmpty(g: seq<seq<Rgb>>, p: int, q: int, h: int, w: int)
  {
    forall i, j :: 0 <= i < |g| && 0 <= j < |g[i]| && InWindow(i, j, p, q, h, w) ==> g[i][j] == Black
  }

  /** Adding a byte-valued sprite into an empty window copies it exactly;
      nothing outside the window changes. */
  lemma AddSpriteOntoEmpty(g: seq<seq<Rgb>>, p: int, q: int, img: Sprite)
    requires WindowEmpty(g, p, q, |img|, Width(img))
    requires forall i, j :: 0 <= i < |img| && 0 <= j < Width(img) ==> ByteRgb(PixelAt(img, i, j))
    ensures var r := AddSprite(g, p, q, img);
      forall i, j :: 0 <= i < |g| && 0 <= j < |g[i]| ==>
        r[i][j] == if InWindow(i, j, p, q, |img|, Width(img)) then PixelAt(img, i - p, j - q) else g[i][j]
  {
  }

  /** The compositor accumulates rather than copies: adding the same
      byte-valued sprite twice onto an empty window doubles every channel
      (modulo 256). */
  lemma AddSpriteTwiceDoubles(g: seq<seq<Rgb>>, p: int, q: int, img: Sprite, i: int, j: int)
    requires WindowEmpty(g, p, q, |img|, Width(img))
    requires forall a, b :: 0 <= a < |img| && 0 <= b < Width(img) ==> ByteRgb(PixelAt(img, a, b))
    requires 0 <= i < |g| && 0 <= j < |g[i]| && InWindow(i, j, p, q, |img|, Width(img))
    ensures var s := PixelAt(img, i - p, j - q);
      AddSprite(AddSprite(g, p, q, img), p, q, img)[i][j] == Rgb((2 * s.r) % 256, (2 * s.g) % 256, (2 * s.b) % 256)
  {
    AddSpriteOntoEmpty(g, p, q, img);
  }

  /** Hence the compositor is not idempotent: once the window holds a
      foreground pixel, a second identical write changes the canvas. */
  lemma AddSpriteNotIdempotent(g: seq<seq<Rgb>>, p: int, q: int, img: Sprite, a: int, b: int)
    requires 0 <= p && p + |img| <= |g| && 0 <= q && IsRect(img) && Rectangular(g, |g|, Width(g))
    requires q + Width(img) <= Width(g)
    requires WindowEmpty(g, p, q, |img|, Width(img))
    requires forall x, y :: 0 <= x < |img| && 0 <= y < Width(img) ==> ByteRgb(PixelAt(img, x, y))
    requires 0 <= a < |img| && 0 <= b < Width(img) && Foreground(img, a, b)
    ensures AddSprite(AddSprite(g, p, q, img), p, q, img) != AddSprite(g, p, q, img)
  {
    var once := AddSprite(g, p, q, img);
    var twice := AddSprite(once, p, q, img);
    var i, j, s := p + a, q + b, PixelAt(img, a, b);
    assert InWindow(i, j, p, q, |img|, Width(img)) && 0 <= j < |g[i]|;
    assert g[i][j] == Black;
    assert once[i][j] == AddRgb(Black, s, CanvasModulus) == s;
    assert twice[i][j] == AddRgb(s, s, CanvasModulus);
    DoubledPixelDiffers(s);
  }

  /** A nonzero byte doubled modulo 256 is a different byte. */
  lemma DoubledByteDiffers(x: int)
    requires 0 < x < 256
    ensures (x + x) % 256 != x
  {
    if x < 128 {
      assert (x + x) % 256 == x + x;
    } else {
      assert (x + x) % 256 == x + x - 256;
    }
  }

  /** A byte-valued foreground pixel added to itself changes. */
  lemma DoubledPixelDiffers(s: Rgb)
    requires ByteRgb(s) && s != Black
    ensures AddRgb(s, s, CanvasModulus) != s
  {
    if s.r != 0 {
      DoubledByteDiffers(s.r);
    } else if s.g != 0 {
      DoubledByteDiffers(s.g);
    } else {
      DoubledByteDiffers(s.b);
    }
  }
}
