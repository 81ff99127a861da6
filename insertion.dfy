/** The insertion half of the collage generator: the compositor
    `_canvas_append`, which writes a sprite into the canvas and the mask in
    place, and the three placement searches `_init_insert`,
    `_secondary_insert` and `_try_insert`, which choose the top-left point
    and call the compositor at most once.

    Random draws are parameters: `start` is the initial
    `np.random.randint(k, outer - k)` point and `steps` the successive
    `np.random.randint(-k, k, size=2)` offsets. The colour that
    `_generate_new_color` would return, with its updated set of existing
    colours, is the `alloc` parameter. */
module Insertion {
  import opened Raster
  import opened Blit
  import opened Walk

  /** A mask array: a pixel mask (H x W) or a COCO mask (H x W x 4). */
  datatype Mask = Flat(flat: array2<int>) | Layered(layered: array2<InstanceCell>)

  function MaskObjects(m: Mask): set<object>
  {
    match m
    case Flat(a) => {a}
    case Layered(a) => {a}
  }

  function OptionObjects(m: Option<Mask>): set<object>
  {
    if m.Some? then MaskObjects(m.value) else {}
  }

  /** The contents of a mask array. */
  function View(m: Mask): MaskGrid
    reads MaskObjects(m)
  {
    match m
    case Flat(a) => FlatCells(Cells(a))
    case Layered(a) => LayeredCells(Cells(a))
  }

  function Rows(m: Mask): int
  {
    match m
    case Flat(a) => a.Length0
    case Layered(a) => a.Length0
  }

  function Cols(m: Mask): int
  {
    match m
    case Flat(a) => a.Length1
    case Layered(a) => a.Length1
  }

  /** The result of one `_generate_new_color(existed_color)` call: the new
      colour and the new set of existing colours. */
  datatype Allocation = Allocation(color: Rgb, existed: set<Rgb>)

  /** What `_generate_new_color` is expected to guarantee (its body is not
      part of this model): a nonzero colour not allocated before, added to
      the set. */
  predicate FreshAllocation(existed: set<Rgb>, a: Allocation)
  {
    a.color != Black && a.color !in existed && a.existed == existed + {a.color}
  }

  /** What `_canvas_append` gives back: the canvas alone (no mask), the
      pair (canvas, mask), nothing at all (the pixel format in label mode
      has no return statement), or the failed format assertion. */
  datatype Appended = CanvasOnly | CanvasAndMask(mask: Mask) | NoneReturned | AssertionFailed

  /** What a placement search gives back: (canvas, mask), or the exception
      it raises. The canvas is always the caller's array, updated in place. */
  datatype Placement = Returned(mask: Mask) | Raised(error: PyError)

  /** `canvas, mask = self._canvas_append(...)` in the placement searches:
      unpacking None raises a TypeError. */
  function Unpack(r: Appended): (p: Placement)
    requires !r.CanvasOnly?
    ensures p.Returned? <==> r.CanvasAndMask?
    ensures r.NoneReturned? ==> p == Raised(TypeError)
    ensures r.AssertionFailed? ==> p == Raised(AssertionError)
  {
    match r
    case CanvasAndMask(m) => Returned(m)
    case NoneReturned => Raised(TypeError)
    case AssertionFailed => Raised(AssertionError)
  }

  /** The mask array that holds the result of a call: the returned one, or
      the caller's own when nothing is returned. */
  function Holder(r: Appended, m: Mask): Mask
  {
    if r.CanvasAndMask? then r.mask else m
  }

  /** The value of the colour registry after one compositor call: only a
      COCO write in label mode records its colour. */
  predicate RegistryAfter(e0: set<Rgb>, d0: map<Rgb, int>, e1: set<Rgb>, d1: map<Rgb, int>,
                          ml: MaskLabel, mode: Mode, format: Format, alloc: Allocation)
  {
    if format == Coco && mode == LabelMode && ml.Scalar? then e1 == alloc.existed && d1 == d0[alloc.color := ml.v]
    else e1 == e0 && d1 == d0
  }

  /** Recording a fresh colour keeps the registry consistent (every key an
      allocated, nonzero colour), adds exactly one entry, maps the new
      colour to its label and keeps every earlier entry: after N such
      writes there are N distinct colours, each with its label. */
  lemma RecordFreshColor(e0: set<Rgb>, d0: map<Rgb, int>, alloc: Allocation, labelId: int)
    requires d0.Keys <= e0 && Black !in e0
    requires FreshAllocation(e0, alloc)
    ensures var d1 := d0[alloc.color := labelId];
      && d1.Keys <= alloc.existed && Black !in alloc.existed
      && |d1| == |d0| + 1
      && d1[alloc.color] == labelId
      && forall c :: c in d0 ==> c in d1 && d1[c] == d0[c]
  {
    var d1 := d0[alloc.color := labelId];
    assert alloc.color !in d0.Keys;
    assert d1.Keys == d0.Keys + {alloc.color};
  }

  /** `np.stack((mask, zeros, zeros, zeros), axis=-1)`: a new 4-channel
      array; the 2-D mask itself is left as it was. */
  method PromoteMask(a: array2<int>) returns (b: array2<InstanceCell>)
    ensures fresh(b) && b.Length0 == a.Length0 && b.Length1 == a.Length1
    ensures Cells(b) == Promote(Cells(a))
  {
    b := new InstanceCell[a.Length0, a.Length1]((i, j) reads a requires 0 <= i < a.Length0 && 0 <= j < a.Length1 =>
      InstanceCell(a[i, j], Black));
    GridsEqual(Cells(b), Promote(Cells(a)));
  }

  /** A positive integer. */
  type Positive = k: int | 0 < k witness 1

  /** The top-left corner of the sprite can lie anywhere in [0, outer]. */
  function OuterBound(canvas: array2<Rgb>, img: Sprite): Point
  {
    Point(canvas.Length0 - |img|, canvas.Length1 - Width(img))
  }

  class Inserter {
    /** `_scanning_constant`: the margin of the initial draw and the bound
        of each walk step. */
    const scanningConstant: Positive
    /** The modulus of the mask's element type (the mask's dtype is chosen
        where the generator allocates it). */
    const maskModulus: Modulus
    /** `existed_color`: the colours handed out so far. */
    var existedColor: set<Rgb>
    /** `color_dict`: colour -> label. The source keys it by
        `str(tuple(color))`, an injective encoding of the colour. */
    var colorDict: map<Rgb, int>

    /** The generator's initialisation of these fields. */
    constructor (scanningConstant: Positive, maskModulus: Modulus)
      ensures this.scanningConstant == scanningConstant && this.maskModulus == maskModulus
      ensures existedColor == {} && colorDict == map[] && RegistryValid()
    {
      this.scanningConstant := scanningConstant;
      this.maskModulus := maskModulus;
      existedColor := {};
      colorDict := map[];
    }

    /** Every recorded colour was allocated and none is Black. */
    predicate RegistryValid()
      reads this
    {
      colorDict.Keys <= existedColor && Black !in existedColor
    }

    /** `np.random.randint(low=k, high=outer - k)` can be drawn on both
        axes (numpy raises a ValueError when low >= high). */
    predicate Drawable(outer: Point)
    {
      scanningConstant < outer.row - scanningConstant && scanningConstant < outer.col - scanningConstant
    }

    /** The initial draw lies in [k, outer - k) on both axes. */
    predicate StartDrawn(start: Point, outer: Point)
    {
      scanningConstant <= start.row < outer.row - scanningConstant &&
      scanningConstant <= start.col < outer.col - scanningConstant
    }

    /** Each walk offset lies in [-k, k) on both axes. */
    predicate StepsDrawn(steps: seq<Point>)
    {
      forall t :: 0 <= t < |steps| ==>
        -(scanningConstant as int) <= steps[t].row < scanningConstant && -(scanningConstant as int) <= steps[t].col < scanningConstant
    }

    /** `_canvas_append`: write img into the window at (p, q). */
    method CanvasAppend(canvas: array2<Rgb>, p: int, q: int, img: Sprite, alloc: Allocation,
                        mask: Option<Mask> := None, maskLabel: MaskLabel,
                        mode: Mode := LabelMode, format: Format := Pixel)
      returns (r: Appended)
      requires IsRect(img)
      requires 0 <= p && p + |img| <= canvas.Length0 && 0 <= q && q + Width(img) <= canvas.Length1
      requires mask.Some? ==> Rows(mask.value) == canvas.Length0 && Cols(mask.value) == canvas.Length1
      requires mask.Some? && format != Unsupported ==>
        MaskArgsFit(mask.value.Flat?, maskLabel, mode, format, |img|, Width(img))
      modifies this, canvas, OptionObjects(mask)
      // `assert format in ["pixel", "COCO"]` fails before anything is written
      ensures format == Unsupported ==>
        r == AssertionFailed && unchanged(this, canvas) && unchanged(OptionObjects(mask))
      // no mask: only empty canvas channels receive the sprite
      ensures format != Unsupported && mask.None? ==>
        r == CanvasOnly && Cells(canvas) == FillGaps(old(Cells(canvas)), p, q, img) && unchanged(this)
      // with a mask: the canvas window gains the sprite, the mask the label or pattern
      ensures format != Unsupported && mask.Some? ==>
        && Cells(canvas) == AddSprite(old(Cells(canvas)), p, q, img)
        && View(Holder(r, mask.value))
           == MaskWrite(old(View(mask.value)), p, q, img, maskLabel, mode, format, alloc.color, maskModulus)
        && RegistryAfter(old(existedColor), old(colorDict), existedColor, colorDict, maskLabel, mode, format, alloc)
      ensures format == Pixel && mask.Some? ==>
        r == if mode == LabelMode then NoneReturned else CanvasAndMask(mask.value)
      ensures format == Coco && mask.Some? && mask.value.Layered? ==> r == CanvasAndMask(mask.value)
      ensures format == Coco && mask.Some? && mask.value.Flat? ==>
        r.CanvasAndMask? && r.mask.Layered? && fresh(r.mask.layered) && unchanged(mask.value.flat)
      // a consistent registry stays consistent when label-mode COCO writes get fresh colours
      ensures old(RegistryValid()) && (format == Coco && mode == LabelMode ==> FreshAllocation(old(existedColor), alloc)) ==>
        RegistryValid()
    {
      if format == Unsupported {
        r := AssertionFailed;
        return;
      }
      if mask.None? {
        UpdateWindow(canvas, p, q, |img|, Width(img), GapFiller(img));
        r := CanvasOnly;
        return;
      }
      var m := mask.value;
      if format == Pixel {
        UpdateWindow(canvas, p, q, |img|, Width(img), SpriteAdder(img));
        WriteFlatMask(m.flat, p, q, img, maskLabel, mode, alloc.color);
        // in label mode this path reaches the end of the method without a return statement
        r := if mode == LabelMode then NoneReturned else CanvasAndMask(m);
      } else {
        ghost var v0 := View(m);
        if mode == LabelMode {
          RecordColor(alloc, maskLabel.v);
        }
        var layers: array2<InstanceCell>;
        if m.Flat? {
          layers := PromoteMask(m.flat);
        } else {
          layers := m.layered;
        }
        UpdateWindow(canvas, p, q, |img|, Width(img), SpriteAdder(img));
        ghost var base := Cells(layers);
        WriteLayeredMask(layers, p, q, img, maskLabel, mode, alloc.color);
        assert MaskWrite(v0, p, q, img, maskLabel, mode, format, alloc.color, maskModulus)
            == MaskWrite(LayeredCells(base), p, q, img, maskLabel, mode, format, alloc.color, maskModulus);
        r := CanvasAndMask(Layered(layers));
      }
    }

    /** The pixel-format mask write of `_canvas_append`: the label under the
        footprint, or the pattern over the window. */
    method WriteFlatMask(a: array2<int>, p: int, q: int, img: Sprite, maskLabel: MaskLabel, mode: Mode, color: Rgb)
      requires 0 <= p && p + |img| <= a.Length0 && 0 <= q && q + Width(img) <= a.Length1
      requires MaskArgsFit(true, maskLabel, mode, Pixel, |img|, Width(img))
      modifies a
      ensures FlatCells(Cells(a)) == MaskWrite(FlatCells(old(Cells(a))), p, q, img, maskLabel, mode, Pixel, color, maskModulus)
    {
      if mode == LabelMode {
        UpdateWindow(a, p, q, |img|, Width(img), LabelAdder(img, maskLabel.v, maskModulus));
      } else {
        UpdateWindow(a, p, q, |img|, Width(img), PatternAdder(maskLabel, maskModulus));
      }
    }

    /** The COCO-format mask write of `_canvas_append` on the 4-channel
        array: label and instance colour under the footprint, or the
        pattern over the window. */
    method WriteLayeredMask(a: array2<InstanceCell>, p: int, q: int, img: Sprite, maskLabel: MaskLabel, mode: Mode,
                            color: Rgb)
      requires 0 <= p && p + |img| <= a.Length0 && 0 <= q && q + Width(img) <= a.Length1
      requires MaskArgsFit(false, maskLabel, mode, Coco, |img|, Width(img))
      modifies a
      ensures LayeredCells(Cells(a))
           == MaskWrite(LayeredCells(old(Cells(a))), p, q, img, maskLabel, mode, Coco, color, maskModulus)
    {
      if mode == LabelMode {
        UpdateWindow(a, p, q, |img|, Width(img), InstanceAdder(img, maskLabel.v, color, maskModulus));
      } else {
        UpdateWindow(a, p, q, |img|, Width(img), CellPatternAdder(maskLabel, maskModulus));
      }
    }

    /** `self.existed_color` replaced by the set returned with the new
        colour, and `color_dict[color] = label`: the registry records the
        allocated colour; a consistent registry stays consistent when the
        colour is fresh. */
    method RecordColor(alloc: Allocation, labelId: int)
      modifies this
      ensures existedColor == alloc.existed && colorDict == old(colorDict)[alloc.color := labelId]
      ensures old(RegistryValid()) && FreshAllocation(old(existedColor), alloc) ==> RegistryValid()
    {
      if RegistryValid() && FreshAllocation(existedColor, alloc) {
        RecordFreshColor(existedColor, colorDict, alloc, labelId);
      }
      existedColor := alloc.existed;
      colorDict := colorDict[alloc.color := labelId];
    }

    /** `_init_insert`: append at the initial draw, without an overlap test. */
    method InitInsert(img: Sprite, canvas: array2<Rgb>, mask: Mask, labelArg: MaskLabel, start: Point,
                      alloc: Allocation, mode: Mode := PatternMode, format: Format := Pixel)
      returns (res: Placement)
      requires IsRect(img)
      requires Rows(mask) == canvas.Length0 && Cols(mask) == canvas.Length1
      requires format != Unsupported ==> MaskArgsFit(mask.Flat?, labelArg, mode, format, |img|, Width(img))
      requires Drawable(OuterBound(canvas, img)) ==> StartDrawn(start, OuterBound(canvas, img))
      modifies this, canvas, MaskObjects(mask)
      ensures !Drawable(OuterBound(canvas, img)) || format == Unsupported ==>
        unchanged(this, canvas) && unchanged(MaskObjects(mask)) &&
        res == Raised(if !Drawable(OuterBound(canvas, img)) then ValueError else AssertionError)
      ensures Drawable(OuterBound(canvas, img)) && format != Unsupported ==>
        && Cells(canvas) == AddSprite(old(Cells(canvas)), start.row, start.col, img)
        && View(if res.Returned? then res.mask else mask)
           == MaskWrite(old(View(mask)), start.row, start.col, img, labelArg, mode, format, alloc.color, maskModulus)
        && RegistryAfter(old(existedColor), old(colorDict), existedColor, colorDict, labelArg, mode, format, alloc)
        && (res.Raised? <==> format == Pixel && mode == LabelMode)
        && (res.Raised? ==> res.error == TypeError)
      // which array holds the mask afterwards
      ensures Drawable(OuterBound(canvas, img)) && ((format == Pixel && mode == PatternMode) || (format == Coco && mask.Layered?)) ==>
        res == Returned(mask)
      ensures Drawable(OuterBound(canvas, img)) && format == Coco && mask.Flat? ==>
        res.Returned? && res.mask.Layered? && fresh(res.mask.layered) && unchanged(mask.flat)
      // a consistent registry stays consistent when label-mode COCO writes get fresh colours
      ensures old(RegistryValid()) && (format == Coco && mode == LabelMode ==> FreshAllocation(old(existedColor), alloc)) ==>
        RegistryValid()
    {
      var outer := OuterBound(canvas, img);
      if !Drawable(outer) {
        return Raised(ValueError);
      }
      var r := CanvasAppend(canvas, start.row, start.col, img, alloc, Some(mask), labelArg, mode, format);
      res := Unpack(r);
    }

    /** `_secondary_insert`: walk from the initial draw and append at the
        first candidate whose window does not overlap; drop the sprite once
        `patience` candidates have overlapped. */
    method SecondaryInsert(img: Sprite, canvas: array2<Rgb>, mask: Mask, labelArg: MaskLabel, patience: int,
                           start: Point, steps: seq<Point>, alloc: Allocation,
                           mode: Mode := LabelMode, format: Format := Pixel)
      returns (res: Placement, ghost at: Option<Point>)
      requires IsRect(img)
      requires Rows(mask) == canvas.Length0 && Cols(mask) == canvas.Length1
      requires format == Pixel <==> mask.Flat?
      requires format != Unsupported ==> MaskArgsFit(mask.Flat?, labelArg, mode, format, |img|, Width(img))
      requires Drawable(OuterBound(canvas, img)) ==> StartDrawn(start, OuterBound(canvas, img))
      requires patience <= |steps| && StepsDrawn(steps)
      modifies this, canvas, MaskObjects(mask)
      ensures !Drawable(OuterBound(canvas, img)) ==> at.None? && res == Raised(ValueError)
      ensures Drawable(OuterBound(canvas, img)) ==>
        at == SecondaryFrom(old(View(mask)), img, start, steps, OuterBound(canvas, img), 0, patience)
      ensures at.Some? ==>
        InBounds(at.value, OuterBound(canvas, img)) && !Overlaps(old(View(mask)), at.value.row, at.value.col, img)
      ensures at.None? || format == Unsupported ==> unchanged(this, canvas) && unchanged(MaskObjects(mask))
      ensures at.None? && Drawable(OuterBound(canvas, img)) ==> res == Returned(mask)
      ensures at.Some? && format == Unsupported ==> res == Raised(AssertionError)
      ensures at.Some? && format != Unsupported ==>
        && Cells(canvas) == AddSprite(old(Cells(canvas)), at.value.row, at.value.col, img)
        && View(mask) == MaskWrite(old(View(mask)), at.value.row, at.value.col, img, labelArg, mode, format,
                                   alloc.color, maskModulus)
        && RegistryAfter(old(existedColor), old(colorDict), existedColor, colorDict, labelArg, mode, format, alloc)
        && res == if format == Pixel && mode == LabelMode then Raised(TypeError) else Returned(mask)
      // a consistent registry stays consistent when label-mode COCO writes get fresh colours
      ensures old(RegistryValid()) && (format == Coco && mode == LabelMode ==> FreshAllocation(old(existedColor), alloc)) ==>
        RegistryValid()
    {
      var outer := OuterBound(canvas, img);
      at := None;
      if !Drawable(outer) {
        return Raised(ValueError), None;
      }
      ghost var v0 := View(mask);
      var point := start;
      var retry := 0;
      res := Returned(mask);
      while retry < patience
        invariant 0 <= retry && (retry == 0 || retry <= patience)
        invariant SecondaryFrom(v0, img, point, steps, outer, retry, patience)
               == SecondaryFrom(v0, img, start, steps, outer, 0, patience)
        invariant unchanged(this, canvas) && unchanged(MaskObjects(mask))
        decreases patience - retry
      {
        var next := Step(point, steps[retry], outer);
        if Overlaps(View(mask), next.row, next.col, img) {
          point := next;
          retry := retry + 1;
          continue;
        }
        var r := CanvasAppend(canvas, next.row, next.col, img, alloc, Some(mask), labelArg, mode, format);
        res := Unpack(r);
        at := Some(next);
        break;
      }
      SecondaryPicksFreePoint(v0, img, start, steps, outer, 0, patience);
    }

    /** `_try_insert`: the escape-or-seek walk. An initial draw that
        overlaps walks until it escapes and appends there; a free one walks
        until it meets occupied space and appends at the last free point. */
    method TryInsert(img: Sprite, canvas: array2<Rgb>, mask: Mask, labelArg: MaskLabel, patience: int,
                     start: Point, steps: seq<Point>, alloc: Allocation,
                     mode: Mode := LabelMode, format: Format := Pixel)
      returns (res: Placement, ghost at: Option<Point>)
      requires IsRect(img)
      requires Rows(mask) == canvas.Length0 && Cols(mask) == canvas.Length1
      requires format == Pixel <==> mask.Flat?
      requires format != Unsupported ==> MaskArgsFit(mask.Flat?, labelArg, mode, format, |img|, Width(img))
      requires Drawable(OuterBound(canvas, img)) ==> StartDrawn(start, OuterBound(canvas, img))
      requires patience <= |steps| && StepsDrawn(steps)
      modifies this, canvas, MaskObjects(mask)
      ensures !Drawable(OuterBound(canvas, img)) ==> at.None? && res == Raised(ValueError)
      ensures Drawable(OuterBound(canvas, img)) ==>
        var v0 := old(View(mask));
        at == TryFrom(v0, img, Overlaps(v0, start.row, start.col, img), start, start, steps,
                      OuterBound(canvas, img), 0, patience)
      ensures at.Some? ==>
        InBounds(at.value, OuterBound(canvas, img)) && !Overlaps(old(View(mask)), at.value.row, at.value.col, img)
      ensures at.None? || format == Unsupported ==> unchanged(this, canvas) && unchanged(MaskObjects(mask))
      ensures at.None? && Drawable(OuterBound(canvas, img)) ==> res == Returned(mask)
      ensures at.Some? && format == Unsupported ==> res == Raised(AssertionError)
      ensures at.Some? && format != Unsupported ==>
        && Cells(canvas) == AddSprite(old(Cells(canvas)), at.value.row, at.value.col, img)
        && View(mask) == MaskWrite(old(View(mask)), at.value.row, at.value.col, img, labelArg, mode, format,
                                   alloc.color, maskModulus)
        && RegistryAfter(old(existedColor), old(colorDict), existedColor, colorDict, labelArg, mode, format, alloc)
        && res == if format == Pixel && mode == LabelMode then Raised(TypeError) else Returned(mask)
      // a consistent registry stays consistent when label-mode COCO writes get fresh colours
      ensures old(RegistryValid()) && (format == Coco && mode == LabelMode ==> FreshAllocation(old(existedColor), alloc)) ==>
        RegistryValid()
    {
      var outer := OuterBound(canvas, img);
      at := None;
      if !Drawable(outer) {
        return Raised(ValueError), None;
      }
      ghost var v0 := View(mask);
      var point := start;
      var initOverlapped := Overlaps(View(mask), point.row, point.col, img);
      var lastPoint := point;
      var retry := 0;
      res := Returned(mask);
      while retry < patience
        invariant 0 <= retry && (retry == 0 || retry <= patience)
        invariant InBounds(lastPoint, outer)
        invariant !initOverlapped ==> !Overlaps(v0, lastPoint.row, lastPoint.col, img)
        invariant TryFrom(v0, img, initOverlapped, point, lastPoint, steps, outer, retry, patience)
               == TryFrom(v0, img, initOverlapped, start, start, steps, outer, 0, patience)
        invariant unchanged(this, canvas) && unchanged(MaskObjects(mask))
        decreases patience - retry
      {
        var next := Step(point, steps[retry], outer);
        var overlap := Overlaps(View(mask), next.row, next.col, img);
        if overlap && initOverlapped {
          // still escaping
          point := next;
          retry := retry + 1;
          continue;
        } else if !overlap && initOverlapped {
          // escaped: append here
          var r := CanvasAppend(canvas, next.row, next.col, img, alloc, Some(mask), labelArg, mode, format);
          res := Unpack(r);
          at := Some(next);
          break;
        } else if !overlap && !initOverlapped {
          // still free: remember this point and keep seeking
          point := next;
          lastPoint := next;
          retry := retry + 1;
          continue;
        } else {
          // found occupied space: back off to the last free point
          var r := CanvasAppend(canvas, lastPoint.row, lastPoint.col, img, alloc, Some(mask), labelArg, mode, format);
          res := Unpack(r);
          at := Some(lastPoint);
          break;
        }
      }
      TryPicksFreePoint(v0, img, initOverlapped, start, start, steps, outer, 0, patience);
    }
  }
}
