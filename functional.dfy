/** The label and image bookkeeping of the generator: the list of label
    names, the name -> id dictionary (ids 1..n in list order), one image
    bucket per label, the largest component size seen, the per-image
    "used" flags, and the size preview that pastes one image onto a blank
    canvas.

    Image reading, resizing and the interactive size confirmation are
    outside this model: `AddImage` starts from an already-resized image and
    its final size. */
module Functional {
  import opened Raster
  import opened Blit
  import opened Insertion

  /** A pair of extents along array axes 0 and 1. */
  datatype Extent = Extent(d0: int, d1: int)

  /** The preview canvas colour: every channel 255. */
  const White := Rgb(255, 255, 255)

  /** No name occurs twice. */
  predicate Distinct(s: seq<string>)
  {
    forall i, j :: 0 <= i < j < |s| ==> s[i] != s[j]
  }

  /** `dict(zip(labels, range(1, len(labels) + 1)))`: each name maps to
      its 1-based position, a later duplicate overriding an earlier one. */
  function LabelIds(labels: seq<string>): (r: map<string, int>)
    ensures forall i :: 0 <= i < |labels| ==> labels[i] in r
    ensures forall l :: l in r ==> 1 <= r[l] <= |labels|
  {
    if |labels| == 0 then map[]
    else
      var init := labels[..|labels| - 1];
      assert labels == init + [labels[|labels| - 1]];
      LabelIds(init)[labels[|labels| - 1] := |labels|]
  }

  /** With distinct names, the dictionary holds exactly the listed names,
      the i-th (0-based) name has id i + 1, so the ids are exactly 1..n and
      pairwise distinct. */
  lemma {:induction false} LabelIdsNumbering(labels: seq<string>)
    requires Distinct(labels)
    ensures LabelIds(labels).Keys == set l | l in labels
    ensures forall i :: 0 <= i < |labels| ==> LabelIds(labels)[labels[i]] == i + 1
  {
    if |labels| > 0 {
      var init := labels[..|labels| - 1];
      assert Distinct(init);
      LabelIdsNumbering(init);
      forall i | 0 <= i < |labels|
        ensures LabelIds(labels)[labels[i]] == i + 1
      {
        if i < |labels| - 1 {
          assert labels[i] == init[i];
        }
      }
      assert labels == init + [labels[|labels| - 1]];
    }
  }

  /** A registered name's id, minus one, is its position in the list. */
  lemma LabelIdLocatesName(labels: seq<string>, name: string)
    requires Distinct(labels) && name in labels
    ensures name in LabelIds(labels)
    ensures var b := LabelIds(labels)[name] - 1; 0 <= b < |labels| && labels[b] == name
  {
    var k :| 0 <= k < |labels| && labels[k] == name;
    LabelIdsNumbering(labels);
    assert LabelIds(labels)[labels[k]] == k + 1;
  }

  /** Appending a new name keeps every existing id and gives the new name
      the next id. */
  lemma AppendedLabelId(labels: seq<string>, name: string)
    requires Distinct(labels) && name !in labels
    ensures Distinct(labels + [name])
    ensures LabelIds(labels + [name]) == LabelIds(labels)[name := |labels| + 1]
    ensures forall l :: l in LabelIds(labels) ==> LabelIds(labels + [name])[l] == LabelIds(labels)[l]
  {
    var s := labels + [name];
    forall i, j | 0 <= i < j < |s|
      ensures s[i] != s[j]
    {
      assert s[i] == labels[i];
      if j < |labels| {
        assert s[j] == labels[j];
      }
    }
    assert s[..|labels|] == labels;
    LabelIdsNumbering(labels);
  }

  /** `np.max(np.vstack((a, b)), axis=0)`: the larger extent along each axis. */
  function ElementwiseMax(a: Extent, b: Extent): (r: Extent)
    ensures a.d0 <= r.d0 && b.d0 <= r.d0 && (r.d0 == a.d0 || r.d0 == b.d0)
    ensures a.d1 <= r.d1 && b.d1 <= r.d1 && (r.d1 == a.d1 || r.d1 == b.d1)
  {
    Extent(if a.d0 < b.d0 then b.d0 else a.d0, if a.d1 < b.d1 then b.d1 else a.d1)
  }

  /** The largest component size after images of the given sizes were
      added, one after another, starting from `init`. */
  function MaxAfter(init: Extent, sizes: seq<Extent>): Extent
  {
    if |sizes| == 0 then init else ElementwiseMax(MaxAfter(init, sizes[..|sizes| - 1]), sizes[|sizes| - 1])
  }

  /** The recorded maximum never decreases and covers every size added. */
  lemma {:induction false} MaxAfterCoversAll(init: Extent, sizes: seq<Extent>)
    ensures var r := MaxAfter(init, sizes);
      init.d0 <= r.d0 && init.d1 <= r.d1 &&
      forall k :: 0 <= k < |sizes| ==> sizes[k].d0 <= r.d0 && sizes[k].d1 <= r.d1
  {
    if |sizes| > 0 {
      var prefix := sizes[..|sizes| - 1];
      MaxAfterCoversAll(init, prefix);
      forall k | 0 <= k < |sizes| - 1
        ensures sizes[k] == prefix[k]
      {
      }
    }
  }

  /** `[np.zeros(len(i)) for i in image_list]`: one zero flag per image,
      bucket by bucket. */
  function ZeroFlags(buckets: seq<seq<Sprite>>): (r: seq<seq<int>>)
    ensures |r| == |buckets|
    ensures forall i :: 0 <= i < |r| ==> |r[i]| == |buckets[i]|
    ensures forall i, j :: 0 <= i < |r| && 0 <= j < |r[i]| ==> r[i][j] == 0
  {
    seq(|buckets|, i requires 0 <= i < |buckets| => seq(|buckets[i]|, _ => 0))
  }

  class Library {
    /** `_label_list`: the label names in order of registration. */
    var labelList: seq<string>
    /** `_label_dict`: label name -> 1-based id. */
    var labelDict: map<string, int>
    /** `_image_list`: one bucket of images per label, in label order. */
    var imageList: seq<seq<Sprite>>
    /** `_max_component_size`: the largest image size along each axis. */
    var maxComponentSize: Extent
    /** `_image_list_used`: a flag per image, 1 once the image was used. */
    var imageListUsed: seq<seq<int>>
    /** `_canvas_size`: the collage size (rows, columns). */
    const canvasSize: Extent
    /** The insertion half of the same generator object. */
    const engine: Inserter

    /** An empty library (the generator's initialisation of these fields). */
    constructor (canvasSize: Extent, engine: Inserter, maxComponentSize: Extent)
      ensures Valid() && labelList == [] && imageList == [] && imageListUsed == []
      ensures this.canvasSize == canvasSize && this.engine == engine && this.maxComponentSize == maxComponentSize
    {
      labelList := [];
      labelDict := map[];
      imageList := [];
      imageListUsed := [];
      this.maxComponentSize := maxComponentSize;
      this.canvasSize := canvasSize;
      this.engine := engine;
    }

    /** Labels are unique, each has exactly one bucket, and the dictionary
        numbers them 1..n in order. */
    ghost predicate Valid()
      reads this
    {
      Distinct(labelList) && |imageList| == |labelList| && labelDict == LabelIds(labelList)
    }

    /** `add_label`: a known name changes nothing; a new name is appended
        with the next id and an empty bucket. */
    method AddLabel(newLabel: string)
      requires Valid()
      modifies this
      ensures Valid()
      ensures newLabel in old(labelList) ==> unchanged(this)
      ensures newLabel !in old(labelList) ==>
        && labelList == old(labelList) + [newLabel]
        && imageList == old(imageList) + [[]]
        && labelDict == old(labelDict)[newLabel := |labelList|]
        && maxComponentSize == old(maxComponentSize) && imageListUsed == old(imageListUsed)
    {
      if newLabel in labelList {
        return;
      }
      AppendedLabelId(labelList, newLabel);
      labelList := labelList + [newLabel];
      labelDict := LabelIds(labelList);
      imageList := imageList + [[]];
    }

    /** The bookkeeping of `add_image` for an image already brought to
        `size`: the label must be registered (an AssertionError otherwise,
        with nothing changed); the image joins its label's bucket, the
        largest size is updated and every used flag is reset. */
    method AddImage(img: Sprite, labelName: string, size: Extent) returns (raised: Option<PyError>)
      requires Valid()
      modifies this
      ensures Valid()
      ensures labelName !in old(labelList) ==> raised == Some(AssertionError) && unchanged(this)
      ensures labelName in old(labelList) ==>
        && raised == None
        && labelList == old(labelList) && labelDict == old(labelDict)
        && labelName in labelDict
        && var b := labelDict[labelName] - 1;
           && 0 <= b < |imageList| && labelList[b] == labelName
           && |imageList| == old(|imageList|)
           && imageList[b] == old(imageList[b]) + [img]
           && (forall k :: 0 <= k < |imageList| && k != b ==> imageList[k] == old(imageList[k]))
           && maxComponentSize == ElementwiseMax(old(maxComponentSize), size)
           && imageListUsed == ZeroFlags(imageList)
    {
      if labelName !in labelList {
        return Some(AssertionError);
      }
      LabelIdLocatesName(labelList, labelName);
      var b := labelDict[labelName] - 1;
      ghost var before := imageList;
      imageList := imageList[b := imageList[b] + [img]];
      assert forall k :: 0 <= k < |imageList| && k != b ==> imageList[k] == before[k];
      maxComponentSize := ElementwiseMax(maxComponentSize, size);
      imageListUsed := ZeroFlags(imageList);
      raised := None;
    }

    /** `_single_image_preview`: paste the image at (0, 0) of a canvas of
        `self._canvas_size` filled with 255. The `canvasSizeArg` parameter
        is accepted and ignored, as in the source. Since no canvas channel
        is 0, the no-mask append adds nothing: the preview is all White. */
    method SingleImagePreview(img: Sprite, canvasSizeArg: Extent := Extent(1, 1)) returns (canvas: array2<Rgb>)
      requires IsRect(img) && |img| <= canvasSize.d0 && Width(img) <= canvasSize.d1
      modifies engine
      ensures fresh(canvas) && canvas.Length0 == canvasSize.d0 && canvas.Length1 == canvasSize.d1
      ensures forall i, j :: 0 <= i < canvas.Length0 && 0 <= j < canvas.Length1 ==> canvas[i, j] == White
      ensures unchanged(engine)
    {
      canvas := new Rgb[canvasSize.d0, canvasSize.d1]((i, j) => White);
      ghost var blank := Cells(canvas);
      FillGapsOnPaintedCanvas(blank, 0, 0, img);
      // without a mask neither the mask label nor the colour allocation is read
      var _ := engine.CanvasAppend(canvas, 0, 0, img, Allocation(Black, {}), maskLabel := Scalar(0));
    }
  }
}
