# Collage generator core in Dafny

This project models the placement-and-compositing engine of the collage
generator that builds synthetic, annotated pathology training images. The
engine pastes pre-cropped sprites (small RGB images with a zero background)
onto a canvas. It also keeps an aligned mask, which is either a pixel mask
(one label id per cell) or a COCO mask (channel 0 holds the label id and
channels 1-3 a colour per instance). Three pieces around the engine are
modelled too: the label registry, the size preview, and the array utilities.

Modules, in dependency order:

- `Raster` (raster.dfy): pixels, grids, and `UpdateWindow`. That method
  rewrites a rectangular window of a 2-D array in place, cell by cell. It is
  the in-place `np.add(..., out=window, casting="unsafe")` on which every
  write of the compositor is built.
- `Blit` (blit.dfy): what one compositor call does to the canvas and the
  mask, stated as functions on values. It covers the wrap-around additions
  (mod 256 on the canvas, mod a mask modulus on the mask), the footprint
  (`np.any(img, axis=2)`), the promotion of a pixel mask to a COCO mask, and
  the overlap test used by the searches.
- `Walk` (walk.dfy): the bounded random walks of `_secondary_insert` and
  `_try_insert`, as pure functions of the drawn start point and offsets,
  with the lemmas about where they place.
- `Insertion` (insertion.dfy): `class Inserter`, holding the colour registry
  (`existed_color`, `color_dict`) and the scanning constant. Its methods
  `CanvasAppend`, `InitInsert`, `SecondaryInsert` and `TryInsert` mutate the
  caller's canvas and mask arrays. Each is proved against the `Blit` and
  `Walk` functions.
- `Functional` (functional.dfy): `class Library`, with the label list, the
  label dictionary, the image buckets, the largest component size and the
  used flags. It holds `add_label`, the bookkeeping of `add_image`, and
  `_single_image_preview`.
- `Utils` (utils.dfy): `crop_image`, `extract_binary_mask`, and
  the masking step of `extract_image`, as pure functions.

Behaviours of the source that the model keeps as written:

- In the pixel format and label mode, `_canvas_append` updates the canvas and
  the mask and then returns nothing. The placement searches unpack that
  result, so they raise a `TypeError` after the write has already happened
  (`Raised(TypeError)`, with the write stated in the ensures).
- Any `mode` other than "label" takes the pattern branch.
- A format other than "pixel" or "COCO" fails the assertion before anything
  is written.
- In COCO format a pixel mask is replaced by a new 4-channel array. The
  caller's 2-D array is left unchanged, and the new array is returned.
- `_single_image_preview` ignores its `canvas_size` argument. It always uses
  the generator's own canvas size.
- `crop_image` slices with exclusive ends, so it drops the last inked row and
  column (see Findings).

## Model

| member | source | states |
|---|---|---|
| Raster.UpdateWindow | Collage_generator/_insertion.py:58-61 | the in-place window write: each cell of the h x w window at (p, q) becomes f of its old value, and every other cell of the array keeps its value |
| Blit.FillGaps | Collage_generator/_insertion.py:43-51 | with no mask, a canvas channel in the window receives the sprite's channel (mod 256) only if it was exactly 0; nonzero channels and everything outside the window are unchanged; the shape is kept |
| Blit.AddSprite | Collage_generator/_insertion.py:58-61 | the unsafe-cast add into the window keeps a uint8 canvas uint8, whatever the sprite holds |
| Blit.Promote | Collage_generator/_insertion.py:87 | stacking three zero layers keeps the mask's height and width, and keeps its values in the element range |
| Blit.MaskWrite | Collage_generator/_insertion.py:56-113 | the mask written by the compositor is a pixel mask exactly in the pixel format (a COCO mask otherwise), and every cell outside the sprite's window keeps its label |
| Blit.Overlaps | Collage_generator/_insertion.py:205-214 | the overlap test can only succeed for a sprite with at least one row and one column; what the test means for a placement is stated by `Blit.NoOverlapWithoutInkOrLabel`, `Blit.OverlapReadsChannel0` and `Blit.FreeLabelWriteIsDisjoint` |
| Blit.NoOverlapWithoutInkOrLabel | Collage_generator/_insertion.py:205-214 | an overlap needs a footprint cell over a labelled cell: a sprite with no foreground, or a mask with no label, never overlaps |
| Blit.OverlapReadsChannel0 | Collage_generator/_insertion.py:205-214 | in COCO format the overlap test answers exactly as on the pixel mask held in channel 0 |
| Blit.FillGapsOnPaintedCanvas | Collage_generator/_insertion.py:45-49 | a canvas with no zero channel is left exactly as it was by the no-mask append |
| Blit.LabelWriteFollowsFootprint | Collage_generator/_insertion.py:63-68 | pixel format, label mode: a mask cell gains the label (mod m) iff it is in the window under the sprite's footprint; every other cell is unchanged |
| Blit.FreeLabelWriteIsDisjoint | Collage_generator/_insertion.py:214-225 | at a point the overlap test accepts, every footprint cell becomes exactly the label and every already-labelled cell keeps its label |
| Blit.PatternWriteIgnoresFootprint | Collage_generator/_insertion.py:69-75 | pattern mode adds the pattern to the whole window with no footprint filter: the mask write depends only on the sprite's size |
| Blit.AddSpriteOntoEmpty | Collage_generator/_insertion.py:58-61 | adding a byte-valued sprite into an all-zero window copies it exactly; cells outside the window are unchanged |
| Blit.AddSpriteTwiceDoubles | Collage_generator/_insertion.py:58-61 | the canvas write accumulates: the same sprite added twice to an empty window gives twice each channel mod 256 |
| Blit.AddSpriteNotIdempotent | Collage_generator/_insertion.py:58-61 | a second identical write onto a window holding a foreground pixel changes the canvas |
| Blit.PromoteKeepsChannel0 | Collage_generator/_insertion.py:84-87 | promotion to 4 channels keeps the old mask as channel 0 and sets channels 1-3 to zero |
| Blit.CocoChannel0IsPixelWrite | Collage_generator/_insertion.py:84-96 | COCO label write: channel 0 becomes exactly the pixel-format label write of the old channel 0, whether or not the mask was promoted first |
| Blit.InstanceColorFollowsFootprint | Collage_generator/_insertion.py:97-100 | COCO label write: channels 1-3 gain the instance colour (mod m) under the footprint and are unchanged elsewhere |
| Walk.Clip | Collage_generator/_insertion.py:200-202 | `np.clip` as `minimum(maximum(x, lo), hi)`: the result is x, lo or hi; it lies in [lo, hi] when that range is non-empty, is x itself when x already lies there, and is hi when the range is empty |
| Walk.Step | Collage_generator/_insertion.py:195-202 | a step adds the offset and clips into [0, outer] on each axis; the result is always in range, and is the unclipped sum whenever that is already in range |
| Walk.SecondaryFrom | Collage_generator/_insertion.py:193-226 | the point the random walk places at, when there is one, keeps the sprite inside the canvas |
| Walk.TryFrom | Collage_generator/_insertion.py:286-335 | the point the escape-or-seek walk places at is inside the canvas, or it is the remembered last point |
| Walk.SecondaryPicksFreePoint | Collage_generator/_insertion.py:193-226 | `_secondary_insert` places only at an in-bounds point whose window does not overlap |
| Walk.SecondaryDropsIffAllOverlap | Collage_generator/_insertion.py:193-228 | `_secondary_insert` places nothing iff every one of its `patience` walk points overlaps (so always when patience is 0) |
| Walk.SecondaryPlacesAtFirstFree | Collage_generator/_insertion.py:214-226 | `_secondary_insert` places at the first walk point that does not overlap |
| Walk.TryPicksFreePoint | Collage_generator/_insertion.py:281-335 | `_try_insert` places only at an in-bounds, non-overlapping point: the escaped point or `_last_add_point`, which is free whenever the walk started free |
| Walk.TryEscapeIsSecondary | Collage_generator/_insertion.py:307-320 | from an overlapping start, `_try_insert` places exactly where `_secondary_insert` would |
| Walk.TrySeekBacksOff | Collage_generator/_insertion.py:322-335 | from a free start, if walk points i+1..t-1 are free and point t overlaps, `_try_insert` places at point t-1 |
| Walk.TryFreeWalkDrops | Collage_generator/_insertion.py:321-325 | from a free start, a walk that never meets occupied space places nothing |
| Insertion.Unpack | Collage_generator/_insertion.py:313-319 | unpacking the compositor's result succeeds iff it returned (canvas, mask); None gives a TypeError and the failed assertion an AssertionError |
| Insertion.RecordFreshColor | Collage_generator/_insertion.py:80-81 | recording a fresh colour keeps every key allocated and nonzero, adds exactly one entry mapping the colour to its label, and keeps every earlier entry |
| Insertion.Inserter.RecordColor | Collage_generator/_insertion.py:80-81 | the registry records the allocated colour with its label, and a consistent registry stays consistent when the colour is fresh |
| Insertion.Inserter.WriteFlatMask | Collage_generator/_insertion.py:63-74 | the in-place pixel-mask write is the label write under the footprint, or the pattern write over the window |
| Insertion.Inserter.WriteLayeredMask | Collage_generator/_insertion.py:93-112 | the in-place 4-channel write is the label and colour write under the footprint, or the pattern write over the window |
| Insertion.PromoteMask | Collage_generator/_insertion.py:84-87 | the stacked mask is a new array of the same height and width whose contents are the promotion of the old mask |
| Insertion.Inserter.CanvasAppend | Collage_generator/_insertion.py:14-113 | per format, mode and mask: the failed assertion changes nothing; with no mask only zero canvas channels are filled; otherwise the canvas gains the sprite, the mask gets the label or pattern write, and only a COCO label write records its colour. It also states which result is returned (None, the same mask, or a new promoted array), and that a consistent colour registry stays consistent when each COCO label write gets a fresh colour |
| Insertion.Inserter.InitInsert | Collage_generator/_insertion.py:115-152 | a ValueError when the start cannot be drawn; otherwise exactly one append at the drawn start with no overlap test, with the append's effect on canvas, mask and registry. The mask comes back in the caller's array in pixel pattern mode and for a 4-channel COCO mask, and in a new 4-channel array (the caller's 2-D array untouched) for a 2-D COCO mask; the registry stays consistent as for `CanvasAppend` |
| Insertion.Inserter.SecondaryInsert | Collage_generator/_insertion.py:154-228 | the write point is the one `Walk.SecondaryFrom` gives for the draws: in bounds and not overlapping; if there is none, canvas, mask and registry are unchanged; at most one append, with its effect stated; the registry stays consistent as for `CanvasAppend` |
| Insertion.Inserter.TryInsert | Collage_generator/_insertion.py:230-337 | the write point is the one `Walk.TryFrom` gives for the draws: in bounds and not overlapping; if there is none, nothing changes; at most one append, with its effect stated; the registry stays consistent as for `CanvasAppend` |
| Functional.LabelIds | Collage_generator/_functional.py:25 | every listed name has an id, and every id lies in 1..n |
| Functional.LabelIdLocatesName | Collage_generator/_functional.py:83 | with distinct names, a registered name's id minus one is its position in the list, so `label_dict[label]-1` indexes the label's own bucket |
| Functional.LabelIdsNumbering | Collage_generator/_functional.py:25 | with distinct names, the dictionary's keys are exactly the listed names and the i-th name has id i+1, so ids are 1..n and distinct |
| Functional.AppendedLabelId | Collage_generator/_functional.py:19-26 | appending a new name keeps the list distinct, keeps every existing id, and gives the new name id n+1 |
| Functional.Library.AddLabel | Collage_generator/_functional.py:13-26 | a known name changes nothing; a new name is appended with an empty bucket and the next id; labels stay unique, one bucket per label |
| Functional.Library.AddImage | Collage_generator/_functional.py:44-89 | an unregistered label raises an AssertionError and changes nothing; otherwise the image joins bucket `label_dict[label]-1` (the label's own bucket), no other bucket changes, the largest size becomes the elementwise max, and the used flags are reset to zeros bucket by bucket |
| Functional.ElementwiseMax | Collage_generator/_functional.py:84 | on each axis the result is at least both inputs and equals one of them |
| Functional.MaxAfterCoversAll | Collage_generator/_functional.py:84 | after any sequence of added sizes, the recorded maximum is at least its initial value and at least every size added |
| Functional.ZeroFlags | Collage_generator/_functional.py:89 | one zero flag per image: as many vectors as buckets, each as long as its bucket, all zeros |
| Functional.Library.SingleImagePreview | Collage_generator/_functional.py:92-107 | the preview is a new canvas of the generator's canvas size (the argument is ignored), entirely 255, and the registry is unchanged |
| Utils.FirstSet | Collage_generator/utils.py:34-36 | `np.nonzero(v)[0][0]`: the first set position, or none when no position is set |
| Utils.LastSet | Collage_generator/utils.py:34-37 | `np.nonzero(v)[0][-1]`: the last set position, or none when no position is set |
| Utils.InkBox | Collage_generator/utils.py:34-37 | the first and last inked rows and columns form the bounding box of all nonzero pixels; there is none iff the image is all zero |
| Utils.CropImage | Collage_generator/utils.py:26-38 | an all-zero image raises an IndexError; otherwise the result is the ink box minus its last row and column, cell (i, j) being img[top+i][left+j] |
| Utils.CropImageDropsLastInk | Collage_generator/utils.py:38 | a 1 x 1 image with one inked pixel is cropped to an image with no rows |
| Utils.CropImageInclusive | Collage_generator/utils.py:38 | the corrected crop: all zero still fails; otherwise the result is exactly as large as the ink box |
| Utils.InclusiveCropKeepsAllInk | Collage_generator/utils.py:38 | the corrected crop keeps every inked pixel, at its position relative to the ink box |
| Utils.ExtractBinaryMask | Collage_generator/utils.py:67-75 | an empty dictionary raises a ValueError (nothing to stack); otherwise one channel vector per mask cell, with the mask's shape |
| Utils.OneHot | Collage_generator/utils.py:75 | one binary (0 or 1) channel per dictionary value, and channel k is 1 iff the cell equals value k; a cell whose value is not listed has every channel 0 |
| Utils.OneHotDecodes | Collage_generator/utils.py:75 | reading back the first set channel gives the cell's value when it is a dictionary value, and 0 otherwise |
| Utils.ChannelsAreOneHot | Collage_generator/utils.py:75 | for every dictionary, channel k of a stacked cell is 1 iff the cell equals value k; with distinct dictionary values each cell has at most one channel set |
| Utils.JpgName | Collage_generator/utils.py:19 | the image name has the mask name's stem and length and ends in "jpg" |
| Utils.JpgNameRoundTrip | Collage_generator/utils.py:17-19 | the image name is not a png name, and swapping the extension back gives the mask name |
| Utils.MaskImage | Collage_generator/utils.py:22-23 | the cut-out has the image's shape, and each of its inked pixels lies under the mask's footprint and equals the image there |
| Utils.MaskImageKeepsFootprint | Collage_generator/utils.py:22-23 | masking keeps every pixel under the mask's footprint; masking again changes nothing |
| Utils.ExtractImage | Collage_generator/utils.py:17-24 | a name not ending in "png" fails the assertion; a mask of another height or width raises an IndexError; otherwise the result has the image's shape, its inked pixels lie under the mask's footprint, and it equals the image there |

## Findings

| source | as written | input that shows it | evidently intended | confidence | as-written member | corrected member |
|---|---|---|---|---|---|---|
| Collage_generator/utils.py:38 | `img[_ys:_yf, _xs:_xf]` uses the last inked row and column as exclusive slice ends, so they are cut off | the 1 x 1 image with one nonzero pixel crops to an empty image | `img[_ys:_yf+1, _xs:_xf+1]`, which removes only the zero padding | medium, not executed | Utils.CropImageDropsLastInk | Utils.CropImageInclusive |

## Left out

- File and directory I/O: the image reads of `extract_image`, `import_images_from_directory*`, and `_unify_image_format`. `ExtractImage` takes the contents of the mask file and of the image file as parameters.
- The interactive size-confirmation loop of `add_image` (`input`, `plt.show`) and `_resize`. `AddImage` takes the resized image and its final size.
- `visualize_result`, which draws a matplotlib figure and prints the dictionary. Its legend reads the undefined name `values`, so as written it raises a NameError, before the figure is shown, whenever the dictionary is non-empty.
- `_generate_new_color`. Its result is the `Allocation` parameter. That the colour is nonzero and new is the explicit hypothesis `FreshAllocation`, used by `RecordFreshColor`.
- The distribution of `np.random.randint`. The start point and the offsets are parameters, constrained only to their ranges.
- `gc.collect`, `tqdm`, `tables`, `ImageFilter`, `time`, and the success message that `add_image` prints at its end: housekeeping with no logic.
- The generator's constructor is not part of this model. The scanning constant is taken to be positive, and the initial largest size and the mask modulus are parameters.
- Insertion.Inserter.CanvasAppend: requires the window to lie inside the canvas, where numpy would raise a broadcasting error after clipping the slice.
- Insertion.Inserter.CanvasAppend: requires an integer label in label mode. The source also accepts a float label, and an h x w array label, which it multiplies elementwise with the footprint. The model does not cover these labels.
- Insertion.Inserter.CanvasAppend: requires a pattern that is an integer or a grid of the sprite's size and of the mask's kind. numpy also accepts any pattern that broadcasts to the window, such as a row of width w, or a vector of length 4 in COCO format. The model does not cover those patterns. A pattern that does not broadcast raises an error only after the canvas has been written.
- Insertion.Inserter.CanvasAppend, Insertion.Inserter.InitInsert, Insertion.Inserter.SecondaryInsert and Insertion.Inserter.TryInsert: require a mask of the canvas's height and width. The source only ever slices the sprite's window out of the mask, so it accepts any mask that contains the window, larger or smaller than the canvas. When the window reaches past a smaller mask's edge, the compositor raises a broadcasting error only after the canvas write, and in COCO label mode also after recording the colour. The searches' overlap test raises earlier, before any write. The model covers none of these masks.
- Insertion.Inserter.CanvasAppend and Insertion.Inserter.InitInsert: require a 2-D mask in the pixel format. With a 4-channel mask there, the source adds a broadcastable pattern across all channels in pattern mode. In label mode it raises a broadcasting error after writing the canvas, unless the sprite is 1 x 1, 1 x 4 or 4 x 4. The model covers neither path.
- Insertion.Inserter.CanvasAppend: the mask label has no default. The source's default is None. With a mask and no label, the source first writes the canvas, and in COCO label mode also records the colour with the label None. It then raises a TypeError. The model does not represent a missing label. The preview passes the integer 0, which is never read because there is no mask.
- Insertion.Inserter.SecondaryInsert and Insertion.Inserter.TryInsert: require a pixel mask in pixel format and a 4-channel mask otherwise. The overlap test indexes channel 0 of the mask outside the pixel format.
- Functional.Library.SingleImagePreview: requires the image to fit in the canvas, for the same broadcasting reason.
- Utils.ExtractBinaryMask: models a 2-D (pixel) mask only.
- The mask's element width is not fixed by the source. It is the parameter `maskModulus`, and the canvas is uint8 (mod 256).
- `color_dict` is keyed by the colour itself rather than by `str(tuple(color))`. That encoding is injective, so the two dictionaries determine each other.
- Aliasing between the canvas and the mask arrays is ruled out by their element types.
