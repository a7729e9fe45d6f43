# Prompt decoding and mask composition of a Segment Anything demo

This project is a Dafny model of the non-GUI core of `app.py`, a Gradio front end for the
Segment Anything Model (SAM). It covers four parts:

- **Annotation decoder.** The image-prompter widget reports every stroke as a 6-tuple
  `(x1, y1, kind, x2, y2, strokeType)`. These are split into positive points, negative points
  and boxes (`PromptDecoder`).
- **Colour-canvas layering.** It has two variants. The automatic overlay (`get_added_image`)
  stably sorts the generated masks by descending area and paints them into a canvas of
  zeros, so the smaller masks stay on top (`AutoOverlay`). The prompted "origin+mask" overlay
  paints the masks predicted for the boxes, in input order, into a canvas of ones
  (`PromptedOverlay.PromptedCanvas`). Both use the last-writer-wins painting of `Layering`.
- **Alpha-segmented image.** This is an H x W x 4 byte buffer. It holds the image's RGB and
  alpha 255 wherever some mask is true, and `(0, 0, 0, 0)` everywhere else
  (`PromptedOverlay.SegmentedImage`).
- **Cutout extractor.** It finds the pixels with alpha 255, fails with "No objects found"
  when there are none, and otherwise crops the image to their inclusive bounding rectangle
  (`Cutout`).

`ClickPipeline.OnClickSubmit` chains the prompted path: decode, then canvas, alpha image and
cutout from the masks predicted for the decoded boxes.

The buffers the program fills in place (`np.zeros`/`np.ones` canvases and the
`segmented_image` buffer) are `array3`s, filled by methods with loops. The loops are
`PaintChannel`, `PaintMask`, `LayerMasks`, `CopyChannel`, `PaintSegment` and `SegmentedImage`.
Their `ensures` state the final buffer in one of three ways:

- `PaintChannel`, `PaintMask`, `CopyChannel` and `PaintSegment` state every sample against its
  value before the call (`old`): covered pixels take the new value, all others are unchanged.
- `LayerMasks`, `PromptedOverlay.PromptedCanvas` and `AutoOverlay.GetAddedImage` state every
  sample through `Layering.Layer`, the colour left by `Layering.TopMask`, the last mask that
  covers the pixel.
- `SegmentedImage` states every sample through `Layering.Covered` (some mask covers the pixel)
  and `PromptedOverlay.SegmentedSample` (the image's RGB and 255, or 0).

The decoder, the area sort (Python's `sorted`), `np.where`, the minimum and maximum, and the
crop slice are pure, so they are functions.

The parts that cannot be seen or are not deterministic become parameters:

- the SAM predictions are the `masks` or `anns` arguments;
- the colours drawn by `np.random.random` are the `colours` argument, one colour per mask in
  painting order.

Three behaviours of the decoder in `app.py:60-69` shape the model:

- The decoder has no arity check of its own. Records with fewer than six fields, or of mixed
  lengths, make numpy raise (`IndexError` from the column selection, `ValueError` from
  `np.array`). Equal-length longer records are read through columns 0-5. The model takes six
  integer fields per record; those errors are not modelled.
- Box corners are kept as the widget reports them; they are not reordered to min/max.
- An empty annotation list makes `np_points[:, 2]` raise `IndexError`. It is a precondition
  of `Decode` and of `OnClickSubmit`, not a modelled error.

The decoded points are never given to the segmentation model, as in `app.py:72-77`.
`OnClickSubmit` decodes the annotations, uses only the number of boxes (it requires one mask
per decoded box) and leaves the points unused.

## Model

| member | source | states |
|---|---|---|
| `PromptDecoder.Classify` | app.py:61-67 | A record is a positive point iff kind = 1 and strokeType = 4, a negative point iff kind = 0 and strokeType = 4, and a box iff kind = 2 and strokeType = 3; otherwise it is ignored. The categories are mutually exclusive. |
| `PromptDecoder.Selected` | app.py:61-68 | Boolean-mask selection keeps at most the input's records, and only records of the requested category. |
| `PromptDecoder.SelectedPrefix` | app.py:61-68 | Selecting from a prefix of the input gives a prefix of the selection, so selection keeps input order. |
| `PromptDecoder.SelectedPlacement` | app.py:61-68 | Every record of the category appears in the selection, at the position given by the number of such records before it. |
| `PromptDecoder.RankMonotone` | app.py:61-68 | These positions never decrease along the input and strictly increase past each selected record, so the relative order is preserved. |
| `PromptDecoder.SelectedOrigin` | app.py:61-68 | Every selected element is an input record of that category, sitting at that record's rank; nothing else is selected. |
| `PromptDecoder.PartitionCount` | app.py:61-69 | The positive, negative, box and ignored selections together account for every record exactly once. |
| `PromptDecoder.Decode` | app.py:60-69 | The three outputs together hold exactly one entry per non-ignored record. |
| `PromptDecoder.DecodePlacement` | app.py:60-69 | A positive or negative point record yields the point (x1, y1) at its rank in that list, and a box record yields (x1, y1, x2, y2), columns [0, 1, 3, 4], at its rank in the box list. |
| `PromptDecoder.DecodeBoxOrigin` | app.py:67-69 | Every decoded box comes from a record with kind = 2 and strokeType = 3 and carries that record's columns [0, 1, 3, 4]. |
| `PromptDecoder.DecodePointOrigin` | app.py:61-66 | Every decoded positive (negative) point comes from a record with strokeType = 4 and kind = 1 (0) and carries its columns [0, 1]. |
| `PromptDecoder.DecodeDropsMismatched` | app.py:61-69 | When every record has a mismatched kind and strokeType, all three outputs are empty. |
| `PromptDecoder.DecodeExamples` | app.py:60-69 | (10,10,1,0,0,4) decodes to the single positive point (10,10); (5,5,2,50,60,3) decodes to the single box (5,5,50,60); (1,1,1,0,0,3) is dropped. |
| `Layering.TopMask` | app.py:29-32 | The index chosen for a pixel is -1 exactly when no mask covers it. Otherwise that mask covers the pixel and no later mask does. |
| `Layering.Layer` | app.py:28-32 | A pixel no mask covers keeps the background. A covered pixel holds channel c of the colour of a mask that covers it, and no later mask covers it. |
| `Layering.TopMaskSnoc` | app.py:29-32 | Painting one more mask makes it the top mask where it is true and changes nothing elsewhere. |
| `Layering.PaintChannel` | app.py:86 | Channel ch becomes v at every pixel the mask covers; no other sample changes. |
| `Layering.PaintMask` | app.py:32 | Every covered pixel takes the colour in all channels; uncovered pixels are unchanged. |
| `Layering.LayerMasks` | app.py:83-86 | After painting the masks in order, each pixel holds the colour of the last mask covering it, or its initial value if no mask covers it. |
| `AutoOverlay.Insert` | app.py:27 | Insertion adds exactly one record, as a multiset. |
| `AutoOverlay.InsertSorted` | app.py:27 | Insertion keeps a sequence sorted by descending area. |
| `AutoOverlay.SortByArea` | app.py:27 | The sorted masks are in descending order of area and are a permutation of the input. |
| `AutoOverlay.PositionInSorted` | app.py:27 | Every input mask record appears somewhere in the sorted list. |
| `AutoOverlay.PositionInInput` | app.py:27 | Every record of the sorted list is an input record. |
| `AutoOverlay.InsertStable` | app.py:27 | The inserted record goes before all records of equal area; the other area classes are unchanged. |
| `AutoOverlay.WithAreaStable` | app.py:27 | The sort is stable: the records of each area keep their input order. |
| `AutoOverlay.SortByAreaUnique` | app.py:27 | Any descending, stable reordering of the input equals SortByArea, so it equals Python's `sorted(..., reverse=True)`. |
| `AutoOverlay.SortedShapes` | app.py:28-32 | Sorting keeps every mask's H x W shape. |
| `AutoOverlay.GetAddedImage` | app.py:24-34 | With no masks the input image comes back unchanged. Otherwise the canvas is a new buffer with the largest mask's shape, and each pixel holds the colour of the last covering mask in sorted order, or 0. |
| `AutoOverlay.SmallestOnTop` | app.py:27-32 | Where a mask covers a pixel, the colour left there belongs to a covering mask whose area is at most that mask's area. |
| `AutoOverlay.SmallerWinsOverlap` | app.py:27-32 | Where a larger and a smaller mask overlap, the larger one's colour is not the one left. |
| `AutoOverlay.UncoveredStaysZero` | app.py:28-32 | A pixel that no mask covers gets no mask's colour, so it stays 0. |
| `PromptedOverlay.PromptedCanvas` | app.py:82-86 | The canvas is a new H x W x 3 buffer. Each pixel holds the colour of the last mask in input order that covers it, or 1 in every channel if none does. |
| `PromptedOverlay.CopyChannel` | app.py:98 | Channel ch takes the image's channel ch at every pixel the mask covers; no other sample changes. |
| `PromptedOverlay.PaintSegment` | app.py:96-99 | Where the mask is true, the pixel becomes (R, G, B, 255) from the image; elsewhere it is unchanged. |
| `PromptedOverlay.SegmentedImage` | app.py:94-99 | The result is a new H x W x 4 buffer. Alpha is 255 exactly where some mask covers the pixel, and then RGB is the image's RGB; every other pixel is (0, 0, 0, 0). |
| `Cutout.RowOpaqueSound` | app.py:102 | Every pixel the scan of row y lists, from column x on, is an opaque pixel of row y at column x or later. |
| `Cutout.RowOpaqueComplete` | app.py:102 | Every opaque pixel of row y at column x or later is listed by the scan of that row. |
| `Cutout.OpaqueFromSound` | app.py:102 | Every pixel the scan of rows y and below lists is an opaque pixel of the image in one of those rows. |
| `Cutout.OpaqueFromComplete` | app.py:102 | Every opaque pixel in rows y and below is listed by the scan. |
| `Cutout.OpaquePixels` | app.py:102 | The coordinates `np.where(alpha == 255)` returns are exactly the pixels of the image whose alpha is 255: each one listed is opaque, and every opaque pixel is listed. |
| `Cutout.OpaquePixelsSound` | app.py:102 | Every coordinate that `np.where(alpha == 255)` returns is an opaque pixel. |
| `Cutout.OpaquePixelsComplete` | app.py:102 | Every opaque pixel is among the coordinates returned. |
| `Cutout.Min` | app.py:106-107 | The minimum is an element of the array and is at most every element. |
| `Cutout.Max` | app.py:106-107 | The maximum is an element of the array and is at least every element. |
| `Cutout.BoundingRect` | app.py:106-107 | The rectangle of the row and column minima and maxima is non-empty and encloses every given pixel. |
| `Cutout.Crop` | app.py:108 | The crop has (bottom - top + 1) rows of (right - left + 1) four-channel pixels, and pixel (i, j) is the source's pixel (top + i, left + j). |
| `Cutout.BoundingRectInImage` | app.py:106-107 | The bounding rectangle of the opaque pixels is non-empty and lies inside the image. |
| `Cutout.Extract` | app.py:102-108 | The extraction fails exactly when no opaque pixel is found. |
| `Cutout.ExtractFails` | app.py:102-104 | The extraction fails ("No objects found") exactly when no pixel of the image has alpha 255. |
| `Cutout.BoundingRectEncloses` | app.py:106-107 | Every opaque pixel lies in the bounding rectangle. |
| `Cutout.BoundingRectAttained` | app.py:106-107 | Each of ymin, ymax, xmin and xmax is the row or column of some opaque pixel. |
| `Cutout.BoundingRectMinimal` | app.py:106-107 | The rectangle encloses every opaque pixel, each side passes through one, and every rectangle that encloses them all contains it. |
| `Cutout.ExtractShape` | app.py:108 | A successful cutout has (ymax - ymin + 1) rows and (xmax - xmin + 1) columns, four channels, and crop[i][j] = seg[ymin + i][xmin + j]. |
| `Cutout.CropWhole` | app.py:108 | Slicing the whole index range returns the image unchanged. |
| `Cutout.CropOpaque` | app.py:108 | Cropping to a rectangle whose pixels are exactly the opaque ones gives an image that is opaque everywhere. |
| `Cutout.FullyOpaqueIdentity` | app.py:102-108 | Cutting out an image that is opaque everywhere returns the image itself. |
| `Cutout.RectangleBounds` | app.py:102-107 | When the opaque pixels form exactly one rectangle, the bounds are that rectangle. |
| `Cutout.RectangleCutout` | app.py:102-108 | When the opaque pixels form exactly rows y0..y1 by columns x0..x1, the cutout has (y1 - y0 + 1) x (x1 - x0 + 1) pixels, all opaque. For example, one 10..40 box gives a 31 x 31 x 4 result. |
| `ClickPipeline.OnClickSubmit` | app.py:49-110 | The request fails exactly when no mask covers any pixel. Otherwise it returns the layered canvas and the alpha-segmented image (both new buffers) and the cutout of that image, each as the functions above define them. |

## Left out

- The Gradio UI, its event wiring, `on_auto_test_btn` and `on_click_reset_btn` (app.py:112-257): user-interface plumbing.
- `type2checkpoint`, model loading and device placement (app.py:36-42, 51-57, 124-129): configuration and calls into the `segment_anything` and `torch` libraries.
- `on_auto_submit_btn` (app.py:36-45): it only chains the automatic mask generator into `get_added_image`. `AutoOverlay.GetAddedImage` takes the generator's records as input.
- The SAM calls `SamAutomaticMaskGenerator.generate`, `set_image`, `apply_boxes_torch` and `predict_torch` (app.py:43, 57, 70-79): foreign computations. Their masks are inputs. `OnClickSubmit` requires one mask per decoded box, and it takes the H x W mask inside each 1 x H x W prediction.
- What the backend does with an empty box list is not modelled. The model then receives no masks and reports "No objects found"; the real backend may fail first.
- `gc.collect()` and `torch.cuda.empty_cache()` (app.py:90-91): memory management of an external accelerator.
- `np.random.random`: the colours are an injected sequence, and only the spatial layering is modelled.
- AutoOverlay.GetAddedImage: returns the colour canvas, not the floating-point blend `image / 255 * 0.5 + canvas * 0.5` (app.py:33).
- PromptedOverlay.PromptedCanvas: the blend `image / 255 * 0.3 + canvas * 0.7` (app.py:88) is floating point and not part of the model.
- ClickPipeline.OnClickSubmit: does not return the blended `img` of app.py:88; it returns the canvas that blend uses, together with the segmented image and the cutout.
- AutoOverlay.GetAddedImage: requires every mask to have the shape of `anns[0]`'s mask, so all masks share one shape. The automatic mask generator always meets this; with a mismatched shape, `mask_all[m] = color_mask` (app.py:32) raises `IndexError`, and that error is not modelled.
- Record arity and element types: records are six integer fields. Records with fewer than six fields make `np_points[:, 5]` (app.py:61) raise `IndexError`; records of mixed lengths make `np.array` (app.py:60) raise `ValueError`, or on older numpy give a 1-D object array on which `np_points[:, 2]` raises `IndexError`. These errors are not modelled; equal-length records longer than six fields are read through columns 0-5, which six-field records cover.
- The cutout is a numpy view of the segmented image. The model builds a copy; nothing writes to the image afterwards, so the two are indistinguishable.
