/**
 * The prompted pipeline (`on_click_submit_btn`) from the decoded
 * annotations to its outputs. The segmentation model is not part of the
 * model: `masks` is what it predicts for the decoded boxes, one mask per
 * box. The decoded points are not passed to the model, as in the program.
 */
module ClickPipeline {
  import opened Grids
  import opened Results
  import opened Layering
  import opened PromptDecoder
  import opened PromptedOverlay
  import opened Cutout

  /** The canvas of the "origin+mask" overlay, the alpha-segmented image and the cutout. */
  datatype ClickOutputs = ClickOutputs(maskAll: array3<real>, segmented: array3<byte>, cutout: Image)

  method OnClickSubmit(image: Image, annotations: seq<Record>, masks: seq<Mask>, colours: seq<Colour>)
    returns (r: Result<ClickOutputs, CutoutError>)
    requires |annotations| > 0
    requires IsGrid(image, |image|, Width(image), 3)
    requires |masks| == |Decode(annotations).boxes|
    requires AllMasks(masks, |image|, Width(image))
    requires |colours| >= |masks| && forall k :: 0 <= k < |masks| ==> |colours[k]| == 3
    ensures r.Failure? <==> forall y, x :: 0 <= y < |image| && 0 <= x < Width(image) ==> !Covered(masks, y, x)
    ensures r.Success? ==> fresh(r.value.maskAll) && fresh(r.value.segmented)
    ensures r.Success? ==>
              var out := r.value;
              out.maskAll.Length0 == |image| && out.maskAll.Length1 == Width(image) && out.maskAll.Length2 == 3 &&
              out.segmented.Length0 == |image| && out.segmented.Length1 == Width(image) && out.segmented.Length2 == 4 &&
              (forall y, x, c :: 0 <= y < |image| && 0 <= x < Width(image) && 0 <= c < 3 ==>
                 out.maskAll[y, x, c] == Layer(masks, colours, y, x, c, 1.0)) &&
              (forall y, x, c :: 0 <= y < |image| && 0 <= x < Width(image) && 0 <= c < 4 ==>
                 out.segmented[y, x, c] == SegmentedSample(image, y, x, c, Covered(masks, y, x))) &&
              IsRgba(Frozen(out.segmented)) &&
              Extract(Frozen(out.segmented)) == Success(out.cutout)
  {
    var prompts := Decode(annotations);
    assert |masks| == |prompts.boxes|;
    var canvas := PromptedCanvas(masks, |image|, Width(image), colours);
    var seg := SegmentedImage(image, masks);
    var g := Frozen(seg);
    assert IsRgba(g);
    ExtractFails(g);
    forall y, x | 0 <= y < |image| && 0 <= x < Width(image)
      ensures InImage(g, y, x) && (Opaque(g, y, x) <==> Covered(masks, y, x))
    {
      assert g[y][x][3] == seg[y, x, 3];
    }
    var cut := Extract(g);
    if cut.Failure? {
      return Failure(cut.error);
    }
    return Success(ClickOutputs(canvas, seg, cut.value));
  }
}
