/**
 * The images the prompted pipeline builds from the masks predicted for
 * the boxes: the white-backed colour canvas of the "origin+mask" overlay
 * and the alpha-segmented RGBA image.
 */
module PromptedOverlay {
  import opened Grids
  import opened Layering

  /** Opaque alpha value. */
  const OpaqueAlpha: byte := 255

  /**
   * The canvas of the "origin+mask" overlay: a canvas of ones that the
   * masks are painted into in input order, mask k with colours[k].
   * The 30/70 blend with the image is not part of the model.
   */
  method PromptedCanvas(masks: seq<Mask>, h: nat, w: nat, colours: seq<Colour>) returns (canvas: array3<real>)
    requires AllMasks(masks, h, w)
    requires |colours| >= |masks| && forall k :: 0 <= k < |masks| ==> |colours[k]| == 3
    ensures fresh(canvas)
    ensures canvas.Length0 == h && canvas.Length1 == w && canvas.Length2 == 3
    ensures forall y, x, c :: 0 <= y < h && 0 <= x < w && 0 <= c < 3 ==>
              canvas[y, x, c] == Layer(masks, colours, y, x, c, 1.0)
  {
    canvas := new real[h, w, 3]((y, x, c) => 1.0);
    LayerMasks(canvas, masks, colours);
  }

  /**
   * Copies channel ch of `src` into channel ch of every pixel `m` covers
   * (numpy `buffer[:, :, ch][m] = src[:, :, ch][m]`). No other sample changes.
   */
  method CopyChannel<T>(a: array3<T>, m: Mask, ch: nat, src: Grid<T>, channels: nat)
    requires IsMask(m, a.Length0, a.Length1) && ch < a.Length2
    requires IsGrid(src, a.Length0, a.Length1, channels) && ch < channels
    modifies a
    ensures forall y, x, c :: 0 <= y < a.Length0 && 0 <= x < a.Length1 && 0 <= c < a.Length2 ==>
              a[y, x, c] == if c == ch && m[y][x] then src[y][x][c] else old(a[y, x, c])
  {
    var y := 0;
    while y < a.Length0
      invariant 0 <= y <= a.Length0
      invariant forall i, j, c :: 0 <= i < a.Length0 && 0 <= j < a.Length1 && 0 <= c < a.Length2 ==>
                  a[i, j, c] == if i < y && c == ch && m[i][j] then src[i][j][c] else old(a[i, j, c])
    {
      var x := 0;
      while x < a.Length1
        invariant 0 <= x <= a.Length1
        invariant forall i, j, c :: 0 <= i < a.Length0 && 0 <= j < a.Length1 && 0 <= c < a.Length2 ==>
                    a[i, j, c] == if (i < y || (i == y && j < x)) && c == ch && m[i][j] then src[i][j][c] else old(a[i, j, c])
      {
        if m[y][x] {
          a[y, x, ch] := src[y][x][ch];
        }
        x := x + 1;
      }
      y := y + 1;
    }
  }

  /** What the alpha-segmented image holds at channel c of a pixel: the image's RGB and 255, or zero. */
  function SegmentedSample(image: Image, y: nat, x: nat, c: nat, covered: bool): byte
    requires IsGrid(image, |image|, Width(image), 3) && y < |image| && x < Width(image) && c < 4
  {
    if !covered then 0 else if c < 3 then image[y][x][c] else OpaqueAlpha
  }

  /** One mask of the alpha image: RGB copied from the image, alpha set to 255, where m is true. */
  method PaintSegment(seg: array3<byte>, m: Mask, image: Image)
    requires seg.Length2 == 4 && IsMask(m, seg.Length0, seg.Length1)
    requires IsGrid(image, seg.Length0, seg.Length1, 3)
    modifies seg
    ensures forall y, x, c :: 0 <= y < seg.Length0 && 0 <= x < seg.Length1 && 0 <= c < 4 ==>
              seg[y, x, c] == if m[y][x] then SegmentedSample(image, y, x, c, true) else old(seg[y, x, c])
  {
    var ch := 0;
    while ch < 3
      invariant 0 <= ch <= 3
      invariant forall y, x, c :: 0 <= y < seg.Length0 && 0 <= x < seg.Length1 && 0 <= c < 4 ==>
                  seg[y, x, c] == if c < ch && m[y][x] then image[y][x][c] else old(seg[y, x, c])
    {
      CopyChannel(seg, m, ch, image, 3);
      ch := ch + 1;
    }
    PaintChannel(seg, m, 3, OpaqueAlpha);
  }

  /**
   * The alpha-segmented image: an H x W x 4 buffer of zeros; for every
   * mask, wherever it is true, channels 0-2 get the image's RGB and
   * channel 3 gets 255. A pixel no mask covers stays (0, 0, 0, 0).
   */
  method SegmentedImage(image: Image, masks: seq<Mask>) returns (seg: array3<byte>)
    requires IsGrid(image, |image|, Width(image), 3)
    requires AllMasks(masks, |image|, Width(image))
    ensures fresh(seg)
    ensures seg.Length0 == |image| && seg.Length1 == Width(image) && seg.Length2 == 4
    ensures forall y, x :: 0 <= y < |image| && 0 <= x < Width(image) ==>
              (seg[y, x, 3] == 255 <==> Covered(masks, y, x))
    ensures forall y, x, c :: 0 <= y < |image| && 0 <= x < Width(image) && 0 <= c < 4 ==>
              seg[y, x, c] == SegmentedSample(image, y, x, c, Covered(masks, y, x))
  {
    seg := new byte[|image|, Width(image), 4]((y, x, c) => 0);
    var n := 0;
    while n < |masks|
      invariant 0 <= n <= |masks|
      invariant seg.Length0 == |image| && seg.Length1 == Width(image) && seg.Length2 == 4
      invariant forall y, x, c :: 0 <= y < |image| && 0 <= x < Width(image) && 0 <= c < 4 ==>
                  seg[y, x, c] == SegmentedSample(image, y, x, c, TopMask(masks[..n], y, x) >= 0)
    {
      PaintSegment(seg, masks[n], image);
      forall y, x | 0 <= y < |image| && 0 <= x < Width(image)
        ensures TopMask(masks[..n + 1], y, x) == if masks[n][y][x] then n else TopMask(masks[..n], y, x)
      {
        TopMaskSnoc(masks, n, y, x);
      }
      n := n + 1;
    }
    assert masks[..n] == masks;
  }
}
