/**
 * The cutout extractor: the pixels of the alpha-segmented image whose
 * alpha is 255, their inclusive bounding rectangle, and the crop of the
 * image to that rectangle. With no opaque pixel the extraction fails
 * ("No objects found in the image").
 */
module Cutout {
  import opened Grids
  import opened Results

  datatype Coord = Coord(y: int, x: int)

  /** Inclusive bounds: rows top..bottom, columns left..right. */
  datatype Rect = Rect(top: int, bottom: int, left: int, right: int)

  datatype CutoutError = NoObjectsFound

  /** An H x W x 4 image. */
  predicate IsRgba(g: Image)
  {
    IsGrid(g, |g|, Width(g), 4)
  }

  predicate InImage(g: Image, y: int, x: int)
  {
    0 <= y < |g| && 0 <= x < Width(g)
  }

  predicate Opaque(g: Image, y: int, x: int)
    requires IsRgba(g) && InImage(g, y, x)
  {
    g[y][x][3] == 255
  }

  predicate Encloses(r: Rect, y: int, x: int)
  {
    r.top <= y <= r.bottom && r.left <= x <= r.right
  }

  /** The opaque pixels of row y from column x on, left to right. */
  function RowOpaque(g: Image, y: int, x: nat): seq<Coord>
    requires IsRgba(g) && 0 <= y < |g|
    decreases Width(g) - x
  {
    if x >= Width(g) then []
    else (if g[y][x][3] == 255 then [Coord(y, x)] else []) + RowOpaque(g, y, x + 1)
  }

  /** The opaque pixels of rows y.. in row-major order. */
  function OpaqueFrom(g: Image, y: nat): seq<Coord>
    requires IsRgba(g)
    decreases |g| - y
  {
    if y >= |g| then []
    else RowOpaque(g, y, 0) + OpaqueFrom(g, y + 1)
  }

  /** Every pixel whose alpha is 255, in row-major order (numpy `where`). */
  function OpaquePixels(g: Image): (ps: seq<Coord>)
    requires IsRgba(g)
    ensures forall k :: 0 <= k < |ps| ==> InImage(g, ps[k].y, ps[k].x) && Opaque(g, ps[k].y, ps[k].x)
    ensures forall y, x :: InImage(g, y, x) && Opaque(g, y, x) ==> Coord(y, x) in ps
  {
    var ps := OpaqueFrom(g, 0);
    assert forall k :: 0 <= k < |ps| ==> InImage(g, ps[k].y, ps[k].x) && Opaque(g, ps[k].y, ps[k].x) by {
      forall k | 0 <= k < |ps| ensures InImage(g, ps[k].y, ps[k].x) && Opaque(g, ps[k].y, ps[k].x) {
        OpaqueFromSound(g, 0, ps[k]);
      }
    }
    assert forall y, x :: InImage(g, y, x) && Opaque(g, y, x) ==> Coord(y, x) in ps by {
      forall y, x | InImage(g, y, x) && Opaque(g, y, x) ensures Coord(y, x) in ps {
        OpaqueFromComplete(g, 0, y, x);
      }
    }
    ps
  }

  lemma {:induction false} RowOpaqueSound(g: Image, y: int, x: nat, p: Coord)
    requires IsRgba(g) && 0 <= y < |g| && p in RowOpaque(g, y, x)
    ensures p.y == y && x <= p.x && InImage(g, p.y, p.x) && Opaque(g, p.y, p.x)
    decreases Width(g) - x
  {
    if x < Width(g) && !(g[y][x][3] == 255 && p == Coord(y, x)) {
      RowOpaqueSound(g, y, x + 1, p);
    }
  }

  lemma {:induction false} RowOpaqueComplete(g: Image, y: int, x: nat, x': int)
    requires IsRgba(g) && 0 <= y < |g| && x <= x' < Width(g) && Opaque(g, y, x')
    ensures Coord(y, x') in RowOpaque(g, y, x)
    decreases Width(g) - x
  {
    if x < x' {
      RowOpaqueComplete(g, y, x + 1, x');
    }
  }

  lemma {:induction false} OpaqueFromSound(g: Image, y: nat, p: Coord)
    requires IsRgba(g) && p in OpaqueFrom(g, y)
    ensures y <= p.y && InImage(g, p.y, p.x) && Opaque(g, p.y, p.x)
    decreases |g| - y
  {
    if p in RowOpaque(g, y, 0) {
      RowOpaqueSound(g, y, 0, p);
    } else {
      OpaqueFromSound(g, y + 1, p);
    }
  }

  lemma {:induction false} OpaqueFromComplete(g: Image, y: nat, y': int, x': int)
    requires IsRgba(g) && y <= y' && InImage(g, y', x') && Opaque(g, y', x')
    ensures Coord(y', x') in OpaqueFrom(g, y)
    decreases |g| - y
  {
    if y == y' {
      RowOpaqueComplete(g, y, 0, x');
    } else {
      OpaqueFromComplete(g, y + 1, y', x');
    }
  }

  /** Each listed pixel is an opaque pixel of the image. */
  lemma OpaquePixelsSound(g: Image, p: Coord)
    requires IsRgba(g) && p in OpaquePixels(g)
    ensures InImage(g, p.y, p.x) && Opaque(g, p.y, p.x)
  {
    OpaqueFromSound(g, 0, p);
  }

  /** Each opaque pixel of the image is listed. */
  lemma OpaquePixelsComplete(g: Image, y: int, x: int)
    requires IsRgba(g) && InImage(g, y, x) && Opaque(g, y, x)
    ensures Coord(y, x) in OpaquePixels(g)
  {
    OpaqueFromComplete(g, 0, y, x);
  }

  function Rows(ps: seq<Coord>): (ys: seq<int>)
    ensures |ys| == |ps| && forall k :: 0 <= k < |ps| ==> ys[k] == ps[k].y
  {
    seq(|ps|, k requires 0 <= k < |ps| => ps[k].y)
  }

  function Columns(ps: seq<Coord>): (xs: seq<int>)
    ensures |xs| == |ps| && forall k :: 0 <= k < |ps| ==> xs[k] == ps[k].x
  {
    seq(|ps|, k requires 0 <= k < |ps| => ps[k].x)
  }

  /** numpy `min` of a non-empty array. */
  function Min(s: seq<int>): (m: int)
    requires |s| > 0
    ensures m in s && forall k :: 0 <= k < |s| ==> m <= s[k]
  {
    if |s| == 1 then s[0]
    else
      var rest := Min(s[1..]);
      if s[0] <= rest then s[0] else rest
  }

  /** numpy `max` of a non-empty array. */
  function Max(s: seq<int>): (m: int)
    requires |s| > 0
    ensures m in s && forall k :: 0 <= k < |s| ==> s[k] <= m
  {
    if |s| == 1 then s[0]
    else
      var rest := Max(s[1..]);
      if s[0] >= rest then s[0] else rest
  }

  /** The smallest and largest row and column among `ps`. */
  function BoundingRect(ps: seq<Coord>): (r: Rect)
    requires |ps| > 0
    ensures r.top <= r.bottom && r.left <= r.right
    ensures forall k :: 0 <= k < |ps| ==> Encloses(r, ps[k].y, ps[k].x)
  {
    Rect(Min(Rows(ps)), Max(Rows(ps)), Min(Columns(ps)), Max(Columns(ps)))
  }

  /** `g[top:bottom + 1, left:right + 1]`, every channel. */
  function Crop(g: Image, r: Rect): (c: Image)
    requires IsRgba(g)
    requires 0 <= r.top <= r.bottom < |g| && 0 <= r.left <= r.right < Width(g)
    ensures IsGrid(c, r.bottom - r.top + 1, r.right - r.left + 1, 4)
    ensures forall i, j :: 0 <= i <= r.bottom - r.top && 0 <= j <= r.right - r.left ==>
              c[i][j] == g[r.top + i][r.left + j]
  {
    seq(r.bottom - r.top + 1, i requires 0 <= i <= r.bottom - r.top =>
      seq(r.right - r.left + 1, j requires 0 <= j <= r.right - r.left => g[r.top + i][r.left + j]))
  }

  /** The opaque pixels lie in the image, so their bounding rectangle does. */
  lemma BoundingRectInImage(g: Image)
    requires IsRgba(g) && |OpaquePixels(g)| > 0
    ensures var r := BoundingRect(OpaquePixels(g));
            0 <= r.top <= r.bottom < |g| && 0 <= r.left <= r.right < Width(g)
  {
    var ps := OpaquePixels(g);
    var ys, xs := Rows(ps), Columns(ps);
    var kt :| 0 <= kt < |ys| && ys[kt] == Min(ys);
    var kb :| 0 <= kb < |ys| && ys[kb] == Max(ys);
    var kl :| 0 <= kl < |xs| && xs[kl] == Min(xs);
    var kr :| 0 <= kr < |xs| && xs[kr] == Max(xs);
    OpaquePixelsSound(g, ps[kt]);
    OpaquePixelsSound(g, ps[kb]);
    OpaquePixelsSound(g, ps[kl]);
    OpaquePixelsSound(g, ps[kr]);
  }

  /**
   * The cutout: fails when no pixel is opaque, and otherwise crops `g` to
   * the bounding rectangle of its opaque pixels.
   */
  function Extract(g: Image): (res: Result<Image, CutoutError>)
    requires IsRgba(g)
    ensures res.Failure? <==> |OpaquePixels(g)| == 0
  {
    var ps := OpaquePixels(g);
    if |ps| == 0 then Failure(NoObjectsFound)
    else
      BoundingRectInImage(g);
      Success(Crop(g, BoundingRect(ps)))
  }

  /** Every opaque pixel lies in the bounding rectangle. */
  lemma BoundingRectEncloses(g: Image, y: int, x: int)
    requires IsRgba(g) && InImage(g, y, x) && Opaque(g, y, x)
    ensures |OpaquePixels(g)| > 0 && Encloses(BoundingRect(OpaquePixels(g)), y, x)
  {
    var ps := OpaquePixels(g);
    OpaquePixelsComplete(g, y, x);
    var k :| 0 <= k < |ps| && ps[k] == Coord(y, x);
    assert Rows(ps)[k] == y && Columns(ps)[k] == x;
  }

  /** Each side of the bounding rectangle passes through an opaque pixel. */
  lemma BoundingRectAttained(g: Image) returns (top: Coord, bottom: Coord, left: Coord, right: Coord)
    requires IsRgba(g) && |OpaquePixels(g)| > 0
    ensures var r := BoundingRect(OpaquePixels(g));
            InImage(g, top.y, top.x) && Opaque(g, top.y, top.x) && top.y == r.top &&
            InImage(g, bottom.y, bottom.x) && Opaque(g, bottom.y, bottom.x) && bottom.y == r.bottom &&
            InImage(g, left.y, left.x) && Opaque(g, left.y, left.x) && left.x == r.left &&
            InImage(g, right.y, right.x) && Opaque(g, right.y, right.x) && right.x == r.right
  {
    var ps := OpaquePixels(g);
    var r := BoundingRect(ps);
    var ys, xs := Rows(ps), Columns(ps);
    var kt :| 0 <= kt < |ys| && ys[kt] == r.top;
    var kb :| 0 <= kb < |ys| && ys[kb] == r.bottom;
    var kl :| 0 <= kl < |xs| && xs[kl] == r.left;
    var kr :| 0 <= kr < |xs| && xs[kr] == r.right;
    top, bottom, left, right := ps[kt], ps[kb], ps[kl], ps[kr];
    OpaquePixelsSound(g, top);
    OpaquePixelsSound(g, bottom);
    OpaquePixelsSound(g, left);
    OpaquePixelsSound(g, right);
  }

  /** The cutout fails exactly when no pixel of the image is opaque. */
  lemma ExtractFails(g: Image)
    requires IsRgba(g)
    ensures Extract(g).Failure? <==> forall y, x :: InImage(g, y, x) ==> !Opaque(g, y, x)
  {
    if |OpaquePixels(g)| > 0 {
      var p := OpaquePixels(g)[0];
      OpaquePixelsSound(g, p);
    } else {
      forall y, x | InImage(g, y, x) ensures !Opaque(g, y, x) {
        if Opaque(g, y, x) {
          OpaquePixelsComplete(g, y, x);
        }
      }
    }
  }

  /**
   * The rectangle is the least one holding every opaque pixel: it encloses
   * them all, each of its four sides passes through one, and any
   * rectangle that encloses them all encloses it.
   */
  lemma BoundingRectMinimal(g: Image)
    requires IsRgba(g) && |OpaquePixels(g)| > 0
    ensures var r := BoundingRect(OpaquePixels(g));
            (forall y, x :: InImage(g, y, x) && Opaque(g, y, x) ==> Encloses(r, y, x)) &&
            (exists x :: InImage(g, r.top, x) && Opaque(g, r.top, x)) &&
            (exists x :: InImage(g, r.bottom, x) && Opaque(g, r.bottom, x)) &&
            (exists y :: InImage(g, y, r.left) && Opaque(g, y, r.left)) &&
            (exists y :: InImage(g, y, r.right) && Opaque(g, y, r.right))
    ensures forall r' :: (forall y, x :: InImage(g, y, x) && Opaque(g, y, x) ==> Encloses(r', y, x)) ==>
              var r := BoundingRect(OpaquePixels(g));
              r'.top <= r.top && r.bottom <= r'.bottom && r'.left <= r.left && r.right <= r'.right
  {
    var r := BoundingRect(OpaquePixels(g));
    forall y, x | InImage(g, y, x) && Opaque(g, y, x) ensures Encloses(r, y, x) {
      BoundingRectEncloses(g, y, x);
    }
    var top, bottom, left, right := BoundingRectAttained(g);
    forall r' | (forall y, x :: InImage(g, y, x) && Opaque(g, y, x) ==> Encloses(r', y, x))
      ensures r'.top <= r.top && r.bottom <= r'.bottom && r'.left <= r.left && r.right <= r'.right
    {
      assert Encloses(r', top.y, top.x);
      assert Encloses(r', bottom.y, bottom.x);
      assert Encloses(r', left.y, left.x);
      assert Encloses(r', right.y, right.x);
    }
  }

  /**
   * A successful cutout has (bottom - top + 1) rows of (right - left + 1)
   * pixels, and pixel (i, j) of it is pixel (top + i, left + j) of `g`.
   */
  lemma ExtractShape(g: Image)
    requires IsRgba(g) && Extract(g).Success?
    ensures |OpaquePixels(g)| > 0
    ensures var r := BoundingRect(OpaquePixels(g));
            var c := Extract(g).value;
            0 <= r.top <= r.bottom < |g| && 0 <= r.left <= r.right < Width(g) &&
            IsGrid(c, r.bottom - r.top + 1, r.right - r.left + 1, 4) &&
            forall i, j :: 0 <= i <= r.bottom - r.top && 0 <= j <= r.right - r.left ==>
              c[i][j] == g[r.top + i][r.left + j]
  {
    BoundingRectInImage(g);
  }

  /** Cropping to the whole image gives the image back. */
  lemma CropWhole(g: Image)
    requires IsRgba(g) && |g| > 0 && Width(g) > 0
    ensures Crop(g, Rect(0, |g| - 1, 0, Width(g) - 1)) == g
  {
    var c := Crop(g, Rect(0, |g| - 1, 0, Width(g) - 1));
    forall i | 0 <= i < |g| ensures c[i] == g[i] {
      assert |c[i]| == |g[i]|;
      forall j | 0 <= j < |g[i]| ensures c[i][j] == g[i][j] {
      }
    }
  }

  /** Cropping an image that is opaque everywhere gives the image back. */
  lemma FullyOpaqueIdentity(g: Image)
    requires IsRgba(g) && |g| > 0 && Width(g) > 0
    requires forall y, x :: InImage(g, y, x) ==> Opaque(g, y, x)
    ensures Extract(g) == Success(g)
  {
    var whole := Rect(0, |g| - 1, 0, Width(g) - 1);
    forall y, x | InImage(g, y, x) ensures Opaque(g, y, x) <==> Encloses(whole, y, x) {
    }
    RectangleBounds(g, whole);
    CropWhole(g);
  }

  /** When the opaque pixels form exactly a rectangle, that rectangle is their bounding rectangle. */
  lemma RectangleBounds(g: Image, box: Rect)
    requires IsRgba(g) && 0 <= box.top <= box.bottom < |g| && 0 <= box.left <= box.right < Width(g)
    requires forall y, x :: InImage(g, y, x) ==> (Opaque(g, y, x) <==> Encloses(box, y, x))
    ensures |OpaquePixels(g)| > 0 && BoundingRect(OpaquePixels(g)) == box
  {
    assert Encloses(box, box.top, box.left) && Encloses(box, box.bottom, box.right);
    BoundingRectEncloses(g, box.top, box.left);
    BoundingRectEncloses(g, box.bottom, box.right);
    var top, bottom, left, right := BoundingRectAttained(g);
    assert Encloses(box, top.y, top.x);
    assert Encloses(box, bottom.y, bottom.x);
    assert Encloses(box, left.y, left.x);
    assert Encloses(box, right.y, right.x);
  }

  /**
   * When the opaque pixels form exactly the rectangle rows y0..y1 by
   * columns x0..x1, the cutout is that rectangle: (y1 - y0 + 1) rows of
   * (x1 - x0 + 1) pixels, all opaque.
   */
  lemma RectangleCutout(g: Image, y0: int, y1: int, x0: int, x1: int)
    requires IsRgba(g) && 0 <= y0 <= y1 < |g| && 0 <= x0 <= x1 < Width(g)
    requires forall y, x :: InImage(g, y, x) ==> (Opaque(g, y, x) <==> Encloses(Rect(y0, y1, x0, x1), y, x))
    ensures Extract(g).Success?
    ensures var c := Extract(g).value;
            IsGrid(c, y1 - y0 + 1, x1 - x0 + 1, 4) &&
            forall i, j :: 0 <= i < |c| && 0 <= j < |c[i]| ==> c[i][j][3] == 255
  {
    var r := Rect(y0, y1, x0, x1);
    RectangleBounds(g, r);
    CropOpaque(g, r);
    assert Extract(g) == Success(Crop(g, r));
  }

  /** Cropping to a rectangle of opaque pixels gives an image that is opaque everywhere. */
  lemma CropOpaque(g: Image, r: Rect)
    requires IsRgba(g) && 0 <= r.top <= r.bottom < |g| && 0 <= r.left <= r.right < Width(g)
    requires forall y, x :: InImage(g, y, x) ==> (Opaque(g, y, x) <==> Encloses(r, y, x))
    ensures var c := Crop(g, r);
            forall i, j :: 0 <= i < |c| && 0 <= j < |c[i]| ==> c[i][j][3] == 255
  {
    var c := Crop(g, r);
    forall i, j | 0 <= i < |c| && 0 <= j < |c[i]| ensures c[i][j][3] == 255 {
      RectanglePixel(g, r, r.top + i, r.left + j);
    }
  }

  lemma RectanglePixel(g: Image, r: Rect, y: int, x: int)
    requires IsRgba(g) && InImage(g, y, x) && Encloses(r, y, x)
    requires forall y, x :: InImage(g, y, x) ==> (Opaque(g, y, x) <==> Encloses(r, y, x))
    ensures g[y][x][3] == 255
  {
    assert Opaque(g, y, x);
  }
}
