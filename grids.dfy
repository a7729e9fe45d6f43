/**
 * Pixel grids shared by the compositor and the cutout extractor.
 *
 * An image is an H x W grid of pixels, each pixel a sequence of channel
 * samples (3 for RGB, 4 for RGBA); a mask is an H x W grid of booleans.
 * Values that never change (the input image, the masks returned by the
 * segmentation backend) are sequences; buffers the program fills in
 * place are `array3`s.
 */
module Grids {

  /** An unsigned 8-bit sample (numpy `uint8`). */
  newtype byte = x: int | 0 <= x < 256

  /** A boolean H x W mask (true where the object is). */
  type Mask = seq<seq<bool>>

  /** An H x W x C grid of samples. */
  type Grid<T> = seq<seq<seq<T>>>

  /** An H x W x C image of bytes. */
  type Image = Grid<byte>

  /** A colour: one sample per channel of the canvas it is painted into. */
  type Colour = seq<real>

  /** Number of columns of a row-major grid (0 when it has no rows). */
  function Width<T>(g: seq<seq<T>>): nat
  {
    if |g| == 0 then 0 else |g[0]|
  }

  predicate IsMask(m: Mask, h: nat, w: nat)
  {
    |m| == h && forall y :: 0 <= y < h ==> |m[y]| == w
  }

  /** Every mask of `ms` has shape h x w. */
  predicate AllMasks(ms: seq<Mask>, h: nat, w: nat)
  {
    forall k :: 0 <= k < |ms| ==> IsMask(ms[k], h, w)
  }

  /** (y, x) is a pixel of every mask of `ms`. */
  predicate Within(ms: seq<Mask>, y: int, x: int)
  {
    0 <= y && 0 <= x && forall k :: 0 <= k < |ms| ==> y < |ms[k]| && x < |ms[k][y]|
  }

  /** `g` has shape h x w x c. */
  predicate IsGrid<T>(g: Grid<T>, h: nat, w: nat, c: nat)
  {
    |g| == h &&
    forall y :: 0 <= y < h ==> |g[y]| == w && forall x :: 0 <= x < w ==> |g[y][x]| == c
  }

  /** The value currently held by a three-dimensional buffer. */
  function Frozen<T>(a: array3<T>): (g: Grid<T>)
    reads a
    ensures IsGrid(g, a.Length0, a.Length1, a.Length2)
    ensures forall y, x, c :: 0 <= y < a.Length0 && 0 <= x < a.Length1 && 0 <= c < a.Length2 ==>
              g[y][x][c] == a[y, x, c]
  {
    seq(a.Length0, y requires 0 <= y < a.Length0 reads a =>
      seq(a.Length1, x requires 0 <= x < a.Length1 reads a =>
        seq(a.Length2, c requires 0 <= c < a.Length2 reads a => a[y, x, c])))
  }
}
