/**
 * Last-writer-wins painting of boolean masks into a colour buffer.
 *
 * Both overlays of the program (the automatic one, after sorting the
 * masks by area, and the prompted one, in input order) paint masks one
 * after another into a pre-allocated H x W x C buffer: wherever a mask is
 * true, the pixel's channels are overwritten with that mask's colour.
 * TopMask is the specification: after painting, a pixel holds the colour
 * of the last mask that covers it, and its initial value if none does.
 */
module Layering {
  import opened Grids

  /** Some mask of `ms` is true at (y, x). */
  predicate Covered(ms: seq<Mask>, y: int, x: int)
    requires Within(ms, y, x)
  {
    exists k :: 0 <= k < |ms| && ms[k][y][x]
  }

  /** The index of the last mask of `ms` that covers (y, x), or -1 when none does. */
  function TopMask(ms: seq<Mask>, y: int, x: int): (k: int)
    requires Within(ms, y, x)
    ensures -1 <= k < |ms|
    ensures k >= 0 ==> ms[k][y][x]
    ensures forall j :: k < j < |ms| ==> !ms[j][y][x]
    ensures k >= 0 <==> Covered(ms, y, x)
  {
    if |ms| == 0 then -1
    else if ms[|ms| - 1][y][x] then |ms| - 1
    else TopMask(ms[..|ms| - 1], y, x)
  }

  /** Channel c of pixel (y, x) after painting `ms` with `colours` over `background`. */
  function Layer<T>(ms: seq<Mask>, colours: seq<seq<T>>, y: int, x: int, c: nat, background: T): (v: T)
    requires Within(ms, y, x)
    requires |colours| >= |ms| && forall k :: 0 <= k < |ms| ==> c < |colours[k]|
    ensures !Covered(ms, y, x) ==> v == background
    ensures Covered(ms, y, x) ==>
              exists k :: 0 <= k < |ms| && ms[k][y][x] && v == colours[k][c] &&
                forall j :: k < j < |ms| ==> !ms[j][y][x]
  {
    var k := TopMask(ms, y, x);
    if k < 0 then background else colours[k][c]
  }

  /** Painting one more mask: it wins where it is true; elsewhere the earlier masks decide. */
  lemma TopMaskSnoc(ms: seq<Mask>, n: nat, y: int, x: int)
    requires n < |ms| && Within(ms, y, x)
    ensures TopMask(ms[..n + 1], y, x) == if ms[n][y][x] then n else TopMask(ms[..n], y, x)
  {
    assert ms[..n + 1][..n] == ms[..n];
  }

  /**
   * Writes v into channel ch of every pixel that `m` covers
   * (numpy `buffer[m, ch] = v`). No other sample changes.
   */
  method PaintChannel<T>(a: array3<T>, m: Mask, ch: nat, v: T)
    requires IsMask(m, a.Length0, a.Length1) && ch < a.Length2
    modifies a
    ensures forall y, x, c :: 0 <= y < a.Length0 && 0 <= x < a.Length1 && 0 <= c < a.Length2 ==>
              a[y, x, c] == if c == ch && m[y][x] then v else old(a[y, x, c])
  {
    var y := 0;
    while y < a.Length0
      invariant 0 <= y <= a.Length0
      invariant forall i, j, c :: 0 <= i < a.Length0 && 0 <= j < a.Length1 && 0 <= c < a.Length2 ==>
                  a[i, j, c] == if i < y && c == ch && m[i][j] then v else old(a[i, j, c])
    {
      var x := 0;
      while x < a.Length1
        invariant 0 <= x <= a.Length1
        invariant forall i, j, c :: 0 <= i < a.Length0 && 0 <= j < a.Length1 && 0 <= c < a.Length2 ==>
                    a[i, j, c] == if (i < y || (i == y && j < x)) && c == ch && m[i][j] then v else old(a[i, j, c])
      {
        if m[y][x] {
          a[y, x, ch] := v;
        }
        x := x + 1;
      }
      y := y + 1;
    }
  }

  /**
   * Writes `colour` into every pixel that `m` covers, one channel after
   * another (numpy `buffer[m] = colour`). No other pixel changes.
   */
  method PaintMask<T>(a: array3<T>, m: Mask, colour: seq<T>)
    requires IsMask(m, a.Length0, a.Length1) && |colour| == a.Length2
    modifies a
    ensures forall y, x, c :: 0 <= y < a.Length0 && 0 <= x < a.Length1 && 0 <= c < a.Length2 ==>
              a[y, x, c] == if m[y][x] then colour[c] else old(a[y, x, c])
  {
    var ch := 0;
    while ch < a.Length2
      invariant 0 <= ch <= a.Length2
      invariant forall y, x, c :: 0 <= y < a.Length0 && 0 <= x < a.Length1 && 0 <= c < a.Length2 ==>
                  a[y, x, c] == if c < ch && m[y][x] then colour[c] else old(a[y, x, c])
    {
      PaintChannel(a, m, ch, colour[ch]);
      ch := ch + 1;
    }
  }

  /**
   * Paints ms[0], ms[1], ... in that order, mask k with colours[k].
   * Each pixel ends with the colour of the last mask covering it and keeps
   * its initial value when no mask covers it.
   */
  method LayerMasks<T>(a: array3<T>, ms: seq<Mask>, colours: seq<seq<T>>)
    requires AllMasks(ms, a.Length0, a.Length1)
    requires |colours| >= |ms| && forall k :: 0 <= k < |ms| ==> |colours[k]| == a.Length2
    modifies a
    ensures forall y, x, c :: 0 <= y < a.Length0 && 0 <= x < a.Length1 && 0 <= c < a.Length2 ==>
              a[y, x, c] == Layer(ms, colours, y, x, c, old(a[y, x, c]))
  {
    var n := 0;
    while n < |ms|
      invariant 0 <= n <= |ms|
      invariant forall y, x, c :: 0 <= y < a.Length0 && 0 <= x < a.Length1 && 0 <= c < a.Length2 ==>
                  a[y, x, c] == Layer(ms[..n], colours, y, x, c, old(a[y, x, c]))
    {
      PaintMask(a, ms[n], colours[n]);
      forall y, x | 0 <= y < a.Length0 && 0 <= x < a.Length1
        ensures TopMask(ms[..n + 1], y, x) == if ms[n][y][x] then n else TopMask(ms[..n], y, x)
      {
        TopMaskSnoc(ms, n, y, x);
      }
      n := n + 1;
    }
    assert ms[..n] == ms;
  }
}
