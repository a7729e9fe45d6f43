/**
 * The overlay of the automatic pipeline (`get_added_image`).
 *
 * The automatic mask generator returns mask records, each a mask and its
 * area. They are stably sorted by descending area and painted in that
 * order into a canvas of zeros, so that smaller regions, painted later,
 * stay visible over the larger ones. With no records the input image is
 * returned as it is.
 */
module AutoOverlay {
  import opened Grids
  import opened Layering

  datatype MaskRecord = MaskRecord(segmentation: Mask, area: int)

  predicate SortedByArea(s: seq<MaskRecord>)
  {
    forall i, j :: 0 <= i < j < |s| ==> s[i].area >= s[j].area
  }

  /** The records of area a, in their order in `s`. */
  function WithArea(s: seq<MaskRecord>, a: int): seq<MaskRecord>
  {
    if |s| == 0 then []
    else (if s[0].area == a then [s[0]] else []) + WithArea(s[1..], a)
  }

  /** Inserts x in front of the first record whose area is at most x's. */
  function Insert(x: MaskRecord, s: seq<MaskRecord>): (r: seq<MaskRecord>)
    ensures |r| == |s| + 1
    ensures multiset(r) == multiset(s) + multiset{x}
  {
    if |s| == 0 || x.area >= s[0].area then [x] + s
    else
      assert s == [s[0]] + s[1..];
      [s[0]] + Insert(x, s[1..])
  }

  /** Inserting a record under a bound on every area keeps the bound. */
  lemma {:induction false} InsertBounded(x: MaskRecord, s: seq<MaskRecord>, b: int)
    requires x.area <= b && forall k :: 0 <= k < |s| ==> s[k].area <= b
    ensures forall k :: 0 <= k < |Insert(x, s)| ==> Insert(x, s)[k].area <= b
  {
    if |s| > 0 && x.area < s[0].area {
      InsertBounded(x, s[1..], b);
      assert Insert(x, s) == [s[0]] + Insert(x, s[1..]);
    }
  }

  lemma {:induction false} InsertSorted(x: MaskRecord, s: seq<MaskRecord>)
    requires SortedByArea(s)
    ensures SortedByArea(Insert(x, s))
  {
    if |s| > 0 && x.area < s[0].area {
      var t := Insert(x, s[1..]);
      SortedTail(s);
      InsertSorted(x, s[1..]);
      InsertBounded(x, s[1..], s[0].area);
      var r := Insert(x, s);
      assert r == [s[0]] + t;
      forall i, j | 0 <= i < j < |r| ensures r[i].area >= r[j].area {
        if i == 0 {
          assert r[j] == t[j - 1];
        } else {
          assert r[i] == t[i - 1] && r[j] == t[j - 1];
        }
      }
    }
  }

  /**
   * The program's `sorted(masks, key=area, reverse=True)`: descending by
   * area, a permutation of the input, and stable (WithAreaStable).
   */
  function SortByArea(s: seq<MaskRecord>): (r: seq<MaskRecord>)
    ensures |r| == |s|
    ensures SortedByArea(r)
    ensures multiset(r) == multiset(s)
  {
    if |s| == 0 then []
    else
      assert s == [s[0]] + s[1..];
      InsertSorted(s[0], SortByArea(s[1..]));
      Insert(s[0], SortByArea(s[1..]))
  }

  lemma {:induction false} WithAreaConcat(s: seq<MaskRecord>, t: seq<MaskRecord>, a: int)
    ensures WithArea(s + t, a) == WithArea(s, a) + WithArea(t, a)
  {
    if |s| == 0 {
      assert s + t == t;
    } else {
      var head := if s[0].area == a then [s[0]] else [];
      assert (s + t)[0] == s[0];
      assert (s + t)[1..] == s[1..] + t;
      WithAreaConcat(s[1..], t, a);
      assert WithArea(s + t, a) == head + (WithArea(s[1..], a) + WithArea(t, a));
    }
  }

  lemma {:induction false} InsertStable(x: MaskRecord, s: seq<MaskRecord>, a: int)
    ensures WithArea(Insert(x, s), a) == (if x.area == a then [x] else []) + WithArea(s, a)
  {
    var own := if x.area == a then [x] else [];
    if |s| == 0 || x.area >= s[0].area {
      WithAreaConcat([x], s, a);
      assert WithArea([x], a) == own + WithArea([], a);
    } else {
      var head := if s[0].area == a then [s[0]] else [];
      var t := Insert(x, s[1..]);
      assert Insert(x, s) == [s[0]] + t;
      InsertStable(x, s[1..], a);
      WithAreaConcat([s[0]], t, a);
      assert WithArea([s[0]], a) == head + WithArea([], a);
      assert WithArea(s, a) == head + WithArea(s[1..], a);
      assert WithArea(Insert(x, s), a) == head + (own + WithArea(s[1..], a));
      assert x.area == a ==> head == [];
    }
  }

  /** Records of equal area keep their input order: the sort is stable. */
  lemma {:induction false} WithAreaStable(s: seq<MaskRecord>, a: int)
    ensures WithArea(SortByArea(s), a) == WithArea(s, a)
  {
    if |s| > 0 {
      WithAreaStable(s[1..], a);
      InsertStable(s[0], SortByArea(s[1..]), a);
    }
  }

  lemma {:induction false} WithAreaMembers(s: seq<MaskRecord>, a: int)
    ensures forall e :: e in WithArea(s, a) ==> e in s && e.area == a
  {
    if |s| > 0 {
      WithAreaMembers(s[1..], a);
    }
  }

  lemma WithAreaOfHead(s: seq<MaskRecord>)
    requires |s| > 0
    ensures WithArea(s, s[0].area) != []
  {
  }

  /** The first record of a sequence sorted by area has the largest area. */
  lemma SortedHeadLargest(s: seq<MaskRecord>, e: MaskRecord)
    requires SortedByArea(s) && e in s
    ensures e.area <= s[0].area
  {
    var i :| 0 <= i < |s| && s[i] == e;
    if i > 0 {
      assert s[0].area >= s[i].area;
    }
  }

  lemma SortedTail(s: seq<MaskRecord>)
    requires SortedByArea(s) && |s| > 0
    ensures SortedByArea(s[1..])
  {
    forall i, j | 0 <= i < j < |s| - 1 ensures s[1..][i].area >= s[1..][j].area {
      assert s[1..][i] == s[i + 1] && s[1..][j] == s[j + 1];
    }
  }

  /** Some record of area a occurs in t, so t's first record is at least that large. */
  lemma ClassHeadBound(t: seq<MaskRecord>, a: int)
    requires SortedByArea(t) && WithArea(t, a) != []
    ensures |t| > 0 && a <= t[0].area
  {
    WithAreaMembers(t, a);
    var e := WithArea(t, a)[0];
    assert e in WithArea(t, a);
    SortedHeadLargest(t, e);
  }

  /** Removing equal first records keeps the per-area classes equal. */
  lemma TailClasses(t: seq<MaskRecord>, u: seq<MaskRecord>, a: int)
    requires |t| > 0 && |u| > 0 && t[0] == u[0]
    requires WithArea(t, a) == WithArea(u, a)
    ensures WithArea(t[1..], a) == WithArea(u[1..], a)
  {
    var h := if t[0].area == a then [t[0]] else [];
    assert WithArea(t, a) == h + WithArea(t[1..], a);
    assert WithArea(u, a) == h + WithArea(u[1..], a);
    assert WithArea(t[1..], a) == (h + WithArea(t[1..], a))[|h|..];
    assert WithArea(u[1..], a) == (h + WithArea(u[1..], a))[|h|..];
  }

  /** Two sequences sorted by area with the same records of each area, in the same order, are equal. */
  lemma {:induction false} SortedWithSameClassesEqual(t: seq<MaskRecord>, u: seq<MaskRecord>)
    requires SortedByArea(t) && SortedByArea(u)
    requires forall a :: WithArea(t, a) == WithArea(u, a)
    ensures t == u
    decreases |t| + |u|
  {
    if |t| == 0 && |u| == 0 {
    } else if |t| == 0 {
      WithAreaOfHead(u);
      assert false;
    } else if |u| == 0 {
      WithAreaOfHead(t);
      assert false;
    } else {
      var ta, ua := t[0].area, u[0].area;
      WithAreaOfHead(t);
      WithAreaOfHead(u);
      ClassHeadBound(u, ta);
      ClassHeadBound(t, ua);
      assert ta == ua;
      assert WithArea(t, ta)[0] == t[0];
      assert WithArea(u, ta)[0] == u[0];
      forall a ensures WithArea(t[1..], a) == WithArea(u[1..], a) {
        TailClasses(t, u, a);
      }
      SortedTail(t);
      SortedTail(u);
      SortedWithSameClassesEqual(t[1..], u[1..]);
      assert t == [t[0]] + t[1..] && u == [u[0]] + u[1..];
    }
  }

  /**
   * SortByArea is the only stable descending sort: any sequence sorted by
   * descending area whose records of each area appear in input order is
   * SortByArea(s). So it agrees with Python's stable `sorted`.
   */
  lemma SortByAreaUnique(s: seq<MaskRecord>, t: seq<MaskRecord>)
    requires SortedByArea(t)
    requires forall a :: WithArea(t, a) == WithArea(s, a)
    ensures t == SortByArea(s)
  {
    forall a ensures WithArea(t, a) == WithArea(SortByArea(s), a) {
      WithAreaStable(s, a);
    }
    SortedWithSameClassesEqual(t, SortByArea(s));
  }

  function Segmentations(s: seq<MaskRecord>): (ms: seq<Mask>)
    ensures |ms| == |s|
    ensures forall k :: 0 <= k < |s| ==> ms[k] == s[k].segmentation
  {
    seq(|s|, k requires 0 <= k < |s| => s[k].segmentation)
  }

  /** Sorting keeps every mask's shape. */
  lemma SortedShapes(s: seq<MaskRecord>, h: nat, w: nat)
    requires AllMasks(Segmentations(s), h, w)
    ensures AllMasks(Segmentations(SortByArea(s)), h, w)
  {
    var ms := Segmentations(SortByArea(s));
    forall k | 0 <= k < |ms| ensures IsMask(ms[k], h, w) {
      var i := PositionInInput(s, k);
      assert Segmentations(s)[i] == ms[k];
    }
  }

  /**
   * The canvas of the automatic overlay: at every pixel the colour of the
   * smallest-area record covering it (SmallestOnTop), zero where no record
   * does (UncoveredStaysZero).
   */
  datatype AddedImage = Original(image: Image) | Layered(canvas: array3<real>)

  /**
   * `get_added_image`. The canvas takes its shape from the largest mask;
   * colours[k] is the colour drawn for the k-th record in sorted order.
   * The final 50/50 blend of image and canvas is not part of the model:
   * the result carries the canvas that is blended.
   */
  method GetAddedImage(anns: seq<MaskRecord>, image: Image, colours: seq<Colour>) returns (r: AddedImage)
    requires |anns| > 0 ==> AllMasks(Segmentations(anns), |anns[0].segmentation|, Width(anns[0].segmentation))
    requires |colours| >= |anns| && forall k :: 0 <= k < |anns| ==> |colours[k]| == 3
    ensures r.Original? <==> |anns| == 0
    ensures r.Original? ==> r.image == image
    ensures r.Layered? ==> fresh(r.canvas)
    ensures r.Layered? ==>
              var ms := Segmentations(SortByArea(anns));
              r.canvas.Length0 == |anns[0].segmentation| &&
              r.canvas.Length1 == Width(anns[0].segmentation) &&
              r.canvas.Length2 == 3 &&
              AllMasks(ms, r.canvas.Length0, r.canvas.Length1) &&
              forall y, x, c :: 0 <= y < r.canvas.Length0 && 0 <= x < r.canvas.Length1 && 0 <= c < 3 ==>
                r.canvas[y, x, c] == Layer(ms, colours, y, x, c, 0.0)
  {
    if |anns| == 0 {
      return Original(image);
    }
    var h, w := |anns[0].segmentation|, Width(anns[0].segmentation);
    var sorted := SortByArea(anns);
    SortedShapes(anns, h, w);
    var ms := Segmentations(sorted);
    assert IsMask(ms[0], h, w);
    var canvas := new real[|ms[0]|, Width(ms[0]), 3]((y, x, c) => 0.0);
    LayerMasks(canvas, ms, colours);
    r := Layered(canvas);
  }

  /** Every input record has a position in the sorted sequence. */
  lemma PositionInSorted(anns: seq<MaskRecord>, j: nat) returns (i: nat)
    requires j < |anns|
    ensures i < |anns| && SortByArea(anns)[i] == anns[j]
  {
    var s := SortByArea(anns);
    assert anns[j] in multiset(s);
    i :| 0 <= i < |s| && s[i] == anns[j];
  }

  /** Every sorted record comes from the input. */
  lemma PositionInInput(anns: seq<MaskRecord>, i: nat) returns (j: nat)
    requires i < |anns|
    ensures j < |anns| && anns[j] == SortByArea(anns)[i]
  {
    var s := SortByArea(anns);
    assert s[i] in multiset(anns);
    j :| 0 <= j < |anns| && anns[j] == s[i];
  }

  lemma SortedWithin(s: seq<MaskRecord>, y: int, x: int)
    requires Within(Segmentations(s), y, x)
    ensures Within(Segmentations(SortByArea(s)), y, x)
  {
    var ms := Segmentations(SortByArea(s));
    forall k | 0 <= k < |ms| ensures y < |ms[k]| && x < |ms[k][y]| {
      var i := PositionInInput(s, k);
      assert Segmentations(s)[i] == ms[k];
    }
  }

  /**
   * Whenever record j covers a pixel, the colour left there is that of a
   * record covering it whose area is at most anns[j]'s: larger regions
   * never hide smaller ones.
   */
  lemma SmallestOnTop(anns: seq<MaskRecord>, y: int, x: int, j: nat)
    requires Within(Segmentations(anns), y, x)
    requires j < |anns| && anns[j].segmentation[y][x]
    ensures Within(Segmentations(SortByArea(anns)), y, x)
    ensures var s := SortByArea(anns);
            var k := TopMask(Segmentations(s), y, x);
            0 <= k && s[k].segmentation[y][x] && s[k].area <= anns[j].area
  {
    var s := SortByArea(anns);
    SortedWithin(anns, y, x);
    var ms := Segmentations(s);
    var i := PositionInSorted(anns, j);
    assert ms[i][y][x];
    var k := TopMask(ms, y, x);
    assert i <= k;
    assert SortedByArea(s);
    assert i < k ==> s[i].area >= s[k].area;
  }

  /** A pixel that no record covers keeps the canvas's initial value. */
  lemma UncoveredStaysZero(anns: seq<MaskRecord>, y: int, x: int)
    requires Within(Segmentations(anns), y, x)
    requires forall j :: 0 <= j < |anns| ==> !anns[j].segmentation[y][x]
    ensures Within(Segmentations(SortByArea(anns)), y, x)
    ensures TopMask(Segmentations(SortByArea(anns)), y, x) == -1
  {
    SortedWithin(anns, y, x);
    var ms := Segmentations(SortByArea(anns));
    forall k | 0 <= k < |ms| ensures !ms[k][y][x] {
      var i := PositionInInput(anns, k);
      assert !Segmentations(anns)[i][y][x];
    }
  }

  /** Two overlapping records of different areas: the smaller one's colour is the one left. */
  lemma SmallerWinsOverlap(anns: seq<MaskRecord>, y: int, x: int, big: nat, small: nat)
    requires Within(Segmentations(anns), y, x)
    requires big < |anns| && small < |anns|
    requires anns[big].segmentation[y][x] && anns[small].segmentation[y][x]
    requires anns[small].area < anns[big].area
    ensures Within(Segmentations(SortByArea(anns)), y, x)
    ensures var k := TopMask(Segmentations(SortByArea(anns)), y, x);
            0 <= k && SortByArea(anns)[k] != anns[big]
  {
    SmallestOnTop(anns, y, x, small);
  }
}
