/**
 * The annotation decoder of the prompted pipeline.
 *
 * The image-prompter widget reports every stroke as a flat 6-tuple
 * (x1, y1, kind, x2, y2, strokeType). A record is a positive point when
 * kind = 1 and strokeType = 4, a negative point when kind = 0 and
 * strokeType = 4, a box when kind = 2 and strokeType = 3; every other
 * record is dropped. Each output keeps the input order.
 */
module PromptDecoder {

  datatype Record = Record(x1: int, y1: int, kind: int, x2: int, y2: int, strokeType: int)

  datatype Point = Point(x: int, y: int)

  /** Opposite corners, in the order the widget reports them. */
  datatype Box = Box(x1: int, y1: int, x2: int, y2: int)

  datatype Category = PositivePoint | NegativePoint | BoxPrompt | Ignored

  datatype Prompts = Prompts(positive: seq<Point>, negative: seq<Point>, boxes: seq<Box>)

  const NegativeKind := 0
  const PositiveKind := 1
  const BoxKind := 2
  const BoxStroke := 3
  const PointStroke := 4

  /** The one output (or none) that a record is decoded into. */
  function Classify(r: Record): (c: Category)
    ensures c == PositivePoint <==> r.kind == 1 && r.strokeType == 4
    ensures c == NegativePoint <==> r.kind == 0 && r.strokeType == 4
    ensures c == BoxPrompt <==> r.kind == 2 && r.strokeType == 3
  {
    if r.kind == PositiveKind && r.strokeType == PointStroke then PositivePoint
    else if r.kind == NegativeKind && r.strokeType == PointStroke then NegativePoint
    else if r.kind == BoxKind && r.strokeType == BoxStroke then BoxPrompt
    else Ignored
  }

  /** The records of category `c`, in input order (numpy boolean indexing). */
  function Selected(rs: seq<Record>, c: Category): (out: seq<Record>)
    ensures |out| <= |rs|
    ensures forall k :: 0 <= k < |out| ==> Classify(out[k]) == c
  {
    if |rs| == 0 then []
    else Selected(rs[..|rs| - 1], c) + (if Classify(rs[|rs| - 1]) == c then [rs[|rs| - 1]] else [])
  }

  /** How many records of category `c` come before index i: where rs[i] lands. */
  function Rank(rs: seq<Record>, c: Category, i: nat): nat
    requires i <= |rs|
  {
    |Selected(rs[..i], c)|
  }

  /** Columns [0, 1] of a point record. */
  function PointOf(r: Record): Point
  {
    Point(r.x1, r.y1)
  }

  /** Columns [0, 1, 3, 4] of a box record. */
  function BoxOf(r: Record): Box
  {
    Box(r.x1, r.y1, r.x2, r.y2)
  }

  function PointsOf(rs: seq<Record>): (ps: seq<Point>)
  {
    seq(|rs|, k requires 0 <= k < |rs| => PointOf(rs[k]))
  }

  function BoxesOf(rs: seq<Record>): (bs: seq<Box>)
  {
    seq(|rs|, k requires 0 <= k < |rs| => BoxOf(rs[k]))
  }

  /**
   * Splits the annotation list into positive points, negative points and
   * boxes. The list must not be empty: on an empty list the column
   * selection of the original fails.
   */
  function Decode(rs: seq<Record>): (p: Prompts)
    requires |rs| > 0
    ensures |p.positive| + |p.negative| + |p.boxes| == |rs| - |Selected(rs, Ignored)|
  {
    PartitionCount(rs);
    Prompts(PointsOf(Selected(rs, PositivePoint)),
            PointsOf(Selected(rs, NegativePoint)),
            BoxesOf(Selected(rs, BoxPrompt)))
  }

  /** Every record lands in exactly one of the four categories. */
  lemma {:induction false} PartitionCount(rs: seq<Record>)
    ensures |Selected(rs, PositivePoint)| + |Selected(rs, NegativePoint)| +
            |Selected(rs, BoxPrompt)| + |Selected(rs, Ignored)| == |rs|
  {
    if |rs| > 0 {
      PartitionCount(rs[..|rs| - 1]);
    }
  }

  /** The selection from a prefix is a prefix of the selection. */
  lemma {:induction false} SelectedPrefix(rs: seq<Record>, c: Category, i: nat)
    requires i <= |rs|
    ensures Selected(rs[..i], c) <= Selected(rs, c)
    decreases |rs| - i
  {
    if i < |rs| {
      SelectedPrefix(rs, c, i + 1);
      assert rs[..i + 1][..i] == rs[..i];
    } else {
      assert rs[..i] == rs;
    }
  }

  /** A record of category c appears in Selected(rs, c), at its rank. */
  lemma SelectedPlacement(rs: seq<Record>, c: Category, i: nat)
    requires i < |rs| && Classify(rs[i]) == c
    ensures Rank(rs, c, i) < |Selected(rs, c)|
    ensures Selected(rs, c)[Rank(rs, c, i)] == rs[i]
  {
    SelectedPrefix(rs, c, i + 1);
    assert rs[..i + 1][..i] == rs[..i];
  }

  /** Ranks never decrease along the input, and grow past each selected record. */
  lemma RankMonotone(rs: seq<Record>, c: Category, i: nat, j: nat)
    requires i < j <= |rs|
    ensures Rank(rs, c, i) <= Rank(rs, c, j)
    ensures Classify(rs[i]) == c ==> Rank(rs, c, i) < Rank(rs, c, j)
  {
    SelectedPrefix(rs[..j], c, i + 1);
    assert rs[..j][..i + 1] == rs[..i + 1];
    assert rs[..i + 1][..i] == rs[..i];
  }

  /** Every selected record comes from a record of category c, at its rank. */
  lemma {:induction false} SelectedOrigin(rs: seq<Record>, c: Category, k: nat)
    requires k < |Selected(rs, c)|
    ensures exists i :: 0 <= i < |rs| && Classify(rs[i]) == c && Rank(rs, c, i) == k && Selected(rs, c)[k] == rs[i]
  {
    var n := |rs| - 1;
    var init := rs[..n];
    if k < |Selected(init, c)| {
      SelectedOrigin(init, c, k);
      var i :| 0 <= i < |init| && Classify(init[i]) == c && Rank(init, c, i) == k && Selected(init, c)[k] == init[i];
      assert init[..i] == rs[..i];
      assert Rank(rs, c, i) == k;
    } else {
      assert rs[..n] == init;
      assert Rank(rs, c, n) == k;
    }
  }

  /**
   * Decoding is faithful record by record: a positive (negative) point
   * record becomes the point (x1, y1) at its rank among the positive
   * (negative) records, a box record becomes (x1, y1, x2, y2) at its rank
   * among the box records.
   */
  lemma DecodePlacement(rs: seq<Record>, i: nat)
    requires 0 <= i < |rs|
    ensures Classify(rs[i]) == PositivePoint ==>
              Rank(rs, PositivePoint, i) < |Decode(rs).positive| &&
              Decode(rs).positive[Rank(rs, PositivePoint, i)] == Point(rs[i].x1, rs[i].y1)
    ensures Classify(rs[i]) == NegativePoint ==>
              Rank(rs, NegativePoint, i) < |Decode(rs).negative| &&
              Decode(rs).negative[Rank(rs, NegativePoint, i)] == Point(rs[i].x1, rs[i].y1)
    ensures Classify(rs[i]) == BoxPrompt ==>
              Rank(rs, BoxPrompt, i) < |Decode(rs).boxes| &&
              Decode(rs).boxes[Rank(rs, BoxPrompt, i)] == Box(rs[i].x1, rs[i].y1, rs[i].x2, rs[i].y2)
  {
    SelectedPlacement(rs, Classify(rs[i]), i);
  }

  /** Every decoded box comes from a box record, in input order. */
  lemma DecodeBoxOrigin(rs: seq<Record>, k: nat)
    requires |rs| > 0 && k < |Decode(rs).boxes|
    ensures exists i :: 0 <= i < |rs| && rs[i].kind == 2 && rs[i].strokeType == 3 &&
              Rank(rs, BoxPrompt, i) == k &&
              Decode(rs).boxes[k] == Box(rs[i].x1, rs[i].y1, rs[i].x2, rs[i].y2)
  {
    SelectedOrigin(rs, BoxPrompt, k);
  }

  /** Every decoded point comes from a point record of its polarity, in input order. */
  lemma DecodePointOrigin(rs: seq<Record>, positive: bool, k: nat)
    requires |rs| > 0
    requires k < |if positive then Decode(rs).positive else Decode(rs).negative|
    ensures exists i :: 0 <= i < |rs| && rs[i].strokeType == 4 && rs[i].kind == (if positive then 1 else 0) &&
              Rank(rs, if positive then PositivePoint else NegativePoint, i) == k &&
              (if positive then Decode(rs).positive else Decode(rs).negative)[k] == Point(rs[i].x1, rs[i].y1)
  {
    SelectedOrigin(rs, if positive then PositivePoint else NegativePoint, k);
  }

  /** A record whose kind and stroke type do not agree is in no output. */
  lemma DecodeDropsMismatched(rs: seq<Record>)
    requires |rs| > 0
    requires forall i :: 0 <= i < |rs| ==> Classify(rs[i]) == Ignored
    ensures Decode(rs) == Prompts([], [], [])
  {
    forall c | c != Ignored
      ensures Selected(rs, c) == []
    {
      if |Selected(rs, c)| > 0 {
        SelectedOrigin(rs, c, 0);
      }
    }
  }

  /** Decoding examples: one positive point, one box, one record whose kind and stroke type disagree. */
  lemma DecodeExamples()
    ensures Decode([Record(10, 10, 1, 0, 0, 4)]) == Prompts([Point(10, 10)], [], [])
    ensures Decode([Record(5, 5, 2, 50, 60, 3)]) == Prompts([], [], [Box(5, 5, 50, 60)])
    ensures Decode([Record(1, 1, 1, 0, 0, 3)]) == Prompts([], [], [])
  {
    var r1 := [Record(10, 10, 1, 0, 0, 4)];
    assert r1[..0] == [];
    var r2 := [Record(5, 5, 2, 50, 60, 3)];
    assert r2[..0] == [];
    var r3 := [Record(1, 1, 1, 0, 0, 3)];
    assert r3[..0] == [];
  }
}
