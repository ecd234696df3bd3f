/**
 * Geometry normalisation of the text detector's output (ctpn/ctpn_boxes.py):
 * the resize factor, the conversion of detector quadrilaterals into
 * axis-aligned boxes, and the top-to-bottom ordering of those boxes.
 */
module CtpnBoxes {
  import opened Wrappers

  /** An axis-aligned box `[min_x, min_y, max_x, max_y]` in image pixels. */
  datatype Box = Box(xMin: int, yMin: int, xMax: int, yMax: int)

  /**
   * One detection row: the flat coordinates `box[0] .. box[7]`, read as the
   * corners (x0, y0), (x1, y1), (x2, y2), (x3, y3) in detector space.
   */
  datatype Quad = Quad(x0: real, y0: real, x1: real, y1: real, x2: real, y2: real, x3: real, y3: real)

  // ---------------------------------------------------------------------------
  // resize_im: the scale factor
  // ---------------------------------------------------------------------------

  function MinInt(a: int, b: int): int { if a <= b then a else b }
  function MaxInt(a: int, b: int): int { if a >= b then a else b }

  /**
   * The factor `f` of `resize_im` for an image of `h` rows and `w` columns:
   * the short side is scaled to `scale`, unless the long side would then
   * exceed `maxScale`, in which case the long side is scaled to `maxScale`.
   */
  function ResizeFactor(h: int, w: int, scale: real, maxScale: Option<real>): (f: real)
    requires h > 0 && w > 0
    ensures maxScale.None? ==> f * MinInt(h, w) as real == scale
    ensures maxScale.Some? ==> f * MaxInt(h, w) as real <= maxScale.value
    ensures maxScale.Some? ==>
      || (f * MinInt(h, w) as real == scale && f * MaxInt(h, w) as real <= maxScale.value)
      || (f * MaxInt(h, w) as real == maxScale.value && f * MinInt(h, w) as real < scale)
    ensures maxScale.Some? ==>
      (f * MaxInt(h, w) as real == maxScale.value && f * MinInt(h, w) as real < scale
       <==> scale * MaxInt(h, w) as real > maxScale.value * MinInt(h, w) as real)
  {
    var short, long := MinInt(h, w) as real, MaxInt(h, w) as real;
    var f := scale / short;
    if maxScale.Some? && f * long > maxScale.value then maxScale.value / long else f
  }

  // ---------------------------------------------------------------------------
  // get_boxes
  // ---------------------------------------------------------------------------

  function Abs(x: real): real { if x < 0.0 then -x else x }

  /** The threshold below which `get_boxes` drops a detection. */
  const MinEdge: real := 5.0

  /**
   * The filter of `get_boxes`. Because a detection is a flat row, what the
   * source computes as `norm(box[0] - box[1])` and `norm(box[3] - box[0])` is
   * `|x0 - y0|` and `|y1 - x0|`.
   */
  predicate Dropped(q: Quad): (d: bool)
    ensures d <==> (-MinEdge < q.x0 - q.y0 < MinEdge) || (-MinEdge < q.y1 - q.x0 < MinEdge)
  {
    Abs(q.x0 - q.y0) < MinEdge || Abs(q.y1 - q.x0) < MinEdge
  }

  function Min4(a: int, b: int, c: int, d: int): (m: int)
    ensures m <= a && m <= b && m <= c && m <= d
    ensures m == a || m == b || m == c || m == d
  {
    MinInt(MinInt(MinInt(a, b), c), d)
  }

  function Max4(a: int, b: int, c: int, d: int): (m: int)
    ensures m >= a && m >= b && m >= c && m >= d
    ensures m == a || m == b || m == c || m == d
  {
    MaxInt(MaxInt(MaxInt(a, b), c), d)
  }

  predicate WellFormed(b: Box) {
    b.xMin <= b.xMax && b.yMin <= b.yMax
  }

  /** The box contains the image-space point (x, y). */
  predicate Inside(b: Box, x: int, y: int) {
    b.xMin <= x <= b.xMax && b.yMin <= y <= b.yMax
  }

  /**
   * The descaled corners of `q`; `descale` stands for `int(c / scale)`.
   */
  function Corners(q: Quad, descale: real -> int): seq<(int, int)> {
    [(descale(q.x0), descale(q.y0)), (descale(q.x1), descale(q.y1)),
     (descale(q.x2), descale(q.y2)), (descale(q.x3), descale(q.y3))]
  }

  /**
   * The bounding box of the descaled corners of `q`: every corner lies
   * inside it, and each of its four bounds is attained by some corner.
   */
  function BoundingBox(q: Quad, descale: real -> int): (b: Box)
    ensures WellFormed(b)
    ensures forall c :: c in Corners(q, descale) ==> Inside(b, c.0, c.1)
    ensures exists c :: c in Corners(q, descale) && c.0 == b.xMin
    ensures exists c :: c in Corners(q, descale) && c.0 == b.xMax
    ensures exists c :: c in Corners(q, descale) && c.1 == b.yMin
    ensures exists c :: c in Corners(q, descale) && c.1 == b.yMax
  {
    var xa, xb, xc, xd := descale(q.x0), descale(q.x1), descale(q.x2), descale(q.x3);
    var ya, yb, yc, yd := descale(q.y0), descale(q.y1), descale(q.y2), descale(q.y3);
    var cs := Corners(q, descale);
    assert cs[0] in cs && cs[1] in cs && cs[2] in cs && cs[3] in cs;
    Box(Min4(xa, xb, xc, xd), Min4(ya, yb, yc, yd), Max4(xa, xb, xc, xd), Max4(ya, yb, yc, yd))
  }

  /** The specification of `get_boxes`: the bounding boxes of the kept detections, in input order. */
  function DetectedBoxes(quads: seq<Quad>, descale: real -> int): (r: seq<Box>)
    ensures |r| <= |quads|
    ensures forall i :: 0 <= i < |r| ==> WellFormed(r[i])
  {
    if quads == [] then []
    else
      var last := quads[|quads| - 1];
      DetectedBoxes(quads[..|quads| - 1], descale) + (if Dropped(last) then [] else [BoundingBox(last, descale)])
  }

  /** The indices of the kept detections, in increasing order. */
  function KeptIndices(quads: seq<Quad>): (r: seq<nat>)
    ensures forall j :: 0 <= j < |r| ==> r[j] < |quads| && !Dropped(quads[r[j]])
    ensures forall j, k :: 0 <= j < k < |r| ==> r[j] < r[k]
    ensures forall i :: 0 <= i < |quads| && !Dropped(quads[i]) ==> i in r
  {
    if quads == [] then []
    else
      var n := |quads| - 1;
      var prefix := KeptIndices(quads[..n]);
      assert forall i :: 0 <= i < n ==> quads[..n][i] == quads[i];
      prefix + (if Dropped(quads[n]) then [] else [n])
  }

  /**
   * `get_boxes` emits exactly one box per kept detection, in the order of the
   * detections: the j-th box is the bounding box of the j-th kept quad.
   */
  lemma {:induction false} DetectedBoxesAreKeptQuads(quads: seq<Quad>, descale: real -> int)
    ensures |DetectedBoxes(quads, descale)| == |KeptIndices(quads)|
    ensures forall j :: 0 <= j < |KeptIndices(quads)| ==>
      DetectedBoxes(quads, descale)[j] == BoundingBox(quads[KeptIndices(quads)[j]], descale)
  {
    if quads != [] {
      var n := |quads| - 1;
      var prefix := quads[..n];
      DetectedBoxesAreKeptQuads(prefix, descale);
      var ks, ds := KeptIndices(prefix), DetectedBoxes(prefix, descale);
      var k, d := KeptIndices(quads), DetectedBoxes(quads, descale);
      if Dropped(quads[n]) {
        assert k == ks && d == ds;
      } else {
        assert k == ks + [n] && d == ds + [BoundingBox(quads[n], descale)];
      }
      forall j | 0 <= j < |k| ensures d[j] == BoundingBox(quads[k[j]], descale) {
        if j < |ks| {
          assert d[j] == ds[j] && k[j] == ks[j] && prefix[ks[j]] == quads[ks[j]];
        }
      }
    }
  }

  /** A detection is dropped exactly when the filter says so, whatever the scale. */
  lemma {:induction false} DroppedQuadsEmitNothing(quads: seq<Quad>, descale: real -> int)
    requires forall i :: 0 <= i < |quads| ==> Dropped(quads[i])
    ensures DetectedBoxes(quads, descale) == []
  {
    if quads != [] {
      DroppedQuadsEmitNothing(quads[..|quads| - 1], descale);
    }
  }

  /** `get_boxes`: a loop that appends the bounding box of every detection that passes the filter. */
  method GetBoxes(quads: seq<Quad>, descale: real -> int) returns (boxes: seq<Box>)
    ensures boxes == DetectedBoxes(quads, descale)
  {
    boxes := [];
    for i := 0 to |quads|
      invariant boxes == DetectedBoxes(quads[..i], descale)
    {
      var q := quads[i];
      assert quads[..i + 1][..i] == quads[..i];
      if Dropped(q) {
        continue;
      }
      boxes := boxes + [BoundingBox(q, descale)];
    }
    assert quads[..|quads|] == quads;
  }

  // ---------------------------------------------------------------------------
  // bboxes.sort(key=lambda x: x[1]): a stable sort on y_min
  // ---------------------------------------------------------------------------

  predicate SortedByYMin(s: seq<Box>) {
    forall i, j :: 0 <= i < j < |s| ==> s[i].yMin <= s[j].yMin
  }

  /** The boxes of `s` whose `y_min` is `y`, in their order in `s`. */
  function WithYMin(s: seq<Box>, y: int): seq<Box> {
    if s == [] then []
    else (if s[0].yMin == y then [s[0]] else []) + WithYMin(s[1..], y)
  }

  /** Insert `b` before the first element whose `y_min` is not below its own. */
  function InsertByYMin(b: Box, s: seq<Box>): seq<Box> {
    if s == [] || b.yMin <= s[0].yMin then [b] + s
    else [s[0]] + InsertByYMin(b, s[1..])
  }

  /** The number of leading boxes of `s` whose `y_min` is below `y`. */
  function InsertionPoint(y: int, s: seq<Box>): (k: nat)
    ensures k <= |s|
    ensures forall i :: 0 <= i < k ==> s[i].yMin < y
    ensures k < |s| ==> y <= s[k].yMin
  {
    if s == [] || y <= s[0].yMin then 0 else 1 + InsertionPoint(y, s[1..])
  }

  /** `b` goes in after every box with a smaller `y_min` and before the first other box; nothing else moves. */
  lemma {:induction false} InsertAtPoint(b: Box, s: seq<Box>)
    ensures InsertByYMin(b, s) == s[..InsertionPoint(b.yMin, s)] + [b] + s[InsertionPoint(b.yMin, s)..]
  {
    if s == [] || b.yMin <= s[0].yMin {
      assert s[..0] + [b] + s[0..] == [b] + s;
    } else {
      InsertAtPoint(b, s[1..]);
      var k := InsertionPoint(b.yMin, s[1..]);
      assert s[..k + 1] == [s[0]] + s[1..][..k];
      assert s[k + 1..] == s[1..][k..];
    }
  }

  /** A stable sort of `s` by `y_min` (the effect of Python's `list.sort` with that key). */
  function SortByYMin(s: seq<Box>): (r: seq<Box>)
    ensures SortedByYMin(r)
    ensures multiset(r) == multiset(s)
  {
    if s == [] then []
    else
      var t := SortByYMin(s[1..]);
      InsertSorted(s[0], t);
      InsertPermutes(s[0], t);
      assert s == [s[0]] + s[1..];
      InsertByYMin(s[0], t)
  }

  lemma {:induction false} InsertPermutes(b: Box, s: seq<Box>)
    ensures multiset(InsertByYMin(b, s)) == multiset{b} + multiset(s)
  {
    if s != [] && b.yMin > s[0].yMin {
      InsertPermutes(b, s[1..]);
      assert s == [s[0]] + s[1..];
    }
  }

  lemma {:induction false} InsertSorted(b: Box, s: seq<Box>)
    requires SortedByYMin(s)
    ensures SortedByYMin(InsertByYMin(b, s))
    ensures forall c :: c in InsertByYMin(b, s) ==> c == b || c in s
  {
    if s != [] && b.yMin > s[0].yMin {
      InsertSorted(b, s[1..]);
      var t := InsertByYMin(b, s[1..]);
      assert forall c :: c in t ==> s[0].yMin <= c.yMin;
    }
  }

  lemma WithYMinCons(c: Box, s: seq<Box>, y: int)
    ensures WithYMin([c] + s, y) == (if c.yMin == y then [c] else []) + WithYMin(s, y)
  {
    assert ([c] + s)[1..] == s;
  }

  /** Insertion keeps, for every key, the order of the boxes with that key, with `b` first. */
  lemma {:induction false} InsertStable(b: Box, s: seq<Box>, y: int)
    ensures WithYMin(InsertByYMin(b, s), y) == WithYMin([b] + s, y)
  {
    if s != [] && b.yMin > s[0].yMin {
      var t := s[1..];
      InsertStable(b, t, y);
      assert s == [s[0]] + t;
      WithYMinCons(s[0], InsertByYMin(b, t), y);
      WithYMinCons(b, t, y);
      WithYMinCons(b, s, y);
      WithYMinCons(s[0], t, y);
    }
  }

  /** The sort is stable: boxes with the same `y_min` keep their relative order. */
  lemma {:induction false} SortStable(s: seq<Box>, y: int)
    ensures WithYMin(SortByYMin(s), y) == WithYMin(s, y)
  {
    if s != [] {
      SortStable(s[1..], y);
      InsertStable(s[0], SortByYMin(s[1..]), y);
      WithYMinCons(s[0], SortByYMin(s[1..]), y);
      WithYMinCons(s[0], s[1..], y);
      assert s == [s[0]] + s[1..];
    }
  }

  lemma {:induction false} WithYMinMembers(s: seq<Box>, y: int)
    ensures forall c :: c in WithYMin(s, y) <==> c in s && c.yMin == y
  {
    if s != [] {
      WithYMinMembers(s[1..], y);
      WithYMinCons(s[0], s[1..], y);
      assert s == [s[0]] + s[1..];
    }
  }

  /**
   * A stable sort by `y_min` has only one possible result: two sequences that
   * are both sorted by `y_min` and agree on the boxes of every key are equal.
   * So `SortByYMin` is exactly what Python's stable `list.sort` produces.
   */
  lemma {:induction false} StableSortUnique(a: seq<Box>, b: seq<Box>)
    requires SortedByYMin(a) && SortedByYMin(b)
    requires forall y :: WithYMin(a, y) == WithYMin(b, y)
    ensures a == b
    decreases |a| + |b|
  {
    if a != [] && b != [] {
      var ya, yb := a[0].yMin, b[0].yMin;
      WithYMinMembers(a, yb);
      WithYMinMembers(b, ya);
      WithYMinMembers(a, ya);
      WithYMinMembers(b, yb);
      assert a[0] in WithYMin(a, ya) && b[0] in WithYMin(b, yb);
      assert ya == yb;
      WithYMinCons(a[0], a[1..], ya);
      WithYMinCons(b[0], b[1..], ya);
      assert a == [a[0]] + a[1..] && b == [b[0]] + b[1..];
      assert WithYMin(a, ya)[0] == a[0] && WithYMin(b, ya)[0] == b[0];
      assert a[0] == b[0];
      forall y ensures WithYMin(a[1..], y) == WithYMin(b[1..], y) {
        WithYMinCons(a[0], a[1..], y);
        WithYMinCons(b[0], b[1..], y);
        var ha := if a[0].yMin == y then [a[0]] else [];
        assert WithYMin(a, y) == ha + WithYMin(a[1..], y);
        assert WithYMin(b, y) == ha + WithYMin(b[1..], y);
        assert WithYMin(a[1..], y) == WithYMin(a, y)[|ha|..];
        assert WithYMin(b[1..], y) == WithYMin(b, y)[|ha|..];
      }
      StableSortUnique(a[1..], b[1..]);
    } else if a != [] {
      WithYMinMembers(a, a[0].yMin);
      WithYMinMembers(b, a[0].yMin);
    } else if b != [] {
      WithYMinMembers(a, b[0].yMin);
      WithYMinMembers(b, b[0].yMin);
    }
  }

  /**
   * The end of `ctpn_boxes`: the detections turned into boxes by `get_boxes`
   * and sorted in place by `y_min`, top to bottom.
   */
  method OrderedBoxes(quads: seq<Quad>, descale: real -> int) returns (bboxes: seq<Box>)
    ensures SortedByYMin(bboxes)
    ensures multiset(bboxes) == multiset(DetectedBoxes(quads, descale))
    ensures forall y :: WithYMin(bboxes, y) == WithYMin(DetectedBoxes(quads, descale), y)
    ensures forall i :: 0 <= i < |bboxes| ==> WellFormed(bboxes[i])
  {
    bboxes := GetBoxes(quads, descale);
    ghost var detected := bboxes;
    bboxes := SortByYMin(bboxes);
    forall y ensures WithYMin(bboxes, y) == WithYMin(detected, y) {
      SortStable(detected, y);
    }
    forall i | 0 <= i < |bboxes| ensures WellFormed(bboxes[i]) {
      assert bboxes[i] in multiset(detected);
    }
  }
}
