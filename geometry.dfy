/**
 * Axis-aligned boxes in page coordinates, the text blocks that carry them,
 * and the geometric helpers shared by the clusterer and the caption linker.
 * Coordinates are reals: floating-point rounding is not modelled.
 */
module Geometry {

  /** A box (x0, y0)-(x1, y1). Like the frozen dataclass it models, it does not check x0 <= x1 or y0 <= y1. */
  datatype BBox = BBox(x0: real, y0: real, x1: real, y1: real)

  /** A piece of page text and the box it occupies. */
  datatype TextBlock = TextBlock(text: string, bbox: BBox)

  predicate WellFormed(b: BBox) {
    b.x0 <= b.x1 && b.y0 <= b.y1
  }

  function Min(a: real, b: real): real { if b < a then b else a }
  function Max(a: real, b: real): real { if b > a then b else a }

  function Area(b: BBox): real {
    (b.x1 - b.x0) * (b.y1 - b.y0)
  }

  /** The closed box `outer` contains the closed box `inner`. */
  predicate Contains(outer: BBox, inner: BBox) {
    outer.x0 <= inner.x0 && outer.y0 <= inner.y0 && inner.x1 <= outer.x1 && inner.y1 <= outer.y1
  }

  /** The bounding box of two boxes: it contains both, and every box containing both contains it. */
  function Union(a: BBox, b: BBox): (r: BBox)
    ensures Contains(r, a) && Contains(r, b)
    ensures forall c :: Contains(c, a) && Contains(c, b) ==> Contains(c, r)
    ensures WellFormed(a) || WellFormed(b) ==> WellFormed(r)
  {
    BBox(Min(a.x0, b.x0), Min(a.y0, b.y0), Max(a.x1, b.x1), Max(a.y1, b.y1))
  }

  /** The two properties of Union determine it: any box with them is Union(a, b). */
  lemma {:induction false} UnionUnique(a: BBox, b: BBox, r: BBox)
    requires Contains(r, a) && Contains(r, b)
    requires forall c :: Contains(c, a) && Contains(c, b) ==> Contains(c, r)
    ensures r == Union(a, b)
  {
    var u := Union(a, b);
    assert Contains(u, r);
    assert Contains(r, u);
  }

  lemma {:induction false} UnionCommutative(a: BBox, b: BBox)
    ensures Union(a, b) == Union(b, a)
  {
  }

  lemma {:induction false} UnionAssociative(a: BBox, b: BBox, c: BBox)
    ensures Union(a, Union(b, c)) == Union(Union(a, b), c)
  {
  }

  /** The centre of a box, coordinate by coordinate. */
  function CentreX(b: BBox): real { (b.x0 + b.x1) / 2.0 }
  function CentreY(b: BBox): real { (b.y0 + b.y1) / 2.0 }

  /**
   * The square of the Euclidean distance between the centres of two boxes.
   * The sources compute the distance itself with `** 0.5`; the model compares squares instead
   * (see WithinDistanceIff and CloserIff).
   */
  function CentreDistSq(a: BBox, b: BBox): (r: real)
    ensures r >= 0.0
    ensures CentreX(a) == CentreX(b) && CentreY(a) == CentreY(b) ==> r == 0.0
  {
    SquareNonNegative(CentreX(b) - CentreX(a));
    SquareNonNegative(CentreY(b) - CentreY(a));
    (CentreX(b) - CentreX(a)) * (CentreX(b) - CentreX(a)) + (CentreY(b) - CentreY(a)) * (CentreY(b) - CentreY(a))
  }

  /** The squared distance from the differences of the centres. */
  lemma {:induction false} CentreDistSqOf(a: BBox, b: BBox, dx: real, dy: real)
    requires dx == CentreX(b) - CentreX(a) && dy == CentreY(b) - CentreY(a)
    ensures CentreDistSq(a, b) == dx * dx + dy * dy
  {
  }

  lemma {:induction false} SquareNonNegative(x: real)
    ensures x * x >= 0.0
  {
    if x < 0.0 {
      var y := -x;
      assert x * x == y * y;
      assert y * y > 0.0;
    }
  }

  lemma {:induction false} CentreDistSqSymmetric(a: BBox, b: BBox)
    ensures CentreDistSq(a, b) == CentreDistSq(b, a)
  {
  }

  /** A distance whose square is `d2` is at most `t`. */
  predicate WithinDistance(d2: real, t: real) {
    0.0 <= t && d2 <= t * t
  }

  /** For a distance d >= 0, WithinDistance on its square is exactly `d <= t`. */
  lemma {:induction false} WithinDistanceIff(d: real, t: real)
    requires d >= 0.0
    ensures WithinDistance(d * d, t) <==> d <= t
  {
    if d <= t {
      assert d * d <= d * t <= t * t;
    } else if 0.0 <= t {
      assert t * t <= t * d < d * d;
    }
  }

  /** For distances d1, d2 >= 0, comparing squares gives the same strict order. */
  lemma {:induction false} CloserIff(d1: real, d2: real)
    requires d1 >= 0.0 && d2 >= 0.0
    ensures d1 < d2 <==> d1 * d1 < d2 * d2
  {
    var p, q, r := d1 * d1, d1 * d2, d2 * d2;
    if d1 < d2 {
      assert p <= q;
      assert q < r;
    } else {
      assert r <= q;
      assert q <= p;
    }
  }
}
