/**
 * Figure clustering: layout elements are folded into figure objects by repeated
 * greedy passes until a pass merges nothing.
 */
module FigureClusterer {
  import opened Geometry
  import opened LayoutAnalyzer

  /** A group of layout elements treated as one figure. */
  datatype FigureObject = FigureObject(bbox: BBox, elements: seq<LayoutElement>, confidence: real)

  /** The two thresholds a clusterer is configured with. */
  datatype Clusterer = Clusterer(distanceThreshold: real, overlapThreshold: real)

  /** The defaults of the clusterer's constructor. */
  const DefaultClusterer := Clusterer(50.0, 0.3)

  // ---------------------------------------------------------------------------
  // Pairwise merge

  /**
   * `FigureObject.merge`: a new figure whose box is the bounding box of both boxes, whose
   * elements are this figure's followed by the other's, and whose confidence is the mean.
   */
  function Merge(a: FigureObject, b: FigureObject): (r: FigureObject)
    ensures Contains(r.bbox, a.bbox) && Contains(r.bbox, b.bbox)
    ensures forall c :: Contains(c, a.bbox) && Contains(c, b.bbox) ==> Contains(c, r.bbox)
    ensures |r.elements| == |a.elements| + |b.elements|
    ensures r.elements[..|a.elements|] == a.elements && r.elements[|a.elements|..] == b.elements
    ensures r.confidence == (a.confidence + b.confidence) / 2.0
    ensures Min(a.confidence, b.confidence) <= r.confidence <= Max(a.confidence, b.confidence)
  {
    FigureObject(Union(a.bbox, b.bbox), a.elements + b.elements, (a.confidence + b.confidence) / 2.0)
  }

  // ---------------------------------------------------------------------------
  // Geometric tests

  /** The widths of the intersection of two boxes along each axis, 0.0 where they do not meet. */
  function XOverlap(a: BBox, b: BBox): real { Max(0.0, Min(a.x1, b.x1) - Max(a.x0, b.x0)) }
  function YOverlap(a: BBox, b: BBox): real { Max(0.0, Min(a.y1, b.y1) - Max(a.y0, b.y0)) }

  /**
   * `_calculate_overlap`: the area of the intersection over the smaller of the two areas,
   * 0.0 when the intersection is empty or the smaller area is not positive. The result always
   * lies in [0, 1], also for boxes with x0 > x1 or y0 > y1, whose intersection is empty.
   */
  function OverlapRatio(a: BBox, b: BBox): (r: real)
    ensures 0.0 <= r <= 1.0
  {
    OverlapAreaBelowMin(a, b);
    Ratio(XOverlap(a, b) * YOverlap(a, b), Min(Area(a), Area(b)))
  }

  /** An overlap area over a reference area, 0.0 when the overlap is 0.0 or the reference is not positive. */
  function Ratio(overlapArea: real, minArea: real): (r: real)
    ensures overlapArea == 0.0 || 0.0 <= overlapArea <= minArea ==> 0.0 <= r <= 1.0
  {
    if overlapArea == 0.0 then 0.0
    else if minArea > 0.0 then DivAtMostOne(overlapArea, minArea); overlapArea / minArea
    else 0.0
  }

  lemma {:induction false} OverlapRatioSymmetric(a: BBox, b: BBox)
    ensures OverlapRatio(a, b) == OverlapRatio(b, a)
  {
    assert XOverlap(a, b) == XOverlap(b, a) && YOverlap(a, b) == YOverlap(b, a);
    assert Min(Area(a), Area(b)) == Min(Area(b), Area(a));
  }

  lemma {:induction false} MulMonotone(a: real, b: real, c: real, d: real)
    requires 0.0 <= a <= c && 0.0 <= b <= d
    ensures 0.0 <= a * b <= c * d
  {
    assert a * b <= c * b;
    assert c * b <= c * d;
  }

  lemma {:induction false} DivAtMostOne(p: real, m: real)
    requires 0.0 < m
    ensures 0.0 <= p <= m ==> 0.0 <= p / m <= 1.0
  {
    var q := p / m;
    assert q * m == p;
  }

  /** Against a well-formed box, the intersection area lies between 0 and that box's area. */
  lemma {:induction false} OverlapAreaWithin(a: BBox, b: BBox)
    requires WellFormed(a)
    ensures 0.0 <= XOverlap(a, b) * YOverlap(a, b) <= Area(a)
    ensures XOverlap(a, b) * YOverlap(a, b) == XOverlap(b, a) * YOverlap(b, a)
  {
    var xo, yo := XOverlap(a, b), YOverlap(a, b);
    assert 0.0 <= xo <= a.x1 - a.x0;
    assert 0.0 <= yo <= a.y1 - a.y0;
    MulMonotone(xo, yo, a.x1 - a.x0, a.y1 - a.y0);
    assert XOverlap(b, a) == xo && YOverlap(b, a) == yo;
  }

  /** The intersection area is 0.0 or at most the smaller area; it is 0.0 when either box has x0 > x1 or y0 > y1. */
  lemma {:induction false} OverlapAreaBelowMin(a: BBox, b: BBox)
    ensures var p := XOverlap(a, b) * YOverlap(a, b); p == 0.0 || 0.0 <= p <= Min(Area(a), Area(b))
    ensures !(WellFormed(a) && WellFormed(b)) ==> XOverlap(a, b) * YOverlap(a, b) == 0.0
  {
    if WellFormed(a) && WellFormed(b) {
      OverlapAreaWithin(a, b);
      OverlapAreaWithin(b, a);
    } else {
      assert XOverlap(a, b) == 0.0 || YOverlap(a, b) == 0.0;
    }
  }

  /** A well-formed box with positive area overlaps itself completely. */
  lemma {:induction false} OverlapRatioIdentical(a: BBox)
    requires WellFormed(a) && Area(a) > 0.0
    ensures OverlapRatio(a, a) == 1.0
  {
    assert XOverlap(a, a) == a.x1 - a.x0;
    assert YOverlap(a, a) == a.y1 - a.y0;
    var p := Area(a);
    assert Min(p, p) == p;
    assert p / p == 1.0;
  }

  /** The open interiors of two boxes share a rectangle of positive area. */
  predicate InteriorsIntersect(a: BBox, b: BBox) {
    Max(a.x0, b.x0) < Min(a.x1, b.x1) && Max(a.y0, b.y0) < Min(a.y1, b.y1)
  }

  /** The ratio is positive exactly when the interiors intersect, so it is 0.0 for disjoint or touching boxes. */
  lemma {:induction false} OverlapRatioPositiveIff(a: BBox, b: BBox)
    ensures OverlapRatio(a, b) > 0.0 <==> InteriorsIntersect(a, b)
  {
    var xo, yo := XOverlap(a, b), YOverlap(a, b);
    if InteriorsIntersect(a, b) {
      assert xo > 0.0 && yo > 0.0;
      var wa, ha, wb, hb := a.x1 - a.x0, a.y1 - a.y0, b.x1 - b.x0, b.y1 - b.y0;
      assert wa > 0.0 && ha > 0.0 && wb > 0.0 && hb > 0.0;
      assert xo * yo > 0.0;
      assert Area(a) == wa * ha && wa * ha > 0.0;
      assert Area(b) == wb * hb && wb * hb > 0.0;
      var minArea := Min(Area(a), Area(b));
      assert minArea > 0.0;
      assert xo * yo / minArea > 0.0;
    } else {
      assert xo == 0.0 || yo == 0.0;
      assert xo * yo == 0.0;
    }
  }

  /**
   * `_should_merge`: the overlap ratio reaches the overlap threshold, or the centre distance is
   * at most the distance threshold (stated on the squared distance, see Geometry.WithinDistanceIff).
   */
  predicate ShouldMerge(c: Clusterer, a: BBox, b: BBox) {
    OverlapRatio(a, b) >= c.overlapThreshold || WithinDistance(CentreDistSq(a, b), c.distanceThreshold)
  }

  /**
   * Two cases where the test passes whatever the boxes: an overlap threshold of at most 0,
   * since the ratio is never negative, and boxes with the same centre under a non-negative
   * distance threshold.
   */
  lemma {:induction false} ShouldMergeAlways(c: Clusterer, a: BBox, b: BBox)
    ensures c.overlapThreshold <= 0.0 ==> ShouldMerge(c, a, b)
    ensures 0.0 <= c.distanceThreshold && CentreX(a) == CentreX(b) && CentreY(a) == CentreY(b) ==> ShouldMerge(c, a, b)
  {
    if 0.0 <= c.distanceThreshold {
      MulMonotone(0.0, 0.0, c.distanceThreshold, c.distanceThreshold);
    }
  }

  /** Stated with the real centre distance d (d >= 0, d * d the squared distance). */
  lemma {:induction false} ShouldMergeIff(c: Clusterer, a: BBox, b: BBox, d: real)
    requires d >= 0.0 && d * d == CentreDistSq(a, b)
    ensures ShouldMerge(c, a, b) <==> OverlapRatio(a, b) >= c.overlapThreshold || d <= c.distanceThreshold
  {
    WithinDistanceIff(d, c.distanceThreshold);
  }

  lemma {:induction false} ShouldMergeSymmetric(c: Clusterer, a: BBox, b: BBox)
    ensures ShouldMerge(c, a, b) <==> ShouldMerge(c, b, a)
  {
    OverlapRatioSymmetric(a, b);
    CentreDistSqSymmetric(a, b);
  }

  // ---------------------------------------------------------------------------
  // What a figure's fields mean

  /** The elements of a sequence of figures, figure by figure. */
  function Flatten(fs: seq<FigureObject>): seq<LayoutElement>
  {
    if fs == [] then [] else fs[0].elements + Flatten(fs[1..])
  }

  /** The bounding box of the boxes of a non-empty sequence of elements. */
  function Hull(es: seq<LayoutElement>): BBox
    requires |es| > 0
  {
    if |es| == 1 then es[0].bbox else Union(Hull(es[..|es| - 1]), es[|es| - 1].bbox)
  }

  function MinConfidence(es: seq<LayoutElement>): real
    requires |es| > 0
  {
    if |es| == 1 then es[0].confidence else Min(MinConfidence(es[..|es| - 1]), es[|es| - 1].confidence)
  }

  function MaxConfidence(es: seq<LayoutElement>): real
    requires |es| > 0
  {
    if |es| == 1 then es[0].confidence else Max(MaxConfidence(es[..|es| - 1]), es[|es| - 1].confidence)
  }

  /**
   * The invariant every figure of the clusterer keeps: it has elements, its box is their
   * hull, and its confidence lies between the smallest and largest confidence among them.
   */
  predicate Coherent(f: FigureObject) {
    && |f.elements| > 0
    && f.bbox == Hull(f.elements)
    && MinConfidence(f.elements) <= f.confidence <= MaxConfidence(f.elements)
  }

  predicate AllCoherent(fs: seq<FigureObject>) {
    forall k :: 0 <= k < |fs| ==> Coherent(fs[k])
  }

  /** No pair i < j of figures satisfies the merge test. */
  predicate NoMergeablePair(c: Clusterer, fs: seq<FigureObject>) {
    forall i, j :: 0 <= i < j < |fs| ==> !ShouldMerge(c, fs[i].bbox, fs[j].bbox)
  }

  function Singleton(e: LayoutElement): FigureObject {
    FigureObject(e.bbox, [e], e.confidence)
  }

  /** The figures `group` starts from: one singleton per element, in order. */
  function Singletons(es: seq<LayoutElement>): seq<FigureObject> {
    seq(|es|, k requires 0 <= k < |es| => Singleton(es[k]))
  }

  /** Hull contains every element's box and is contained in every box that contains them all. */
  lemma {:induction false} HullIsBoundingBox(es: seq<LayoutElement>)
    requires |es| > 0
    ensures forall k :: 0 <= k < |es| ==> Contains(Hull(es), es[k].bbox)
    ensures forall c :: (forall k :: 0 <= k < |es| ==> Contains(c, es[k].bbox)) ==> Contains(c, Hull(es))
  {
    if |es| > 1 {
      var init := es[..|es| - 1];
      HullIsBoundingBox(init);
      forall c | forall k :: 0 <= k < |es| ==> Contains(c, es[k].bbox)
        ensures Contains(c, Hull(es))
      {
        assert forall k :: 0 <= k < |init| ==> init[k] == es[k];
      }
    }
  }

  lemma {:induction false} HullConcat(a: seq<LayoutElement>, b: seq<LayoutElement>)
    requires |a| > 0 && |b| > 0
    ensures Hull(a + b) == Union(Hull(a), Hull(b))
    decreases |b|
  {
    if |b| == 1 {
      assert (a + b)[..|a + b| - 1] == a;
    } else {
      var init := b[..|b| - 1];
      assert (a + b)[..|a + b| - 1] == a + init;
      HullConcat(a, init);
      UnionAssociative(Hull(a), Hull(init), b[|b| - 1].bbox);
    }
  }

  lemma {:induction false} ConfidenceConcat(a: seq<LayoutElement>, b: seq<LayoutElement>)
    requires |a| > 0 && |b| > 0
    ensures MinConfidence(a + b) == Min(MinConfidence(a), MinConfidence(b))
    ensures MaxConfidence(a + b) == Max(MaxConfidence(a), MaxConfidence(b))
    decreases |b|
  {
    if |b| == 1 {
      assert (a + b)[..|a + b| - 1] == a;
    } else {
      var init := b[..|b| - 1];
      assert (a + b)[..|a + b| - 1] == a + init;
      ConfidenceConcat(a, init);
    }
  }

  lemma {:induction false} ConfidenceBounds(es: seq<LayoutElement>, lo: real, hi: real)
    requires |es| > 0
    requires forall k :: 0 <= k < |es| ==> lo <= es[k].confidence <= hi
    ensures lo <= MinConfidence(es) && MaxConfidence(es) <= hi
  {
    if |es| > 1 {
      ConfidenceBounds(es[..|es| - 1], lo, hi);
    }
  }

  /** Merging two coherent figures gives a coherent figure. */
  lemma {:induction false} MergeCoherent(a: FigureObject, b: FigureObject)
    requires Coherent(a) && Coherent(b)
    ensures Coherent(Merge(a, b))
  {
    HullConcat(a.elements, b.elements);
    ConfidenceConcat(a.elements, b.elements);
  }

  lemma {:induction false} FlattenConcat(a: seq<FigureObject>, b: seq<FigureObject>)
    ensures Flatten(a + b) == Flatten(a) + Flatten(b)
  {
    if a != [] {
      assert (a + b)[0] == a[0];
      assert (a + b)[1..] == a[1..] + b;
      FlattenConcat(a[1..], b);
    } else {
      assert a + b == b;
    }
  }

  lemma {:induction false} FlattenSingletons(es: seq<LayoutElement>)
    ensures Flatten(Singletons(es)) == es
  {
    if es != [] {
      FlattenSingletons(es[1..]);
      assert Singletons(es)[1..] == Singletons(es[1..]);
    }
  }

  lemma {:induction false} FlattenHolds(fs: seq<FigureObject>, k: int, e: LayoutElement)
    requires 0 <= k < |fs| && e in fs[k].elements
    ensures e in Flatten(fs)
  {
    if k > 0 {
      FlattenHolds(fs[1..], k - 1, e);
    }
  }

  // ---------------------------------------------------------------------------
  // Bookkeeping for one pass

  /** The elements of the figures at index k or later that the pass has not consumed yet. */
  ghost function UnusedFrom(fs: seq<FigureObject>, used: set<int>, k: int): multiset<LayoutElement>
    requires 0 <= k <= |fs|
    decreases |fs| - k
  {
    if k == |fs| then multiset{}
    else (if k in used then multiset{} else multiset(fs[k].elements)) + UnusedFrom(fs, used, k + 1)
  }

  lemma {:induction false} UnusedFromNothingUsed(fs: seq<FigureObject>, k: int)
    requires 0 <= k <= |fs|
    ensures UnusedFrom(fs, {}, k) == multiset(Flatten(fs[k..]))
    decreases |fs| - k
  {
    if k < |fs| {
      UnusedFromNothingUsed(fs, k + 1);
      assert fs[k..][1..] == fs[k + 1..];
    }
  }

  lemma {:induction false} UnusedFromIgnoresBelow(fs: seq<FigureObject>, used: set<int>, k: int, j: int)
    requires 0 <= k <= |fs| && j < k
    ensures UnusedFrom(fs, used + {j}, k) == UnusedFrom(fs, used, k)
    decreases |fs| - k
  {
    if k < |fs| {
      UnusedFromIgnoresBelow(fs, used, k + 1, j);
    }
  }

  lemma {:induction false} UnusedFromAbsorb(fs: seq<FigureObject>, used: set<int>, k: int, j: int)
    requires 0 <= k <= j < |fs| && j !in used
    ensures UnusedFrom(fs, used, k) == UnusedFrom(fs, used + {j}, k) + multiset(fs[j].elements)
    decreases |fs| - k
  {
    if k < j {
      UnusedFromAbsorb(fs, used, k + 1, j);
    } else {
      UnusedFromIgnoresBelow(fs, used, j + 1, j);
    }
  }

  lemma {:induction false} IndexSetSize(used: set<int>, n: nat)
    requires forall k :: k in used <==> 0 <= k < n
    ensures |used| == n
  {
    if n == 0 {
      assert forall k :: k !in used;
      assert used == {};
    } else {
      IndexSetSize(used - {n - 1}, n - 1);
    }
  }

  /** Midway through a pass, the figures built so far and those not yet consumed hold exactly the pass's input elements. */
  ghost predicate Conserved(figures: seq<FigureObject>, newFigures: seq<FigureObject>, used: set<int>, i: int)
    requires 0 <= i <= |figures|
  {
    multiset(Flatten(newFigures)) + UnusedFrom(figures, used, i) == multiset(Flatten(figures))
  }

  /**
   * What a pass has established after visiting figures 0..i-1: the consumed indices are in
   * range and include all below i; every consumed index is either a new figure or one of the
   * `absorbed` figures; `merged` says whether any was absorbed; while none was, the pass has
   * copied the prefix and found no mergeable pair starting before i; the elements are
   * conserved; and coherence is kept.
   */
  ghost predicate PassState(c: Clusterer, figures: seq<FigureObject>, i: int, newFigures: seq<FigureObject>,
                            used: set<int>, absorbed: nat, merged: bool)
  {
    && 0 <= i <= |figures|
    && (forall k :: k in used ==> 0 <= k < |figures|)
    && AllBelowIn(used, i)
    && |used| == |newFigures| + absorbed
    && (merged <==> absorbed > 0)
    && (!merged ==> forall k :: k in used ==> k < i)
    && (!merged ==> |newFigures| == i && forall k :: 0 <= k < i ==> newFigures[k] == figures[k])
    && (!merged ==> NoMergeBefore(c, figures, i))
    && (NoMergeablePair(c, figures) ==> !merged)
    && Conserved(figures, newFigures, used, i)
    && (AllCoherent(figures) ==> AllCoherent(newFigures))
  }

  lemma {:induction false} PassStart(c: Clusterer, figures: seq<FigureObject>)
    ensures PassState(c, figures, 0, [], {}, 0, false)
  {
    UnusedFromNothingUsed(figures, 0);
    assert figures[0..] == figures;
  }

  /** An index already consumed is skipped. */
  lemma {:induction false} SkipStep(c: Clusterer, figures: seq<FigureObject>, i: int, newFigures: seq<FigureObject>,
                 used: set<int>, absorbed: nat, merged: bool)
    requires PassState(c, figures, i, newFigures, used, absorbed, merged)
    requires i < |figures| && i in used
    ensures PassState(c, figures, i + 1, newFigures, used, absorbed, merged)
  {
    assert merged;
    assert UnusedFrom(figures, used, i) == UnusedFrom(figures, used, i + 1);
  }

  /** An unconsumed index absorbs later figures and is appended. */
  lemma {:induction false} VisitStep(c: Clusterer, figures: seq<FigureObject>, i: int, newFigures: seq<FigureObject>,
                  used: set<int>, absorbed: nat, merged: bool, current: FigureObject, nowUsed: set<int>, count: nat, nowMerged: bool)
    requires PassState(c, figures, i, newFigures, used, absorbed, merged)
    requires i < |figures| && i !in used
    requires AbsorbOutcome(c, figures, i, used, current, nowUsed, count)
    requires nowMerged <==> merged || count > 0
    ensures PassState(c, figures, i + 1, newFigures + [current], nowUsed + {i}, absorbed + count, nowMerged)
  {
    PassStep(figures, newFigures, current, used, nowUsed, i);
    AllBelowInGrows(used, nowUsed + {i}, i);
    assert AllBelowIn(nowUsed + {i}, i + 1);
    VisitCounts(c, figures, i, newFigures, used, absorbed, merged, current, nowUsed, count);
    if NoMergeablePair(c, figures) {
      assert LaterSeparated(c, figures, i);
    }
    if !merged && count == 0 {
      VisitUnmerged(c, figures, i, newFigures, used, current, nowUsed);
    }
  }

  /** Visiting index i keeps the consumed indices in range and the count of consumed indices exact. */
  lemma {:induction false} VisitCounts(c: Clusterer, figures: seq<FigureObject>, i: int, newFigures: seq<FigureObject>,
                  used: set<int>, absorbed: nat, merged: bool, current: FigureObject, nowUsed: set<int>, count: nat)
    requires PassState(c, figures, i, newFigures, used, absorbed, merged)
    requires i < |figures| && i !in used
    requires AbsorbOutcome(c, figures, i, used, current, nowUsed, count)
    ensures forall k :: k in nowUsed + {i} ==> 0 <= k < |figures|
    ensures |nowUsed + {i}| == |newFigures + [current]| + (absorbed + count)
    ensures (merged || count > 0) <==> absorbed + count > 0
    ensures AllCoherent(figures) ==> AllCoherent(newFigures + [current])
  {
  }

  /** Visiting index i without absorbing anything, in a pass that has merged nothing, copies figure i. */
  lemma {:induction false} VisitUnmerged(c: Clusterer, figures: seq<FigureObject>, i: int, newFigures: seq<FigureObject>,
                  used: set<int>, current: FigureObject, nowUsed: set<int>)
    requires PassState(c, figures, i, newFigures, used, 0, false)
    requires i < |figures| && i !in used
    requires AbsorbOutcome(c, figures, i, used, current, nowUsed, 0)
    ensures forall k :: k in nowUsed + {i} ==> k < i + 1
    ensures |newFigures + [current]| == i + 1
    ensures forall k :: 0 <= k < i + 1 ==> (newFigures + [current])[k] == figures[k]
    ensures NoMergeBefore(c, figures, i + 1)
  {
    forall a, b | 0 <= a < i + 1 && a < b < |figures|
      ensures !ShouldMerge(c, figures[a].bbox, figures[b].bbox)
    {
      if a == i {
        assert b !in used;
      }
    }
  }

  /** The state after the last index gives the pass's postconditions. */
  lemma {:induction false} PassEnd(c: Clusterer, figures: seq<FigureObject>, newFigures: seq<FigureObject>,
                used: set<int>, absorbed: nat, merged: bool)
    requires PassState(c, figures, |figures|, newFigures, used, absorbed, merged)
    ensures multiset(Flatten(newFigures)) == multiset(Flatten(figures))
    ensures AllCoherent(figures) ==> AllCoherent(newFigures)
    ensures |newFigures| <= |figures|
    ensures merged <==> |newFigures| < |figures|
    ensures !merged ==> newFigures == figures && NoMergeablePair(c, figures)
    ensures NoMergeablePair(c, figures) ==> !merged
  {
    AllBelowInSize(used, |figures|);
  }

  /** Figure i grown into `current` holds the elements of figure i and of the figures it consumed. */
  ghost predicate Absorbed(figures: seq<FigureObject>, i: int, current: FigureObject, used: set<int>, usedBefore: set<int>)
    requires 0 <= i < |figures|
  {
    multiset(current.elements) + UnusedFrom(figures, used, i + 1)
      == multiset(figures[i].elements) + UnusedFrom(figures, usedBefore, i + 1)
  }

  lemma {:induction false} AbsorbStep(figures: seq<FigureObject>, i: int, current: FigureObject, used: set<int>, usedBefore: set<int>, j: int)
    requires 0 <= i < j < |figures| && j !in used
    requires Absorbed(figures, i, current, used, usedBefore)
    ensures Absorbed(figures, i, Merge(current, figures[j]), used + {j}, usedBefore)
  {
    UnusedFromAbsorb(figures, used, i + 1, j);
  }

  /** Appending the grown figure i and consuming index i keeps the elements of a pass. */
  lemma {:induction false} PassStep(figures: seq<FigureObject>, newFigures: seq<FigureObject>, current: FigureObject,
                 used: set<int>, nowUsed: set<int>, i: int)
    requires 0 <= i < |figures| && i !in used
    requires Conserved(figures, newFigures, used, i)
    requires Absorbed(figures, i, current, nowUsed, used)
    ensures Conserved(figures, newFigures + [current], nowUsed + {i}, i + 1)
  {
    var built, grown := multiset(Flatten(newFigures)), multiset(current.elements);
    var rest, restBefore := UnusedFrom(figures, nowUsed, i + 1), UnusedFrom(figures, used, i + 1);
    assert multiset(Flatten(newFigures + [current])) == built + grown by {
      FlattenSnoc(newFigures, current);
    }
    assert UnusedFrom(figures, nowUsed + {i}, i + 1) == rest by {
      UnusedFromIgnoresBelow(figures, nowUsed, i + 1, i);
    }
    assert UnusedFrom(figures, used, i) == multiset(figures[i].elements) + restBefore;
    assert grown + rest == multiset(figures[i].elements) + restBefore;
  }

  lemma {:induction false} FlattenSnoc(fs: seq<FigureObject>, f: FigureObject)
    ensures Flatten(fs + [f]) == Flatten(fs) + f.elements
  {
    FlattenConcat(fs, [f]);
    assert Flatten([f]) == f.elements + Flatten([]);
  }

  /** Every index below i is in the set. */
  ghost predicate AllBelowIn(used: set<int>, i: int)
    decreases i
  {
    i <= 0 || (i - 1 in used && AllBelowIn(used, i - 1))
  }

  lemma {:induction false} AllBelowInGrows(used: set<int>, more: set<int>, i: int)
    requires AllBelowIn(used, i) && used <= more
    ensures AllBelowIn(more, i)
    decreases i
  {
    if i > 0 {
      AllBelowInGrows(used, more, i - 1);
    }
  }

  lemma {:induction false} AllBelowInHolds(used: set<int>, i: int, k: int)
    requires AllBelowIn(used, i) && 0 <= k < i
    ensures k in used
    decreases i
  {
    if k < i - 1 {
      AllBelowInHolds(used, i - 1, k);
    }
  }

  /** A set holding every index below n and nothing else has n elements. */
  lemma {:induction false} AllBelowInSize(used: set<int>, n: nat)
    requires AllBelowIn(used, n)
    requires forall k :: k in used ==> 0 <= k < n
    ensures |used| == n
  {
    forall k | 0 <= k < n
      ensures k in used
    {
      AllBelowInHolds(used, n, k);
    }
    IndexSetSize(used, n);
  }

  /** In a pass that has merged nothing, figures 0..i-1 were tested against every later figure. */
  predicate NoMergeBefore(c: Clusterer, fs: seq<FigureObject>, i: int) {
    forall a, b :: 0 <= a < i && a < b < |fs| ==> !ShouldMerge(c, fs[a].bbox, fs[b].bbox)
  }

  // ---------------------------------------------------------------------------
  // The passes, as functions

  /**
   * The inner loop of one pass from index j on: the figure `current` grown so far absorbs,
   * in index order, every figure not yet consumed that passes the merge test against it at
   * its turn; each absorbed index is consumed and sets `merged`.
   */
  function Grow(c: Clusterer, figures: seq<FigureObject>, used: set<int>, j: int, current: FigureObject, merged: bool)
    : (FigureObject, set<int>, bool)
    requires 0 <= j <= |figures|
    decreases |figures| - j
  {
    if j == |figures| then (current, used, merged)
    else if j !in used && ShouldMerge(c, current.bbox, figures[j].bbox) then
      Grow(c, figures, used + {j}, j + 1, Merge(current, figures[j]), true)
    else
      Grow(c, figures, used, j + 1, current, merged)
  }

  /**
   * One pass from index i on: each figure not yet consumed, in index order, grows by Grow
   * over the later figures and is appended; its own index is then consumed.
   */
  function Pass(c: Clusterer, figures: seq<FigureObject>, i: int, used: set<int>, newFigures: seq<FigureObject>, merged: bool)
    : (seq<FigureObject>, bool)
    requires 0 <= i <= |figures|
    decreases |figures| - i
  {
    if i == |figures| then (newFigures, merged)
    else if i in used then Pass(c, figures, i + 1, used, newFigures, merged)
    else
      var g := Grow(c, figures, used, i + 1, figures[i], merged);
      Pass(c, figures, i + 1, g.1 + {i}, newFigures + [g.0], g.2)
  }

  /** The new figures and the `merged` flag of one whole pass. */
  function PassOf(c: Clusterer, figures: seq<FigureObject>): (seq<FigureObject>, bool) {
    Pass(c, figures, 0, {}, [], false)
  }

  /** The figures `group` settles on: passes are repeated while a pass merges something. */
  function Settle(c: Clusterer, figures: seq<FigureObject>): seq<FigureObject>
    decreases |figures|
  {
    var r := PassOf(c, figures);
    PassOfOutcome(c, figures);
    if r.1 then Settle(c, r.0) else r.0
  }

  // ---------------------------------------------------------------------------
  // What a pass achieves

  /**
   * What absorbing into figure i has achieved after the indices below j: it consumed only
   * later indices, `count` of them; the grown figure and the figures still unconsumed hold
   * the elements of figure i and of the figures unconsumed before; coherence is kept; and
   * while nothing is absorbed, figure i is unchanged and no unconsumed figure below j
   * passes the merge test against it.
   */
  ghost predicate Absorbing(c: Clusterer, figures: seq<FigureObject>, i: int, usedBefore: set<int>, j: int,
                            current: FigureObject, used: set<int>, count: int)
    requires 0 <= i < |figures|
  {
    && i < j <= |figures|
    && usedBefore <= used && i !in used
    && (forall k :: k in used && k !in usedBefore ==> i < k < j)
    && count >= 0 && |used| == |usedBefore| + count
    && Absorbed(figures, i, current, used, usedBefore)
    && (AllCoherent(figures) ==> Coherent(current))
    && (count == 0 ==> used == usedBefore && current == figures[i])
    && (count == 0 ==> forall b :: i < b < j && b !in usedBefore ==> !ShouldMerge(c, figures[i].bbox, figures[b].bbox))
    && (LaterSeparated(c, figures, i) ==> count == 0)
  }

  /** Absorbing into figure i over all later indices. */
  ghost predicate AbsorbOutcome(c: Clusterer, figures: seq<FigureObject>, i: int, usedBefore: set<int>,
                                current: FigureObject, used: set<int>, count: int)
    requires 0 <= i < |figures|
  {
    Absorbing(c, figures, i, usedBefore, |figures|, current, used, count)
  }

  /** No figure after index i passes the merge test against figure i. */
  predicate LaterSeparated(c: Clusterer, figures: seq<FigureObject>, i: int)
    requires 0 <= i < |figures|
  {
    forall b :: i < b < |figures| ==> !ShouldMerge(c, figures[i].bbox, figures[b].bbox)
  }

  /** Grow consumes indices and never gives any back; it sets `merged` exactly when it consumes one. */
  lemma {:induction false} GrowCounts(c: Clusterer, figures: seq<FigureObject>, used: set<int>, j: int, current: FigureObject, merged: bool)
    requires 0 <= j <= |figures|
    ensures var g := Grow(c, figures, used, j, current, merged);
            |g.1| >= |used| && (g.2 <==> merged || |g.1| > |used|)
    decreases |figures| - j
  {
    if j < |figures| {
      if j !in used && ShouldMerge(c, current.bbox, figures[j].bbox) {
        GrowCounts(c, figures, used + {j}, j + 1, Merge(current, figures[j]), true);
      } else {
        GrowCounts(c, figures, used, j + 1, current, merged);
      }
    }
  }

  /** Grow, started from any state of the absorption, completes it. */
  lemma {:induction false} GrowFrom(c: Clusterer, figures: seq<FigureObject>, i: int, usedBefore: set<int>, j: int,
                                    current: FigureObject, used: set<int>, count: int, merged: bool)
    requires 0 <= i < |figures|
    requires Absorbing(c, figures, i, usedBefore, j, current, used, count)
    ensures var g := Grow(c, figures, used, j, current, merged);
            AbsorbOutcome(c, figures, i, usedBefore, g.0, g.1, |g.1| - |usedBefore|)
    decreases |figures| - j
  {
    if j < |figures| {
      if j !in used && ShouldMerge(c, current.bbox, figures[j].bbox) {
        AbsorbingMerge(c, figures, i, usedBefore, j, current, used, count);
        assert Grow(c, figures, used, j, current, merged) == Grow(c, figures, used + {j}, j + 1, Merge(current, figures[j]), true);
        GrowFrom(c, figures, i, usedBefore, j + 1, Merge(current, figures[j]), used + {j}, count + 1, true);
      } else {
        AbsorbingSkip(c, figures, i, usedBefore, j, current, used, count);
        assert Grow(c, figures, used, j, current, merged) == Grow(c, figures, used, j + 1, current, merged);
        GrowFrom(c, figures, i, usedBefore, j + 1, current, used, count, merged);
      }
    }
  }

  /** Before the inner loop nothing is absorbed. */
  lemma {:induction false} AbsorbingStart(c: Clusterer, figures: seq<FigureObject>, i: int, used: set<int>)
    requires 0 <= i < |figures| && i !in used
    ensures Absorbing(c, figures, i, used, i + 1, figures[i], used, 0)
  {
  }

  /** Absorbing figure j, which passes the merge test against the grown figure. */
  lemma {:induction false} AbsorbingMerge(c: Clusterer, figures: seq<FigureObject>, i: int, usedBefore: set<int>, j: int,
                                          current: FigureObject, used: set<int>, count: int)
    requires 0 <= i < |figures|
    requires Absorbing(c, figures, i, usedBefore, j, current, used, count)
    requires j < |figures| && j !in used && ShouldMerge(c, current.bbox, figures[j].bbox)
    ensures Absorbing(c, figures, i, usedBefore, j + 1, Merge(current, figures[j]), used + {j}, count + 1)
  {
    AbsorbStep(figures, i, current, used, usedBefore, j);
    if AllCoherent(figures) {
      MergeCoherent(current, figures[j]);
    }
    if count == 0 {
      assert !LaterSeparated(c, figures, i);
    }
  }

  /** Passing over figure j, which is consumed or fails the merge test against the grown figure. */
  lemma {:induction false} AbsorbingSkip(c: Clusterer, figures: seq<FigureObject>, i: int, usedBefore: set<int>, j: int,
                                         current: FigureObject, used: set<int>, count: int)
    requires 0 <= i < |figures|
    requires Absorbing(c, figures, i, usedBefore, j, current, used, count)
    requires j < |figures| && !(j !in used && ShouldMerge(c, current.bbox, figures[j].bbox))
    ensures Absorbing(c, figures, i, usedBefore, j + 1, current, used, count)
  {
  }

  /** From any state of a pass, the rest of the pass ends in a state PassEnd describes. */
  lemma {:induction false} PassFrom(c: Clusterer, figures: seq<FigureObject>, i: int, newFigures: seq<FigureObject>,
                                    used: set<int>, absorbed: nat, merged: bool)
    requires PassState(c, figures, i, newFigures, used, absorbed, merged)
    ensures PassResult(c, figures, Pass(c, figures, i, used, newFigures, merged))
    decreases |figures| - i
  {
    if i == |figures| {
      PassEnd(c, figures, newFigures, used, absorbed, merged);
    } else {
      var newFigures', used', absorbed', merged' := PassNext(c, figures, i, newFigures, used, absorbed, merged);
      PassFrom(c, figures, i + 1, newFigures', used', absorbed', merged');
    }
  }

  /** One step of a pass, skipping or visiting index i, takes its state at i to its state at i + 1. */
  lemma {:induction false} PassNext(c: Clusterer, figures: seq<FigureObject>, i: int, newFigures: seq<FigureObject>,
                                    used: set<int>, absorbed: nat, merged: bool)
    returns (newFigures': seq<FigureObject>, used': set<int>, absorbed': nat, merged': bool)
    requires PassState(c, figures, i, newFigures, used, absorbed, merged)
    requires i < |figures|
    ensures PassState(c, figures, i + 1, newFigures', used', absorbed', merged')
    ensures Pass(c, figures, i, used, newFigures, merged) == Pass(c, figures, i + 1, used', newFigures', merged')
  {
    if i in used {
      SkipStep(c, figures, i, newFigures, used, absorbed, merged);
      newFigures', used', absorbed', merged' := newFigures, used, absorbed, merged;
    } else {
      var g := Grow(c, figures, used, i + 1, figures[i], merged);
      PassVisit(c, figures, i, newFigures, used, absorbed, merged);
      newFigures', used', absorbed', merged' := newFigures + [g.0], g.1 + {i}, absorbed + (|g.1| - |used|), g.2;
    }
  }

  /** Visiting an unconsumed index i with Grow takes a pass from its state at i to its state at i + 1. */
  lemma {:induction false} PassVisit(c: Clusterer, figures: seq<FigureObject>, i: int, newFigures: seq<FigureObject>,
                                     used: set<int>, absorbed: nat, merged: bool)
    requires PassState(c, figures, i, newFigures, used, absorbed, merged)
    requires i < |figures| && i !in used
    ensures var g := Grow(c, figures, used, i + 1, figures[i], merged);
            && |g.1| >= |used|
            && PassState(c, figures, i + 1, newFigures + [g.0], g.1 + {i}, absorbed + (|g.1| - |used|), g.2)
  {
    var g := Grow(c, figures, used, i + 1, figures[i], merged);
    AbsorbingStart(c, figures, i, used);
    GrowFrom(c, figures, i, used, i + 1, figures[i], used, 0, merged);
    GrowCounts(c, figures, used, i + 1, figures[i], merged);
    var count := |g.1| - |used|;
    VisitStep(c, figures, i, newFigures, used, absorbed, merged, g.0, g.1, count, g.2);
  }

  /**
   * The outcome of a pass: it keeps the elements (as a multiset) and the coherence of the
   * figures; it never adds figures; it sets `merged` exactly when it removed some; a pass
   * that merges nothing returns its input, in which no pair i < j passes the merge test; and
   * a pass over figures no pair of which passes the test merges nothing.
   */
  ghost predicate PassResult(c: Clusterer, figures: seq<FigureObject>, r: (seq<FigureObject>, bool)) {
    && multiset(Flatten(r.0)) == multiset(Flatten(figures))
    && (AllCoherent(figures) ==> AllCoherent(r.0))
    && |r.0| <= |figures|
    && (r.1 <==> |r.0| < |figures|)
    && (!r.1 ==> r.0 == figures && NoMergeablePair(c, figures))
    && (NoMergeablePair(c, figures) ==> !r.1)
  }

  lemma {:induction false} PassOfOutcome(c: Clusterer, figures: seq<FigureObject>)
    ensures PassResult(c, figures, PassOf(c, figures))
  {
    PassStart(c, figures);
    PassFrom(c, figures, 0, [], {}, 0, false);
  }

  /**
   * `group`: the figures returned hold every input element exactly once (as multisets), each
   * is coherent (its box is the hull of its elements), there are no more figures than
   * elements, and no pair i < j of them passes the merge test.
   */
  ghost predicate GroupOutcome(c: Clusterer, elements: seq<LayoutElement>, figures: seq<FigureObject>) {
    && multiset(Flatten(figures)) == multiset(elements)
    && AllCoherent(figures)
    && |figures| <= |elements|
    && NoMergeablePair(c, figures)
  }

  /** Settling keeps the elements and coherence, never adds figures and leaves no mergeable pair. */
  lemma {:induction false} SettleOutcome(c: Clusterer, figures: seq<FigureObject>)
    requires AllCoherent(figures)
    ensures multiset(Flatten(Settle(c, figures))) == multiset(Flatten(figures))
    ensures AllCoherent(Settle(c, figures))
    ensures |Settle(c, figures)| <= |figures|
    ensures NoMergeablePair(c, Settle(c, figures))
    decreases |figures|
  {
    var r := PassOf(c, figures);
    PassOfOutcome(c, figures);
    if r.1 {
      SettleOutcome(c, r.0);
    }
  }

  /** Figures no pair of which passes the merge test are already settled. */
  lemma {:induction false} SettleSeparated(c: Clusterer, figures: seq<FigureObject>)
    requires NoMergeablePair(c, figures)
    ensures Settle(c, figures) == figures
  {
    PassOfOutcome(c, figures);
  }

  /** The figures `group` returns for the given elements satisfy GroupOutcome. */
  lemma {:induction false} SettleSingletons(c: Clusterer, elements: seq<LayoutElement>)
    ensures GroupOutcome(c, elements, Settle(c, Singletons(elements)))
  {
    var fs := Singletons(elements);
    FlattenSingletons(elements);
    assert AllCoherent(fs);
    SettleOutcome(c, fs);
  }

  /** No pair i < j of elements passes the merge test. */
  predicate ElementsSeparated(c: Clusterer, elements: seq<LayoutElement>) {
    forall i, j :: 0 <= i < j < |elements| ==> !ShouldMerge(c, elements[i].bbox, elements[j].bbox)
  }

  lemma {:induction false} SingletonsSeparated(c: Clusterer, elements: seq<LayoutElement>)
    requires ElementsSeparated(c, elements)
    ensures NoMergeablePair(c, Singletons(elements))
  {
  }

  // ---------------------------------------------------------------------------
  // The passes, as loops

  /**
   * The inner loop of one pass: figure i, not yet consumed, absorbs in index order every later
   * figure not yet consumed that passes the merge test against the figure grown so far,
   * consuming its index and setting `merged`.
   */
  method Absorb(c: Clusterer, figures: seq<FigureObject>, i: int, usedBefore: set<int>, mergedBefore: bool)
    returns (current: FigureObject, used: set<int>, merged: bool)
    requires 0 <= i < |figures|
    ensures (current, used, merged) == Grow(c, figures, usedBefore, i + 1, figures[i], mergedBefore)
  {
    current := figures[i];
    used := usedBefore;
    merged := mergedBefore;
    for j := i + 1 to |figures|
      invariant Grow(c, figures, used, j, current, merged) == Grow(c, figures, usedBefore, i + 1, figures[i], mergedBefore)
    {
      if j in used {
        continue;
      }
      var other := figures[j];
      if ShouldMerge(c, current.bbox, other.bbox) {
        current := Merge(current, other);
        used := used + {j};
        merged := true;
      }
    }
  }

  /** One pass of `group`: each figure not yet consumed, in index order, absorbs the later ones and is appended. */
  method MergePass(c: Clusterer, figures: seq<FigureObject>) returns (newFigures: seq<FigureObject>, merged: bool)
    ensures (newFigures, merged) == PassOf(c, figures)
  {
    merged := false;
    newFigures := [];
    var used: set<int> := {};
    for i := 0 to |figures|
      invariant Pass(c, figures, i, used, newFigures, merged) == PassOf(c, figures)
    {
      if i in used {
        continue;
      }
      var current, nowUsed, nowMerged := Absorb(c, figures, i, used, merged);
      newFigures := newFigures + [current];
      used := nowUsed + {i};
      merged := nowMerged;
    }
  }

  /**
   * `group`: one singleton figure per element, then passes until a pass merges nothing.
   * The result is Settle of the singletons; so it satisfies GroupOutcome, no elements give no
   * figures, and elements no pair of which passes the merge test stay one singleton figure
   * each, in input order.
   */
  method Group(c: Clusterer, elements: seq<LayoutElement>) returns (figures: seq<FigureObject>)
    ensures figures == Settle(c, Singletons(elements))
    ensures GroupOutcome(c, elements, figures)
    ensures elements == [] ==> figures == []
    ensures ElementsSeparated(c, elements) ==> figures == Singletons(elements)
  {
    SettleSingletons(c, elements);
    if ElementsSeparated(c, elements) {
      SingletonsSeparated(c, elements);
      SettleSeparated(c, Singletons(elements));
    }
    if elements == [] {
      assert Singletons(elements) == [];
      return [];
    }
    figures := Singletons(elements);
    var merged := true;
    while merged
      invariant merged ==> Settle(c, figures) == Settle(c, Singletons(elements))
      invariant !merged ==> figures == Settle(c, Singletons(elements))
      decreases |figures| + (if merged then 1 else 0)
    {
      PassOfOutcome(c, figures);
      figures, merged := MergePass(c, figures);
    }
  }

  // ---------------------------------------------------------------------------
  // Consequences of GroupOutcome

  /** One element gives exactly one figure: that element's box, the element alone, its confidence. */
  lemma {:induction false} GroupOutcomeOfOne(c: Clusterer, e: LayoutElement, figures: seq<FigureObject>)
    requires GroupOutcome(c, [e], figures)
    ensures figures == [Singleton(e)]
  {
    assert e in multiset(Flatten(figures));
    assert |figures| == 1;
    var f := figures[0];
    assert Flatten(figures) == f.elements + Flatten([]);
    assert multiset(f.elements) == multiset([e]);
    assert |f.elements| == 1;
    assert f.elements[0] in multiset(f.elements);
    assert f.elements == [e];
  }

  lemma {:induction false} FlattenLength(fs: seq<FigureObject>)
    requires AllCoherent(fs)
    ensures |Flatten(fs)| >= |fs|
  {
    if fs != [] {
      FlattenLength(fs[1..]);
    }
  }

  /** The coherent figure holding exactly two elements has their union as its box. */
  lemma {:induction false} HullOfPair(f: FigureObject, e1: LayoutElement, e2: LayoutElement)
    requires Coherent(f) && multiset(f.elements) == multiset([e1, e2])
    ensures f.bbox == Union(e1.bbox, e2.bbox)
  {
    var es := f.elements;
    assert |es| == 2;
    assert es == [es[0], es[1]];
    assert es[..1] == [es[0]];
    assert Hull(es[..1]) == es[0].bbox;
    assert f.bbox == Union(es[0].bbox, es[1].bbox);
    PairMultiset(es[0], es[1], e1, e2);
    UnionCommutative(e1.bbox, e2.bbox);
  }

  lemma {:induction false} PairMultiset(x: LayoutElement, y: LayoutElement, e1: LayoutElement, e2: LayoutElement)
    requires multiset([x, y]) == multiset([e1, e2])
    ensures (x == e1 && y == e2) || (x == e2 && y == e1)
  {
    assert x in multiset([e1, e2]);
    if x == e1 {
      assert multiset([y]) == multiset([x, y]) - multiset{x};
      assert multiset([e2]) == multiset([e1, e2]) - multiset{e1};
      assert y in multiset([e2]);
    } else {
      assert x == e2;
      assert multiset([y]) == multiset([x, y]) - multiset{x};
      assert multiset([e1]) == multiset([e1, e2]) - multiset{e2};
      assert y in multiset([e1]);
    }
  }

  lemma {:induction false} FlattenPair(a: FigureObject, b: FigureObject)
    ensures Flatten([a, b]) == a.elements + b.elements
  {
    assert [a, b][1..] == [b];
    assert Flatten([b]) == b.elements + Flatten([]);
  }

  /** Two coherent figures holding two elements between them hold one each, so their boxes are the elements' boxes. */
  lemma {:induction false} TwoFiguresOfTwo(figures: seq<FigureObject>, e1: LayoutElement, e2: LayoutElement)
    requires AllCoherent(figures) && |figures| == 2
    requires multiset(Flatten(figures)) == multiset([e1, e2])
    ensures (figures[0].bbox == e1.bbox && figures[1].bbox == e2.bbox)
         || (figures[0].bbox == e2.bbox && figures[1].bbox == e1.bbox)
  {
    var a, b := figures[0], figures[1];
    assert Flatten(figures) == a.elements + b.elements by {
      assert figures == [a, b];
      FlattenPair(a, b);
    }
    assert |a.elements| == 1 && |b.elements| == 1 by {
      assert Coherent(a) && Coherent(b);
      assert |multiset(a.elements + b.elements)| == |a.elements + b.elements|;
    }
    SingletonFigure(a);
    SingletonFigure(b);
    var x, y := a.elements[0], b.elements[0];
    assert multiset([x, y]) == multiset([e1, e2]) by {
      assert a.elements + b.elements == [x, y];
    }
    PairMultiset(x, y, e1, e2);
  }

  /** A coherent figure with one element is that element's box around it. */
  lemma {:induction false} SingletonFigure(f: FigureObject)
    requires Coherent(f) && |f.elements| == 1
    ensures f.elements == [f.elements[0]] && f.bbox == f.elements[0].bbox
  {
  }

  /** Two elements that pass the merge test end up in one figure whose box is the union of theirs. */
  lemma {:induction false} GroupOutcomeOfMergeablePair(c: Clusterer, e1: LayoutElement, e2: LayoutElement, figures: seq<FigureObject>)
    requires GroupOutcome(c, [e1, e2], figures)
    requires ShouldMerge(c, e1.bbox, e2.bbox)
    ensures |figures| == 1
    ensures multiset(figures[0].elements) == multiset([e1, e2])
    ensures figures[0].bbox == Union(e1.bbox, e2.bbox)
  {
    assert e1 in multiset(Flatten(figures));
    assert figures != [];
    if |figures| == 2 {
      TwoFiguresOfTwo(figures, e1, e2);
      ShouldMergeSymmetric(c, e1.bbox, e2.bbox);
      assert false;
    }
    assert |figures| == 1;
    assert Flatten(figures) == figures[0].elements + Flatten([]);
    HullOfPair(figures[0], e1, e2);
  }

  /** Every element of every output figure is an input element. */
  lemma {:induction false} GroupOutcomeMembers(c: Clusterer, elements: seq<LayoutElement>, figures: seq<FigureObject>, k: int, e: LayoutElement)
    requires GroupOutcome(c, elements, figures)
    requires 0 <= k < |figures| && e in figures[k].elements
    ensures e in elements
  {
    FlattenHolds(figures, k, e);
    assert e in multiset(Flatten(figures));
  }

  /** When every input confidence lies in [lo, hi], so does every output confidence. */
  lemma {:induction false} GroupOutcomeConfidence(c: Clusterer, elements: seq<LayoutElement>, figures: seq<FigureObject>, lo: real, hi: real)
    requires GroupOutcome(c, elements, figures)
    requires forall k :: 0 <= k < |elements| ==> lo <= elements[k].confidence <= hi
    ensures forall k :: 0 <= k < |figures| ==> lo <= figures[k].confidence <= hi
  {
    forall k | 0 <= k < |figures| ensures lo <= figures[k].confidence <= hi {
      var es := figures[k].elements;
      forall m | 0 <= m < |es| ensures lo <= es[m].confidence <= hi {
        GroupOutcomeMembers(c, elements, figures, k, es[m]);
      }
      ConfidenceBounds(es, lo, hi);
    }
  }

  /** The merge test is symmetric, so no two distinct output figures pass it in either order. */
  lemma {:induction false} GroupOutcomeSeparated(c: Clusterer, elements: seq<LayoutElement>, figures: seq<FigureObject>, i: int, j: int)
    requires GroupOutcome(c, elements, figures)
    requires 0 <= i < |figures| && 0 <= j < |figures| && i != j
    ensures !ShouldMerge(c, figures[i].bbox, figures[j].bbox)
  {
    ShouldMergeSymmetric(c, figures[i].bbox, figures[j].bbox);
  }

  // ---------------------------------------------------------------------------
  // The scan order

  /**
   * The scan order decides the grouping. With a distance threshold of 10, point boxes at
   * x = 0, 8 and 16 end as [{0, 8}, {16}]: figure 0 absorbs figure 8 first, and the grown
   * figure's centre at 4 is then 12 away from 16. The figures at 8 and 16 would also pass
   * the merge test, so [{0}, {8, 16}] is not what `group` returns.
   */
  lemma {:induction false} GreedyScanOrder(a: LayoutElement, b: LayoutElement, e: LayoutElement)
    requires a.bbox == BBox(0.0, 0.0, 0.0, 0.0)
    requires b.bbox == BBox(8.0, 0.0, 8.0, 0.0)
    requires e.bbox == BBox(16.0, 0.0, 16.0, 0.0)
    ensures ShouldMerge(Clusterer(10.0, 0.3), b.bbox, e.bbox)
    ensures Settle(Clusterer(10.0, 0.3), Singletons([a, b, e])) == [Merge(Singleton(a), Singleton(b)), Singleton(e)]
  {
    var c := Clusterer(10.0, 0.3);
    var sa, sb, se := Singleton(a), Singleton(b), Singleton(e);
    var ab := Merge(sa, sb);
    assert ShouldMerge(c, sa.bbox, sb.bbox) && !ShouldMerge(c, ab.bbox, se.bbox) && ShouldMerge(c, b.bbox, e.bbox) by {
      ScanTests();
      assert ab.bbox == BBox(0.0, 0.0, 8.0, 0.0);
    }
    ScanFirstPass(a, b, e);
    ScanSecondPass(ab, se);
    SettleTwoPasses(c, Singletons([a, b, e]), [ab, se]);
  }

  /** The example's second pass merges nothing. */
  lemma {:induction false} ScanSecondPass(ab: FigureObject, se: FigureObject)
    requires !ShouldMerge(Clusterer(10.0, 0.3), ab.bbox, se.bbox)
    ensures PassOf(Clusterer(10.0, 0.3), [ab, se]) == ([ab, se], false)
  {
    var c := Clusterer(10.0, 0.3);
    var gs := [ab, se];
    var u0, u1: set<int> := {0}, {0, 1};
    assert {} + {0} == u0 && u0 + {1} == u1;
    assert [] + [ab] == [ab] && [ab] + [se] == [ab, se];
    assert Grow(c, gs, {}, 1, ab, false) == (ab, {}, false) by {
      assert Grow(c, gs, {}, 1, ab, false) == Grow(c, gs, {}, 2, ab, false);
    }
    assert Grow(c, gs, u0, 2, se, false) == (se, u0, false);
    assert Pass(c, gs, 0, {}, [], false) == Pass(c, gs, 1, u0, [ab], false);
    assert Pass(c, gs, 1, u0, [ab], false) == Pass(c, gs, 2, u1, [ab, se], false);
  }

  /** The example's first pass: figure 0 absorbs figure 1, and figure 2 stays alone. */
  lemma {:induction false} ScanFirstPass(a: LayoutElement, b: LayoutElement, e: LayoutElement)
    requires ShouldMerge(Clusterer(10.0, 0.3), a.bbox, b.bbox)
    requires !ShouldMerge(Clusterer(10.0, 0.3), Merge(Singleton(a), Singleton(b)).bbox, e.bbox)
    ensures PassOf(Clusterer(10.0, 0.3), Singletons([a, b, e])) == ([Merge(Singleton(a), Singleton(b)), Singleton(e)], true)
  {
    var c := Clusterer(10.0, 0.3);
    var sa, sb, se := Singleton(a), Singleton(b), Singleton(e);
    var ab := Merge(sa, sb);
    var fs := Singletons([a, b, e]);
    SingletonsOfThree(a, b, e);
    var u1, u2, u3: set<int> := {1}, {0, 1}, {0, 1, 2};
    assert {} + {1} == u1 && u1 + {0} == u2 && u2 + {2} == u3;
    assert [] + [ab] == [ab] && [ab] + [se] == [ab, se];
    assert Grow(c, fs, {}, 1, sa, false) == (ab, u1, true) by {
      assert Grow(c, fs, {}, 1, sa, false) == Grow(c, fs, u1, 2, ab, true);
      assert Grow(c, fs, u1, 2, ab, true) == Grow(c, fs, u1, 3, ab, true);
    }
    assert Grow(c, fs, u2, 3, se, true) == (se, u2, true);
    assert Pass(c, fs, 0, {}, [], false) == Pass(c, fs, 1, u2, [ab], true);
    assert Pass(c, fs, 1, u2, [ab], true) == Pass(c, fs, 2, u2, [ab], true);
    assert Pass(c, fs, 2, u2, [ab], true) == Pass(c, fs, 3, u3, [ab, se], true);
  }

  /** When a pass over `fs` merges into `gs` and a pass over `gs` merges nothing, `fs` settles on `gs`. */
  lemma {:induction false} SettleTwoPasses(c: Clusterer, fs: seq<FigureObject>, gs: seq<FigureObject>)
    requires PassOf(c, fs) == (gs, true) && PassOf(c, gs) == (gs, false)
    ensures Settle(c, fs) == gs
  {
  }

  /** The merge tests the example's passes make. */
  lemma {:induction false} ScanTests()
    ensures ShouldMerge(Clusterer(10.0, 0.3), BBox(0.0, 0.0, 0.0, 0.0), BBox(8.0, 0.0, 8.0, 0.0))
    ensures ShouldMerge(Clusterer(10.0, 0.3), BBox(8.0, 0.0, 8.0, 0.0), BBox(16.0, 0.0, 16.0, 0.0))
    ensures !ShouldMerge(Clusterer(10.0, 0.3), BBox(0.0, 0.0, 8.0, 0.0), BBox(16.0, 0.0, 16.0, 0.0))
  {
    PointsWithin(0.0, 8.0);
    PointsWithin(8.0, 16.0);
    var ab, p16 := BBox(0.0, 0.0, 8.0, 0.0), BBox(16.0, 0.0, 16.0, 0.0);
    assert CentreX(ab) == 4.0 && CentreX(p16) == 16.0 && CentreY(ab) == 0.0 && CentreY(p16) == 0.0;
    CentreDistSqOf(ab, p16, 12.0, 0.0);
    assert OverlapRatio(ab, p16) == 0.0;
  }

  /** Two points 8 apart on the x-axis pass the merge test with a distance threshold of 10. */
  lemma {:induction false} PointsWithin(x: real, y: real)
    requires y == x + 8.0
    ensures ShouldMerge(Clusterer(10.0, 0.3), BBox(x, 0.0, x, 0.0), BBox(y, 0.0, y, 0.0))
  {
    var p, q := BBox(x, 0.0, x, 0.0), BBox(y, 0.0, y, 0.0);
    assert CentreX(p) == x && CentreX(q) == y && CentreY(p) == 0.0 && CentreY(q) == 0.0;
    CentreDistSqOf(p, q, 8.0, 0.0);
  }

  /** The starting figures of three elements. */
  lemma {:induction false} SingletonsOfThree(a: LayoutElement, b: LayoutElement, e: LayoutElement)
    ensures Singletons([a, b, e]) == [Singleton(a), Singleton(b), Singleton(e)]
  {
    var es := [a, b, e];
    assert |Singletons(es)| == 3;
    assert Singletons(es)[0] == Singleton(a) && Singletons(es)[1] == Singleton(b) && Singletons(es)[2] == Singleton(e);
  }
}
