/**
 * Layout elements, the closed-box overlap test, the alignment of text blocks with
 * elements, and the rule that turns the bounding box of one connected component of
 * dark pixels into a typed element.
 */
module LayoutAnalyzer {
  import opened Wrappers
  import opened Geometry
  import opened Strings

  datatype ElementType = Text | Figure | Table | Title | List

  /** A detected region: its box, its type and a confidence meant to lie in [0, 1]. */
  datatype LayoutElement = LayoutElement(bbox: BBox, elementType: ElementType, confidence: real)

  // ---------------------------------------------------------------------------
  // Overlap of closed boxes

  /** `_boxes_overlap`: the closed boxes are not separated along either axis; boxes it rejects share no point. */
  predicate BoxesOverlap(a: BBox, b: BBox): (r: bool)
    ensures !r ==> forall x, y :: InBox(x, y, a) ==> !InBox(x, y, b)
  {
    !(a.x1 < b.x0 || a.x0 > b.x1 || a.y1 < b.y0 || a.y0 > b.y1)
  }

  predicate InBox(x: real, y: real, b: BBox) {
    b.x0 <= x <= b.x1 && b.y0 <= y <= b.y1
  }

  lemma {:induction false} BoxesOverlapSymmetric(a: BBox, b: BBox)
    ensures BoxesOverlap(a, b) <==> BoxesOverlap(b, a)
  {
  }

  /** For well-formed boxes the test is exactly "the closed boxes share a point", so touching edges overlap. */
  lemma {:induction false} BoxesOverlapIffCommonPoint(a: BBox, b: BBox)
    requires WellFormed(a) && WellFormed(b)
    ensures BoxesOverlap(a, b) <==> exists x, y :: InBox(x, y, a) && InBox(x, y, b)
  {
    if BoxesOverlap(a, b) {
      var x, y := Max(a.x0, b.x0), Max(a.y0, b.y0);
      assert InBox(x, y, a) && InBox(x, y, b);
    }
  }

  // ---------------------------------------------------------------------------
  // Text alignment

  /** The texts of the blocks that overlap `box`, in input order. */
  function OverlappingTexts(box: BBox, blocks: seq<(string, BBox)>): seq<string>
  {
    if blocks == [] then []
    else
      var last := blocks[|blocks| - 1];
      OverlappingTexts(box, blocks[..|blocks| - 1]) + (if BoxesOverlap(box, last.1) then [last.0] else [])
  }

  /** The accumulated `matched_text`: every text followed by one space. */
  function SpaceTerminated(ts: seq<string>): string
  {
    if ts == [] then "" else SpaceTerminated(ts[..|ts| - 1]) + ts[|ts| - 1] + " "
  }

  /** The texts joined with single spaces. */
  function Join(ts: seq<string>): string
  {
    if |ts| == 0 then ""
    else if |ts| == 1 then ts[0]
    else Join(ts[..|ts| - 1]) + " " + ts[|ts| - 1]
  }

  /** The text `align_text` pairs with an element whose box is `box`. */
  function MatchedText(box: BBox, blocks: seq<(string, BBox)>): (r: string)
    ensures r == [] || (!IsWhitespace(r[0]) && !IsWhitespace(r[|r| - 1]))
  {
    Strip(SpaceTerminated(OverlappingTexts(box, blocks)))
  }

  /** `align_text`: one pair per element, in order, the element unchanged and its matched text. */
  method AlignText(elements: seq<LayoutElement>, textBlocks: seq<(string, BBox)>)
    returns (results: seq<(LayoutElement, string)>)
    ensures |results| == |elements|
    ensures forall i :: 0 <= i < |elements| ==>
              results[i].0 == elements[i] && results[i].1 == MatchedText(elements[i].bbox, textBlocks)
  {
    results := [];
    for i := 0 to |elements|
      invariant |results| == i
      invariant forall k :: 0 <= k < i ==>
                  results[k].0 == elements[k] && results[k].1 == MatchedText(elements[k].bbox, textBlocks)
    {
      var elem := elements[i];
      var matched := "";
      for j := 0 to |textBlocks|
        invariant matched == SpaceTerminated(OverlappingTexts(elem.bbox, textBlocks[..j]))
      {
        var (text, textBox) := textBlocks[j];
        ghost var before := OverlappingTexts(elem.bbox, textBlocks[..j]);
        assert textBlocks[..j + 1][..j] == textBlocks[..j];
        if BoxesOverlap(elem.bbox, textBox) {
          assert OverlappingTexts(elem.bbox, textBlocks[..j + 1]) == before + [text];
          assert (before + [text])[..|before|] == before;
          assert SpaceTerminated(before + [text]) == SpaceTerminated(before) + text + " ";
          matched := matched + text + " ";
        } else {
          assert OverlappingTexts(elem.bbox, textBlocks[..j + 1]) == before;
        }
      }
      assert textBlocks[..|textBlocks|] == textBlocks;
      results := results + [(elem, Strip(matched))];
    }
  }

  /** A text is among OverlappingTexts exactly when some overlapping block carries it. */
  lemma {:induction false} OverlappingTextsMembers(box: BBox, blocks: seq<(string, BBox)>, t: string)
    ensures t in OverlappingTexts(box, blocks) <==>
            exists k :: 0 <= k < |blocks| && BoxesOverlap(box, blocks[k].1) && blocks[k].0 == t
  {
    if blocks != [] {
      var init := blocks[..|blocks| - 1];
      OverlappingTextsMembers(box, init, t);
      if exists k :: 0 <= k < |blocks| && BoxesOverlap(box, blocks[k].1) && blocks[k].0 == t {
        var k :| 0 <= k < |blocks| && BoxesOverlap(box, blocks[k].1) && blocks[k].0 == t;
        if k < |blocks| - 1 {
          assert init[k] == blocks[k];
        }
      }
      if exists k :: 0 <= k < |init| && BoxesOverlap(box, init[k].1) && init[k].0 == t {
        var k :| 0 <= k < |init| && BoxesOverlap(box, init[k].1) && init[k].0 == t;
        assert blocks[k] == init[k];
      }
    }
  }

  lemma {:induction false} AllWhitespaceConcat(a: string, b: string)
    ensures AllWhitespace(a + b) <==> AllWhitespace(a) && AllWhitespace(b)
  {
    if AllWhitespace(a + b) {
      assert forall k :: 0 <= k < |a| ==> a[k] == (a + b)[k];
      assert forall k :: 0 <= k < |b| ==> b[k] == (a + b)[|a| + k];
    }
  }

  /** The accumulator is all whitespace exactly when every accumulated text is. */
  lemma {:induction false} SpaceTerminatedWhitespace(ts: seq<string>)
    ensures AllWhitespace(SpaceTerminated(ts)) <==> forall t :: t in ts ==> AllWhitespace(t)
  {
    if ts != [] {
      var init, last := ts[..|ts| - 1], ts[|ts| - 1];
      SpaceTerminatedWhitespace(init);
      AllWhitespaceConcat(SpaceTerminated(init) + last, " ");
      AllWhitespaceConcat(SpaceTerminated(init), last);
      assert ts == init + [last];
    }
  }

  /**
   * The matched text is empty exactly when every overlapping block's text is whitespace;
   * in particular it is "" when no block overlaps.
   */
  lemma {:induction false} MatchedTextEmptyIff(box: BBox, blocks: seq<(string, BBox)>)
    ensures MatchedText(box, blocks) == "" <==>
            forall k :: 0 <= k < |blocks| && BoxesOverlap(box, blocks[k].1) ==> AllWhitespace(blocks[k].0)
  {
    var ts := OverlappingTexts(box, blocks);
    SpaceTerminatedWhitespace(ts);
    forall t | t in ts ensures exists k :: 0 <= k < |blocks| && BoxesOverlap(box, blocks[k].1) && blocks[k].0 == t {
      OverlappingTextsMembers(box, blocks, t);
    }
    forall k | 0 <= k < |blocks| && BoxesOverlap(box, blocks[k].1) ensures blocks[k].0 in ts {
      OverlappingTextsMembers(box, blocks, blocks[k].0);
    }
  }

  /** A text with no whitespace at either end (and at least one character). */
  predicate Trimmed(t: string) {
    t != [] && !IsWhitespace(t[0]) && !IsWhitespace(t[|t| - 1])
  }

  lemma {:induction false} SpaceTerminatedIsJoin(ts: seq<string>)
    requires ts != []
    ensures SpaceTerminated(ts) == Join(ts) + " "
  {
    if |ts| > 1 {
      SpaceTerminatedIsJoin(ts[..|ts| - 1]);
    }
  }

  lemma {:induction false} JoinEnds(ts: seq<string>)
    requires ts != [] && forall t :: t in ts ==> Trimmed(t)
    ensures Trimmed(Join(ts))
  {
    if |ts| > 1 {
      var init := ts[..|ts| - 1];
      assert forall t :: t in init ==> t in ts;
      JoinEnds(init);
      assert ts[|ts| - 1] in ts;
    } else {
      assert ts[0] in ts;
    }
  }

  /**
   * When every overlapping text is non-empty and carries no surrounding whitespace,
   * the matched text is those texts joined by single spaces.
   */
  lemma {:induction false} MatchedTextJoins(box: BBox, blocks: seq<(string, BBox)>)
    requires forall k :: 0 <= k < |blocks| && BoxesOverlap(box, blocks[k].1) ==> Trimmed(blocks[k].0)
    ensures MatchedText(box, blocks) == Join(OverlappingTexts(box, blocks))
  {
    var ts := OverlappingTexts(box, blocks);
    if ts != [] {
      forall t | t in ts ensures Trimmed(t) {
        OverlappingTextsMembers(box, blocks, t);
      }
      SpaceTerminatedIsJoin(ts);
      JoinEnds(ts);
      StripAppendWhitespace(Join(ts), ' ');
      StripTrimmed(Join(ts));
    }
  }

  // ---------------------------------------------------------------------------
  // Region classification (the per-component rule of `detect`)

  /** The bounding box of one connected component, as pixel indices. */
  datatype Region = Region(xMin: int, yMin: int, xMax: int, yMax: int)

  predicate RegionWellFormed(r: Region) {
    r.xMin <= r.xMax && r.yMin <= r.yMax
  }

  /** Width over height, or 0 when the height is not positive. */
  function AspectRatio(width: int, height: int): real {
    if height > 0 then width as real / height as real else 0.0
  }

  /** The analyser's default minimum element area, in square pixels. */
  const DefaultMinArea := 1000

  /**
   * The element `detect` emits for one component: none if its area is below `minArea`,
   * otherwise a TEXT, FIGURE or TABLE element chosen by aspect ratio.
   */
  function ClassifyRegion(region: Region, minArea: int): (e: Option<LayoutElement>)
    ensures e.None? <==> (region.xMax - region.xMin) * (region.yMax - region.yMin) < minArea
    ensures e.Some? ==> e.value.bbox == BBox(region.xMin as real, region.yMin as real, region.xMax as real, region.yMax as real)
    ensures e.Some? ==> 0.0 <= e.value.confidence <= 1.0
    ensures e.Some? && RegionWellFormed(region) ==> WellFormed(e.value.bbox)
  {
    var area := (region.xMax - region.xMin) * (region.yMax - region.yMin);
    if area < minArea then None
    else
      var bbox := BBox(region.xMin as real, region.yMin as real, region.xMax as real, region.yMax as real);
      var ratio := AspectRatio(region.xMax - region.xMin, region.yMax - region.yMin);
      if ratio > 3.0 then Some(LayoutElement(bbox, Text, 0.7))
      else if 0.5 < ratio < 2.0 then Some(LayoutElement(bbox, Figure, 0.6))
      else Some(LayoutElement(bbox, Table, 0.5))
  }

  /**
   * The same rule without division: for width w and height h, TEXT when h > 0 and w > 3h,
   * FIGURE when h > 0 and h < 2w and w < 2h, TABLE otherwise (so h <= 0 and 2h <= w <= 3h give TABLE).
   */
  lemma {:induction false} ClassifyRegionByShape(region: Region, minArea: int)
    requires (region.xMax - region.xMin) * (region.yMax - region.yMin) >= minArea
    ensures var w, h := region.xMax - region.xMin, region.yMax - region.yMin;
            var e := ClassifyRegion(region, minArea).value;
            && (e.elementType == Text <==> h > 0 && w > 3 * h)
            && (e.elementType == Figure <==> h > 0 && h < 2 * w && w < 2 * h)
            && (e.elementType == Table <==> !(h > 0 && w > 3 * h) && !(h > 0 && h < 2 * w && w < 2 * h))
            && e.confidence == (if e.elementType == Text then 0.7 else if e.elementType == Figure then 0.6 else 0.5)
  {
    var w, h := region.xMax - region.xMin, region.yMax - region.yMin;
    if h > 0 {
      RatioCompare(w, h, 3.0);
      RatioCompare(w, h, 0.5);
      RatioCompare(w, h, 2.0);
    }
  }

  /** For h > 0, comparing w / h with a constant is comparing w with that multiple of h. */
  lemma {:induction false} RatioCompare(w: int, h: int, c: real)
    requires h > 0
    ensures AspectRatio(w, h) > c <==> w as real > c * h as real
    ensures AspectRatio(w, h) < c <==> w as real < c * h as real
  {
    var r := w as real / h as real;
    assert r * h as real == w as real;
  }

  /** The elements `detect` emits for the given components, in component order. */
  function Emitted(regions: seq<Region>, minArea: int): (r: seq<LayoutElement>)
    ensures |r| <= |regions|
    ensures forall e :: e in r ==> 0.0 <= e.confidence <= 1.0 && exists region :: region in regions && ClassifyRegion(region, minArea) == Some(e)
  {
    if regions == [] then []
    else
      var rest := Emitted(regions[..|regions| - 1], minArea);
      match ClassifyRegion(regions[|regions| - 1], minArea)
      case Some(e) => rest + [e]
      case None => rest
  }

  /**
   * The loop of `detect` over the components found by connected-component labelling
   * (the labelling itself is not modelled): it emits exactly Emitted(regions, minArea),
   * and every emitted confidence lies in [0, 1].
   */
  method Detect(regions: seq<Region>, minArea: int) returns (elements: seq<LayoutElement>)
    ensures elements == Emitted(regions, minArea)
    ensures forall k :: 0 <= k < |elements| ==> 0.0 <= elements[k].confidence <= 1.0
  {
    elements := [];
    for i := 0 to |regions|
      invariant elements == Emitted(regions[..i], minArea)
      invariant forall k :: 0 <= k < |elements| ==> 0.0 <= elements[k].confidence <= 1.0
    {
      assert regions[..i + 1][..i] == regions[..i];
      var e := ClassifyRegion(regions[i], minArea);
      if e.Some? {
        elements := elements + [e.value];
      }
    }
    assert regions[..|regions|] == regions;
  }

  /** Raising `minArea` never lets more elements through. */
  lemma {:induction false} EmittedMonotone(regions: seq<Region>, small: int, large: int)
    requires small <= large
    ensures |Emitted(regions, large)| <= |Emitted(regions, small)|
  {
    if regions != [] {
      EmittedMonotone(regions[..|regions| - 1], small, large);
    }
  }
}
