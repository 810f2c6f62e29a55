/**
 * Caption and context linking: each figure gets the nearest text block directly above or
 * below it as its caption, and the texts of all blocks within a distance as its context.
 */
module CaptionLinker {
  import opened Wrappers
  import opened Geometry
  import opened FigureClusterer

  /** A figure with its caption and the texts near it. */
  datatype CaptionedFigure = CaptionedFigure(figure: FigureObject, caption: Option<string>, nearbyText: seq<string>)

  /** The two thresholds a linker is configured with. */
  datatype Linker = Linker(captionDistanceThreshold: real, contextDistanceThreshold: real)

  /** The defaults of the linker's constructor and of `fetch_context`'s `max_distance`. */
  const DefaultLinker := Linker(50.0, 150.0)
  const DefaultMaxDistance := 200.0

  /** Construction of a CaptionedFigure: `__post_init__` replaces a missing `nearby_text` by the empty list. */
  function NewCaptionedFigure(figure: FigureObject, caption: Option<string>, nearbyText: Option<seq<string>>): (r: CaptionedFigure)
    ensures r.figure == figure && r.caption == caption
    ensures nearbyText.None? ==> r.nearbyText == []
    ensures nearbyText.Some? ==> r.nearbyText == nearbyText.value
  {
    CaptionedFigure(figure, caption, if nearbyText.None? then [] else nearbyText.value)
  }

  // ---------------------------------------------------------------------------
  // Geometric tests

  /** The closed x-ranges of the two boxes meet (touching counts); ranges it rejects share no x. */
  predicate HorizontalOverlap(fig: BBox, text: BBox): (r: bool)
    ensures !r ==> forall x :: InXRange(x, fig) ==> !InXRange(x, text)
  {
    !(text.x1 < fig.x0 || text.x0 > fig.x1)
  }

  /**
   * `_is_below_or_above`: the text overlaps the figure horizontally and lies wholly below or
   * wholly above it, so the two open y-ranges share no point.
   */
  predicate IsBelowOrAbove(fig: BBox, text: BBox): (r: bool)
    ensures r ==> HorizontalOverlap(fig, text) && forall y :: InOpenYRange(y, fig) ==> !InOpenYRange(y, text)
  {
    HorizontalOverlap(fig, text) && (text.y0 >= fig.y1 || text.y1 <= fig.y0)
  }

  predicate InXRange(x: real, b: BBox) {
    b.x0 <= x <= b.x1
  }

  predicate InOpenYRange(y: real, b: BBox) {
    b.y0 < y < b.y1
  }

  /** For well-formed boxes, horizontal overlap means the closed x-ranges share a point. */
  lemma {:induction false} HorizontalOverlapIffCommonX(fig: BBox, text: BBox)
    requires WellFormed(fig) && WellFormed(text)
    ensures HorizontalOverlap(fig, text) <==> exists x :: InXRange(x, fig) && InXRange(x, text)
  {
    if HorizontalOverlap(fig, text) {
      var x := Max(fig.x0, text.x0);
      assert InXRange(x, fig) && InXRange(x, text);
    }
  }

  /** A caption candidate never shares interior with the figure, so their overlap ratio is 0. */
  lemma {:induction false} BelowOrAboveOutsideFigure(fig: BBox, text: BBox)
    requires IsBelowOrAbove(fig, text)
    ensures !InteriorsIntersect(fig, text)
    ensures OverlapRatio(fig, text) == 0.0
  {
    OverlapRatioPositiveIff(fig, text);
    assert XOverlap(fig, text) >= 0.0 && YOverlap(fig, text) >= 0.0;
    MulMonotone(0.0, 0.0, XOverlap(fig, text), YOverlap(fig, text));
  }

  // ---------------------------------------------------------------------------
  // Caption selection

  /** Squared centre distance from the figure to a block. */
  function Dist(fig: BBox, b: TextBlock): real {
    CentreDistSq(fig, b.bbox)
  }

  /**
   * The index of the caption block among `blocks`: scanning in order, a block directly above or
   * below the figure replaces the current choice when it is strictly nearer (the first such
   * block always does, the initial distance being infinite).
   */
  function CaptionIndex(fig: BBox, blocks: seq<TextBlock>): (r: Option<nat>)
    ensures r.Some? ==> r.value < |blocks|
  {
    if blocks == [] then None
    else
      var n := |blocks| - 1;
      var prev := CaptionIndex(fig, blocks[..n]);
      if IsBelowOrAbove(fig, blocks[n].bbox) && (prev.None? || Dist(fig, blocks[n]) < Dist(fig, blocks[prev.value]))
      then Some(n)
      else prev
  }

  /**
   * Block k is the caption: it is directly above or below the figure, no qualifying block is
   * nearer, and every qualifying block before it is strictly farther (ties go to the first).
   */
  ghost predicate IsNearestCaption(fig: BBox, blocks: seq<TextBlock>, k: int) {
    && 0 <= k < |blocks|
    && IsBelowOrAbove(fig, blocks[k].bbox)
    && (forall m :: 0 <= m < |blocks| && IsBelowOrAbove(fig, blocks[m].bbox) ==> Dist(fig, blocks[k]) <= Dist(fig, blocks[m]))
    && (forall m :: 0 <= m < k && IsBelowOrAbove(fig, blocks[m].bbox) ==> Dist(fig, blocks[k]) < Dist(fig, blocks[m]))
  }

  /** CaptionIndex is None exactly when no block qualifies, and otherwise names the nearest, earliest qualifying block. */
  lemma {:induction false} CaptionIndexIsNearest(fig: BBox, blocks: seq<TextBlock>)
    ensures CaptionIndex(fig, blocks).None? <==> forall m :: 0 <= m < |blocks| ==> !IsBelowOrAbove(fig, blocks[m].bbox)
    ensures CaptionIndex(fig, blocks).Some? ==> IsNearestCaption(fig, blocks, CaptionIndex(fig, blocks).value)
  {
    if blocks != [] {
      var n := |blocks| - 1;
      var init := blocks[..n];
      CaptionIndexIsNearest(fig, init);
      assert forall m :: 0 <= m < n ==> init[m] == blocks[m];
    }
  }

  /** There is at most one nearest, earliest caption block. */
  lemma {:induction false} NearestCaptionUnique(fig: BBox, blocks: seq<TextBlock>, k1: int, k2: int)
    requires IsNearestCaption(fig, blocks, k1) && IsNearestCaption(fig, blocks, k2)
    ensures k1 == k2
  {
  }

  /** The caption text chosen for a figure: none when no block qualifies, else the text of the nearest, earliest one. */
  function CaptionText(fig: BBox, blocks: seq<TextBlock>): (r: Option<string>)
    ensures r.None? <==> forall m :: 0 <= m < |blocks| ==> !IsBelowOrAbove(fig, blocks[m].bbox)
    ensures r.Some? ==> exists k :: IsNearestCaption(fig, blocks, k) && r.value == blocks[k].text
  {
    CaptionIndexIsNearest(fig, blocks);
    var k := CaptionIndex(fig, blocks);
    if k.None? then None else Some(blocks[k.value].text)
  }

  // ---------------------------------------------------------------------------
  // Context selection

  /** The blocks whose centre distance from the figure is at most t, in input order. */
  function NearbyBlocks(fig: BBox, blocks: seq<TextBlock>, t: real): (r: seq<TextBlock>)
    ensures |r| <= |blocks|
    ensures forall b :: b in r ==> b in blocks && WithinDistance(Dist(fig, b), t)
  {
    if blocks == [] then []
    else
      var n := |blocks| - 1;
      NearbyBlocks(fig, blocks[..n], t) + (if WithinDistance(Dist(fig, blocks[n]), t) then [blocks[n]] else [])
  }

  /** Exactly the blocks within distance t are kept. */
  lemma {:induction false} NearbyBlocksMembers(fig: BBox, blocks: seq<TextBlock>, t: real)
    ensures forall b :: b in NearbyBlocks(fig, blocks, t) <==> b in blocks && WithinDistance(Dist(fig, b), t)
  {
    if blocks != [] {
      var n := |blocks| - 1;
      NearbyBlocksMembers(fig, blocks[..n], t);
      assert blocks == blocks[..n] + [blocks[n]];
    }
  }

  /** The filter works block by block, so the kept blocks stay in input order. */
  lemma {:induction false} NearbyBlocksConcat(fig: BBox, a: seq<TextBlock>, b: seq<TextBlock>, t: real)
    ensures NearbyBlocks(fig, a + b, t) == NearbyBlocks(fig, a, t) + NearbyBlocks(fig, b, t)
    decreases |b|
  {
    if b == [] {
      assert a + b == a;
    } else {
      var n := |b| - 1;
      assert (a + b)[..|a + b| - 1] == a + b[..n];
      NearbyBlocksConcat(fig, a, b[..n], t);
    }
  }

  function Texts(blocks: seq<TextBlock>): (r: seq<string>)
    ensures |r| == |blocks| && forall k :: 0 <= k < |blocks| ==> r[k] == blocks[k].text
  {
    seq(|blocks|, k requires 0 <= k < |blocks| => blocks[k].text)
  }

  /** `s` is the text of some block within distance t of the figure. */
  ghost predicate IsContextText(fig: BBox, blocks: seq<TextBlock>, t: real, s: string) {
    exists j :: 0 <= j < |blocks| && WithinDistance(Dist(fig, blocks[j]), t) && blocks[j].text == s
  }

  /** Every context text is the text of a block within distance t. */
  lemma {:induction false} NearbyTexts(fig: BBox, blocks: seq<TextBlock>, t: real, ts: seq<string>)
    requires ts == Texts(NearbyBlocks(fig, blocks, t))
    ensures forall k :: 0 <= k < |ts| ==> IsContextText(fig, blocks, t, ts[k])
  {
    var near := NearbyBlocks(fig, blocks, t);
    forall k | 0 <= k < |ts| ensures IsContextText(fig, blocks, t, ts[k]) {
      assert near[k] in near;
      var j :| 0 <= j < |blocks| && blocks[j] == near[k];
    }
  }

  /** Scanning one more block updates the caption index as `attach`'s comparison does. */
  lemma {:induction false} CaptionIndexStep(fig: BBox, blocks: seq<TextBlock>, j: int)
    requires 0 <= j < |blocks|
    ensures var prev := CaptionIndex(fig, blocks[..j]);
            CaptionIndex(fig, blocks[..j + 1])
            == if IsBelowOrAbove(fig, blocks[j].bbox) && (prev.None? || Dist(fig, blocks[j]) < Dist(fig, blocks[prev.value])) then Some(j) else prev
  {
    assert blocks[..j + 1][..j] == blocks[..j];
  }

  /** Scanning one more block appends its text to the context exactly when it lies within distance t. */
  lemma {:induction false} NearbyTextsStep(fig: BBox, blocks: seq<TextBlock>, j: int, t: real)
    requires 0 <= j < |blocks|
    ensures Texts(NearbyBlocks(fig, blocks[..j + 1], t))
            == Texts(NearbyBlocks(fig, blocks[..j], t)) + if WithinDistance(Dist(fig, blocks[j]), t) then [blocks[j].text] else []
  {
    var near := NearbyBlocks(fig, blocks[..j], t);
    assert blocks[..j + 1][..j] == blocks[..j];
    if WithinDistance(Dist(fig, blocks[j]), t) {
      assert NearbyBlocks(fig, blocks[..j + 1], t) == near + [blocks[j]];
      TextsSnoc(near, blocks[j]);
    } else {
      assert NearbyBlocks(fig, blocks[..j + 1], t) == near;
      assert near + [] == near;
    }
  }

  lemma {:induction false} TextsSnoc(blocks: seq<TextBlock>, b: TextBlock)
    ensures Texts(blocks + [b]) == Texts(blocks) + [b.text]
  {
    assert forall k :: 0 <= k < |blocks| ==> (blocks + [b])[k] == blocks[k];
  }

  // ---------------------------------------------------------------------------
  // attach

  /** What `attach` produces for one figure. */
  function Link(linker: Linker, figure: FigureObject, blocks: seq<TextBlock>): (r: CaptionedFigure)
    ensures r.figure == figure
    ensures r.caption.None? <==> forall b :: b in blocks ==> !IsBelowOrAbove(figure.bbox, b.bbox)
    ensures r.caption.Some? ==> exists b :: b in blocks && IsBelowOrAbove(figure.bbox, b.bbox) && b.text == r.caption.value
    ensures |r.nearbyText| <= |blocks|
    ensures forall k :: 0 <= k < |r.nearbyText| ==> IsContextText(figure.bbox, blocks, linker.contextDistanceThreshold, r.nearbyText[k])
  {
    var context := Texts(NearbyBlocks(figure.bbox, blocks, linker.contextDistanceThreshold));
    NearbyTexts(figure.bbox, blocks, linker.contextDistanceThreshold, context);
    CaptionedFigure(figure, CaptionText(figure.bbox, blocks), context)
  }

  /** The caption threshold is stored but never consulted. */
  lemma {:induction false} LinkIgnoresCaptionThreshold(l1: Linker, l2: Linker, figure: FigureObject, blocks: seq<TextBlock>)
    requires l1.contextDistanceThreshold == l2.contextDistanceThreshold
    ensures Link(l1, figure, blocks) == Link(l2, figure, blocks)
  {
  }

  /**
   * `attach`: one captioned figure per input figure, in order, carrying the figure unchanged,
   * its caption (CaptionIndexIsNearest says which block that is) and the texts of the blocks
   * within the context threshold, in input order.
   */
  method Attach(linker: Linker, figures: seq<FigureObject>, textBlocks: seq<TextBlock>) returns (captioned: seq<CaptionedFigure>)
    ensures |captioned| == |figures|
    ensures forall i :: 0 <= i < |figures| ==> captioned[i] == Link(linker, figures[i], textBlocks)
  {
    captioned := [];
    for i := 0 to |figures|
      invariant |captioned| == i
      invariant forall k :: 0 <= k < i ==> captioned[k] == Link(linker, figures[k], textBlocks)
    {
      var linked := LinkFigure(linker, figures[i], textBlocks);
      captioned := captioned + [linked];
    }
  }

  /** The body of `attach`'s loop for one figure: one scan of the blocks picks the caption and collects the context. */
  method LinkFigure(linker: Linker, fig: FigureObject, textBlocks: seq<TextBlock>) returns (linked: CaptionedFigure)
    ensures linked == Link(linker, fig, textBlocks)
  {
    var caption: Option<string> := None;
    var captionDistance: Option<real> := None;
    ghost var captionIndex: Option<nat> := None;
    var nearbyTexts: seq<string> := [];
    for j := 0 to |textBlocks|
      invariant captionIndex == CaptionIndex(fig.bbox, textBlocks[..j])
      invariant captionIndex.None? ==> caption.None? && captionDistance.None?
      invariant captionIndex.Some? ==> (
        && captionIndex.value < j
        && caption == Some(textBlocks[captionIndex.value].text)
        && captionDistance == Some(Dist(fig.bbox, textBlocks[captionIndex.value])))
      invariant nearbyTexts == Texts(NearbyBlocks(fig.bbox, textBlocks[..j], linker.contextDistanceThreshold))
    {
      var block := textBlocks[j];
      var distance := Dist(fig.bbox, block);
      CaptionIndexStep(fig.bbox, textBlocks, j);
      NearbyTextsStep(fig.bbox, textBlocks, j, linker.contextDistanceThreshold);
      if IsBelowOrAbove(fig.bbox, block.bbox) {
        if captionDistance.None? || distance < captionDistance.value {
          caption := Some(block.text);
          captionDistance := Some(distance);
          captionIndex := Some(j);
        }
      }
      if WithinDistance(distance, linker.contextDistanceThreshold) {
        nearbyTexts := nearbyTexts + [block.text];
      }
    }
    assert textBlocks[..|textBlocks|] == textBlocks;
    linked := NewCaptionedFigure(fig, caption, Some(nearbyTexts));
  }


  // ---------------------------------------------------------------------------
  // fetch_context

  /** The sort key of `fetch_context`: a block's squared distance from the figure. */
  function DistanceKey(fig: BBox): TextBlock -> real {
    b => Dist(fig, b)
  }

  /** Non-decreasing by key. */
  ghost predicate SortedByKey<T>(key: T -> real, s: seq<T>) {
    forall i, j :: 0 <= i < j < |s| ==> key(s[i]) <= key(s[j])
  }

  /** Stable insertion: x goes after every element whose key is at most x's. */
  function InsertByKey<T>(key: T -> real, x: T, s: seq<T>): (r: seq<T>)
    ensures multiset(r) == multiset(s) + multiset{x}
  {
    assert s != [] ==> s == [s[0]] + s[1..];
    if s == [] then [x]
    else if key(x) < key(s[0]) then [x] + s
    else [s[0]] + InsertByKey(key, x, s[1..])
  }

  /** `list.sort` with a key: a stable sort, modelled as insertion sort. */
  function SortByKey<T>(key: T -> real, s: seq<T>): (r: seq<T>)
    ensures multiset(r) == multiset(s)
  {
    if s == [] then []
    else
      assert s == s[..|s| - 1] + [s[|s| - 1]];
      InsertByKey(key, s[|s| - 1], SortByKey(key, s[..|s| - 1]))
  }

  lemma {:induction false} InsertSorted<T>(key: T -> real, x: T, s: seq<T>)
    requires SortedByKey(key, s)
    ensures SortedByKey(key, InsertByKey(key, x, s))
  {
    if s != [] && key(s[0]) <= key(x) {
      var tail := s[1..];
      var rest := InsertByKey(key, x, tail);
      assert SortedByKey(key, tail) && forall k :: 0 <= k < |tail| ==> key(s[0]) <= key(tail[k]) by {
        assert forall k :: 0 <= k < |tail| ==> tail[k] == s[k + 1];
      }
      InsertSorted(key, x, tail);
      InsertKeysAbove(key, x, tail, key(s[0]));
      assert InsertByKey(key, x, s) == [s[0]] + rest;
    }
  }

  /** Inserting x into s keeps every key at least lo when x's key and all of s's keys are. */
  lemma {:induction false} InsertKeysAbove<T>(key: T -> real, x: T, s: seq<T>, lo: real)
    requires lo <= key(x) && forall k :: 0 <= k < |s| ==> lo <= key(s[k])
    ensures forall k :: 0 <= k < |InsertByKey(key, x, s)| ==> lo <= key(InsertByKey(key, x, s)[k])
  {
    var r := InsertByKey(key, x, s);
    forall k | 0 <= k < |r|
      ensures lo <= key(r[k])
    {
      assert r[k] in multiset(r);
      assert r[k] == x || r[k] in multiset(s);
      if r[k] != x {
        var m :| 0 <= m < |s| && s[m] == r[k];
      }
    }
  }

  lemma {:induction false} SortSorted<T>(key: T -> real, s: seq<T>)
    ensures SortedByKey(key, SortByKey(key, s))
  {
    if s != [] {
      SortSorted(key, s[..|s| - 1]);
      InsertSorted(key, s[|s| - 1], SortByKey(key, s[..|s| - 1]));
    }
  }

  /** The elements whose key is d, in order. */
  function AtKey<T>(key: T -> real, s: seq<T>, d: real): seq<T>
  {
    if s == [] then []
    else (if key(s[0]) == d then [s[0]] else []) + AtKey(key, s[1..], d)
  }

  lemma {:induction false} AtKeyConcat<T>(key: T -> real, a: seq<T>, b: seq<T>, d: real)
    ensures AtKey(key, a + b, d) == AtKey(key, a, d) + AtKey(key, b, d)
  {
    if a == [] {
      assert a + b == b;
    } else {
      var head := if key(a[0]) == d then [a[0]] else [];
      assert (a + b)[0] == a[0];
      assert (a + b)[1..] == a[1..] + b;
      assert AtKey(key, a + b, d) == head + AtKey(key, a[1..] + b, d);
      AtKeyConcat(key, a[1..], b, d);
      assert AtKey(key, a, d) == head + AtKey(key, a[1..], d);
    }
  }

  lemma {:induction false} AtKeyBeyond<T>(key: T -> real, s: seq<T>, d: real)
    requires forall k :: 0 <= k < |s| ==> d < key(s[k])
    ensures AtKey(key, s, d) == []
  {
    if s != [] {
      AtKeyBeyond(key, s[1..], d);
    }
  }

  lemma {:induction false} AtKeySingle<T>(key: T -> real, x: T, d: real)
    ensures AtKey(key, [x], d) == if key(x) == d then [x] else []
  {
    assert AtKey(key, [x], d) == (if key(x) == d then [x] else []) + AtKey(key, [], d);
  }

  lemma {:induction false} InsertStable<T>(key: T -> real, x: T, s: seq<T>, d: real)
    requires SortedByKey(key, s)
    ensures AtKey(key, InsertByKey(key, x, s), d) == AtKey(key, s, d) + (if key(x) == d then [x] else [])
  {
    if s == [] {
      AtKeySingle(key, x, d);
    } else if key(x) < key(s[0]) {
      InsertStableFront(key, x, s, d);
    } else {
      assert SortedByKey(key, s[1..]) by {
        assert forall k :: 0 <= k < |s[1..]| ==> s[1..][k] == s[k + 1];
      }
      InsertStable(key, x, s[1..], d);
      InsertStableLater(key, x, s, d);
    }
  }

  /** Inserting before the first element: every element of the sorted s has a larger key than x. */
  lemma {:induction false} InsertStableFront<T>(key: T -> real, x: T, s: seq<T>, d: real)
    requires SortedByKey(key, s) && s != [] && key(x) < key(s[0])
    ensures AtKey(key, InsertByKey(key, x, s), d) == AtKey(key, s, d) + (if key(x) == d then [x] else [])
  {
    assert InsertByKey(key, x, s) == [x] + s;
    AtKeyConcat(key, [x], s, d);
    AtKeySingle(key, x, d);
    if key(x) == d {
      AtKeyBeyond(key, s, d);
    }
  }

  /** Inserting after the first element: the first element's contribution stays in front. */
  lemma {:induction false} InsertStableLater<T>(key: T -> real, x: T, s: seq<T>, d: real)
    requires s != [] && key(s[0]) <= key(x)
    requires AtKey(key, InsertByKey(key, x, s[1..]), d) == AtKey(key, s[1..], d) + (if key(x) == d then [x] else [])
    ensures AtKey(key, InsertByKey(key, x, s), d) == AtKey(key, s, d) + (if key(x) == d then [x] else [])
  {
    var hs, xs := if key(s[0]) == d then [s[0]] else [], if key(x) == d then [x] else [];
    var rest := InsertByKey(key, x, s[1..]);
    assert InsertByKey(key, x, s) == [s[0]] + rest;
    assert ([s[0]] + rest)[0] == s[0] && ([s[0]] + rest)[1..] == rest;
    assert hs + (AtKey(key, s[1..], d) + xs) == (hs + AtKey(key, s[1..], d)) + xs;
  }

  /** The sort is stable: elements with equal keys keep their input order. */
  lemma {:induction false} SortStable<T>(key: T -> real, s: seq<T>, d: real)
    ensures AtKey(key, SortByKey(key, s), d) == AtKey(key, s, d)
  {
    if s != [] {
      SortLastStable(key, s, d);
      SortStable(key, s[..|s| - 1], d);
      AtKeyLast(key, s, d);
    }
  }

  /** Sorting a non-empty sequence inserts its last element into the sorted rest, after the rest's elements with that key. */
  lemma {:induction false} SortLastStable<T>(key: T -> real, s: seq<T>, d: real)
    requires s != []
    ensures AtKey(key, SortByKey(key, s), d)
         == AtKey(key, SortByKey(key, s[..|s| - 1]), d) + (if key(s[|s| - 1]) == d then [s[|s| - 1]] else [])
  {
    var init, x := s[..|s| - 1], s[|s| - 1];
    assert SortByKey(key, s) == InsertByKey(key, x, SortByKey(key, init));
    SortSorted(key, init);
    InsertStable(key, x, SortByKey(key, init), d);
  }

  lemma {:induction false} AtKeyLast<T>(key: T -> real, s: seq<T>, d: real)
    requires s != []
    ensures AtKey(key, s, d) == AtKey(key, s[..|s| - 1], d) + (if key(s[|s| - 1]) == d then [s[|s| - 1]] else [])
  {
    var init, x := s[..|s| - 1], s[|s| - 1];
    assert s == init + [x];
    AtKeyConcat(key, init, [x], d);
    AtKeySingle(key, x, d);
  }

  /**
   * `fetch_context`: the blocks within max_distance of the figure, as a permutation of the
   * filtered input, in non-decreasing distance, blocks at equal distance in input order.
   */
  method FetchContext(figure: FigureObject, textBlocks: seq<TextBlock>, maxDistance: real) returns (result: seq<TextBlock>)
    ensures multiset(result) == multiset(NearbyBlocks(figure.bbox, textBlocks, maxDistance))
    ensures SortedByKey(DistanceKey(figure.bbox), result)
    ensures forall d :: AtKey(DistanceKey(figure.bbox), result, d)
                     == AtKey(DistanceKey(figure.bbox), NearbyBlocks(figure.bbox, textBlocks, maxDistance), d)
  {
    var blocksWithDistance: seq<TextBlock> := [];
    for j := 0 to |textBlocks|
      invariant blocksWithDistance == NearbyBlocks(figure.bbox, textBlocks[..j], maxDistance)
    {
      assert textBlocks[..j + 1][..j] == textBlocks[..j];
      var block := textBlocks[j];
      if WithinDistance(Dist(figure.bbox, block), maxDistance) {
        blocksWithDistance := blocksWithDistance + [block];
      }
    }
    assert textBlocks[..|textBlocks|] == textBlocks;
    var key := DistanceKey(figure.bbox);
    result := SortByKey(key, blocksWithDistance);
    SortSorted(key, blocksWithDistance);
    forall d
      ensures AtKey(key, result, d) == AtKey(key, blocksWithDistance, d)
    {
      SortStable(key, blocksWithDistance, d);
    }
  }

  // ---------------------------------------------------------------------------
  // _find_block_by_text

  /** `_find_block_by_text`: the first block whose text equals the query, None when there is none. */
  function FindBlockByText(blocks: seq<TextBlock>, text: string): (r: Option<TextBlock>)
    ensures r.None? <==> forall k :: 0 <= k < |blocks| ==> blocks[k].text != text
    ensures r.Some? ==> r.value in blocks && r.value.text == text
  {
    if blocks == [] then None
    else if blocks[0].text == text then Some(blocks[0])
    else FindBlockByText(blocks[1..], text)
  }

  /** The block found is the first match. */
  lemma {:induction false} FindBlockByTextFirst(blocks: seq<TextBlock>, text: string, k: int)
    requires 0 <= k < |blocks| && blocks[k].text == text
    requires forall m :: 0 <= m < k ==> blocks[m].text != text
    ensures FindBlockByText(blocks, text) == Some(blocks[k])
  {
    if k > 0 {
      FindBlockByTextFirst(blocks[1..], text, k - 1);
    }
  }
}
