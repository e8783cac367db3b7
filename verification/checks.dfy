/** The two visual checks that annotate a frame without recolouring it:
    the guide check circles every region of a guide colour, the alpha
    check crosses out every fully transparent region. Both find regions
    with the scan of module Blobs and emit marks at the regions' centres. */
module Checks {
  import opened Colors
  import opened Images
  import opened ColorMatch
  import opened Blobs

  /** GuideColorParams: the colour to look for, and the ring drawn around
      each region of it. */
  datatype GuideParams = GuideParams(sourceColor: Rgba, selectionColor: Rgba, radius: int,
                                     thickness: int, tolerance: int, enabled: bool)

  /** A rule built from the record's default member values. */
  function NewGuideParams(source: Rgba, selection: Rgba): (p: GuideParams)
    ensures p.sourceColor == source && p.selectionColor == selection
    ensures p.radius == 10 && p.thickness == 2 && p.tolerance == 0 && p.enabled
  {
    GuideParams(source, selection, 10, 2, 0, true)
  }

  /** AlphaCheckParams: the cross drawn over each transparent region. */
  datatype AlphaParams = AlphaParams(crossColor: Rgba, crossSize: int, thickness: int, applyToAll: bool)

  /** The record's default member values: a red cross of size 10, two pixels wide. */
  const DefaultAlpha := AlphaParams(Red, 10, 2, false)

  /** A pixel the guide rule looks for, read from the image before any drawing. */
  predicate GuideHit(img: Image, rule: GuideParams, p: Point) {
    ColorsMatch(PixelAt(img, p), rule.sourceColor, rule.tolerance)
  }

  function GuideMatch(img: Image, rule: GuideParams): Point -> bool {
    p => GuideHit(img, rule, p)
  }

  /** A fully transparent pixel. */
  predicate Clear(img: Image, p: Point) {
    PixelAt(img, p).a == 0
  }

  function ClearMatch(img: Image): Point -> bool {
    p => Clear(img, p)
  }

  predicate Counted(blobs: seq<Blob>) {
    forall k :: 0 <= k < |blobs| ==> blobs[k].count > 0
  }

  /** One ring per region, centred on the region's centre of mass. */
  function Rings(rule: GuideParams, blobs: seq<Blob>): (marks: seq<Mark>)
    requires Counted(blobs)
    ensures |marks| == |blobs|
    ensures forall k :: 0 <= k < |blobs| ==>
      marks[k] == Ring(Centroid(blobs[k]), rule.radius, rule.thickness, rule.selectionColor)
  {
    seq(|blobs|, k requires 0 <= k < |blobs| => Ring(Centroid(blobs[k]), rule.radius, rule.thickness, rule.selectionColor))
  }

  /** The rings of all rules, rule by rule; `found[i]` holds the regions of
      rule i, and a disabled rule draws nothing. */
  function GuideMarks(params: seq<GuideParams>, found: seq<seq<Blob>>): seq<Mark>
    requires |found| == |params|
    requires forall i :: 0 <= i < |found| ==> Counted(found[i])
  {
    if params == [] then []
    else
      var n := |params| - 1;
      GuideMarks(params[..n], found[..n]) + (if params[n].enabled then Rings(params[n], found[n]) else [])
  }

  /** What the guide check found for each rule: the scan's regions for an
      enabled rule, nothing for a disabled one. Each scan starts afresh. */
  ghost predicate GuideFound(img: Image, params: seq<GuideParams>, found: seq<seq<Blob>>) {
    && |found| == |params|
    && (forall i :: 0 <= i < |found| ==> Counted(found[i]))
    && (forall i :: 0 <= i < |params| ==>
          if params[i].enabled then Detection(img.width, img.height, GuideMatch(img, params[i]), found[i])
          else found[i] == [])
  }

  /** `out` is the frame the guide check hands back when it reports a
      change: `img` with the rings of every enabled rule's regions added,
      rule by rule, and its pixels as they were. */
  ghost predicate GuideDrawn(img: Image, params: seq<GuideParams>, out: Image) {
    exists found :: GuideFound(img, params, found) && out == img.(overlay := img.overlay + GuideMarks(params, found))
  }

  /** `out` is the frame the alpha check hands back when it reports a
      change: `img` with a cross over every fully transparent region added,
      region by region in scan order, and its pixels as they were. */
  ghost predicate AlphaDrawn(img: Image, params: AlphaParams, out: Image) {
    exists blobs :: && Counted(blobs)
                    && Detection(img.width, img.height, ClearMatch(img), blobs)
                    && out == img.(overlay := img.overlay + Crosses(params, blobs))
  }

  /** Some pixel of the frame is one the rule looks for. */
  ghost predicate RuleHits(img: Image, rule: GuideParams) {
    exists p :: InBounds(img.width, img.height, p) && GuideHit(img, rule, p)
  }

  /** One enabled rule: scan the frame afresh and ring every region found. */
  method GuideRule(img: Image, rule: GuideParams) returns (blobs: seq<Blob>, rings: seq<Mark>)
    ensures Counted(blobs) && Detection(img.width, img.height, GuideMatch(img, rule), blobs)
    ensures rings == Rings(rule, blobs)
    ensures |blobs| > 0 <==> RuleHits(img, rule)
  {
    blobs := DetectRegions(img.width, img.height, GuideMatch(img, rule));
    rings := Rings(rule, blobs);
  }

  /** Extending the per-rule results by rule i's. */
  lemma GuideStep(img: Image, params: seq<GuideParams>, found: seq<seq<Blob>>, blobs: seq<Blob>, i: nat)
    requires i < |params| && GuideFound(img, params[..i], found)
    requires Counted(blobs)
    requires if params[i].enabled then Detection(img.width, img.height, GuideMatch(img, params[i]), blobs) else blobs == []
    ensures GuideFound(img, params[..i + 1], found + [blobs])
    ensures GuideMarks(params[..i + 1], found + [blobs])
         == GuideMarks(params[..i], found) + (if params[i].enabled then Rings(params[i], blobs) else [])
  {
    assert params[..i + 1][..i] == params[..i];
    assert (found + [blobs])[..i] == found;
  }

  /** The guide check on one frame. It reports a change exactly when some
      enabled rule has a matching pixel; only then are the rings added,
      otherwise the frame is returned as it was. Pixels never change. */
  method GuideCheckImage(img: Image, params: seq<GuideParams>)
    returns (out: Image, modified: bool, ghost found: seq<seq<Blob>>)
    ensures GuideFound(img, params, found)
    ensures modified <==> exists i :: 0 <= i < |params| && params[i].enabled && RuleHits(img, params[i])
    ensures modified ==> out == img.(overlay := img.overlay + GuideMarks(params, found))
    ensures modified ==> GuideDrawn(img, params, out)
    ensures !modified ==> out == img
  {
    out, modified, found := img, false, [];
    if |params| == 0 {
      return;
    }
    var marks: seq<Mark> := [];
    var i := 0;
    while i < |params|
      invariant 0 <= i <= |params|
      invariant GuideFound(img, params[..i], found)
      invariant marks == GuideMarks(params[..i], found)
      invariant modified <==> exists j :: 0 <= j < i && params[j].enabled && RuleHits(img, params[j])
    {
      var rule := params[i];
      var blobs: seq<Blob> := [];
      if rule.enabled {
        var rings;
        blobs, rings := GuideRule(img, rule);
        if |blobs| > 0 {
          modified := true;
        }
        marks := marks + rings;
      }
      GuideStep(img, params, found, blobs, i);
      found := found + [blobs];
      i := i + 1;
    }
    assert params[..i] == params;
    if modified {
      out := img.(overlay := img.overlay + marks);
    }
  }

  /** Every ring the guide check draws is centred on the frame. */
  lemma {:induction false} GuideMarksCentred(img: Image, params: seq<GuideParams>, found: seq<seq<Blob>>)
    requires GuideFound(img, params, found)
    ensures forall m :: m in GuideMarks(params, found) ==> m.Ring? && InBounds(img.width, img.height, m.center)
  {
    if params != [] {
      var n := |params| - 1;
      assert GuideFound(img, params[..n], found[..n]);
      GuideMarksCentred(img, params[..n], found[..n]);
      if params[n].enabled {
        DetectedCentroids(img.width, img.height, GuideMatch(img, params[n]), found[n]);
      }
    }
  }

  /** Each enabled rule draws one ring per region it found. */
  lemma {:induction false} GuideMarksCount(params: seq<GuideParams>, found: seq<seq<Blob>>)
    requires |found| == |params|
    requires forall i :: 0 <= i < |found| ==> Counted(found[i])
    ensures |GuideMarks(params, found)| == RingCount(params, found)
  {
    if params != [] {
      var n := |params| - 1;
      GuideMarksCount(params[..n], found[..n]);
    }
  }

  /** The number of regions found by the enabled rules. */
  function RingCount(params: seq<GuideParams>, found: seq<seq<Blob>>): nat
    requires |found| == |params|
  {
    if params == [] then 0
    else
      var n := |params| - 1;
      RingCount(params[..n], found[..n]) + (if params[n].enabled then |found[n]| else 0)
  }

  /** C++ `n / 2` on an int: the quotient truncated toward zero. */
  function HalfTowardZero(n: int): (r: int)
    ensures 2 * Abs(r) <= Abs(n) < 2 * Abs(r) + 2
    ensures n >= 0 ==> r >= 0
    ensures n <= 0 ==> r <= 0
  {
    if n >= 0 then n / 2 else -((-n) / 2)
  }

  /** The two diagonals of a square of half-side `crossSize / 2` around `c`. */
  function Cross(params: AlphaParams, c: Point): seq<Mark> {
    var s := HalfTowardZero(params.crossSize);
    [ Line(Point(c.x - s, c.y - s), Point(c.x + s, c.y + s), params.thickness, params.crossColor),
      Line(Point(c.x - s, c.y + s), Point(c.x + s, c.y - s), params.thickness, params.crossColor) ]
  }

  /** One cross per region, in the order the regions were found. */
  function Crosses(params: AlphaParams, blobs: seq<Blob>): seq<Mark>
    requires Counted(blobs)
  {
    if blobs == [] then []
    else Crosses(params, blobs[..|blobs| - 1]) + Cross(params, Centroid(blobs[|blobs| - 1]))
  }

  /** The k-th pair of strokes is the cross of the k-th region. */
  lemma {:induction false} CrossesAt(params: AlphaParams, blobs: seq<Blob>)
    requires Counted(blobs)
    ensures |Crosses(params, blobs)| == 2 * |blobs|
    ensures forall k :: 0 <= k < |blobs| ==> Crosses(params, blobs)[2 * k..2 * k + 2] == Cross(params, Centroid(blobs[k]))
  {
    if blobs != [] {
      var n := |blobs| - 1;
      var init := blobs[..n];
      CrossesAt(params, init);
      var all := Crosses(params, blobs);
      assert all == Crosses(params, init) + Cross(params, Centroid(blobs[n]));
      forall k | 0 <= k < |blobs|
        ensures all[2 * k..2 * k + 2] == Cross(params, Centroid(blobs[k]))
      {
        if k < n {
          assert init[k] == blobs[k];
          assert all[2 * k..2 * k + 2] == Crosses(params, init)[2 * k..2 * k + 2];
        } else {
          assert all[2 * k..2 * k + 2] == all[2 * n..];
        }
      }
    }
  }

  /** Both strokes of a cross are diagonals through its centre: their
      midpoints are the centre, each spans `crossSize / 2` either way on
      both axes, and they have the configured colour and width. */
  lemma CrossShape(params: AlphaParams, c: Point)
    ensures forall m :: m in Cross(params, c) ==>
      && m.Line?
      && m.from.x + m.to.x == 2 * c.x && m.from.y + m.to.y == 2 * c.y
      && Abs(m.to.x - m.from.x) == Abs(m.to.y - m.from.y) == 2 * Abs(HalfTowardZero(params.crossSize))
      && m.thickness == params.thickness && m.color == params.crossColor
  {
  }

  /** Draws the cross of every region in turn; `drawn` records whether any was drawn. */
  method CrossMarks(params: AlphaParams, blobs: seq<Blob>) returns (marks: seq<Mark>, drawn: bool)
    requires Counted(blobs)
    ensures marks == Crosses(params, blobs)
    ensures drawn <==> |blobs| > 0
  {
    marks, drawn := [], false;
    var k := 0;
    while k < |blobs|
      invariant 0 <= k <= |blobs|
      invariant marks == Crosses(params, blobs[..k])
      invariant drawn <==> k > 0
    {
      assert blobs[..k + 1][..k] == blobs[..k];
      marks := marks + Cross(params, Centroid(blobs[k]));
      drawn := true;
      k := k + 1;
    }
    assert blobs[..k] == blobs;
  }

  /** The alpha check on one frame. A null frame is left alone; otherwise
      a change is reported exactly when some pixel is fully transparent,
      and a cross is added at the centre of every transparent region.
      Pixels never change. */
  method AlphaCheckImage(img: Image, params: AlphaParams) returns (out: Image, modified: bool, ghost blobs: seq<Blob>)
    ensures Counted(blobs)
    ensures !IsNull(img) ==> Detection(img.width, img.height, ClearMatch(img), blobs)
    ensures modified <==> exists p :: InBounds(img.width, img.height, p) && Clear(img, p)
    ensures modified ==> out == img.(overlay := img.overlay + Crosses(params, blobs))
    ensures modified ==> AlphaDrawn(img, params, out)
    ensures !modified ==> out == img
  {
    out, modified, blobs := img, false, [];
    if IsNull(img) {
      return;
    }
    var regions := DetectRegions(img.width, img.height, ClearMatch(img));
    blobs := regions;
    var marks;
    marks, modified := CrossMarks(params, regions);
    if modified {
      out := img.(overlay := img.overlay + marks);
    }
  }
}
