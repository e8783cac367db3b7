/** Rule-based colour replacement (replaceColorsInImage) in both
    revisions of the engine: the current one writes `dest.rgba()`, the
    first one writes `dest.rgb()` and matches tolerance 0 against `source.rgb()`. */
module ColorSwapEngine {
  import opened Colors
  import opened Images
  import opened ColorMatch
  import opened Lists

  /** One replacement rule (struct ColorSwap). */
  datatype ColorSwap = ColorSwap(source: Rgba, dest: Rgba, enabled: bool, tolerance: int)

  /** A rule built with the struct's default member initialisers. */
  function DefaultSwap(source: Rgba, dest: Rgba): (s: ColorSwap)
    ensures s.source == source && s.dest == dest
    ensures s.enabled && s.tolerance == 0
  {
    ColorSwap(source, dest, true, 0)
  }

  datatype Revision = FirstRevision | CurrentRevision

  predicate RuleMatches(rev: Revision, px: Rgba, rule: ColorSwap) {
    match rev
    case CurrentRevision => SwapMatches(px, rule.source, rule.tolerance)
    case FirstRevision => LegacySwapMatches(px, rule.source, rule.tolerance)
  }

  /** The colour a matching rule writes. */
  function Written(rev: Revision, rule: ColorSwap): Rgba {
    match rev
    case CurrentRevision => rule.dest
    case FirstRevision => Opaque(rule.dest)
  }

  /** The enabled rules, in their original order. */
  function ActiveSwaps(rules: seq<ColorSwap>): (active: seq<ColorSwap>)
    ensures |active| <= |rules|
    ensures forall k :: 0 <= k < |active| ==> active[k].enabled && active[k] in rules
    ensures (forall k :: 0 <= k < |rules| ==> !rules[k].enabled) <==> active == []
  {
    if rules == [] then []
    else if rules[0].enabled then [rules[0]] + ActiveSwaps(rules[1..])
    else ActiveSwaps(rules[1..])
  }

  /** A rule takes part in the swap. */
  predicate RuleEnabled(rule: ColorSwap) {
    rule.enabled
  }

  /** Filtering a list extends the filtered front by its last rule, if enabled. */
  lemma {:induction false} ActiveSwapsSnoc(rules: seq<ColorSwap>)
    requires rules != []
    ensures var n := |rules| - 1;
      ActiveSwaps(rules) == ActiveSwaps(rules[..n]) + (if rules[n].enabled then [rules[n]] else [])
  {
    var n := |rules| - 1;
    if n > 0 {
      ActiveSwapsSnoc(rules[1..]);
      assert rules[1..][..n - 1] == rules[..n][1..];
      assert rules[1..][n - 1] == rules[n];
    }
  }

  /** The filter keeps exactly the enabled rules, in their original order:
      the k-th active rule is the rule at the k-th enabled position. */
  lemma {:induction false} ActiveSwapsInOrder(rules: seq<ColorSwap>)
    ensures var active := ActiveSwaps(rules);
      var idx := Positions(rules, RuleEnabled);
      && |active| == |idx|
      && forall k :: 0 <= k < |idx| ==> active[k] == rules[idx[k]]
  {
    if rules != [] {
      var n := |rules| - 1;
      var front := rules[..n];
      ActiveSwapsSnoc(rules);
      ActiveSwapsInOrder(front);
      InOrderSnoc(rules, ActiveSwaps(front), Positions(front, RuleEnabled));
    }
  }

  /** The filter law carries over from the rules before the last one to all of them. */
  lemma InOrderSnoc(rules: seq<ColorSwap>, init: seq<ColorSwap>, pos: seq<nat>)
    requires rules != []
    requires var n := |rules| - 1;
      && |init| == |pos|
      && (forall k :: 0 <= k < |pos| ==> pos[k] < n && init[k] == rules[..n][pos[k]])
    ensures var n := |rules| - 1;
      var active := init + (if rules[n].enabled then [rules[n]] else []);
      var idx := pos + (if rules[n].enabled then [n] else []);
      && |active| == |idx|
      && forall k :: 0 <= k < |idx| ==> active[k] == rules[idx[k]]
  {
  }

  /** One pixel against the enabled rules, the first match winning. */
  function SwapPixel(rev: Revision, px: Rgba, active: seq<ColorSwap>): Rgba {
    if active == [] then px
    else if RuleMatches(rev, px, active[0]) then Written(rev, active[0])
    else SwapPixel(rev, px, active[1..])
  }

  /** Rule `i` is the first enabled rule that matches `px`. */
  predicate FirstEnabledMatch(rev: Revision, px: Rgba, rules: seq<ColorSwap>, i: int) {
    && 0 <= i < |rules|
    && rules[i].enabled && RuleMatches(rev, px, rules[i])
    && forall j :: 0 <= j < i && rules[j].enabled ==> !RuleMatches(rev, px, rules[j])
  }

  /** No enabled rule matches `px`. */
  predicate NoEnabledMatch(rev: Revision, px: Rgba, rules: seq<ColorSwap>) {
    forall j :: 0 <= j < |rules| && rules[j].enabled ==> !RuleMatches(rev, px, rules[j])
  }

  /** First match wins: a pixel whose first matching enabled rule is `i`
      becomes what rule `i` writes, whatever the later rules say. */
  lemma {:induction false} SwapPixelFirstMatch(rev: Revision, px: Rgba, rules: seq<ColorSwap>, i: int)
    requires FirstEnabledMatch(rev, px, rules, i)
    ensures SwapPixel(rev, px, ActiveSwaps(rules)) == Written(rev, rules[i])
    decreases |rules|
  {
    if i > 0 {
      var tail := rules[1..];
      assert FirstEnabledMatch(rev, px, tail, i - 1) by {
        forall j | 0 <= j < i - 1 && tail[j].enabled
          ensures !RuleMatches(rev, px, tail[j])
        {
          assert tail[j] == rules[j + 1];
        }
      }
      SwapPixelFirstMatch(rev, px, tail, i - 1);
    }
  }

  /** A pixel no enabled rule matches is left bit-identical. */
  lemma {:induction false} SwapPixelNoMatch(rev: Revision, px: Rgba, rules: seq<ColorSwap>)
    requires NoEnabledMatch(rev, px, rules)
    ensures SwapPixel(rev, px, ActiveSwaps(rules)) == px
    decreases |rules|
  {
    if rules != [] {
      var tail := rules[1..];
      assert NoEnabledMatch(rev, px, tail) by {
        forall j | 0 <= j < |tail| && tail[j].enabled
          ensures !RuleMatches(rev, px, tail[j])
        {
          assert tail[j] == rules[j + 1];
        }
      }
      SwapPixelNoMatch(rev, px, tail);
    }
  }

  /** Every pixel either matches no enabled rule or has a first one. */
  lemma {:induction false} MatchCases(rev: Revision, px: Rgba, rules: seq<ColorSwap>)
    ensures NoEnabledMatch(rev, px, rules) || exists i :: FirstEnabledMatch(rev, px, rules, i)
    decreases |rules|
  {
    if rules != [] && !NoEnabledMatch(rev, px, rules) {
      if rules[0].enabled && RuleMatches(rev, px, rules[0]) {
        assert FirstEnabledMatch(rev, px, rules, 0);
      } else {
        var tail := rules[1..];
        MatchCases(rev, px, tail);
        assert !NoEnabledMatch(rev, px, tail);
        var i :| FirstEnabledMatch(rev, px, tail, i);
        assert FirstEnabledMatch(rev, px, rules, i + 1) by {
          forall j | 0 <= j < i + 1 && rules[j].enabled
            ensures !RuleMatches(rev, px, rules[j])
          {
            if j > 0 {
              assert rules[j] == tail[j - 1];
            }
          }
        }
      }
    }
  }

  /** replaceColorsInImage: every pixel passed through the enabled rules;
      with no enabled rule the image is returned untouched. */
  function ReplaceColors(rev: Revision, img: Image, rules: seq<ColorSwap>): (out: Image)
    ensures out.width == img.width && out.height == img.height && out.overlay == img.overlay
    ensures |out.pixels| == |img.pixels|
  {
    var active := ActiveSwaps(rules);
    if active == [] then img
    else img.(pixels := seq(|img.pixels|, k requires 0 <= k < |img.pixels| => SwapPixel(rev, img.pixels[k], active)))
  }

  /** Colour swap on a whole image: pixels that match no enabled rule keep
      their value, the others take the value of their first matching
      enabled rule; size and overlay are kept. */
  lemma ReplaceColorsPixels(rev: Revision, img: Image, rules: seq<ColorSwap>, k: int)
    requires 0 <= k < |img.pixels|
    ensures NoEnabledMatch(rev, img.pixels[k], rules) ==> ReplaceColors(rev, img, rules).pixels[k] == img.pixels[k]
    ensures forall i :: FirstEnabledMatch(rev, img.pixels[k], rules, i) ==>
      ReplaceColors(rev, img, rules).pixels[k] == Written(rev, rules[i])
  {
    var px := img.pixels[k];
    if NoEnabledMatch(rev, px, rules) {
      SwapPixelNoMatch(rev, px, rules);
    }
    forall i | FirstEnabledMatch(rev, px, rules, i)
      ensures ReplaceColors(rev, img, rules).pixels[k] == Written(rev, rules[i])
    {
      SwapPixelFirstMatch(rev, px, rules, i);
    }
  }

  /** With every rule disabled (or no rule at all) the image is unchanged. */
  lemma ReplaceColorsAllDisabled(rev: Revision, img: Image, rules: seq<ColorSwap>)
    requires forall k :: 0 <= k < |rules| ==> !rules[k].enabled
    ensures ReplaceColors(rev, img, rules) == img
  {
  }

  /** First revision: every pixel it changes becomes opaque. */
  lemma FirstRevisionWritesOpaque(img: Image, rules: seq<ColorSwap>, k: int)
    requires 0 <= k < |img.pixels|
    ensures var out := ReplaceColors(FirstRevision, img, rules);
      out.pixels[k] == img.pixels[k] || out.pixels[k].a == 255
  {
    var px := img.pixels[k];
    MatchCases(FirstRevision, px, rules);
    ReplaceColorsPixels(FirstRevision, img, rules, k);
  }

  /** The scan of replaceColorsInImage: each pixel in row-major order is
      replaced through the enabled rules. */
  method ReplaceColorsInImage(rev: Revision, img: Image, rules: seq<ColorSwap>) returns (out: Image)
    ensures out.width == img.width && out.height == img.height && out.overlay == img.overlay
    ensures |out.pixels| == |img.pixels|
    ensures forall k :: 0 <= k < |img.pixels| ==> out.pixels[k] == SwapPixel(rev, img.pixels[k], ActiveSwaps(rules))
    ensures out == ReplaceColors(rev, img, rules)
  {
    var active := ActiveSwaps(rules);
    if active == [] {
      return img;
    }
    var pixels := img.pixels;
    var k := 0;
    while k < |pixels|
      invariant 0 <= k <= |pixels| == |img.pixels|
      invariant forall j :: 0 <= j < k ==> pixels[j] == SwapPixel(rev, img.pixels[j], active)
      invariant pixels[k..] == img.pixels[k..]
    {
      var current := pixels[k];
      var i := 0;
      while i < |active| && !RuleMatches(rev, current, active[i])
        invariant 0 <= i <= |active|
        invariant SwapPixel(rev, current, active[i..]) == SwapPixel(rev, current, active)
      {
        assert active[i..][1..] == active[i + 1..];
        i := i + 1;
      }
      if i < |active| {
        current := Written(rev, active[i]);
      }
      assert pixels[k] == img.pixels[k];
      pixels := pixels[k := current];
      k := k + 1;
    }
    out := img.(pixels := pixels);
  }
}
