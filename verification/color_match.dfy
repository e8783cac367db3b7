/** The three tolerance tests the engine uses to decide whether a pixel
    has a rule's colour. Tolerance is a plain `int`; nothing keeps it in 0..255. */
module ColorMatch {
  import opened Colors

  /** Every channel, alpha included, differs by at most `tol`. */
  predicate WithinTolerance(c: Rgba, s: Rgba, tol: int) {
    Abs(c.r - s.r) <= tol && Abs(c.g - s.g) <= tol && Abs(c.b - s.b) <= tol && Abs(c.a - s.a) <= tol
  }

  /** Colour swap (current revision): tolerance 0 compares the packed
      ARGB words (`current == source.rgba()`), any other tolerance compares
      channels with `abs(...) <= tolerance`. */
  predicate SwapMatches(px: Rgba, source: Rgba, tol: int) {
    if tol == 0 then Argb32(px) == Argb32(source) else WithinTolerance(px, source, tol)
  }

  /** Colour swap (first revision): tolerance 0 compares against
      `source.rgb()`, the source colour made opaque. */
  predicate LegacySwapMatches(px: Rgba, source: Rgba, tol: int) {
    if tol == 0 then Argb32(px) == Rgb32(source) else WithinTolerance(px, source, tol)
  }

  /** colorsMatch, used by the guide check: a tolerance of 0 or less means
      QColor equality. */
  predicate ColorsMatch(c1: Rgba, c2: Rgba, tol: int) {
    if tol <= 0 then c1 == c2 else WithinTolerance(c1, c2, tol)
  }

  /** The swap test in plain terms: tolerance 0 is exact equality of all
      four channels, a positive tolerance bounds each channel's difference,
      and a negative tolerance never matches. */
  lemma SwapMatchesMeaning(px: Rgba, source: Rgba, tol: int)
    ensures SwapMatches(px, source, tol) <==>
      (tol == 0 && px == source)
      || (tol > 0 && -tol <= px.r - source.r <= tol && -tol <= px.g - source.g <= tol
                  && -tol <= px.b - source.b <= tol && -tol <= px.a - source.a <= tol)
  {
    Argb32Injective(px, source);
  }

  /** First revision, tolerance 0: only the opaque pixel with the source's
      RGB matches, whatever the source's own alpha; a translucent pixel never does. */
  lemma LegacyExactMatch(px: Rgba, source: Rgba)
    ensures LegacySwapMatches(px, source, 0) <==> px == Opaque(source)
    ensures LegacySwapMatches(px, source, 0) ==> px.a == 255
  {
    Argb32Injective(px, Opaque(source));
  }

  /** The two revisions differ only at tolerance 0, and agree there on
      opaque source colours. */
  lemma RevisionsAgree(px: Rgba, source: Rgba, tol: int)
    requires tol != 0 || source.a == 255
    ensures LegacySwapMatches(px, source, tol) == SwapMatches(px, source, tol)
  {
    if tol == 0 {
      assert Opaque(source) == source;
    }
  }

  /** colorsMatch agrees with the swap test for every tolerance of 0 or
      more; for a negative tolerance colorsMatch still compares exactly
      while the swap test rejects everything. */
  lemma ColorsMatchVersusSwap(c: Rgba, s: Rgba, tol: int)
    ensures tol >= 0 ==> (ColorsMatch(c, s, tol) <==> SwapMatches(c, s, tol))
    ensures tol < 0 ==> ColorsMatch(c, c, tol) && !SwapMatches(c, c, tol)
  {
    Argb32Injective(c, s);
  }

  /** Raising a tolerance never loses a match. */
  lemma {:induction false} ToleranceMonotone(c: Rgba, s: Rgba, t1: int, t2: int)
    requires 0 <= t1 <= t2
    requires SwapMatches(c, s, t1)
    ensures SwapMatches(c, s, t2)
  {
    if t1 == 0 {
      Argb32Injective(c, s);
    }
  }

  /** A tolerance of 255 or more matches every colour. */
  lemma FullTolerance(c: Rgba, s: Rgba, tol: int)
    requires tol >= 255
    ensures SwapMatches(c, s, tol) && ColorsMatch(c, s, tol)
  {
  }

  /** colorsMatch is symmetric in its two colours. */
  lemma ColorsMatchSymmetric(c1: Rgba, c2: Rgba, tol: int)
    ensures ColorsMatch(c1, c2, tol) <==> ColorsMatch(c2, c1, tol)
  {
  }
}
