/**
 * `postCssExtractor`: walk the rules of a parsed stylesheet, skip those
 * under a keyframes at-rule, normalise each selector and collect the
 * non-empty results in a set. server/lib/postCssExtractor.ts (used by
 * `process_css_file`) and probe/src/postCssExtractor.ts (used by
 * `processProbeReport`) hold the same code, so one module models both.
 */
module CssExtractor {
  import opened Strings
  import opened CssRules

  /**
   * The walk over `rules` (in `walkRules` order). The result is the set's
   * contents in insertion order.
   */
  method PostCssExtractor(rules: seq<Rule>) returns (selectors: seq<string>)
    ensures selectors == Dedup(Offered(rules, Normalise))
    ensures forall s :: s in selectors <==> exists k, j :: Offers(rules, Normalise, k, j, s)
    ensures forall i, j :: 0 <= i < j < |selectors| ==> selectors[i] != selectors[j]
    ensures forall s :: s in selectors ==>
      s != [] && !IsSpace(s[0]) && !IsSpace(s[|s| - 1]) && Normalise(s) == s
  {
    selectors := [];
    for i := 0 to |rules|
      invariant selectors == Dedup(Offered(rules[..i], Normalise))
    {
      assert rules[..i + 1][..i] == rules[..i];
      selectors := VisitRule(selectors, rules[i], Offered(rules[..i], Normalise));
    }
    assert rules[..|rules|] == rules;
    Collected(rules);
  }

  /** The `walkRules` callback for one rule: add its normalised selectors to the set. */
  method VisitRule(selectors: seq<string>, rule: Rule, ghost offered: seq<string>) returns (result: seq<string>)
    requires selectors == Dedup(offered)
    ensures result == Dedup(offered + RuleOffers(rule, Normalise))
  {
    result := selectors;
    if rule.parentName.Some? && rule.parentName.value != "" && Contains(rule.parentName.value, "keyframes") {
      assert offered + [] == offered;
      return;
    }
    result := AddItems(result, rule.selectors, offered);
  }

  /** `rule.selectors.forEach`: normalise each item and add the non-empty ones to the set. */
  method AddItems(selectors: seq<string>, items: seq<string>, ghost offered: seq<string>) returns (result: seq<string>)
    requires selectors == Dedup(offered)
    ensures result == Dedup(offered + NonEmptyImages(items, Normalise))
  {
    result := selectors;
    assert offered + NonEmptyImages(items[..0], Normalise) == offered;
    for j := 0 to |items|
      invariant result == Dedup(offered + NonEmptyImages(items[..j], Normalise))
    {
      // the selector text before any pseudo-class, unless a `-child` pseudo-class follows, trimmed
      var selector := Normalise(items[j]);
      AddStep(result, items, j, Normalise, offered);
      if |selector| > 0 && selector !in result {
        result := result + [selector];
      }
    }
    assert items[..|items|] == items;
  }
}
