/**
 * The rules a stylesheet parses into, as `walkRules` visits them, and the
 * per-rule and per-selector logic that both copies of `postCssExtractor`
 * (server/lib/postCssExtractor.ts, probe/src/postCssExtractor.ts) apply.
 */
module CssRules {
  import opened Strings

  /**
   * A style rule: the name of its parent node when that parent is an
   * at-rule (`None` for the root or another rule), and its comma-separated
   * selector list.
   */
  datatype Rule = Rule(parentName: Option<string>, selectors: seq<string>)

  /** The parent has a non-empty name containing `keyframes` (`@keyframes`, `@-webkit-keyframes`). */
  predicate UnderKeyframes(rule: Rule) {
    rule.parentName.Some? && rule.parentName.value != "" && Contains(rule.parentName.value, "keyframes")
  }

  /**
   * One selector of a rule: split on `:`; unless the last piece contains
   * `-child`, keep only the first piece; then trim.
   */
  function Normalise(item: string): (r: string)
    ensures |r| <= |item|
  {
    SplitFirst(item, Colon);
    var splits := Split(item, Colon);
    var selector := if !Contains(splits[|splits| - 1], "-child") then splits[0] else item;
    Trim(selector)
  }

  /** The two cases of `Normalise`: cut at the first `:`, or kept whole when the last piece has `-child`. */
  lemma NormaliseCases(item: string)
    ensures Contains(LastSegment(item, Colon), "-child") ==> Normalise(item) == Trim(item)
    ensures !Contains(LastSegment(item, Colon), "-child") ==>
      Normalise(item) == Trim(FirstSegment(item, Colon))
  {
    SplitFirst(item, Colon);
  }

  /** A selector that normalises by cutting has no `:` left. */
  lemma CutHasNoColon(item: string)
    requires !Contains(LastSegment(item, Colon), "-child")
    ensures NoSeparator(Normalise(item), Colon)
  {
    NormaliseCases(item);
    var f := FirstSegment(item, Colon);
    var i := TrimIsSlice(f);
    var r := Trim(f);
    forall k | 0 <= k < |r| ensures !IsSeparator(r[k], Colon) {
      assert r[k] == f[i + k];
    }
  }

  /** Where `-child` sits in `item` when the last `:`-piece contains it; no `:` follows that piece's start. */
  lemma ChildMarkerAt(item: string) returns (m: nat, at: nat)
    requires Contains(LastSegment(item, Colon), "-child")
    ensures m <= at && at + 6 <= |item| && item[at..at + 6] == "-child"
    ensures forall k :: m <= k < |item| ==> item[k] != ':'
  {
    var last := LastSegment(item, Colon);
    LastSegmentShape(item, Colon);
    m := |item| - |last|;
    var q :| 0 <= q <= |last| && OccursAt(last, "-child", q);
    at := m + q;
    assert last[q..q + 6] == item[at..at + 6];
    forall k | m <= k < |item| ensures item[k] != ':' {
      assert item[k] == last[k - m];
    }
  }

  /** The last `:`-piece of `r` starts no later than any position after which `r` has no `:`. */
  lemma LastSegmentStartsBefore(r: string, p: nat)
    requires p <= |r|
    requires forall k :: p <= k < |r| ==> r[k] != ':'
    ensures |r| - |LastSegment(r, Colon)| <= p
  {
    LastSegmentShape(r, Colon);
    var start := |r| - |LastSegment(r, Colon)|;
    var before := if start > 0 then r[start - 1] else ' ';
    assert start <= p || before != ':';
  }

  /** Trimming does not cut into an occurrence of `-child`. */
  lemma MarkerInsideTrim(item: string, at: nat) returns (i: nat)
    requires at + 6 <= |item| && item[at..at + 6] == "-child"
    ensures i <= at && at + 6 <= i + |Trim(item)| <= |item| && Trim(item) == item[i..i + |Trim(item)|]
  {
    i := TrimIsSlice(item);
    assert item[at] == item[at..at + 6][0] && item[at + 5] == item[at..at + 6][5];
  }

  /** Trimming keeps an occurrence of `-child` in the last `:`-piece inside the last piece. */
  lemma TrimKeepsChildMarker(item: string)
    requires Contains(LastSegment(item, Colon), "-child")
    ensures Contains(LastSegment(Trim(item), Colon), "-child")
  {
    var m, at := ChildMarkerAt(item);
    var i := MarkerInsideTrim(item, at);
    var r := Trim(item);
    forall k | at - i <= k < |r| ensures r[k] != ':' {
      assert r[k] == item[i + k];
    }
    SliceOfSlice(item, i, i + |r|, at - i, 6);
    MarkerInLastSegment(r, at - i);
  }

  /** A slice of a slice is a slice of the whole. */
  lemma SliceOfSlice(s: string, i: nat, j: nat, p: nat, n: nat)
    requires i <= j <= |s| && p + n <= j - i
    ensures s[i..j][p..p + n] == s[i + p..i + p + n]
  {
    var a, b := s[i..j][p..p + n], s[i + p..i + p + n];
    forall k | 0 <= k < n ensures a[k] == b[k] {
      assert a[k] == s[i..j][p + k] == s[i + p + k];
    }
  }

  /** An occurrence of `-child` with no `:` after it lies in the last `:`-piece. */
  lemma MarkerInLastSegment(r: string, at: nat)
    requires at + 6 <= |r| && r[at..at + 6] == "-child"
    requires forall k :: at <= k < |r| ==> r[k] != ':'
    ensures Contains(LastSegment(r, Colon), "-child")
  {
    LastSegmentStartsBefore(r, at);
    LastSegmentShape(r, Colon);
    var l := LastSegment(r, Colon);
    MarkerInSuffix(r, l, |r| - |l|, at);
  }

  /** An occurrence of `-child` starting inside a suffix lies in that suffix. */
  lemma MarkerInSuffix(r: string, l: string, start: nat, at: nat)
    requires start <= at && at + 6 <= |r| && r[at..at + 6] == "-child"
    requires start <= |r| && l == r[start..]
    ensures Contains(l, "-child")
  {
    var o := at - start;
    assert l[o..o + 6] == r[at..at + 6];
    assert OccursAt(l, "-child", o);
  }

  /** What `Normalise` returns is trimmed. */
  lemma NormaliseTrimmed(item: string)
    ensures var r := Normalise(item); r == [] || (!IsSpace(r[0]) && !IsSpace(r[|r| - 1]))
  {
    NormaliseCases(item);
    TrimTrimmed(item);
    TrimTrimmed(FirstSegment(item, Colon));
  }

  /** Normalising an output of `Normalise` returns it unchanged. */
  lemma NormaliseIdempotent(item: string)
    ensures Normalise(Normalise(item)) == Normalise(item)
  {
    var r := Normalise(item);
    NormaliseCases(item);
    NormaliseCases(r);
    if Contains(LastSegment(item, Colon), "-child") {
      TrimKeepsChildMarker(item);
    } else {
      CutHasNoColon(item);
      SplitSingle(r, Colon);
      FirstSegmentWhole(r, Colon);
    }
    NormaliseTrimmed(item);
    TrimOfTrimmed(r);
  }

  lemma NormaliseIdempotentAll()
    ensures forall item :: Normalise(Normalise(item)) == Normalise(item)
  {
    forall item ensures Normalise(Normalise(item)) == Normalise(item) {
      NormaliseIdempotent(item);
    }
  }

  // The walk is stated for any per-selector map `norm`; the extractors use
  // `Normalise`. Keeping `norm` abstract keeps the list reasoning apart from
  // the string reasoning above.

  /** The non-empty images under `norm` of `items`, in order. */
  function NonEmptyImages(items: seq<string>, norm: string -> string): (r: seq<string>)
    ensures |r| <= |items|
  {
    if items == [] then []
    else
      var s := norm(items[|items| - 1]);
      NonEmptyImages(items[..|items| - 1], norm) + (if |s| > 0 then [s] else [])
  }

  /** One more item extends the images of the prefix by that item's image, if non-empty. */
  lemma ImagesStep(items: seq<string>, j: int, norm: string -> string)
    requires 0 <= j < |items|
    ensures NonEmptyImages(items[..j + 1], norm)
         == NonEmptyImages(items[..j], norm) + (if |norm(items[j])| > 0 then [norm(items[j])] else [])
  {
    assert items[..j + 1][..j] == items[..j];
  }

  /** One step of adding the images of `items` to a set that holds `Dedup(offered + ...)`. */
  lemma AddStep(current: seq<string>, items: seq<string>, j: int, norm: string -> string, offered: seq<string>)
    requires 0 <= j < |items|
    requires current == Dedup(offered + NonEmptyImages(items[..j], norm))
    ensures var s := norm(items[j]);
      Dedup(offered + NonEmptyImages(items[..j + 1], norm))
        == if |s| > 0 && s !in current then current + [s] else current
  {
    var init := offered + NonEmptyImages(items[..j], norm);
    var s := norm(items[j]);
    ImagesStep(items, j, norm);
    if |s| > 0 {
      DedupSnoc(init, s);
      assert offered + NonEmptyImages(items[..j + 1], norm) == init + [s];
    } else {
      assert offered + NonEmptyImages(items[..j + 1], norm) == init;
    }
  }

  /** The selectors one rule offers to the set: none under keyframes, else the non-empty normalised items. */
  function RuleOffers(rule: Rule, norm: string -> string): seq<string>
  {
    if UnderKeyframes(rule) then [] else NonEmptyImages(rule.selectors, norm)
  }

  /** Every selector the walk offers to the set, rule after rule, in order. */
  function Offered(rules: seq<Rule>, norm: string -> string): seq<string>
  {
    if rules == [] then [] else Offered(rules[..|rules| - 1], norm) + RuleOffers(rules[|rules| - 1], norm)
  }

  /** Item `j` of `items` maps to the non-empty selector `s`. */
  predicate Yields(items: seq<string>, norm: string -> string, j: int, s: string) {
    0 <= j < |items| && norm(items[j]) == s && s != []
  }

  /** Selector `j` of rule `k`, which is not under keyframes, maps to the non-empty `s`. */
  predicate Offers(rules: seq<Rule>, norm: string -> string, k: int, j: int, s: string) {
    0 <= k < |rules| && !UnderKeyframes(rules[k]) && Yields(rules[k].selectors, norm, j, s)
  }

  /** Exactly the items with a non-empty image contribute, and nothing else does. */
  lemma {:induction false} NonEmptyImagesExactly(items: seq<string>, norm: string -> string, s: string)
    ensures s in NonEmptyImages(items, norm) <==> exists j :: Yields(items, norm, j, s)
  {
    if items != [] {
      var n := |items| - 1;
      var init := items[..n];
      NonEmptyImagesExactly(init, norm, s);
      if s in NonEmptyImages(items, norm) && s !in NonEmptyImages(init, norm) {
        assert Yields(items, norm, n, s);
      }
      if s in NonEmptyImages(init, norm) {
        var j :| Yields(init, norm, j, s);
        assert Yields(items, norm, j, s);
      }
      if exists j :: Yields(items, norm, j, s) {
        var j :| Yields(items, norm, j, s);
        if j < n {
          assert Yields(init, norm, j, s);
        }
      }
    }
  }

  /**
   * A selector is offered exactly when it is the non-empty image of a
   * selector of a rule that is not under a keyframes at-rule.
   */
  lemma OfferedExactly(rules: seq<Rule>, norm: string -> string, s: string)
    ensures s in Offered(rules, norm) <==> exists k, j :: Offers(rules, norm, k, j, s)
  {
    if s in Offered(rules, norm) {
      var k, j := OfferedWitness(rules, norm, s);
    }
    if exists k, j :: Offers(rules, norm, k, j, s) {
      var k, j :| Offers(rules, norm, k, j, s);
      OffersOffered(rules, norm, k, j, s);
    }
  }

  /** Each offered selector comes from some selector of some rule. */
  lemma {:induction false} OfferedWitness(rules: seq<Rule>, norm: string -> string, s: string) returns (k: int, j: int)
    requires s in Offered(rules, norm)
    ensures Offers(rules, norm, k, j, s)
    decreases |rules|
  {
    var n := |rules| - 1;
    var init := rules[..n];
    OfferedStep(rules, norm, s);
    if s in Offered(init, norm) {
      k, j := OfferedWitness(init, norm, s);
      assert rules[k] == init[k];
    } else {
      k := n;
      j :| Yields(rules[n].selectors, norm, j, s);
    }
  }

  /** Each selector some rule yields is offered. */
  lemma {:induction false} OffersOffered(rules: seq<Rule>, norm: string -> string, k: int, j: int, s: string)
    requires Offers(rules, norm, k, j, s)
    ensures s in Offered(rules, norm)
    decreases |rules|
  {
    var n := |rules| - 1;
    var init := rules[..n];
    assert Offered(rules, norm) == Offered(init, norm) + RuleOffers(rules[n], norm);
    if k < n {
      assert Offers(init, norm, k, j, s) by { assert rules[k] == init[k]; }
      OffersOffered(init, norm, k, j, s);
    } else {
      NonEmptyImagesExactly(rules[n].selectors, norm, s);
      assert s in RuleOffers(rules[n], norm);
    }
  }

  /** The last rule adds exactly the selectors it yields, unless it is under keyframes. */
  lemma OfferedStep(rules: seq<Rule>, norm: string -> string, s: string)
    requires rules != []
    ensures var n := |rules| - 1;
      s in Offered(rules, norm) <==>
        s in Offered(rules[..n], norm) || (!UnderKeyframes(rules[n]) && exists j :: Yields(rules[n].selectors, norm, j, s))
  {
    NonEmptyImagesExactly(rules[|rules| - 1].selectors, norm, s);
  }

  /** Every offered selector is non-empty and a fixed point of an idempotent `norm`. */
  lemma {:induction false} OfferedFixed(rules: seq<Rule>, norm: string -> string, s: string)
    requires forall x :: norm(norm(x)) == norm(x)
    requires s in Offered(rules, norm)
    ensures s != [] && norm(s) == s
  {
    OfferedExactly(rules, norm, s);
    var k, j :| Offers(rules, norm, k, j, s);
  }

  /** A rule under a keyframes at-rule offers nothing, wherever it stands. */
  lemma KeyframesAddNothing(before: seq<Rule>, rule: Rule, after: seq<Rule>, norm: string -> string, s: string)
    requires UnderKeyframes(rule)
    ensures s in Offered(before + [rule] + after, norm) <==> s in Offered(before + after, norm)
  {
    OfferedExactly(before + [rule] + after, norm, s);
    OfferedExactly(before + after, norm, s);
    if exists k, j :: Offers(before + [rule] + after, norm, k, j, s) {
      var k, j :| Offers(before + [rule] + after, norm, k, j, s);
      OffersWithout(before, rule, after, norm, k, j, s);
    }
    if exists k, j :: Offers(before + after, norm, k, j, s) {
      var k, j :| Offers(before + after, norm, k, j, s);
      OffersWith(before, rule, after, norm, k, j, s);
    }
  }

  lemma OffersWithout(before: seq<Rule>, rule: Rule, after: seq<Rule>, norm: string -> string, k: int, j: int, s: string)
    requires UnderKeyframes(rule) && Offers(before + [rule] + after, norm, k, j, s)
    ensures Offers(before + after, norm, if k < |before| then k else k - 1, j, s)
  {
    var all := before + [rule] + after;
    var rest := before + after;
    if k < |before| {
      assert all[k] == rest[k];
    } else {
      assert all[k] == rest[k - 1];
    }
  }

  lemma OffersWith(before: seq<Rule>, rule: Rule, after: seq<Rule>, norm: string -> string, k: int, j: int, s: string)
    requires Offers(before + after, norm, k, j, s)
    ensures Offers(before + [rule] + after, norm, if k < |before| then k else k + 1, j, s)
  {
    var all := before + [rule] + after;
    var rest := before + after;
    if k < |before| {
      assert all[k] == rest[k];
    } else {
      assert all[k + 1] == rest[k];
    }
  }

  /** What the extractors collect: trimmed, non-empty, already normalised. */
  lemma OfferedNormalised(rules: seq<Rule>, s: string)
    requires s in Offered(rules, Normalise)
    ensures s != [] && !IsSpace(s[0]) && !IsSpace(s[|s| - 1]) && Normalise(s) == s
  {
    NormaliseIdempotentAll();
    OfferedFixed(rules, Normalise, s);
    NormaliseTrimmed(s);
  }

  /**
   * What the extractors return, `Dedup(Offered(rules, Normalise))`: every
   * offered selector once, nothing else, each trimmed, non-empty and
   * unchanged by a second normalisation.
   */
  lemma Collected(rules: seq<Rule>)
    ensures var r := Dedup(Offered(rules, Normalise));
      && (forall s :: s in r <==> exists k, j :: Offers(rules, Normalise, k, j, s))
      && (forall i, j :: 0 <= i < j < |r| ==> r[i] != r[j])
      && (forall s :: s in r ==> s != [] && !IsSpace(s[0]) && !IsSpace(s[|s| - 1]) && Normalise(s) == s)
  {
    forall s {
      OfferedExactly(rules, Normalise, s);
    }
    forall s | s in Offered(rules, Normalise) {
      OfferedNormalised(rules, s);
    }
  }

  /** A JavaScript `Set` fed with `s` in order: first occurrences only, in insertion order. */
  function Dedup(s: seq<string>): (r: seq<string>)
    ensures forall x :: x in r <==> x in s
    ensures forall i, j :: 0 <= i < j < |r| ==> r[i] != r[j]
  {
    if s == [] then []
    else
      var init := Dedup(s[..|s| - 1]);
      assert forall x :: x in s <==> x in s[..|s| - 1] || x == s[|s| - 1];
      if s[|s| - 1] in init then init else init + [s[|s| - 1]]
  }

  /** Adding a selector already in the set changes nothing; a new one goes last. */
  lemma DedupSnoc(s: seq<string>, x: string)
    ensures Dedup(s + [x]) == if x in Dedup(s) then Dedup(s) else Dedup(s) + [x]
  {
    assert (s + [x])[..|s|] == s;
  }
}
