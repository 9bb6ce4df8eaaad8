/**
 * Selector dependency extraction and the manifest the parse endpoint builds
 * (server/handlers/parse-css-file.ts).
 */
module ParseCssFile {
  import opened Strings

  /**
   * `extract_parents`: the ancestor selectors of `selector`, nearest first.
   * Each step drops the text after the last separator, trims, strips one
   * trailing combinator character and trims again. The source's test
   * `splits.length === 1` is "no separator" and `splits.pop()` is the last
   * segment (`Strings.SplitSingle`, `Strings.Split`'s contract).
   */
  function ExtractParents(selector: string): (r: seq<string>)
    ensures |r| <= |selector|
    decreases |selector|
  {
    if NoSeparator(selector, ParentCombinators) then []
    else
      var last := LastSegment(selector, ParentCombinators);
      LastSegmentShorter(selector, ParentCombinators);
      var parent := ParentText(selector[..|selector| - |last| - 1]);
      [parent] + ExtractParents(parent)
  }

  /** The text left of the last separator, trimmed, with one trailing combinator stripped. */
  function ParentText(head: string): (r: string)
    ensures |r| <= |head|
  {
    var prefix := Trim(head);
    if |prefix| > 0 && IsCombinator(prefix[|prefix| - 1])
    then Trim(prefix[..|prefix| - 1])
    else prefix
  }

  /** Strictly ascending, hence free of repeats. */
  predicate Ascending(keys: seq<string>) {
    forall i, j :: 0 <= i < j < |keys| ==> Before(keys[i], keys[j])
  }

  /**
   * `process`: the selectors of the stylesheet (what `process_css_file`
   * resolves to, in the set's order) sorted and written as the keys of a
   * record whose every value is `true`. `keys` is the record's insertion
   * order; JavaScript would list integer-like keys first, which is not
   * modelled.
   */
  method Process(selectors: seq<string>) returns (keys: seq<string>, payload: map<string, bool>)
    ensures payload.Keys == set s | s in selectors
    ensures forall s :: s in payload ==> payload[s]
    ensures Ascending(keys)
    ensures forall s :: s in keys <==> s in payload
  {
    var arr := SortStrings(selectors);
    SortStringsSorted(selectors);
    keys, payload := MarkAll(arr);
    SortedSameKeys(selectors, arr, payload);
    ChainAscending(keys);
  }

  /**
   * The `forEach` of `process` over the sorted list: `payload[s] = true` for
   * each `s`, a new key going last in the record's key order.
   */
  method MarkAll(arr: seq<string>) returns (keys: seq<string>, payload: map<string, bool>)
    requires Sorted(arr)
    ensures forall s :: s in payload <==> s in arr
    ensures forall s :: s in payload ==> payload[s]
    ensures Chain(keys)
    ensures forall s :: s in keys <==> s in payload
  {
    keys, payload := [], map[];
    for i := 0 to |arr|
      invariant forall s :: s in payload <==> s in arr[..i]
      invariant forall s :: s in payload ==> payload[s]
      invariant Chain(keys)
      invariant forall s :: s in keys <==> s in payload
      invariant i == 0 ==> keys == []
      invariant i > 0 ==> keys != [] && keys[|keys| - 1] == arr[i - 1]
    {
      var s := arr[i];
      assert arr[..i + 1] == arr[..i] + [s];
      if i > 0 {
        KeysStep(arr, i, keys);
      }
      if s !in payload {
        keys := keys + [s];
      }
      payload := payload[s := true];
    }
    assert arr[..|arr|] == arr;
  }

  /** Recording every element of the sorted list records exactly the selectors. */
  lemma SortedSameKeys(selectors: seq<string>, arr: seq<string>, payload: map<string, bool>)
    requires arr == SortStrings(selectors)
    requires forall s :: s in payload <==> s in arr
    ensures payload.Keys == set s | s in selectors
  {
    assert forall s :: s in arr <==> s in multiset(selectors);
    assert forall s :: s in multiset(selectors) <==> s in selectors;
  }

  /** Each key is strictly before the next one. */
  predicate Chain(keys: seq<string>) {
    forall j :: 0 < j < |keys| ==> Before(keys[j - 1], keys[j])
  }

  /**
   * One step of the loop of `MarkAll` over the sorted `arr`: a new selector
   * extends the chain of keys, a repeated one is the last key already.
   */
  lemma KeysStep(arr: seq<string>, i: nat, keys: seq<string>)
    requires Sorted(arr) && 0 < i < |arr|
    requires Chain(keys) && keys != [] && keys[|keys| - 1] == arr[i - 1]
    requires arr[i] in keys ==> arr[i] in arr[..i]
    ensures arr[i] !in keys ==> Chain(keys + [arr[i]])
    ensures arr[i] in keys ==> keys[|keys| - 1] == arr[i]
  {
    assert BeforeOrSame(arr[i - 1], arr[i]);
    if arr[i] in keys {
      var k :| 0 <= k < i && arr[..i][k] == arr[i];
      assert BeforeOrSame(arr[k], arr[i - 1]);
      BeforeTotal(arr[i - 1], arr[i]);
    }
  }

  /** A chain is strictly ascending, by transitivity. */
  lemma {:induction false} ChainAscending(keys: seq<string>)
    requires Chain(keys)
    ensures Ascending(keys)
    decreases |keys|
  {
    if |keys| > 1 {
      var n := |keys| - 1;
      var init := keys[..n];
      assert Chain(init) by {
        forall j | 0 < j < |init| ensures Before(init[j - 1], init[j]) {
          assert init[j - 1] == keys[j - 1] && init[j] == keys[j];
        }
      }
      ChainAscending(init);
      forall a, b | 0 <= a < b < |keys| ensures Before(keys[a], keys[b]) {
        if b < n {
          assert keys[a] == init[a] && keys[b] == init[b];
        } else if a < n - 1 {
          assert keys[a] == init[a] && keys[n - 1] == init[n - 1];
          BeforeTransitive(keys[a], keys[n - 1], keys[b]);
        }
      }
    }
  }

  /** A selector without white space or `+`, `~`, `>` has no parents, and only such a selector. */
  lemma NoParentsIffNoCombinator(selector: string)
    ensures ExtractParents(selector) == [] <==> NoSeparator(selector, ParentCombinators)
    ensures ExtractParents(selector) == [] <==> |Split(selector, ParentCombinators)| == 1
  {
    SplitSingle(selector, ParentCombinators);
  }

  /**
   * Each parent is strictly shorter than the text it was cut from, so the
   * list runs from the longest parent to the shortest.
   */
  lemma {:induction false} ParentsShrink(selector: string)
    ensures var r := ExtractParents(selector);
      (r != [] ==> |r[0]| < |selector|) && forall k :: 0 <= k < |r| - 1 ==> |r[k + 1]| < |r[k]|
    decreases |selector|
  {
    var r := ExtractParents(selector);
    if r != [] {
      LastSegmentShorter(selector, ParentCombinators);
      ParentsShrink(r[0]);
      assert r[1..] == ExtractParents(r[0]);
    }
  }

  /** The list is self-similar: the parents of the nearest parent are the remaining parents. */
  lemma ParentsOfNearestParent(selector: string)
    requires ExtractParents(selector) != []
    ensures ExtractParents(ExtractParents(selector)[0]) == ExtractParents(selector)[1..]
  {
  }

  /**
   * One step of `extract_parents` computed: when the last separator of `s`
   * sits at `k`, the nearest parent is `ParentText(s[..k])`.
   */
  lemma ParentStep(s: string, k: nat, head: string, parent: string)
    requires k < |s| && IsSeparator(s[k], ParentCombinators)
    requires NoSeparator(s[k + 1..], ParentCombinators)
    requires head == s[..k] && parent == ParentText(head)
    ensures ExtractParents(s) == [parent] + ExtractParents(parent)
  {
    assert !NoSeparator(s, ParentCombinators);
    LastSegmentAt(s, k, ParentCombinators);
  }

  lemma {:induction false} LastSegmentAt(s: string, k: nat, seps: Separators)
    requires k < |s| && IsSeparator(s[k], seps)
    requires NoSeparator(s[k + 1..], seps)
    ensures LastSegment(s, seps) == s[k + 1..]
  {
    if k < |s| - 1 {
      var p := s[..|s| - 1];
      assert s[|s| - 1] == s[k + 1..][|s| - k - 2];
      assert p[k + 1..] == s[k + 1..][..|s| - k - 2];
      LastSegmentAt(p, k, seps);
      assert s[k + 1..] == p[k + 1..] + [s[|s| - 1]];
    }
  }

  /** A selector with no white space at its ends and no combinator at its end. */
  predicate IsBareEnded(p: string) {
    p != [] && !IsSpace(p[0]) && !IsSeparator(p[|p| - 1], ParentCombinators)
  }

  lemma CompoundIsBareEnded(a: string)
    requires a != [] && NoSeparator(a, ParentCombinators)
    ensures IsBareEnded(a)
  {
  }

  /** A bare-ended text is its own parent text. */
  lemma ParentTextOfBare(p: string)
    requires IsBareEnded(p)
    ensures ParentText(p) == p
  {
    TrimOfTrimmed(p);
  }

  /** `p >` leaves the parent text `p`. */
  lemma ParentTextStripsCombinator(p: string, c: char)
    requires IsBareEnded(p) && IsCombinator(c)
    ensures ParentText(p + " " + [c]) == p
  {
    var head := p + " " + [c];
    TrimOfTrimmed(head);
    assert head[..|head| - 1] == p + [' '];
    TrimDropsTrailingSpace(p, ' ');
    TrimOfTrimmed(p);
  }

  /** `p .x`: a descendant step drops ` .x`. */
  lemma DescendantStep(p: string, x: string)
    requires IsBareEnded(p) && NoSeparator(x, ParentCombinators)
    ensures ExtractParents(p + " " + x) == [p] + ExtractParents(p)
  {
    var s := p + " " + x;
    assert s[..|p|] == p && s[|p| + 1..] == x;
    ParentTextOfBare(p);
    ParentStep(s, |p|, p, p);
  }

  /** `p > .x` (or `~`, `+`): the combinator is stripped with the last segment. */
  lemma CombinatorStep(p: string, c: char, x: string)
    requires IsBareEnded(p) && IsCombinator(c) && NoSeparator(x, ParentCombinators)
    ensures ExtractParents(p + " " + [c] + " " + x) == [p] + ExtractParents(p)
  {
    var s := p + " " + [c] + " " + x;
    assert s[..|p| + 2] == p + " " + [c] && s[|p| + 3..] == x;
    ParentTextStripsCombinator(p, c);
    ParentStep(s, |p| + 2, p + " " + [c], p);
  }

  /** `p>.x`: a combinator without surrounding spaces is itself the separator. */
  lemma UnspacedStep(p: string, c: char, x: string)
    requires IsBareEnded(p) && IsCombinator(c) && NoSeparator(x, ParentCombinators)
    ensures ExtractParents(p + [c] + x) == [p] + ExtractParents(p)
  {
    var s := p + [c] + x;
    assert s[..|p|] == p && s[|p| + 1..] == x;
    ParentTextOfBare(p);
    ParentStep(s, |p|, p, p);
  }

  /** Appending ` > .x` to a bare-ended selector keeps it bare-ended. */
  lemma BareEndedAfterCombinator(p: string, c: char, x: string)
    requires IsBareEnded(p) && x != [] && NoSeparator(x, ParentCombinators)
    ensures IsBareEnded(p + " " + [c] + " " + x)
  {
    var s := p + " " + [c] + " " + x;
    assert s[0] == p[0] && s[|s| - 1] == x[|x| - 1];
  }

  /** `CombinatorStep` with the parents of `p` already known. */
  lemma CombinatorAfter(p: string, c: char, x: string, tail: seq<string>)
    requires IsBareEnded(p) && IsCombinator(c) && NoSeparator(x, ParentCombinators)
    requires ExtractParents(p) == tail
    ensures ExtractParents(p + " " + [c] + " " + x) == [p] + tail
  {
    CombinatorStep(p, c, x);
  }

  // The expectations of server/handlers/parse-css-file.test.js, stated for
  // every combinator-free compound selector `a`, `b`, `d`, `e` (such as
  // `.a`, `.a.b` or `.c.d`) and every combinator `c1`, `c2`, `c3`.

  /** `.a .b` gives `[".a"]`; `.a.b .c` gives `[".a.b"]`; `.a .b.c` gives `[".a"]`. */
  lemma DescendantPair(a: string, b: string)
    requires a != [] && NoSeparator(a, ParentCombinators) && NoSeparator(b, ParentCombinators)
    ensures ExtractParents(a + " " + b) == [a]
  {
    CompoundIsBareEnded(a);
    DescendantStep(a, b);
    NoParentsIffNoCombinator(a);
  }

  /** `.a .b .c` gives `[".a .b", ".a"]`. */
  lemma DescendantTriple(a: string, b: string, d: string)
    requires a != [] && NoSeparator(a, ParentCombinators)
    requires b != [] && NoSeparator(b, ParentCombinators)
    requires NoSeparator(d, ParentCombinators)
    ensures ExtractParents(a + " " + b + " " + d) == [a + " " + b, a]
  {
    CompoundIsBareEnded(a);
    CompoundIsBareEnded(b);
    DescendantStep(a + " " + b, d);
    DescendantPair(a, b);
  }

  /** `.a > .b`, `.a ~ .b` and `.a + .b` give `[".a"]`. */
  lemma CombinatorPair(a: string, c1: char, b: string)
    requires a != [] && NoSeparator(a, ParentCombinators) && NoSeparator(b, ParentCombinators)
    requires IsCombinator(c1)
    ensures ExtractParents(a + " " + [c1] + " " + b) == [a]
  {
    CompoundIsBareEnded(a);
    CombinatorStep(a, c1, b);
    NoParentsIffNoCombinator(a);
  }

  /** `.a > .b > .c`, `.a + .b + .c` and `.a + .b ~ .c` give `[".a > .b", ".a"]` and the like. */
  lemma CombinatorTriple(a: string, c1: char, b: string, c2: char, d: string)
    requires a != [] && NoSeparator(a, ParentCombinators)
    requires b != [] && NoSeparator(b, ParentCombinators)
    requires NoSeparator(d, ParentCombinators)
    requires IsCombinator(c1) && IsCombinator(c2)
    ensures ExtractParents(a + " " + [c1] + " " + b + " " + [c2] + " " + d)
         == [a + " " + [c1] + " " + b, a]
  {
    CompoundIsBareEnded(b);
    CombinatorStep(a + " " + [c1] + " " + b, c2, d);
    CombinatorPair(a, c1, b);
  }

  /** `.a ~ .b~.c` gives `[".a ~ .b", ".a"]`. */
  lemma UnspacedLastCombinator(a: string, c1: char, b: string, c2: char, d: string)
    requires a != [] && NoSeparator(a, ParentCombinators)
    requires b != [] && NoSeparator(b, ParentCombinators)
    requires NoSeparator(d, ParentCombinators)
    requires IsCombinator(c1) && IsCombinator(c2)
    ensures ExtractParents(a + " " + [c1] + " " + b + [c2] + d) == [a + " " + [c1] + " " + b, a]
  {
    CompoundIsBareEnded(b);
    UnspacedStep(a + " " + [c1] + " " + b, c2, d);
    CombinatorPair(a, c1, b);
  }

  /** `.a+.b` gives `[".a"]`: a combinator need not be surrounded by spaces. */
  lemma UnspacedPair(a: string, c1: char, b: string)
    requires a != [] && NoSeparator(a, ParentCombinators) && NoSeparator(b, ParentCombinators)
    requires IsCombinator(c1)
    ensures ExtractParents(a + [c1] + b) == [a]
  {
    CompoundIsBareEnded(a);
    UnspacedStep(a, c1, b);
    NoParentsIffNoCombinator(a);
  }

  /** `.a+.b ~ .c.d` gives `[".a+.b", ".a"]`. */
  lemma UnspacedThenCombinator(a: string, c1: char, b: string, c2: char, d: string)
    requires a != [] && NoSeparator(a, ParentCombinators)
    requires b != [] && NoSeparator(b, ParentCombinators)
    requires NoSeparator(d, ParentCombinators)
    requires IsCombinator(c1) && IsCombinator(c2)
    ensures ExtractParents(a + [c1] + b + " " + [c2] + " " + d) == [a + [c1] + b, a]
  {
    CompoundIsBareEnded(b);
    var p1 := a + [c1] + b;
    assert p1[0] == a[0] && p1[|p1| - 1] == b[|b| - 1];
    UnspacedPair(a, c1, b);
    CombinatorAfter(p1, c2, d, [a]);
  }

  /** `.a+.b ~ .c.d > .e` gives `[".a+.b ~ .c.d", ".a+.b", ".a"]`. */
  lemma MixedChain(a: string, c1: char, b: string, c2: char, d: string, c3: char, e: string)
    requires a != [] && NoSeparator(a, ParentCombinators)
    requires b != [] && NoSeparator(b, ParentCombinators)
    requires d != [] && NoSeparator(d, ParentCombinators)
    requires NoSeparator(e, ParentCombinators)
    requires IsCombinator(c1) && IsCombinator(c2) && IsCombinator(c3)
    ensures var p1 := a + [c1] + b;
      var p2 := p1 + " " + [c2] + " " + d;
      ExtractParents(p2 + " " + [c3] + " " + e) == [p2, p1, a]
  {
    var p1 := a + [c1] + b;
    CompoundIsBareEnded(b);
    assert p1[0] == a[0] && p1[|p1| - 1] == b[|b| - 1];
    BareEndedAfterCombinator(p1, c2, d);
    UnspacedThenCombinator(a, c1, b, c2, d);
    CombinatorAfter(p1 + " " + [c2] + " " + d, c3, e, [p1, a]);
  }
}
