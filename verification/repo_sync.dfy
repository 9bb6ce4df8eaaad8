/**
 * The pruning step of repo-sync.ts: every stylesheet of the repository is
 * parsed, every rule whose selector is exactly one of the unused selectors
 * is removed, and every stylesheet that lost a rule gets a blob. The parsed
 * stylesheets are trees of rules, at-rules and leaves (declarations,
 * comments); the file system, the parser, the printer and GitHub's blob
 * store are parameters.
 */
module RepoSync {
  import opened Strings
  import opened MemorySelector
  import Configuration

  /** A node of a parsed stylesheet. */
  datatype Node =
    | Rule(selector: string, nodes: seq<Node>)
    | AtRule(name: string, nodes: seq<Node>)
    | Leaf(text: string)

  /** The selector strings of every rule in `ns`, at any depth. */
  function Selectors(ns: seq<Node>): set<string>
    decreases ns
  {
    if ns == [] then {}
    else
      var here := match ns[0]
        case Rule(s, kids) => {s} + Selectors(kids)
        case AtRule(_, kids) => Selectors(kids)
        case Leaf(_) => {};
      here + Selectors(ns[1..])
  }

  /**
   * `walkRules` with `rule.remove()` for every rule whose whole selector
   * string is `sel`: such a rule goes with everything under it, every other
   * node stays in place.
   */
  function Strip(ns: seq<Node>, sel: string): (r: seq<Node>)
    ensures Selectors(r) <= Selectors(ns) - {sel}
    decreases ns
  {
    if ns == [] then []
    else
      var rest := Strip(ns[1..], sel);
      match ns[0]
      case Rule(s, kids) =>
        if s == sel then rest
        else
          var r := [Rule(s, Strip(kids, sel))] + rest;
          assert r[1..] == rest;
          r
      case AtRule(n, kids) =>
        var r := [AtRule(n, Strip(kids, sel))] + rest;
        assert r[1..] == rest;
        r
      case Leaf(_) =>
        var r := [ns[0]] + rest;
        assert r[1..] == rest;
        r
  }

  /** Removing a selector no rule has leaves the stylesheet as it was. */
  lemma {:induction false} StripAbsent(ns: seq<Node>, sel: string)
    requires sel !in Selectors(ns)
    ensures Strip(ns, sel) == ns
    decreases ns
  {
    if ns != [] {
      StripAbsent(ns[1..], sel);
      match ns[0]
      case Rule(s, kids) =>
        StripAbsent(kids, sel);
      case AtRule(n, kids) =>
        StripAbsent(kids, sel);
      case Leaf(_) =>
    }
  }

  /** A stylesheet changes exactly when it has a rule with that selector. */
  lemma StripChanges(ns: seq<Node>, sel: string)
    ensures Strip(ns, sel) != ns <==> sel in Selectors(ns)
  {
    if sel !in Selectors(ns) {
      StripAbsent(ns, sel);
    }
  }

  /** The order in which two selectors are removed does not matter. */
  lemma {:induction false} StripCommutes(ns: seq<Node>, a: string, b: string)
    ensures Strip(Strip(ns, a), b) == Strip(Strip(ns, b), a)
    decreases ns
  {
    if ns != [] {
      var tail := ns[1..];
      StripCommutes(tail, a, b);
      match ns[0]
      case Rule(s, kids) =>
        StripCommutes(kids, a, b);
        var ka, kb := Strip(kids, a), Strip(kids, b);
        var ta, tb := Strip(tail, a), Strip(tail, b);
        if s != a {
          assert ([Rule(s, ka)] + ta)[1..] == ta;
        }
        if s != b {
          assert ([Rule(s, kb)] + tb)[1..] == tb;
        }
        if s != a && s != b {
          assert ([Rule(s, Strip(ka, b))] + Strip(ta, b))[1..] == Strip(ta, b);
          assert ([Rule(s, Strip(kb, a))] + Strip(tb, a))[1..] == Strip(tb, a);
        }
      case AtRule(n, kids) =>
        StripCommutes(kids, a, b);
        var ka, kb := Strip(kids, a), Strip(kids, b);
        var ta, tb := Strip(tail, a), Strip(tail, b);
        assert ([AtRule(n, ka)] + ta)[1..] == ta;
        assert ([AtRule(n, kb)] + tb)[1..] == tb;
        assert ([AtRule(n, Strip(ka, b))] + Strip(ta, b))[1..] == Strip(ta, b);
        assert ([AtRule(n, Strip(kb, a))] + Strip(tb, a))[1..] == Strip(tb, a);
      case Leaf(_) =>
        var ta, tb := Strip(tail, a), Strip(tail, b);
        assert ([ns[0]] + ta)[1..] == ta;
        assert ([ns[0]] + tb)[1..] == tb;
        assert ([ns[0]] + Strip(ta, b))[1..] == Strip(ta, b);
        assert ([ns[0]] + Strip(tb, a))[1..] == Strip(tb, a);
    }
  }

  /** The stylesheet after removing each selector of `us` in turn. */
  function StripAll(ns: seq<Node>, us: seq<string>): (r: seq<Node>)
    ensures Selectors(r) <= Selectors(ns) && forall u :: u in us ==> u !in Selectors(r)
    decreases |us|
  {
    if us == [] then ns
    else
      var init := StripAll(ns, us[..|us| - 1]);
      assert forall u :: u in us ==> u in us[..|us| - 1] || u == us[|us| - 1];
      Strip(init, us[|us| - 1])
  }

  /** A stylesheet comes out changed exactly when it had a rule with one of the selectors. */
  lemma {:induction false} StripAllChanges(ns: seq<Node>, us: seq<string>)
    ensures StripAll(ns, us) != ns <==> exists u :: u in us && u in Selectors(ns)
    decreases |us|
  {
    if us != [] && forall u :: u in us ==> u !in Selectors(ns) {
      var init := us[..|us| - 1];
      StripAllChanges(ns, init);
      assert forall u :: u in init ==> u in us;
      StripAbsent(ns, us[|us| - 1]);
    }
  }

  /** One more selector: the stylesheet is changed if it was, or if this selector finds a rule. */
  lemma StripAllStep(ns: seq<Node>, us: seq<string>, u: string)
    ensures var p := StripAll(ns, us);
      StripAll(ns, us + [u]) != ns <==> p != ns || u in Selectors(p)
  {
    var p := StripAll(ns, us);
    assert (us + [u])[..|us|] == us;
    StripAllChanges(ns, us);
    StripAllChanges(ns, us + [u]);
    if p == ns {
      StripChanges(ns, u);
    } else {
      var v :| v in us && v in Selectors(ns);
      assert v in us + [u];
    }
  }

  /**
   * The check before each selector, `selectors_removed.length >= limit`;
   * an undefined limit (`None`) makes the comparison false.
   */
  predicate LimitReached(removed: seq<string>, limit: Option<int>) {
    limit.Some? && |removed| >= limit.value
  }

  /** Some stylesheet has a rule with selector `u`. */
  predicate Hit(trees: map<string, seq<Node>>, u: string) {
    exists f :: f in trees && u in Selectors(trees[f])
  }

  /** Every stylesheet with the rules of selector `u` removed. */
  function StripFiles(trees: map<string, seq<Node>>, u: string): (r: map<string, seq<Node>>)
    ensures r.Keys == trees.Keys
  {
    map f | f in trees :: Strip(trees[f], u)
  }

  /**
   * The state of the selector loop: the stylesheets, the selectors applied
   * (those reached before the limit) and the selectors that removed a rule.
   */
  datatype Run = Run(trees: map<string, seq<Node>>, applied: seq<string>, removed: seq<string>)

  /**
   * The selector loop over `us`, with the limit checked before each
   * selector, and a selector counted as removed when it removed a rule.
   */
  function Pruned(trees: map<string, seq<Node>>, us: seq<string>, limit: Option<int>): (r: Run)
    ensures r.trees.Keys == trees.Keys
    decreases |us|
  {
    if us == [] then Run(trees, [], [])
    else
      var p := Pruned(trees, us[..|us| - 1], limit);
      var u := us[|us| - 1];
      if LimitReached(p.removed, limit) then p
      else Run(StripFiles(p.trees, u), p.applied + [u], if Hit(p.trees, u) then p.removed + [u] else p.removed)
  }

  /** Each stylesheet ends as its parsed tree with every applied selector removed. */
  lemma {:induction false} PrunedAt(trees: map<string, seq<Node>>, us: seq<string>, limit: Option<int>, f: string)
    requires f in trees
    ensures var r := Pruned(trees, us, limit);
      && r.trees[f] == StripAll(trees[f], r.applied)
      && (r.trees[f] != trees[f] <==> exists u :: u in r.applied && u in Selectors(trees[f]))
    decreases |us|
  {
    var r := Pruned(trees, us, limit);
    if us != [] {
      var p := Pruned(trees, us[..|us| - 1], limit);
      PrunedAt(trees, us[..|us| - 1], limit, f);
      if !LimitReached(p.removed, limit) {
        assert (p.applied + [us[|us| - 1]])[..|p.applied|] == p.applied;
      }
    }
    StripAllChanges(trees[f], r.applied);
  }

  /** Without a limit every unused selector is applied, so none of them is left in any stylesheet. */
  lemma {:induction false} PrunedWithoutLimit(trees: map<string, seq<Node>>, us: seq<string>)
    ensures Pruned(trees, us, None).applied == us
    ensures forall f, u :: f in trees && u in us ==> u !in Selectors(Pruned(trees, us, None).trees[f])
    decreases |us|
  {
    if us != [] {
      PrunedWithoutLimit(trees, us[..|us| - 1]);
      assert us[..|us| - 1] + [us[|us| - 1]] == us;
    }
    forall f, u | f in trees && u in us
      ensures u !in Selectors(Pruned(trees, us, None).trees[f])
    {
      PrunedAt(trees, us, None, f);
    }
  }

  /** With a limit, at most that many selectors remove rules (none when it is not positive). */
  lemma {:induction false} PrunedWithinLimit(trees: map<string, seq<Node>>, us: seq<string>, limit: int)
    ensures |Pruned(trees, us, Some(limit)).removed| <= if limit < 0 then 0 else limit
    decreases |us|
  {
    if us != [] {
      PrunedWithinLimit(trees, us[..|us| - 1], limit);
    }
  }

  /**
   * As written, the limit read before each selector is undefined, so with
   * `num_selectors_per_pr` set to 1 two unused selectors with a rule each
   * are both removed.
   */
  lemma LimitIgnoredAsWritten()
    ensures var trees := map["site.css" := [Rule(".a", []), Rule(".b", [])]];
      var written := Pruned(trees, [".a", ".b"], None);
      var intended := Pruned(trees, [".a", ".b"], Some(1));
      && written.removed == [".a", ".b"] && written.trees["site.css"] == []
      && intended.removed == [".a"] && intended.trees["site.css"] == [Rule(".b", [])]
  {
    var trees := map["site.css" := [Rule(".a", []), Rule(".b", [])]];
    var us := [".a", ".b"];
    assert us[..1] == [".a"] && [".a"][..0] == [];
    var t := [Rule(".a", []), Rule(".b", [])];
    assert t[1..] == [Rule(".b", [])] && t[1..][1..] == [];
    assert ".a" in Selectors(trees["site.css"]);
    assert Strip(t, ".a") == [Rule(".b", [])];
    var p := Pruned(trees, [".a"], None);
    assert p.trees == map["site.css" := [Rule(".b", [])]];
    assert ".b" in Selectors(p.trees["site.css"]);
    assert Strip([Rule(".b", [])], ".b") == [];
    var q := Pruned(trees, [".a"], Some(1));
    assert q.removed == [".a"];
  }

  /** The stylesheets holding a rule of selector `u`. */
  function Holding(trees: map<string, seq<Node>>, u: string): set<string> {
    set f | f in trees && u in Selectors(trees[f])
  }

  /**
   * `modified_files` after the inner loop has visited `paths`: each
   * stylesheet in `hits` joins at the end, unless already there.
   */
  function ModifiedBy(paths: seq<string>, hits: set<string>, modified: seq<string>): seq<string>
    decreases |paths|
  {
    if paths == [] then modified
    else ModifiedBy(paths[1..], hits, if paths[0] in hits then Linked(modified, paths[0]) else modified)
  }

  /** The inner loop adds, without repeats, exactly the stylesheets of `paths` in `hits`. */
  lemma {:induction false} ModifiedByAdds(paths: seq<string>, hits: set<string>, modified: seq<string>)
    ensures var r := ModifiedBy(paths, hits, modified);
      && (Distinct(modified) ==> Distinct(r))
      && forall f :: f in r <==> f in modified || (f in paths && f in hits)
    decreases |paths|
  {
    if paths != [] {
      ModifiedByAdds(paths[1..], hits, if paths[0] in hits then Linked(modified, paths[0]) else modified);
      assert forall g :: g in paths <==> g == paths[0] || g in paths[1..];
    }
  }

  /** `modified_files` after the selector loop over `us`, in insertion order. */
  function ModifiedOrder(paths: seq<string>, trees: map<string, seq<Node>>, us: seq<string>, limit: Option<int>): (r: seq<string>)
    ensures Distinct(r) && forall f :: f in r ==> f in trees
    decreases |us|
  {
    if us == [] then []
    else
      var init := us[..|us| - 1];
      var p := Pruned(trees, init, limit);
      var m := ModifiedOrder(paths, trees, init, limit);
      ModifiedByAdds(paths, Holding(p.trees, us[|us| - 1]), m);
      if LimitReached(p.removed, limit) then m else ModifiedBy(paths, Holding(p.trees, us[|us| - 1]), m)
  }

  /** The keys of a `Map` filled by `set` over `xs`, in insertion order. */
  function InsertionOrder(xs: seq<string>): (r: seq<string>)
    ensures Distinct(r) && forall x :: x in r <==> x in xs
    decreases |xs|
  {
    if xs == [] then []
    else
      var init := xs[..|xs| - 1];
      assert forall x :: x in xs <==> x in init || x == xs[|xs| - 1];
      Linked(InsertionOrder(init), xs[|xs| - 1])
  }

  /** `blobSha1` after the blob loop: one `Map.set(sha, path)` per modified stylesheet, in order. */
  function BlobMap(modified: seq<string>, pruned: map<string, seq<Node>>, blobSha: seq<Node> -> string): map<string, string>
    requires forall f :: f in modified ==> f in pruned
    decreases |modified|
  {
    if modified == [] then map[]
    else
      var f := modified[|modified| - 1];
      BlobMap(modified[..|modified| - 1], pruned, blobSha)[blobSha(pruned[f]) := f]
  }

  /** Position `k` holds the last stylesheet of `modified` that prints to sha `s`. */
  predicate LastWith(modified: seq<string>, pruned: map<string, seq<Node>>, blobSha: seq<Node> -> string, s: string, k: int)
    requires forall f :: f in modified ==> f in pruned
  {
    && 0 <= k < |modified|
    && blobSha(pruned[modified[k]]) == s
    && forall j :: k < j < |modified| ==> blobSha(pruned[modified[j]]) != s
  }

  /**
   * The blob map has a key for exactly the shas of the modified
   * stylesheets, and under a shared sha it keeps the later stylesheet.
   */
  lemma {:induction false} BlobMapLast(modified: seq<string>, pruned: map<string, seq<Node>>, blobSha: seq<Node> -> string, s: string)
    requires forall f :: f in modified ==> f in pruned
    ensures var b := BlobMap(modified, pruned, blobSha);
      && (s in b <==> exists f :: f in modified && blobSha(pruned[f]) == s)
      && (s in b ==> exists k :: LastWith(modified, pruned, blobSha, s, k) && b[s] == modified[k])
    decreases |modified|
  {
    if modified != [] {
      var n := |modified|;
      var init := modified[..n - 1];
      var f := modified[n - 1];
      BlobMapLast(init, pruned, blobSha, s);
      var b := BlobMap(modified, pruned, blobSha);
      if blobSha(pruned[f]) == s {
        assert LastWith(modified, pruned, blobSha, s, n - 1);
      } else if s in b {
        var k :| LastWith(init, pruned, blobSha, s, k) && BlobMap(init, pruned, blobSha)[s] == init[k];
        assert LastWith(modified, pruned, blobSha, s, k);
      }
      if s !in b {
        forall g | g in modified
          ensures blobSha(pruned[g]) != s
        {
          if g != f {
            assert g in init;
          }
        }
      } else if blobSha(pruned[f]) != s {
        var g :| g in init && blobSha(pruned[g]) == s;
        assert g in modified;
      }
    }
  }

  /** The parsed stylesheets, by path. */
  function Parsed(paths: seq<string>, parse: string -> Option<seq<Node>>): map<string, seq<Node>> {
    map f | f in paths && parse(f).Some? :: parse(f).value
  }

  /** One more stylesheet parsed: its tree is set in the map, and its path joins the keys unless present. */
  lemma ParseStep(xs: seq<string>, i: nat, parse: string -> Option<seq<Node>>)
    requires i < |xs| && parse(xs[i]).Some?
    ensures Parsed(xs[..i + 1], parse) == Parsed(xs[..i], parse)[xs[i] := parse(xs[i]).value]
    ensures InsertionOrder(xs[..i + 1]) == Linked(InsertionOrder(xs[..i]), xs[i])
  {
    assert xs[..i + 1][..i] == xs[..i];
    assert forall f :: f in xs[..i + 1] <==> f in xs[..i] || f == xs[i];
  }

  /**
   * The parse loop of `processFile`: every path parsed into the
   * `postcss_file` map, whose keys keep their first insertion order; a
   * stylesheet without a root throws (`ok` false) before any rule is removed.
   */
  method ParseAll(cssFiles: seq<string>, parse: string -> Option<seq<Node>>)
    returns (ok: bool, paths: seq<string>, trees: map<string, seq<Node>>)
    ensures ok <==> forall f :: f in cssFiles ==> parse(f).Some?
    ensures ok ==> trees == Parsed(cssFiles, parse)
    ensures ok ==> paths == InsertionOrder(cssFiles) && forall f :: f in paths <==> f in trees
  {
    paths, trees := [], map[];
    for i := 0 to |cssFiles|
      invariant forall f :: f in cssFiles[..i] ==> parse(f).Some?
      invariant trees == Parsed(cssFiles[..i], parse)
      invariant paths == InsertionOrder(cssFiles[..i])
    {
      var pCss := parse(cssFiles[i]);
      if pCss.None? {
        return false, paths, trees;
      }
      ParseStep(cssFiles, i, parse);
      trees := trees[cssFiles[i] := pCss.value];
      paths := Linked(paths, cssFiles[i]);
    }
    assert cssFiles[..|cssFiles|] == cssFiles;
    ok := true;
    assert forall f :: f in paths <==> f in trees;
  }

  /** The rest of a list without repeats has no repeats and lacks the head. */
  lemma DistinctTail(xs: seq<string>)
    requires xs != [] && Distinct(xs)
    ensures xs[0] !in xs[1..] && Distinct(xs[1..])
    ensures forall f :: f in xs <==> f == xs[0] || f in xs[1..]
  {
    assert forall i :: 0 <= i < |xs[1..]| ==> xs[1..][i] == xs[i + 1];
  }

  /**
   * The inner `postcss_file.forEach` for selector `u`: each stylesheet
   * with the rules of `u` removed, and each one that had such a rule added
   * to `modified_files`.
   */
  method StripEach(paths: seq<string>, trees: map<string, seq<Node>>, modified: seq<string>, u: string)
    returns (stripped: map<string, seq<Node>>, modifiedAfter: seq<string>)
    requires Distinct(paths) && forall f :: f in paths <==> f in trees
    ensures stripped == StripFiles(trees, u)
    ensures modifiedAfter == ModifiedBy(paths, Holding(trees, u), modified)
  {
    stripped, modifiedAfter := trees, modified;
    ghost var hits := Holding(trees, u);
    var rest := paths;
    while rest != []
      invariant Distinct(rest) && forall f :: f in rest ==> f in trees
      invariant stripped.Keys == trees.Keys
      invariant forall f :: f in trees ==> stripped[f] == if f in rest then trees[f] else Strip(trees[f], u)
      invariant ModifiedBy(rest, hits, modifiedAfter) == ModifiedBy(paths, hits, modified)
      decreases |rest|
    {
      var file := rest[0];
      DistinctTail(rest);
      var root := stripped[file];
      assert root == trees[file];
      if u in Selectors(root) {
        stripped := stripped[file := Strip(root, u)];
        modifiedAfter := Linked(modifiedAfter, file);
      } else {
        StripAbsent(root, u);
      }
      rest := rest[1..];
    }
  }

  /**
   * The selector loop of `processFile`: each unused selector in turn,
   * unless the limit is reached. As written, `selectors_removed` is never
   * appended to; under a `Some` limit, `Pruned` counts each selector that
   * removed a rule, as the cap evidently intends.
   */
  method RemoveUnused(paths: seq<string>, trees: map<string, seq<Node>>, unused: seq<string>, limit: Option<int>)
    returns (pruned: map<string, seq<Node>>, modified: seq<string>)
    requires Distinct(paths) && forall f :: f in paths <==> f in trees
    ensures pruned == Pruned(trees, unused, limit).trees
    ensures modified == ModifiedOrder(paths, trees, unused, limit)
    ensures Distinct(modified)
    ensures forall f :: f in modified <==> f in trees && pruned[f] != trees[f]
  {
    pruned, modified := trees, [];
    var removed: seq<string> := [];
    ghost var applied: seq<string> := [];
    for i := 0 to |unused|
      invariant Pruned(trees, unused[..i], limit) == Run(pruned, applied, removed)
      invariant modified == ModifiedOrder(paths, trees, unused[..i], limit)
      invariant Distinct(modified)
      invariant forall f :: f in modified <==> f in trees && pruned[f] != trees[f]
    {
      assert unused[..i + 1][..i] == unused[..i];
      if !LimitReached(removed, limit) {
        var u := unused[i];
        var hit := Hit(pruned, u);
        ghost var before, m := pruned, modified;
        pruned, modified := StripEach(paths, pruned, modified, u);
        assert modified == ModifiedOrder(paths, trees, unused[..i + 1], limit);
        ModifiedByAdds(paths, Holding(before, u), m);
        ChangedAfterStrip(trees, unused[..i], limit, paths, m, modified, u);
        if hit {
          removed := removed + [u];
        }
        applied := applied + [u];
      }
    }
    assert unused[..|unused|] == unused;
  }

  /** After one more selector, the modified list is still exactly the stylesheets that changed. */
  lemma ChangedAfterStrip(trees: map<string, seq<Node>>, us: seq<string>, limit: Option<int>,
                          paths: seq<string>, m: seq<string>, modified: seq<string>, u: string)
    requires forall f :: f in paths <==> f in trees
    requires var p := Pruned(trees, us, limit);
      && (forall f :: f in m <==> f in trees && p.trees[f] != trees[f])
      && (forall f :: f in modified <==> f in m || (f in paths && f in Holding(p.trees, u)))
    ensures var p := Pruned(trees, us, limit);
      forall f :: f in modified <==> f in trees && StripFiles(p.trees, u)[f] != trees[f]
  {
    var p := Pruned(trees, us, limit);
    forall f | f in trees
      ensures f in modified <==> StripFiles(p.trees, u)[f] != trees[f]
    {
      PrunedAt(trees, us, limit, f);
      StripAllStep(trees[f], p.applied, u);
      assert (p.applied + [u])[..|p.applied|] == p.applied;
      assert StripFiles(p.trees, u)[f] == StripAll(trees[f], p.applied + [u]);
    }
  }

  /**
   * The blob loop of `processFile`: one blob per modified stylesheet,
   * keyed by the sha GitHub gives its printed text; two stylesheets
   * printed the same share one key, which names the later one.
   */
  method CreateBlobs(modified: seq<string>, pruned: map<string, seq<Node>>, blobSha: seq<Node> -> string)
    returns (blobs: map<string, string>)
    requires forall f :: f in modified ==> f in pruned
    ensures blobs == BlobMap(modified, pruned, blobSha)
    ensures blobs.Keys == set f | f in modified :: blobSha(pruned[f])
    ensures forall s :: s in blobs ==> exists k :: LastWith(modified, pruned, blobSha, s, k) && blobs[s] == modified[k]
  {
    blobs := map[];
    for k := 0 to |modified|
      invariant blobs == BlobMap(modified[..k], pruned, blobSha)
    {
      assert modified[..k + 1][..k] == modified[..k];
      var filePath := modified[k];
      blobs := blobs[blobSha(pruned[filePath]) := filePath];
    }
    assert modified[..|modified|] == modified;
    forall s
      ensures s in blobs <==> exists f :: f in modified && blobSha(pruned[f]) == s
      ensures s in blobs ==> exists k :: LastWith(modified, pruned, blobSha, s, k) && blobs[s] == modified[k]
    {
      BlobMapLast(modified, pruned, blobSha, s);
    }
  }

  /** No blob is created exactly when no stylesheet changed. */
  lemma NoBlobIffUnchanged(trees: map<string, seq<Node>>, pruned: map<string, seq<Node>>, blobSha: seq<Node> -> string)
    requires pruned.Keys == trees.Keys
    ensures (set f | f in trees && pruned[f] != trees[f] :: blobSha(pruned[f])) == {} <==>
      forall f :: f in trees ==> pruned[f] == trees[f]
  {
    var shas := set f | f in trees && pruned[f] != trees[f] :: blobSha(pruned[f]);
    if f :| f in trees && pruned[f] != trees[f] {
      assert blobSha(pruned[f]) in shas;
    }
  }

  /**
   * `processFile`: the stylesheets parsed, pruned of the unused selectors
   * and turned into blobs; `None` when a stylesheet fails to parse.
   */
  method ProcessFile(cssFiles: seq<string>, unused: seq<string>, limit: Option<int>,
                     parse: string -> Option<seq<Node>>, blobSha: seq<Node> -> string)
    returns (r: Option<map<string, string>>)
    ensures r.None? <==> exists f :: f in cssFiles && parse(f).None?
    ensures r.Some? ==>
      var trees := Parsed(cssFiles, parse);
      var pruned := Pruned(trees, unused, limit).trees;
      var modified := ModifiedOrder(InsertionOrder(cssFiles), trees, unused, limit);
      && r.value == BlobMap(modified, pruned, blobSha)
      && r.value.Keys == (set f | f in trees && pruned[f] != trees[f] :: blobSha(pruned[f]))
      && (forall s :: s in r.value ==>
            var f := r.value[s]; f in trees && pruned[f] != trees[f] && blobSha(pruned[f]) == s)
      && (forall s :: s in r.value ==> exists k :: LastWith(modified, pruned, blobSha, s, k) && r.value[s] == modified[k])
  {
    var ok, paths, trees := ParseAll(cssFiles, parse);
    if !ok {
      return None;
    }
    var pruned, modified := RemoveUnused(paths, trees, unused, limit);
    var blobs := CreateBlobs(modified, pruned, blobSha);
    forall s | s in blobs
      ensures var f := blobs[s]; f in trees && pruned[f] != trees[f] && blobSha(pruned[f]) == s
    {
      var k :| LastWith(modified, pruned, blobSha, s, k) && blobs[s] == modified[k];
    }
    assert (set f | f in modified :: blobSha(pruned[f])) == (set f | f in trees && pruned[f] != trees[f] :: blobSha(pruned[f]));
    return Some(blobs);
  }

  /** The non-empty lines, in order. */
  function NonEmpty(lines: seq<string>): (r: seq<string>)
    ensures forall l :: l in r <==> l in lines && l != ""
    decreases |lines|
  {
    if lines == [] then []
    else
      var init := NonEmpty(lines[..|lines| - 1]);
      var last := lines[|lines| - 1];
      assert forall l :: l in lines <==> l in lines[..|lines| - 1] || l == last;
      if last == "" then init else init + [last]
  }

  /** The pieces joined back with line feeds. */
  function JoinLines(pieces: seq<string>): string
    decreases |pieces|
  {
    if pieces == [] then ""
    else if |pieces| == 1 then pieces[0]
    else JoinLines(pieces[..|pieces| - 1]) + "\n" + pieces[|pieces| - 1]
  }

  /** One more piece: the joined text gains a line feed and the piece. */
  lemma JoinLinesSnoc(init: seq<string>, x: string)
    requires init != []
    ensures JoinLines(init + [x]) == JoinLines(init) + "\n" + x
  {
    assert (init + [x])[..|init|] == init;
  }

  /** Extending the last piece extends the joined text. */
  lemma JoinLinesExtend(init: seq<string>, last: string, c: char)
    ensures JoinLines(init + [last + [c]]) == JoinLines(init + [last]) + [c]
  {
    if init == [] {
      assert init + [last + [c]] == [last + [c]] && init + [last] == [last];
    } else {
      JoinLinesSnoc(init, last);
      JoinLinesSnoc(init, last + [c]);
      var j := JoinLines(init) + "\n";
      assert j + (last + [c]) == (j + last) + [c];
    }
  }

  /** `split("\n")` loses nothing: its pieces joined back give the text. */
  lemma {:induction false} SplitLinesJoin(s: string)
    ensures JoinLines(Split(s, LineFeed)) == s
    decreases |s|
  {
    if s != [] {
      var p, c := s[..|s| - 1], s[|s| - 1];
      assert s == p + [c];
      SplitLinesJoin(p);
      SplitLinesStep(p, c);
    }
  }

  /** Appending a character to the text appends it to the joined pieces. */
  lemma SplitLinesStep(p: string, c: char)
    ensures JoinLines(Split(p + [c], LineFeed)) == JoinLines(Split(p, LineFeed)) + [c]
  {
    var s := p + [c];
    assert s[..|s| - 1] == p && s[|s| - 1] == c;
    var init := Split(p, LineFeed);
    if c == '\n' {
      var pieces := init + [""];
      assert pieces[..|pieces| - 1] == init;
    } else {
      var n := |init|;
      assert init == init[..n - 1] + [init[n - 1]];
      JoinLinesExtend(init[..n - 1], init[n - 1], c);
    }
  }

  /** No piece of `split("\n")` holds a line feed. */
  lemma {:induction false} SplitLinesPieces(s: string)
    ensures forall l :: l in Split(s, LineFeed) ==> '\n' !in l
    decreases |s|
  {
    if s != [] {
      SplitLinesPieces(s[..|s| - 1]);
    }
  }

  /**
   * `find_in_path`'s line filter: the non-empty lines of the command's
   * output, in their order; none holds a line feed.
   */
  method FindInPath(stdout: string) returns (files: seq<string>)
    ensures files == NonEmpty(Split(stdout, LineFeed))
    ensures forall f :: f in files ==> f != "" && '\n' !in f
  {
    var lines := Split(stdout, LineFeed);
    files := [];
    for i := 0 to |lines|
      invariant files == NonEmpty(lines[..i])
    {
      assert lines[..i + 1][..i] == lines[..i];
      if |lines[i]| > 0 {
        files := files + [lines[i]];
      }
    }
    assert lines[..|lines|] == lines;
    SplitLinesPieces(stdout);
  }

  /** How `main` ends. */
  datatype Exit =
    | ConfigInvalid
    | SyncOff
    | NothingUnused
    | ArchiveMissing
    | ListingFailed
    | ParseFailed
    | NoBlob
    | BranchWork(blobs: map<string, string>)

  /**
   * `main` up to the branch work: the configuration checks, the unused
   * list (`Selector.get_unused`, which the imported module does not
   * define, so as written `main` stops there; `unused` stands for a
   * working implementation), the archive (`archiveFound` is false when GitHub gives no
   * archive url, and `downloadArchive` exits), the stylesheet listing
   * (`None` when the command fails) and `processFile`. The limit
   * `processFile` reads is undefined, so no cap applies (see
   * LimitIgnoredAsWritten): every unused selector is removed.
   */
  method Sync(config: Configuration.Config, unused: seq<string>, archiveFound: bool, listing: Option<string>,
              parse: string -> Option<seq<Node>>, blobSha: seq<Node> -> string)
    returns (e: Exit)
    ensures e == ConfigInvalid <==> config.HasError()
    ensures e == SyncOff <==> !config.HasError() && !config.pushToGithub
    ensures e == NothingUnused <==> !config.HasError() && config.pushToGithub && unused == []
    ensures e == ArchiveMissing <==> !config.HasError() && config.pushToGithub && unused != [] && !archiveFound
    ensures e == ListingFailed <==>
      !config.HasError() && config.pushToGithub && unused != [] && archiveFound && listing.None?
    ensures e == ParseFailed <==>
      && !config.HasError() && config.pushToGithub && unused != [] && archiveFound && listing.Some?
      && exists f :: f in NonEmpty(Split(listing.value, LineFeed)) && parse(f).None?
    ensures e.BranchWork? || e == NoBlob ==> (
      && listing.Some?
      && var files := NonEmpty(Split(listing.value, LineFeed));
      var trees := Parsed(files, parse);
      var pruned := Pruned(trees, unused, None).trees;
      && (forall f :: f in files ==> parse(f).Some?)
      && (forall f, u :: f in trees && u in unused ==> u !in Selectors(pruned[f]))
      && (e == NoBlob <==> forall f :: f in trees ==> pruned[f] == trees[f])
      && (e.BranchWork? ==>
            e.blobs != map[] && e.blobs == BlobMap(ModifiedOrder(InsertionOrder(files), trees, unused, None), pruned, blobSha)))
  {
    if config.HasError() {
      return ConfigInvalid;
    }
    if !config.pushToGithub {
      return SyncOff;
    }
    if |unused| == 0 {
      return NothingUnused;
    }
    if !archiveFound {
      return ArchiveMissing;
    }
    if listing.None? {
      return ListingFailed;
    }
    var cssFiles := FindInPath(listing.value);
    var blobShas := ProcessFile(cssFiles, unused, None, parse, blobSha);
    if blobShas.None? {
      return ParseFailed;
    }
    ghost var trees := Parsed(cssFiles, parse);
    PrunedWithoutLimit(trees, unused);
    NoBlobIffUnchanged(trees, Pruned(trees, unused, None).trees, blobSha);
    if |blobShas.value| == 0 {
      return NoBlob;
    }
    return BranchWork(blobShas.value);
  }
}
