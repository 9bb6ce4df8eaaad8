/**
 * The report processor of server/processProbeReport.ts: the selectors a
 * probe saw, grouped by stylesheet url, are linked to that stylesheet's
 * master file in the in-memory store and marked seen; each stylesheet url is
 * queued once for `_processFile`, which reconciles the master's links with
 * the selectors its content offers.
 *
 * The md5 hash, `JSON.parse` and the master file of a url (`findPattern`)
 * are functions passed in; the download is its outcome, `None` when it
 * rejects; `now` is the clock.
 */
module ProcessProbeReport {
  import opened Strings
  import opened CssRules
  import opened MemorySelector
  import opened SelectorStore
  import CssExtractor

  /** One key of the payload's `f` object: a stylesheet url and the selectors seen in it. */
  datatype FileEntry = FileEntry(url: string, selectors: seq<string>)

  /** What `processProbeReport` does with a body. */
  datatype Outcome = AlreadyProcessed | Threw | Processed

  /** The urls of a payload, in key order. */
  function Urls(payload: seq<FileEntry>): (r: seq<string>)
    ensures |r| == |payload| && forall i :: 0 <= i < |r| ==> r[i] == payload[i].url
  {
    seq(|payload|, i requires 0 <= i < |payload| => payload[i].url)
  }

  /** The urls of `urls` not in `known`, each at its first occurrence. */
  function FirstSeen(urls: seq<string>, known: set<string>): seq<string>
    decreases |urls|
  {
    if urls == [] then []
    else
      var init := urls[..|urls| - 1];
      var last := urls[|urls| - 1];
      FirstSeen(init, known) + (if last in known || last in init then [] else [last])
  }

  /** `FirstSeen` lists, once each, exactly the urls that were not known. */
  lemma {:induction false} FirstSeenExactly(urls: seq<string>, known: set<string>)
    ensures forall u :: u in FirstSeen(urls, known) <==> u in urls && u !in known
    ensures Distinct(FirstSeen(urls, known))
    decreases |urls|
  {
    if urls != [] {
      var init := urls[..|urls| - 1];
      FirstSeenExactly(init, known);
      assert forall u :: u in urls <==> u in init || u == urls[|urls| - 1];
    }
  }

  /** Handling one more url keeps the queue the list of first-seen urls. */
  lemma QueueStep(urls: seq<string>, url: string, known0: set<string>)
    ensures FirstSeen(urls + [url], known0) == FirstSeen(urls, known0) + (if url in known0 || url in urls then [] else [url])
  {
    assert (urls + [url])[..|urls|] == urls;
  }

  /** `c` grew into `r`: `r` is well formed, keeps every stored id, and keeps the order of the ids already stored. */
  ghost predicate Grows(c: Contents, r: Contents) {
    && WellFormed(r)
    && c.selectors.Keys <= r.selectors.Keys
    && |c.order| <= |r.order| && r.order[..|c.order|] == c.order
  }

  /** Growing twice is growing. */
  lemma GrowsTwice(a: Contents, b: Contents, c: Contents)
    requires Grows(a, b) && Grows(b, c)
    ensures Grows(a, c)
  {
    assert c.order[..|a.order|] == c.order[..|b.order|][..|a.order|];
  }

  // ---------------------------------------------------------------- _main

  /** The inner `forEach` of `_main`: every selector, in turn, linked to `master` and seen at `now`. */
  function LinkedAndSeen(c: Contents, master: string, selectors: seq<string>, now: int): (r: Contents)
    ensures c.selectors.Keys <= r.selectors.Keys
    decreases |selectors|
  {
    if selectors == [] then c
    else
      var s := selectors[|selectors| - 1];
      Seeing(Linking(LinkedAndSeen(c, master, selectors[..|selectors| - 1], now), s, master), s, now)
  }

  /** The whole `forEach` of `_main` on the store: every key's selectors linked to its master and seen. */
  function AfterReport(c: Contents, payload: seq<FileEntry>, masterOf: string -> string, now: int): (r: Contents)
    ensures c.selectors.Keys <= r.selectors.Keys
    decreases |payload|
  {
    if payload == [] then c
    else
      var e := payload[|payload| - 1];
      LinkedAndSeen(AfterReport(c, payload[..|payload| - 1], masterOf, now), masterOf(e.url), e.selectors, now)
  }

  /** One more entry of the payload: one more `LinkedAndSeen`, one more url. */
  lemma {:induction false} AfterReportStep(c: Contents, payload: seq<FileEntry>, i: int, masterOf: string -> string, now: int)
    requires 0 <= i < |payload|
    ensures AfterReport(c, payload[..i + 1], masterOf, now)
      == LinkedAndSeen(AfterReport(c, payload[..i], masterOf, now), masterOf(payload[i].url), payload[i].selectors, now)
    ensures Urls(payload)[..i + 1] == Urls(payload)[..i] + [payload[i].url]
  {
    assert payload[..i + 1][..i] == payload[..i];
  }

  /** Linking and seeing a list of selectors grows the store. */
  lemma {:induction false} LinkedAndSeenGrows(c: Contents, master: string, selectors: seq<string>, now: int)
    requires WellFormed(c)
    ensures Grows(c, LinkedAndSeen(c, master, selectors, now))
    decreases |selectors|
  {
    if selectors != [] {
      var s := selectors[|selectors| - 1];
      var a := LinkedAndSeen(c, master, selectors[..|selectors| - 1], now);
      LinkedAndSeenGrows(c, master, selectors[..|selectors| - 1], now);
      LinkingKeeps(a, s, master);
      var b := Linking(a, s, master);
      SeeingKeeps(b, s, now);
      GrowsTwice(a, b, Seeing(b, s, now));
      GrowsTwice(c, a, Seeing(b, s, now));
    }
  }

  /**
   * After the inner `forEach`, a selector of the list is stored, seen at
   * `now`, and linked to `master` and to the files it had; any other stored
   * selector is as it was.
   */
  lemma {:induction false} LinkedAndSeenAt(c: Contents, master: string, selectors: seq<string>, now: int, k: string)
    ensures var r := LinkedAndSeen(c, master, selectors, now);
      && (k in r.selectors <==> k in c.selectors || k in selectors)
      && (k in selectors ==>
            && r.selectors[k].seenAt == Some(now) && r.selectors[k].id == Current(c, k).id
            && forall m :: m in r.selectors[k].foundInFile <==> m in Current(c, k).foundInFile || m == master)
      && (k !in selectors && k in c.selectors ==> r.selectors[k] == c.selectors[k])
    decreases |selectors|
  {
    if selectors != [] {
      var init := selectors[..|selectors| - 1];
      var s := selectors[|selectors| - 1];
      LinkedAndSeenAt(c, master, init, now, k);
      assert k in selectors <==> k in init || k == s;
    }
  }

  /** Some key of the payload lists `s`. */
  ghost predicate Mentioned(payload: seq<FileEntry>, s: string) {
    exists j :: 0 <= j < |payload| && s in payload[j].selectors
  }

  /** Some key of the payload lists `s` and has the master file `m`. */
  ghost predicate ReportedIn(payload: seq<FileEntry>, masterOf: string -> string, s: string, m: string) {
    exists j :: 0 <= j < |payload| && s in payload[j].selectors && masterOf(payload[j].url) == m
  }

  /** The report grows the store. */
  lemma {:induction false} AfterReportGrows(c: Contents, payload: seq<FileEntry>, masterOf: string -> string, now: int)
    requires WellFormed(c)
    ensures Grows(c, AfterReport(c, payload, masterOf, now))
    decreases |payload|
  {
    if payload != [] {
      var e := payload[|payload| - 1];
      var a := AfterReport(c, payload[..|payload| - 1], masterOf, now);
      AfterReportGrows(c, payload[..|payload| - 1], masterOf, now);
      LinkedAndSeenGrows(a, masterOf(e.url), e.selectors, now);
      GrowsTwice(c, a, LinkedAndSeen(a, masterOf(e.url), e.selectors, now));
    }
  }

  /** A key lists `k` in `payload + [e]` iff it lists it in `payload` or `e` does. */
  lemma MentionedStep(payload: seq<FileEntry>, e: FileEntry, masterOf: string -> string, k: string)
    ensures Mentioned(payload + [e], k) <==> Mentioned(payload, k) || k in e.selectors
    ensures forall m :: ReportedIn(payload + [e], masterOf, k, m) <==>
      ReportedIn(payload, masterOf, k, m) || (k in e.selectors && masterOf(e.url) == m)
  {
    var p := payload + [e];
    assert p[|payload|] == e;
    if Mentioned(p, k) {
      var j :| 0 <= j < |p| && k in p[j].selectors;
      if j < |payload| {
        assert payload[j] == p[j];
      }
    }
    if Mentioned(payload, k) {
      var j :| 0 <= j < |payload| && k in payload[j].selectors;
      assert p[j] == payload[j];
    }
    forall m
      ensures ReportedIn(p, masterOf, k, m) <==>
        ReportedIn(payload, masterOf, k, m) || (k in e.selectors && masterOf(e.url) == m)
    {
      if ReportedIn(p, masterOf, k, m) {
        var j :| 0 <= j < |p| && k in p[j].selectors && masterOf(p[j].url) == m;
        if j < |payload| {
          assert payload[j] == p[j];
        }
      }
      if ReportedIn(payload, masterOf, k, m) {
        var j :| 0 <= j < |payload| && k in payload[j].selectors && masterOf(payload[j].url) == m;
        assert p[j] == payload[j];
      }
    }
  }

  /**
   * After `_main`, a selector that some key lists is stored, seen at `now`,
   * and linked exactly to the files it had plus the masters of the keys
   * that list it; every other stored selector is as it was.
   */
  lemma {:induction false} AfterReportAt(c: Contents, payload: seq<FileEntry>, masterOf: string -> string, now: int, k: string)
    ensures var r := AfterReport(c, payload, masterOf, now);
      && (k in r.selectors <==> k in c.selectors || Mentioned(payload, k))
      && (Mentioned(payload, k) ==>
            && r.selectors[k].seenAt == Some(now) && r.selectors[k].id == Current(c, k).id
            && forall m :: m in r.selectors[k].foundInFile <==>
                 m in Current(c, k).foundInFile || ReportedIn(payload, masterOf, k, m))
      && (!Mentioned(payload, k) && k in c.selectors ==> r.selectors[k] == c.selectors[k])
    decreases |payload|
  {
    if payload != [] {
      var init := payload[..|payload| - 1];
      var e := payload[|payload| - 1];
      assert payload == init + [e];
      var a := AfterReport(c, init, masterOf, now);
      AfterReportAt(c, init, masterOf, now, k);
      LinkedAndSeenAt(a, masterOf(e.url), e.selectors, now, k);
      MentionedStep(init, e, masterOf, k);
    }
  }

  // ---------------------------------------------------------- _processFile

  /** The first `forEach` of `_processFile`: every id, in turn, linked to `master`. */
  function LinkedToAll(c: Contents, ids: seq<string>, master: string): (r: Contents)
    ensures c.selectors.Keys <= r.selectors.Keys
    ensures forall id :: id in ids ==> id in r.selectors
    decreases |ids|
  {
    if ids == [] then c else Linking(LinkedToAll(c, ids[..|ids| - 1], master), ids[|ids| - 1], master)
  }

  /** The last `forEach` of `_processFile`: every id, in turn, unlinked from `master`. */
  function UnlinkedFromAll(c: Contents, ids: seq<string>, master: string): (r: Contents)
    ensures c.selectors.Keys <= r.selectors.Keys
    decreases |ids|
  {
    if ids == [] then c else Unlinking(UnlinkedFromAll(c, ids[..|ids| - 1], master), ids[|ids| - 1], master)
  }

  /** The diff of `_processFile`: the ids of `previous` missing from `inFile`, in the order of `previous`. */
  function Stale(previous: seq<SelectorState>, inFile: seq<string>): seq<string>
    decreases |previous|
  {
    if previous == [] then []
    else
      var id := previous[|previous| - 1].id;
      Stale(previous[..|previous| - 1], inFile) + (if id in inFile then [] else [id])
  }

  /** `Stale` lists exactly the ids of `previous` that are not in `inFile`. */
  lemma {:induction false} StaleExactly(previous: seq<SelectorState>, inFile: seq<string>, k: string)
    ensures k in Stale(previous, inFile) <==> k !in inFile && exists s :: s in previous && s.id == k
    decreases |previous|
  {
    if previous != [] {
      var init := previous[..|previous| - 1];
      var last := previous[|previous| - 1];
      StaleExactly(init, inFile, k);
      assert forall s :: s in previous <==> s in init || s == last;
    }
  }

  /** The store after `_processFile` of the master file `master` whose content offers `inFile`. */
  function AfterProcessFile(c: Contents, master: string, inFile: seq<string>): (r: Contents)
    requires WellFormed(c)
    ensures c.selectors.Keys <= r.selectors.Keys
    ensures forall s :: s in inFile ==> s in r.selectors
  {
    var previous := OfMaster(c, c.order, master);
    UnlinkedFromAll(LinkedToAll(c, inFile, master), Stale(previous, inFile), master)
  }

  /** Linking a list grows the store. */
  lemma {:induction false} LinkedToAllGrows(c: Contents, ids: seq<string>, master: string)
    requires WellFormed(c)
    ensures Grows(c, LinkedToAll(c, ids, master))
    decreases |ids|
  {
    if ids != [] {
      var a := LinkedToAll(c, ids[..|ids| - 1], master);
      LinkedToAllGrows(c, ids[..|ids| - 1], master);
      LinkingKeeps(a, ids[|ids| - 1], master);
      GrowsTwice(c, a, Linking(a, ids[|ids| - 1], master));
    }
  }

  /** Unlinking a list grows the store. */
  lemma {:induction false} UnlinkedFromAllGrows(c: Contents, ids: seq<string>, master: string)
    requires WellFormed(c)
    ensures Grows(c, UnlinkedFromAll(c, ids, master))
    decreases |ids|
  {
    if ids != [] {
      var a := UnlinkedFromAll(c, ids[..|ids| - 1], master);
      UnlinkedFromAllGrows(c, ids[..|ids| - 1], master);
      UnlinkingKeeps(a, ids[|ids| - 1], master);
      GrowsTwice(c, a, Unlinking(a, ids[|ids| - 1], master));
    }
  }

  /** After linking a list, a listed id is stored and linked to `master`; its other files and seen time are as they were. */
  lemma {:induction false} LinkedToAllAt(c: Contents, ids: seq<string>, master: string, k: string)
    ensures var r := LinkedToAll(c, ids, master);
      && (k in r.selectors <==> k in c.selectors || k in ids)
      && (k in r.selectors ==>
            && r.selectors[k].seenAt == Current(c, k).seenAt && r.selectors[k].id == Current(c, k).id
            && forall m :: m in r.selectors[k].foundInFile <==>
                 m in Current(c, k).foundInFile || (m == master && k in ids))
    decreases |ids|
  {
    if ids != [] {
      LinkedToAllAt(c, ids[..|ids| - 1], master, k);
      assert k in ids <==> k in ids[..|ids| - 1] || k == ids[|ids| - 1];
    }
  }

  /** After unlinking a list, a listed id is not linked to `master`; every id keeps its other files and seen time. */
  lemma {:induction false} UnlinkedFromAllAt(c: Contents, ids: seq<string>, master: string, k: string)
    ensures var r := UnlinkedFromAll(c, ids, master);
      && (k in r.selectors <==> k in c.selectors || k in ids)
      && (k in r.selectors ==>
            && r.selectors[k].seenAt == Current(c, k).seenAt && r.selectors[k].id == Current(c, k).id
            && forall m :: m in r.selectors[k].foundInFile <==>
                 m in Current(c, k).foundInFile && !(m == master && k in ids))
    decreases |ids|
  {
    if ids != [] {
      UnlinkedFromAllAt(c, ids[..|ids| - 1], master, k);
      assert k in ids <==> k in ids[..|ids| - 1] || k == ids[|ids| - 1];
    }
  }

  /**
   * After `_processFile`, the selectors linked to the master file are
   * exactly those its content offers: each stored selector is linked to
   * `master` iff it is in `inFile`, keeps its links to every other file
   * and its seen time, and the only new selectors are those of `inFile`.
   */
  lemma AfterProcessFileAt(c: Contents, master: string, inFile: seq<string>, k: string)
    requires WellFormed(c)
    ensures var r := AfterProcessFile(c, master, inFile);
      && (k in r.selectors <==> k in c.selectors || k in inFile)
      && (k in r.selectors ==>
            && (master in r.selectors[k].foundInFile <==> k in inFile)
            && (forall m :: m != master ==> (m in r.selectors[k].foundInFile <==> m in Current(c, k).foundInFile))
            && r.selectors[k].seenAt == Current(c, k).seenAt && r.selectors[k].id == k)
  {
    var previous := OfMaster(c, c.order, master);
    var stale := Stale(previous, inFile);
    var a := LinkedToAll(c, inFile, master);
    LinkedToAllAt(c, inFile, master, k);
    UnlinkedFromAllAt(a, stale, master, k);
    StaleExactly(previous, inFile, k);
    OfMasterExactly(c, c.order, master);
    if k in stale {
      var s :| s in previous && s.id == k;
      assert k in c.selectors;
    }
    if k in c.selectors && master in c.selectors[k].foundInFile && k !in inFile {
      assert c.selectors[k] in previous;
    }
  }

  /** `_processFile` grows the store. */
  lemma AfterProcessFileGrows(c: Contents, master: string, inFile: seq<string>)
    requires WellFormed(c)
    ensures Grows(c, AfterProcessFile(c, master, inFile))
  {
    var a := LinkedToAll(c, inFile, master);
    LinkedToAllGrows(c, inFile, master);
    UnlinkedFromAllGrows(a, Stale(OfMaster(c, c.order, master), inFile), master);
    GrowsTwice(c, a, AfterProcessFile(c, master, inFile));
  }

  /** Processing the same content twice in a row changes no selector's links or seen time the second time. */
  lemma AfterProcessFileSettles(c: Contents, master: string, inFile: seq<string>, k: string)
    requires WellFormed(c)
    ensures var r := AfterProcessFile(c, master, inFile);
      WellFormed(r) &&
      var r2 := AfterProcessFile(r, master, inFile);
      && (k in r2.selectors <==> k in r.selectors)
      && (k in r.selectors ==>
            && r2.selectors[k].seenAt == r.selectors[k].seenAt
            && forall m :: m in r2.selectors[k].foundInFile <==> m in r.selectors[k].foundInFile)
  {
    var r := AfterProcessFile(c, master, inFile);
    AfterProcessFileGrows(c, master, inFile);
    AfterProcessFileAt(c, master, inFile, k);
    AfterProcessFileAt(r, master, inFile, k);
  }

  /**
   * What `_processFile` as written leaves undone (see
   * `Processor.ProcessFileAsWritten`): whenever the content offers a
   * selector not yet linked to the master, the store the named extractor
   * gives links it, while the store the job leaves does not.
   */
  lemma UnboundExtractorDropsLinks(c: Contents, master: string, rules: seq<Rule>, s: string)
    requires WellFormed(c)
    requires s in Dedup(Offered(rules, Normalise))
    requires s in c.selectors ==> master !in c.selectors[s].foundInFile
    ensures var r := AfterProcessFile(c, master, Dedup(Offered(rules, Normalise)));
      && s in r.selectors && master in r.selectors[s].foundInFile
      && r != c
  {
    AfterProcessFileAt(c, master, Dedup(Offered(rules, Normalise)), s);
  }

  // -------------------------------------------------------------- methods

  /** The inner `forEach` of `_main`: link every selector to `master` and mark it seen. */
  method ReportSelectors(store: Store, master: string, selectors: seq<string>, now: int)
    requires store.Valid()
    modifies store
    ensures store.Valid()
    ensures store.State() == LinkedAndSeen(old(store.State()), master, selectors, now)
  {
    ghost var c0 := store.State();
    for j := 0 to |selectors|
      invariant store.Valid()
      invariant store.State() == LinkedAndSeen(c0, master, selectors[..j], now)
    {
      assert selectors[..j + 1][..j] == selectors[..j];
      store.LinkSelector(selectors[j], master);
      store.SelectorSeen(selectors[j], now);
    }
    assert selectors[..|selectors|] == selectors;
  }

  /** The first `forEach` of `_processFile`: link every extracted selector to `master`. */
  method LinkAll(store: Store, master: string, ids: seq<string>)
    requires store.Valid()
    modifies store
    ensures store.Valid()
    ensures store.State() == LinkedToAll(old(store.State()), ids, master)
  {
    ghost var c0 := store.State();
    for j := 0 to |ids|
      invariant store.Valid()
      invariant store.State() == LinkedToAll(c0, ids[..j], master)
    {
      assert ids[..j + 1][..j] == ids[..j];
      store.LinkSelector(ids[j], master);
    }
    assert ids[..|ids|] == ids;
  }

  /** The diff of `_processFile`: the ids of the previously linked selectors that are no longer extracted. */
  method CollectStale(previous: seq<SelectorState>, kept: seq<string>) returns (r: seq<string>)
    ensures r == Stale(previous, kept)
    ensures forall k :: k in r <==> k !in kept && exists s :: s in previous && s.id == k
  {
    r := [];
    for i := 0 to |previous|
      invariant r == Stale(previous[..i], kept)
    {
      assert previous[..i + 1][..i] == previous[..i];
      if previous[i].id !in kept {
        r := r + [previous[i].id];
      }
    }
    assert previous[..|previous|] == previous;
    forall k
      ensures k in r <==> k !in kept && exists s :: s in previous && s.id == k
    {
      StaleExactly(previous, kept, k);
    }
  }

  /** The last `forEach` of `_processFile`: unlink every stale selector from `master`. */
  method UnlinkAll(store: Store, master: string, ids: seq<string>)
    requires store.Valid()
    modifies store
    ensures store.Valid()
    ensures store.State() == UnlinkedFromAll(old(store.State()), ids, master)
  {
    ghost var c0 := store.State();
    for j := 0 to |ids|
      invariant store.Valid()
      invariant store.State() == UnlinkedFromAll(c0, ids[..j], master)
    {
      assert ids[..j + 1][..j] == ids[..j];
      store.UnlinkSelector(ids[j], master);
    }
    assert ids[..|ids|] == ids;
  }

  class Processor {
    /** The md5 of every body already processed. */
    var knownRequestSignature: set<string>
    /** Every stylesheet url queued for processing. */
    var knownFileVersion: set<string>
    /** The `_processFile` jobs scheduled with `setImmediate`, in order. */
    var queue: seq<string>
    const store: Store

    ghost predicate Valid()
      reads this, store
    {
      && store.Valid()
      && QueueValid()
    }

    /** Every known url is queued exactly once. */
    ghost predicate QueueValid()
      reads this
    {
      && Distinct(queue)
      && (forall u :: u in queue <==> u in knownFileVersion)
    }

    /** Nothing known, nothing queued, an empty store. */
    constructor()
      ensures Valid() && fresh(store)
      ensures knownRequestSignature == {} && knownFileVersion == {} && queue == []
      ensures store.State() == Contents(map[], [])
    {
      knownRequestSignature := {};
      knownFileVersion := {};
      queue := [];
      store := new Store();
    }

    /**
     * `processProbeReport`: a body whose signature is known is ignored; a
     * body that does not parse throws and is not recorded; any other body
     * is processed by `_main` and then recorded.
     */
    method ProcessProbeReport(body: string, md5: string -> string, parse: string -> Option<seq<FileEntry>>,
                              masterOf: string -> string, now: int)
      returns (r: Outcome)
      requires Valid()
      modifies this`knownRequestSignature, this`knownFileVersion, this`queue, store
      ensures Valid()
      ensures md5(body) in old(knownRequestSignature) ==>
        r == AlreadyProcessed && knownFileVersion == old(knownFileVersion) && queue == old(queue)
        && store.State() == old(store.State())
      ensures md5(body) !in old(knownRequestSignature) && parse(body).None? ==>
        r == Threw && knownRequestSignature == old(knownRequestSignature)
        && knownFileVersion == old(knownFileVersion) && queue == old(queue)
        && store.State() == old(store.State())
      ensures md5(body) !in old(knownRequestSignature) && parse(body).Some? ==>
        && r == Processed && knownRequestSignature == old(knownRequestSignature) + {md5(body)}
        && Queued(Urls(parse(body).value), old(knownFileVersion), old(queue))
        && store.State() == AfterReport(old(store.State()), parse(body).value, masterOf, now)
      ensures r == Processed <==> md5(body) in knownRequestSignature - old(knownRequestSignature)
    {
      var signature := md5(body);
      if signature in knownRequestSignature {
        return AlreadyProcessed;
      }
      var payload := parse(body);
      if payload.None? {
        return Threw;
      }
      ProcessPayload(payload.value, masterOf, now);
      knownRequestSignature := knownRequestSignature + {signature};
      return Processed;
    }

    /** From the known urls `known0` and the queue `queue0`, after the urls `urls`: every new url is known and queued once. */
    ghost predicate Queued(urls: seq<string>, known0: set<string>, queue0: seq<string>)
      reads this
    {
      && (forall u :: u in knownFileVersion <==> u in known0 || u in urls)
      && queue == queue0 + FirstSeen(urls, known0)
    }

    /**
     * `_main`: every url not known yet is queued once and becomes known;
     * the store is as `AfterReport` says.
     */
    method ProcessPayload(payload: seq<FileEntry>, masterOf: string -> string, now: int)
      requires Valid()
      modifies this`knownFileVersion, this`queue, store
      ensures Valid()
      ensures Queued(Urls(payload), old(knownFileVersion), old(queue))
      ensures store.State() == AfterReport(old(store.State()), payload, masterOf, now)
    {
      ghost var known0, queue0, c0 := knownFileVersion, queue, store.State();
      for i := 0 to |payload|
        invariant Valid()
        invariant Queued(Urls(payload)[..i], known0, queue0)
        invariant store.State() == AfterReport(c0, payload[..i], masterOf, now)
      {
        AfterReportStep(c0, payload, i, masterOf, now);
        Enqueue(Urls(payload)[..i], payload[i].url, known0, queue0);
        var master := masterOf(payload[i].url);
        ReportSelectors(store, master, payload[i].selectors, now);
      }
      assert payload[..|payload|] == payload;
      assert Urls(payload)[..|payload|] == Urls(payload);
    }

    /** The first half of a key of `_main`'s `forEach`: queue the url unless known. */
    method Enqueue(ghost urls: seq<string>, url: string, ghost known0: set<string>, ghost queue0: seq<string>)
      requires QueueValid() && Queued(urls, known0, queue0)
      modifies this`knownFileVersion, this`queue
      ensures QueueValid() && Queued(urls + [url], known0, queue0)
    {
      QueueStep(urls, url, known0);
      if url !in knownFileVersion {
        queue := queue + [url];
        knownFileVersion := knownFileVersion + {url};
      }
    }

    /**
     * `_processFile` for `url`, whose download gives the rules `downloaded`
     * (None when it rejects; content that postcss cannot parse is not
     * modelled), with the extractor bound to its named export: the store is
     * as `AfterProcessFile` says for the url's master file and the selectors
     * the content offers. A failed download changes nothing.
     */
    method ProcessFile(url: string, masterOf: string -> string, downloaded: Option<seq<Rule>>)
      requires Valid()
      modifies store
      ensures Valid()
      ensures downloaded.None? ==> store.State() == old(store.State())
      ensures downloaded.Some? ==>
        store.State() == AfterProcessFile(old(store.State()), masterOf(url), Dedup(Offered(downloaded.value, Normalise)))
    {
      var master := masterOf(url);
      if downloaded.None? {
        return;
      }
      var selectorsInFile := CssExtractor.PostCssExtractor(downloaded.value);
      var previousVersionSelectorList := store.GetSelectorsOfMaster(master);
      LinkAll(store, master, selectorsInFile);
      var selectorToUnlink := CollectStale(previousVersionSelectorList, selectorsInFile);
      UnlinkAll(store, master, selectorToUnlink);
    }

    /**
     * `_processFile` as written: the default import of the extractor is
     * bound to nothing, since its module only has a named export, so the
     * call after a successful download throws and the `setImmediate` job
     * rejects (`rejected`) before touching the store. A failed download is
     * caught and logged. Either way the store is unchanged.
     */
    method ProcessFileAsWritten(url: string, masterOf: string -> string, downloaded: Option<seq<Rule>>)
      returns (rejected: bool)
      requires Valid()
      ensures Valid()
      ensures rejected <==> downloaded.Some?
    {
      var master := masterOf(url);
      if downloaded.None? {
        return false;
      }
      return true;
    }
  }
}
