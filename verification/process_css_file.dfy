/**
 * `process_css_file` of server/handlers/process_css_file.ts: record the
 * stylesheet and its version, extract its selectors, link every one of them
 * to the stylesheet, and unlink the selectors the stylesheet no longer has.
 */
module ProcessCssFile {
  import opened Strings
  import opened CssRules
  import opened Ledger
  import CssExtractor

  /** The elements of a list, as a set. */
  function Names(names: seq<string>): set<string> {
    set s | s in names
  }

  /** The links of every selector of `names` to `file`. */
  function LinksTo(names: set<string>, file: string): set<Link> {
    set s | s in names :: Link(s, file)
  }

  /** Linking `names` to `file` adds them to the file's selectors and to no other file's. */
  lemma AssociatedAfterLinking(links: set<Link>, names: set<string>, file: string)
    ensures Associated(links + LinksTo(names, file), file) == Associated(links, file) + names
    ensures forall s :: s !in names ==> FilesOf(links + LinksTo(names, file), s) == FilesOf(links, s)
  {
    forall s | s in names
      ensures s in Associated(links + LinksTo(names, file), file)
    {
      assert Link(s, file) in LinksTo(names, file);
    }
  }

  /** The `css_selector` table after `Selector.create(file, s, false)` for every `s` of `names`, in order. */
  function CreatedRows(rows: map<string, SelectorRow>, names: seq<string>, now: int): (r: map<string, SelectorRow>)
    ensures r.Keys == rows.Keys + set s | s in names
    decreases |names|
  {
    if names == [] then rows
    else
      var r := CreatedRows(rows, names[..|names| - 1], now);
      var s := names[|names| - 1];
      assert forall x :: x in names <==> x in names[..|names| - 1] || x == s;
      r[s := if s in r then r[s].(seenAt := None) else SelectorRow(now, None)]
  }

  /**
   * Creating rows keeps the rows of other selectors, clears `seen_at` of
   * every created one, and keeps the `created_at` of those that existed.
   */
  lemma {:induction false} CreatedRowsEffect(rows: map<string, SelectorRow>, names: seq<string>, now: int, s: string)
    ensures var r := CreatedRows(rows, names, now);
      && (s !in names && s in rows ==> r[s] == rows[s])
      && (s in names ==> r[s].seenAt == None && r[s].createdAt == if s in rows then rows[s].createdAt else now)
    decreases |names|
  {
    if names != [] {
      CreatedRowsEffect(rows, names[..|names| - 1], now, s);
      assert s in names <==> s in names[..|names| - 1] || s == names[|names| - 1];
    }
  }

  /** `getFromFile`'s rows for the selectors `names`: how many files each is linked to. */
  function Counts(links: set<Link>, names: set<string>): map<string, nat> {
    map s | s in names :: |FilesOf(links, s)|
  }

  /** The stale selectors: linked to the file but no longer in it. */
  function Stale(rows: map<string, nat>, kept: set<string>): set<string> {
    set s | s in rows && s !in kept
  }

  /** The stale selectors whose only link was to this file; their rows are deleted. */
  function Orphans(rows: map<string, nat>, kept: set<string>): set<string> {
    set s | s in rows && s !in kept && rows[s] == 1
  }

  /**
   * After the reconciliation the stylesheet is linked to exactly the
   * extracted selectors, and the links of every other stylesheet are as
   * they were.
   */
  lemma ReconciledLinks(links: set<Link>, kept: set<string>, name: string)
    ensures var rows := Counts(links + LinksTo(kept, name), Associated(links, name) + kept);
      var after := links + LinksTo(kept, name) - LinksTo(Stale(rows, kept), name);
      && Associated(after, name) == kept
      && (forall l: Link :: l.file != name ==> (l in after <==> l in links))
  {
    var rows := Counts(links + LinksTo(kept, name), Associated(links, name) + kept);
    var after := links + LinksTo(kept, name) - LinksTo(Stale(rows, kept), name);
    forall s | s in kept
      ensures s in Associated(after, name)
    {
      assert Link(s, name) in LinksTo(kept, name);
      assert Link(s, name) !in LinksTo(Stale(rows, kept), name);
      assert Link(s, name) in after;
    }
    forall s | s in Associated(after, name)
      ensures s in kept
    {
      var l :| l in after && l.file == name && l.selector == s;
    }
  }

  /**
   * After the reconciliation every extracted selector has a row whose
   * `seen_at` is cleared; a selector that was linked to the stylesheet and
   * is no longer in it keeps its row iff another stylesheet still links it;
   * every other row is as it was.
   */
  lemma ReconciledRows(links: set<Link>, rows0: map<string, SelectorRow>, extracted: seq<string>, name: string, now: int)
    ensures var kept := Names(extracted);
      var counts := Counts(links + LinksTo(kept, name), Associated(links, name) + kept);
      var after := CreatedRows(rows0, extracted, now) - Orphans(counts, kept);
      && (forall s :: s in kept ==>
            && s in after && after[s].seenAt == None
            && after[s].createdAt == if s in rows0 then rows0[s].createdAt else now)
      && (forall s :: s in Associated(links, name) && s !in kept ==>
            (s in after <==> s in rows0 && |FilesOf(links, s)| > 1))
      && (forall s :: s !in Associated(links, name) && s !in kept ==>
            (s in after <==> s in rows0) && (s in after ==> after[s] == rows0[s]))
  {
    var kept := Names(extracted);
    var counts := Counts(links + LinksTo(kept, name), Associated(links, name) + kept);
    AssociatedAfterLinking(links, kept, name);
    forall s
      ensures s in kept ==> s in CreatedRows(rows0, extracted, now) && s !in Orphans(counts, kept)
      ensures s !in kept && s in rows0 ==> CreatedRows(rows0, extracted, now)[s] == rows0[s]
      ensures s in kept ==>
        && CreatedRows(rows0, extracted, now)[s].seenAt == None
        && CreatedRows(rows0, extracted, now)[s].createdAt == if s in rows0 then rows0[s].createdAt else now
    {
      CreatedRowsEffect(rows0, extracted, now, s);
    }
    forall s | s in Associated(links, name) && s !in kept
      ensures |FilesOf(links, s)| >= 1
    {
      LinkedIsCounted(links, s, name);
    }
  }

  /**
   * `process_css_file` for the stylesheet pattern `name` at `url`.
   * `downloaded` is the parsed content of the download (None when the
   * download rejects; content that postcss cannot parse is not modelled,
   * since the extractor then never settles); `historyFault` is an insert
   * error other than the uniqueness conflict; `now` is the clock.
   */
  method ProcessCssFile(db: Database, name: string, url: string, downloaded: Option<seq<Rule>>,
                        now: int, historyFault: bool)
    returns (r: Result<seq<string>>)
    modifies db
    ensures db.files == old(db.files)[name :=
      if name in old(db.files) then old(db.files)[name].(seenAt := now) else FileRow(now, now)]
    ensures !historyFault ==> Version(name, url) in db.history
    ensures db.history ==
      if historyFault || Version(name, url) in old(db.history) then old(db.history)
      else old(db.history)[Version(name, url) := now]
    ensures (historyFault || downloaded.None?) ==>
      r == Failure && db.selectors == old(db.selectors) && db.links == old(db.links)
    ensures !historyFault && downloaded.Some? ==>
      var extracted := Dedup(Offered(downloaded.value, Normalise));
      var rows := Counts(old(db.links) + LinksTo(Names(extracted), name), Associated(old(db.links), name) + Names(extracted));
      && r == Success(extracted)
      && db.links == old(db.links) + LinksTo(Names(extracted), name) - LinksTo(Stale(rows, Names(extracted)), name)
      && db.selectors == CreatedRows(old(db.selectors), extracted, now) - Orphans(rows, Names(extracted))
    ensures r.Success? ==> Associated(db.links, name) == Names(r.value)
    ensures r.Success? ==> forall l: Link :: l.file != name ==> (l in db.links <==> l in old(db.links))
    ensures r.Success? ==> forall s :: s in Associated(old(db.links), name) && s !in r.value ==>
      (s in db.selectors <==> s in old(db.selectors) && |FilesOf(old(db.links), s)| > 1)
  {
    db.CreateFile(name, now);
    var isNewFileVersion := db.RecordHistory(name, url, now, historyFault);
    if isNewFileVersion.Failure? {
      return Failure;
    }
    // an already recorded version does not stop the processing
    if downloaded.None? {
      return Failure;
    }
    var selectorsInFile := CssExtractor.PostCssExtractor(downloaded.value);
    ghost var links0 := db.links;
    ghost var rows0 := db.selectors;
    ReconciledLinks(links0, Names(selectorsInFile), name);
    ReconciledRows(links0, rows0, selectorsInFile, name, now);
    LinkAll(db, name, selectorsInFile, now);
    var selectorsInDb := db.GetFromFile(name);
    AssociatedAfterLinking(links0, Names(selectorsInFile), name);
    assert selectorsInDb == Counts(db.links, Associated(links0, name) + Names(selectorsInFile));
    UnlinkStale(db, name, selectorsInFile, selectorsInDb);
    return Success(selectorsInFile);
  }

  /** The first loop of `process_css_file`: `Selector.create(name, s, false)` for every extracted `s`. */
  method LinkAll(db: Database, name: string, selectorsInFile: seq<string>, now: int)
    modifies db`links, db`selectors
    ensures db.links == old(db.links) + LinksTo(Names(selectorsInFile), name)
    ensures db.selectors == CreatedRows(old(db.selectors), selectorsInFile, now)
  {
    for i := 0 to |selectorsInFile|
      invariant db.links == old(db.links) + LinksTo(Names(selectorsInFile[..i]), name)
      invariant db.selectors == CreatedRows(old(db.selectors), selectorsInFile[..i], now)
    {
      assert selectorsInFile[..i + 1][..i] == selectorsInFile[..i];
      assert Names(selectorsInFile[..i + 1]) == Names(selectorsInFile[..i]) + {selectorsInFile[i]};
      db.CreateSelector(name, selectorsInFile[i], false, now);
    }
    assert selectorsInFile[..|selectorsInFile|] == selectorsInFile;
  }

  /**
   * The second loop of `process_css_file`: every row of `getFromFile` whose
   * selector is not in the file is unlinked, and its selector row deleted
   * when this was its only reference.
   */
  method UnlinkStale(db: Database, name: string, selectorsInFile: seq<string>, selectorsInDb: map<string, nat>)
    modifies db`links, db`selectors
    ensures db.links == old(db.links) - LinksTo(Stale(selectorsInDb, Names(selectorsInFile)), name)
    ensures db.selectors == old(db.selectors) - Orphans(selectorsInDb, Names(selectorsInFile))
  {
    ghost var kept := Names(selectorsInFile);
    var pending := selectorsInDb.Keys;
    while pending != {}
      invariant pending <= selectorsInDb.Keys
      invariant db.links == old(db.links) - LinksTo(Stale(selectorsInDb, kept) - pending, name)
      invariant db.selectors == old(db.selectors) - (Orphans(selectorsInDb, kept) - pending)
      decreases |pending|
    {
      var selector :| selector in pending;
      if selector !in selectorsInFile {
        db.RemoveAssociation(name, selector, selectorsInDb[selector] == 1);
      }
      pending := pending - {selector};
    }
  }
}
