/**
 * The SQL ledger of server/models/Selector.ts and server/models/CssFile.ts:
 * the four tables as fields of one `Database`, each SQL statement as a
 * method on them. Times are passed in as `now`.
 */
module Ledger {
  import opened Strings

  /** A `css_selector` row: when the selector was first recorded and last seen (null when unknown). */
  datatype SelectorRow = SelectorRow(createdAt: int, seenAt: Option<int>)

  /** A `css_file` row. */
  datatype FileRow = FileRow(createdAt: int, seenAt: int)

  /** A `file_selector` row: `selector` appears in the stylesheet `file`. */
  datatype Link = Link(selector: string, file: string)

  /** A `css_file_history` key: the stylesheet pattern and one concrete url of it. */
  datatype Version = Version(pattern: string, url: string)

  /** An awaited call either resolves with a value or rejects. */
  datatype Result<T> = Success(value: T) | Failure

  /** The selectors linked to `file`. */
  function Associated(links: set<Link>, file: string): set<string> {
    set l | l in links && l.file == file :: l.selector
  }

  /** The files `selector` is linked to. */
  function FilesOf(links: set<Link>, selector: string): set<string> {
    set l | l in links && l.selector == selector :: l.file
  }

  class Database {
    /** `css_selector`: name -> row. */
    var selectors: map<string, SelectorRow>
    /** `file_selector`. */
    var links: set<Link>
    /** `css_file`: name -> row. */
    var files: map<string, FileRow>
    /** `css_file_history`: (pattern, url) -> created_at; the pair is unique. */
    var history: map<Version, int>

    constructor()
      ensures selectors == map[] && links == {} && files == map[] && history == map[]
    {
      selectors := map[];
      links := {};
      files := map[];
      history := map[];
    }

    /**
     * `Selector.create`: insert the selector, or on conflict overwrite only
     * its `seen_at` (with null when `isSeen` is false); then insert the
     * link unless it exists.
     */
    method CreateSelector(filePattern: string, selector: string, isSeen: bool, now: int)
      modifies this`selectors, this`links
      ensures var seenAt := if isSeen then Some(now) else None;
        selectors == old(selectors)[selector :=
          if selector in old(selectors) then old(selectors)[selector].(seenAt := seenAt)
          else SelectorRow(now, seenAt)]
      ensures links == old(links) + {Link(selector, filePattern)}
    {
      var seenAt := if isSeen then Some(now) else None;
      if selector in selectors {
        selectors := selectors[selector := selectors[selector].(seenAt := seenAt)];
      } else {
        selectors := selectors[selector := SelectorRow(now, seenAt)];
      }
      if Link(selector, filePattern) !in links {
        links := links + {Link(selector, filePattern)};
      }
    }

    /**
     * `Selector.getFromFile`: for every selector linked to `filePattern`,
     * how many files in all it is linked to.
     */
    function GetFromFile(filePattern: string): (rows: map<string, nat>)
      reads this
      ensures rows.Keys == Associated(links, filePattern)
      ensures forall s :: s in rows ==> rows[s] >= 1 && filePattern in FilesOf(links, s)
    {
      forall s | s in Associated(links, filePattern) {
        LinkedIsCounted(links, s, filePattern);
      }
      map s | s in Associated(links, filePattern) :: |FilesOf(links, s)|
    }

    /**
     * `Selector.removeAssociation`: delete the one link, and the selector's
     * row too when `shouldRemoveSelector`, leaving its other links.
     */
    method RemoveAssociation(filePattern: string, selector: string, shouldRemoveSelector: bool)
      modifies this`selectors, this`links
      ensures links == old(links) - {Link(selector, filePattern)}
      ensures selectors == if shouldRemoveSelector then old(selectors) - {selector} else old(selectors)
    {
      links := links - {Link(selector, filePattern)};
      if shouldRemoveSelector {
        selectors := selectors - {selector};
      }
    }

    /** `CssFile.create`: insert the file with both times `now`, or on conflict only set `seen_at`. */
    method CreateFile(name: string, now: int)
      modifies this`files
      ensures files == old(files)[name :=
        if name in old(files) then old(files)[name].(seenAt := now) else FileRow(now, now)]
    {
      if name in files {
        files := files[name := files[name].(seenAt := now)];
      } else {
        files := files[name := FileRow(now, now)];
      }
    }

    /**
     * `CssFile.record_history`: true when a new (pattern, url) row went in,
     * false on the uniqueness conflict, and a rejection when the insert
     * fails otherwise (`fault`).
     */
    method RecordHistory(pattern: string, url: string, now: int, fault: bool) returns (r: Result<bool>)
      modifies this`history
      ensures fault ==> r == Failure && history == old(history)
      ensures !fault && Version(pattern, url) in old(history) ==> r == Success(false) && history == old(history)
      ensures !fault && Version(pattern, url) !in old(history) ==>
        r == Success(true) && history == old(history)[Version(pattern, url) := now]
      ensures r == Success(true) <==> Version(pattern, url) in history && Version(pattern, url) !in old(history)
    {
      if fault {
        return Failure;
      }
      if Version(pattern, url) in history {
        return Success(false);
      }
      history := history[Version(pattern, url) := now];
      return Success(true);
    }
  }

  /** A selector linked to `file` counts `file` among its files, so it has at least one reference. */
  lemma LinkedIsCounted(links: set<Link>, selector: string, file: string)
    requires selector in Associated(links, file)
    ensures file in FilesOf(links, selector) && |FilesOf(links, selector)| >= 1
  {
    var l :| l in links && l.file == file && l.selector == selector;
    assert l.file in FilesOf(links, selector);
  }

  /** Removing a link leaves every link of other files, and of other selectors, in place. */
  lemma RemoveKeepsOthers(links: set<Link>, selector: string, file: string)
    ensures forall l :: l in links && (l.file != file || l.selector != selector) ==> l in links - {Link(selector, file)}
    ensures Associated(links - {Link(selector, file)}, file) == Associated(links, file) - {selector}
    ensures forall f :: f != file ==> Associated(links - {Link(selector, file)}, f) == Associated(links, f)
  {
  }
}
