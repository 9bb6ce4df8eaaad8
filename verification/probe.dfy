/**
 * The in-browser probe of probe/src/probe.ts: it learns the selectors of the
 * page's stylesheets from the parse service, checks them against the page in
 * chunks, and posts the ones it sees, grouped by stylesheet.
 *
 * The page's stylesheets, the parse service, the page's lookups and the
 * clock are parameters of the methods that use them.
 */
module BrowserProbe {
  import opened Strings
  import opened ProbeSpec

  class Probe {
    var options: Options
    /** The stylesheets already processed; nothing in probe.ts ever adds to it. */
    var cssFilesURLs: seq<string>
    var allSelectors: map<string, SelectorRecord>
    var unseenSelectors: seq<string>
    var buffer: seq<string>
    var timeMainLoopCall: int
    var timeBufferFlushCall: int
    /** Whether a mutation observer is attached to the page. */
    var observing: bool
    /** The reports posted to the server, oldest first. */
    var sent: seq<Report>

    /** The selector collections, as one value. */
    function State(): Tables
      reads this
    {
      Tables(allSelectors, unseenSelectors, buffer)
    }

    /** Everything the probe keeps, as one value. */
    function Snapshot(): ProbeState
      reads this
    {
      ProbeState(options, cssFilesURLs, State(), timeMainLoopCall, timeBufferFlushCall, observing, sent)
    }

    ghost predicate Valid()
      reads this
    {
      Wellformed(State())
    }

    constructor()
      ensures Valid()
      ensures options == DefaultOptions
      ensures cssFilesURLs == [] && allSelectors == map[] && unseenSelectors == [] && buffer == []
      ensures timeMainLoopCall == 0 && timeBufferFlushCall == 0 && !observing && sent == []
    {
      options := DefaultOptions;
      cssFilesURLs := [];
      allSelectors := map[];
      unseenSelectors := [];
      buffer := [];
      timeMainLoopCall := 0;
      timeBufferFlushCall := 0;
      observing := false;
      sent := [];
    }

    /** `start`: take the page's options, then `resume`. */
    method Start(user: UserOptions, now: int, hrefs: seq<Option<string>>,
                 fetch: string -> Option<seq<Parse1ApiItem>>, dom: Dom, flushTime: int)
      requires Valid()
      modifies this
      ensures Valid()
      ensures options == Merge(old(options), user)
      ensures observing
      ensures Snapshot() == Resumed(old(Snapshot()).(options := Merge(old(options), user)), now, hrefs, fetch, dom, flushTime)
    {
      options := Merge(options, user);
      Resume(now, hrefs, fetch, dom, flushTime);
    }

    /** `stop`: detach the observer and keep every selector record. */
    method Stop()
      modifies this`observing
      ensures !observing
    {
      if !observing {
        return;
      }
      observing := false;
    }

    /** `resume`: attach an observer unless one is attached, then run the main loop once. */
    method Resume(now: int, hrefs: seq<Option<string>>,
                  fetch: string -> Option<seq<Parse1ApiItem>>, dom: Dom, flushTime: int)
      requires Valid()
      modifies this
      ensures Valid()
      ensures observing
      ensures options == old(options)
      ensures old(observing) ==> unchanged(this)
      ensures Snapshot() == Resumed(old(Snapshot()), now, hrefs, fetch, dom, flushTime)
    {
      if observing {
        return;
      }
      observing := true;
      MainLoop(now, hrefs, fetch, dom, flushTime);
    }

    /**
     * `_mainLoop`, run at time `now` on a page whose stylesheets have the
     * hrefs `hrefs`: nothing at all within `throttle` milliseconds of the
     * last accepted run; otherwise record the time, learn new stylesheets,
     * reset every `checked` flag, check the waiting selectors, and at
     * `flushTime` send the buffer if the last flush is more than 500
     * milliseconds old.
     */
    method MainLoop(now: int, hrefs: seq<Option<string>>,
                    fetch: string -> Option<seq<Parse1ApiItem>>, dom: Dom, flushTime: int)
      requires Valid()
      modifies this
      ensures Valid()
      ensures old(now - timeMainLoopCall < options.throttle) ==> unchanged(this)
      ensures Snapshot() == Run(old(Snapshot()), now, hrefs, fetch, dom, flushTime)
    {
      if now - timeMainLoopCall < options.throttle {
        return;
      }
      AcceptedRun(now, hrefs, fetch, dom, flushTime);
    }

    /** The body of `_mainLoop` once the throttle lets the run through. */
    method AcceptedRun(now: int, hrefs: seq<Option<string>>,
                       fetch: string -> Option<seq<Parse1ApiItem>>, dom: Dom, flushTime: int)
      requires Valid()
      modifies this
      ensures Valid()
      ensures Snapshot() == Accept(old(Snapshot()), now, hrefs, fetch, dom, flushTime)
    {
      timeMainLoopCall := now;
      var ok := SyncSelectors(hrefs, fetch);
      if !ok {
        // the awaited downloads rejected, so the run ends here
        return;
      }
      ResetChecked();
      var done := CheckSelectorsByChunk(unseenSelectors, dom);
      if done {
        DoneCallback(flushTime);
      }
    }

    /** The `doneCb` of `_mainLoop`: at `flushTime`, send the buffer if the last flush is over 500 ms old. */
    method DoneCallback(flushTime: int)
      requires Valid()
      modifies this`timeBufferFlushCall, this`buffer, this`sent
      ensures Valid()
      ensures flushTime - old(timeBufferFlushCall) > PingFrequency ==>
        && timeBufferFlushCall == flushTime && buffer == []
        && sent == old(sent) + (if old(buffer) == [] then [] else [ReportOf(options, old(State()))])
      ensures flushTime - old(timeBufferFlushCall) <= PingFrequency ==> unchanged(this)
      ensures Snapshot() == Done(old(Snapshot()), flushTime)
    {
      if flushTime - timeBufferFlushCall > PingFrequency {
        timeBufferFlushCall := flushTime;
        SendBuffer();
      }
    }

    /** `_syncSelectors`: learn the selectors of the stylesheets not processed yet. */
    method SyncSelectors(hrefs: seq<Option<string>>, fetch: string -> Option<seq<Parse1ApiItem>>)
      returns (ok: bool)
      requires Valid()
      modifies this`allSelectors, this`unseenSelectors
      ensures Valid()
      ensures Download(old(State()), NewUrls(hrefs, cssFilesURLs), fetch) == Downloaded(State(), ok)
    {
      var urls := GetNewCssFileUrls(hrefs);
      ok := DownloadCssFiles(urls, fetch);
    }

    /** `_getNewCssFileUrls`: the present, http(s) stylesheet urls not processed yet, in page order. */
    method GetNewCssFileUrls(hrefs: seq<Option<string>>) returns (urls: seq<string>)
      ensures urls == NewUrls(hrefs, cssFilesURLs)
      ensures forall u :: u in urls <==>
        exists i :: 0 <= i < |hrefs| && hrefs[i] == Some(u) && IsNewUrl(hrefs[i], cssFilesURLs)
    {
      urls := [];
      for i := 0 to |hrefs|
        invariant urls == NewUrls(hrefs[..i], cssFilesURLs)
      {
        assert hrefs[..i + 1][..i] == hrefs[..i];
        var href := hrefs[i];
        if href.Some? && href.value != "" && StartsWith(href.value, "http") && href.value !in cssFilesURLs {
          urls := urls + [href.value];
        }
      }
      assert hrefs[..|hrefs|] == hrefs;
      forall u {
        NewUrlsExactly(hrefs, cssFilesURLs, u);
      }
    }

    /** `_downloadCSSFiles`: add the selectors the parse service lists for each stylesheet. */
    method DownloadCssFiles(urls: seq<string>, fetch: string -> Option<seq<Parse1ApiItem>>)
      returns (ok: bool)
      requires Valid()
      modifies this`allSelectors, this`unseenSelectors
      ensures Valid()
      ensures Download(old(State()), urls, fetch) == Downloaded(State(), ok)
      ensures ok <==> forall i :: 0 <= i < |urls| ==> fetch(urls[i]).Some?
    {
      ok := true;
      ghost var start := State();
      for i := 0 to |urls|
        invariant Valid()
        invariant buffer == start.buffer
        invariant Download(start, urls[..i], fetch) == Downloaded(State(), ok)
      {
        assert urls[..i + 1][..i] == urls[..i];
        var answer := fetch(urls[i]);
        if answer.None? {
          ok := false;
        } else {
          var items := answer.value;
          ghost var before := State();
          for j := 0 to |items|
            invariant Valid()
            invariant buffer == start.buffer
            invariant State() == AddItems(before, urls[i], items[..j])
          {
            assert items[..j + 1][..j] == items[..j];
            AddSelector(urls[i], items[j]);
          }
          assert items[..|items|] == items;
        }
      }
      assert urls[..|urls|] == urls;
      DownloadKeepsWellformed(start, urls, fetch);
    }

    /**
     * `_addSelector`: a known selector only gains the stylesheet url; a new
     * one gets an unchecked, unseen record and waits to be seen iff the
     * stylesheet holds it.
     */
    method AddSelector(url: string, item: Parse1ApiItem)
      requires Valid()
      modifies this`allSelectors, this`unseenSelectors
      ensures Valid()
      ensures State() == ProbeSpec.AddSelector(old(State()), url, item)
    {
      AddSelectorEffect(State(), url, item);
      var text := item.selector;
      if text in allSelectors {
        allSelectors := allSelectors[text := allSelectors[text].(files := allSelectors[text].files + [url])];
        return;
      }
      allSelectors := allSelectors[text := SelectorRecord([url], false, item.inSheet, item.parent, item.fcn, false)];
      if item.inSheet {
        unseenSelectors := unseenSelectors + [text];
      }
    }

    /** The loop of `_mainLoop` that marks every record unchecked. */
    method ResetChecked()
      requires Valid()
      modifies this`allSelectors
      ensures Valid()
      ensures allSelectors == Reset(old(allSelectors))
    {
      ghost var start := allSelectors;
      var keys := allSelectors.Keys;
      while keys != {}
        invariant keys <= start.Keys
        invariant allSelectors.Keys == start.Keys
        invariant forall k :: k in start ==> allSelectors[k] == if k in keys then start[k] else start[k].(checked := false)
        decreases |keys|
      {
        var k :| k in keys;
        allSelectors := allSelectors[k := allSelectors[k].(checked := false)];
        keys := keys - {k};
      }
      assert allSelectors == Reset(start);
      ResetUnchecksAll(old(State()));
    }

    /**
     * `_checkSelectorsByChunk` with its continuations run one after the
     * other: chunks are checked until the list is empty, and then `done`
     * (the `doneCb` call) is true. A chunk size below 1 never pops anything,
     * so a non-empty list is rescheduled forever, unchanged, and `doneCb`
     * never runs.
     */
    method CheckSelectorsByChunk(selectors: seq<string>, dom: Dom) returns (done: bool)
      requires Valid()
      modifies this`allSelectors, this`unseenSelectors, this`buffer
      ensures Valid()
      ensures done <==> selectors == [] || options.chunkSize >= 1
      ensures done ==> State() == Drain(old(State()), selectors, dom)
      ensures !done ==> State() == old(State())
      ensures allSelectors.Keys == old(allSelectors).Keys
    {
      var pending := selectors;
      while pending != []
        invariant Valid()
        invariant |pending| <= |selectors| && pending == selectors[..|pending|]
        invariant options.chunkSize < 1 ==> pending == selectors && State() == old(State())
        invariant State() == Drain(old(State()), selectors[|pending|..], dom)
        decreases |pending|
      {
        var rest := CheckChunk(pending, dom);
        if |rest| == |pending| {
          // nothing was popped: the same call is scheduled again, forever
          return false;
        }
        assert pending[|rest|..] == selectors[|rest|..|pending|];
        assert selectors[|rest|..] == pending[|rest|..] + selectors[|pending|..];
        DrainAppend(old(State()), pending[|rest|..], selectors[|pending|..], dom);
        pending := rest;
      }
      DrainKeepsWellformed(old(State()), selectors, dom);
      return true;
    }

    /**
     * One call of `_checkSelectorsByChunk`: pop and check
     * min(chunkSize, |selectors|) selectors from the end of the list.
     */
    method CheckChunk(selectors: seq<string>, dom: Dom) returns (rest: seq<string>)
      requires Valid()
      modifies this`allSelectors, this`unseenSelectors, this`buffer
      ensures Valid()
      ensures |rest| == |selectors| - (if |selectors| > options.chunkSize then Max0(options.chunkSize) else |selectors|)
      ensures rest == selectors[..|rest|]
      ensures State() == Drain(old(State()), selectors[|rest|..], dom)
    {
      var limit := if |selectors| > options.chunkSize then options.chunkSize else |selectors|;
      rest := selectors;
      var i := 0;
      while i < limit
        invariant 0 <= i <= Max0(limit) && i == |selectors| - |rest| && rest == selectors[..|rest|]
        invariant Valid()
        invariant State() == Drain(old(State()), selectors[|rest|..], dom)
      {
        var text := rest[|rest| - 1];
        assert selectors[|rest| - 1..] == [text] + selectors[|rest|..];
        DrainAppend(old(State()), [text], selectors[|rest|..], dom);
        CheckKeepsWellformed(State(), text, dom);
        var _ := SelectorCheck(text, dom);
        rest := rest[..|rest| - 1];
        i := i + 1;
      }
    }

    /**
     * `_selectorCheck`: the cached answer for a selector checked in this
     * run, otherwise the parent first, then the selector's own lookup.
     */
    method SelectorCheck(text: string, dom: Dom) returns (seen: bool)
      modifies this`allSelectors, this`unseenSelectors, this`buffer
      ensures State() == Check(old(State()), text, dom).tables
      ensures seen == Check(old(State()), text, dom).seen
      decreases |Unchecked(allSelectors)|
    {
      if text == "" {
        return false;
      }
      if text !in allSelectors {
        return false;
      }
      var item := allSelectors[text];
      if item.checked {
        return item.seen;
      }
      MarkShrinks(allSelectors, text);
      allSelectors := allSelectors[text := item.(checked := true)];
      if item.parentText.Some? && item.parentText.value != "" {
        var parentSeen := SelectorCheck(item.parentText.value, dom);
        if !parentSeen {
          allSelectors := allSelectors[text := allSelectors[text].(seen := false)];
          return false;
        }
      }
      seen := Lookup(text, dom);
    }

    /**
     * The `try` block of `_selectorCheck`: look the selector up; when found,
     * a selector the stylesheet holds leaves the waiting list and joins the
     * buffer.
     */
    method Lookup(text: string, dom: Dom) returns (seen: bool)
      requires text in allSelectors
      modifies this`allSelectors, this`unseenSelectors, this`buffer
      ensures State() == Query(old(State()), text, dom, []).tables
      ensures seen == Query(old(State()), text, dom, []).seen
    {
      var item := allSelectors[text];
      match dom(item.fcn, text) {
        case Throws =>
          // the error is logged and swallowed; `seen` keeps its value
          seen := item.seen;
        case NotFound =>
          allSelectors := allSelectors[text := item.(seen := false)];
          seen := false;
        case Found =>
          allSelectors := allSelectors[text := item.(seen := true)];
          if item.inSheet {
            var index := IndexOf(unseenSelectors, text);
            if index > -1 {
              unseenSelectors := unseenSelectors[..index] + unseenSelectors[index + 1..];
            }
            buffer := buffer + [text];
          }
          seen := true;
      }
    }

    /**
     * `_sendBuffer`: empty the buffer, and unless it was empty post one
     * report listing each buffered selector under each of its stylesheets.
     */
    method SendBuffer()
      requires Valid()
      modifies this`buffer, this`sent
      ensures Valid()
      ensures buffer == []
      ensures old(buffer) == [] ==> sent == old(sent)
      ensures old(buffer) != [] ==>
        sent == old(sent) + [Report(options.url + "/a/1/report", "0.1", options.key, Group(old(buffer), allSelectors))]
      ensures Snapshot() == Flush(old(Snapshot()))
    {
      var clone := buffer;
      buffer := [];
      if |clone| == 0 {
        return;
      }
      var data: map<string, seq<string>> := map[];
      for i := 0 to |clone|
        invariant buffer == [] && sent == old(sent)
        invariant data == Group(clone[..i], allSelectors)
      {
        assert clone[..i + 1][..i] == clone[..i];
        var selector := clone[i];
        data := ListUnderFiles(data, selector, allSelectors[selector].files);
      }
      assert clone[..|clone|] == clone;
      sent := sent + [Report(options.url + "/a/1/report", "0.1", options.key, data)];
    }
  }

  /** The inner `forEach` of `_sendBuffer`: list `selector` under each of `files`. */
  method ListUnderFiles(data: map<string, seq<string>>, selector: string, files: seq<string>)
    returns (result: map<string, seq<string>>)
    ensures result == AddUnder(data, selector, files)
  {
    result := data;
    for j := 0 to |files|
      invariant result == AddUnder(data, selector, files[..j])
    {
      assert files[..j + 1][..j] == files[..j];
      var file := files[j];
      if file !in result {
        result := result[file := []];
      }
      result := result[file := result[file] + [selector]];
    }
    assert files[..|files|] == files;
  }

  function Max0(n: int): nat {
    if n < 0 then 0 else n
  }
}
