/**
 * The state the in-browser probe (probe/src/probe.ts) keeps about selectors,
 * and what each of its steps does to that state, as functions on values.
 * The `Probe` class in module BrowserProbe is proved against these.
 */
module ProbeSpec {
  import opened Strings

  /** How the presence of a selector is looked up in the page (types/parse-css.ts). */
  datatype QueryFcn = General | Id | Class

  /** One entry of the parse service's answer for a stylesheet. */
  datatype Parse1ApiItem = Parse1ApiItem(selector: string, inSheet: bool, parent: Option<string>, fcn: QueryFcn)

  /**
   * What the probe knows about one selector: the stylesheets it comes from,
   * whether it was seen, whether the stylesheet really holds it (rather than
   * it being only a parent of one), its parent, its lookup, and whether it
   * has been checked during the current run.
   */
  datatype SelectorRecord = SelectorRecord(
    files: seq<string>,
    seen: bool,
    inSheet: bool,
    parentText: Option<string>,
    fcn: QueryFcn,
    checked: bool)

  /** What a lookup in the page does: it finds an element, finds none, or throws. */
  datatype Outcome = Found | NotFound | Throws

  /** The page, as far as lookups go. */
  type Dom = (QueryFcn, string) -> Outcome

  /** The three collections a selector check reads and writes. */
  datatype Tables = Tables(all: map<string, SelectorRecord>, unseen: seq<string>, buffer: seq<string>)

  /** The tables after a check, the answer, and the selectors whose lookup ran, in order. */
  datatype CheckResult = CheckResult(tables: Tables, seen: bool, queried: seq<string>)

  /**
   * The probe's invariant: every selector waiting to be seen is a known
   * selector that the stylesheet holds, and every buffered selector is known.
   */
  predicate Wellformed(t: Tables) {
    && (forall s :: s in t.unseen ==> s in t.all && t.all[s].inSheet)
    && (forall s :: s in t.buffer ==> s in t.all)
  }

  /** `Array.prototype.indexOf`: the first position of `x`, or -1. */
  function IndexOf(s: seq<string>, x: string): (i: int)
    ensures -1 <= i < |s|
    ensures i == -1 <==> x !in s
    ensures i >= 0 ==> s[i] == x && x !in s[..i]
  {
    if s == [] then -1
    else if s[|s| - 1] == x && x !in s[..|s| - 1] then |s| - 1
    else
      assert s[..|s| - 1][..|s| - 1] == s[..|s| - 1];
      var i := IndexOf(s[..|s| - 1], x);
      assert i >= 0 ==> s[..i] == s[..|s| - 1][..i];
      i
  }

  /** `indexOf` followed by `splice(index, 1)` when found. */
  function RemoveFirst(s: seq<string>, x: string): seq<string> {
    var i := IndexOf(s, x);
    if i > -1 then s[..i] + s[i + 1..] else s
  }

  /** Removing the first occurrence takes exactly one `x` out of the list, and nothing else. */
  lemma RemoveFirstCount(s: seq<string>, x: string)
    ensures x in s ==> multiset(RemoveFirst(s, x)) == multiset(s) - multiset{x}
    ensures x !in s ==> RemoveFirst(s, x) == s
  {
    var i := IndexOf(s, x);
    if i > -1 {
      assert s == s[..i] + [x] + s[i + 1..];
      assert multiset(s) == multiset(s[..i]) + multiset{x} + multiset(s[i + 1..]);
    }
  }

  /** The selectors not yet checked during the current run. */
  function Unchecked(all: map<string, SelectorRecord>): set<string> {
    set k | k in all && !all[k].checked
  }

  /** Marking an unchecked selector as checked leaves one fewer unchecked. */
  lemma MarkShrinks(all: map<string, SelectorRecord>, text: string)
    requires text in all && !all[text].checked
    ensures Unchecked(all[text := all[text].(checked := true)]) == Unchecked(all) - {text}
    ensures |Unchecked(all[text := all[text].(checked := true)])| < |Unchecked(all)|
  {
    var marked := all[text := all[text].(checked := true)];
    assert Unchecked(marked) == Unchecked(all) - {text};
  }

  /** The lookup of `text` itself (probe/src/probe.ts:252-268); a thrown error leaves `seen` as it was. */
  function Query(t: Tables, text: string, dom: Dom, queried: seq<string>): (r: CheckResult)
    requires text in t.all
    ensures r.tables.all.Keys == t.all.Keys
  {
    var item := t.all[text];
    var q := queried + [text];
    match dom(item.fcn, text)
    case Throws => CheckResult(t, item.seen, q)
    case NotFound => CheckResult(t.(all := t.all[text := item.(seen := false)]), false, q)
    case Found =>
      var all := t.all[text := item.(seen := true)];
      if item.inSheet then CheckResult(Tables(all, RemoveFirst(t.unseen, text), t.buffer + [text]), true, q)
      else CheckResult(t.(all := all), true, q)
  }

  /**
   * `_selectorCheck`: nothing for empty or unknown text, the cached answer
   * for a selector already checked in this run, otherwise mark it checked,
   * check its parent first and look it up only when the parent was seen.
   */
  function Check(t: Tables, text: string, dom: Dom): (r: CheckResult)
    ensures r.tables.all.Keys == t.all.Keys
    decreases |Unchecked(t.all)|
  {
    if text == "" || text !in t.all then CheckResult(t, false, [])
    else
      var item := t.all[text];
      if item.checked then CheckResult(t, item.seen, [])
      else
        var marked := t.(all := t.all[text := item.(checked := true)]);
        MarkShrinks(t.all, text);
        if item.parentText.Some? && item.parentText.value != "" then
          var p := Check(marked, item.parentText.value, dom);
          if !p.seen then
            var all := p.tables.all;
            CheckResult(p.tables.(all := all[text := all[text].(seen := false)]), false, p.queried)
          else Query(p.tables, text, dom, p.queried)
        else Query(marked, text, dom, [])
  }

  /** Two records agree on everything a check cannot change. */
  predicate SameOrigin(a: SelectorRecord, b: SelectorRecord) {
    a.files == b.files && a.inSheet == b.inSheet && a.parentText == b.parentText && a.fcn == b.fcn
  }

  /** A lookup changes the `seen` flag of `text` and nothing else in the records. */
  lemma QueryTouchesSeen(t: Tables, text: string, dom: Dom, queried: seq<string>)
    requires text in t.all
    ensures var r := Query(t, text, dom, queried).tables;
      && (forall k :: k in t.all && k != text ==> r.all[k] == t.all[k])
      && r.all[text] == t.all[text].(seen := r.all[text].seen)
  {
  }

  /** A check keeps where each record comes from, its parent and its lookup. */
  lemma {:induction false} CheckKeepsOrigin(t: Tables, text: string, dom: Dom)
    ensures var r := Check(t, text, dom).tables;
      forall k :: k in t.all ==> SameOrigin(r.all[k], t.all[k])
    decreases |Unchecked(t.all)|
  {
    if text == "" || text !in t.all || t.all[text].checked {
    } else {
      var item := t.all[text];
      var marked := t.(all := t.all[text := item.(checked := true)]);
      MarkShrinks(t.all, text);
      if item.parentText.Some? && item.parentText.value != "" {
        var p := Check(marked, item.parentText.value, dom);
        CheckKeepsOrigin(marked, item.parentText.value, dom);
        OriginAfterParent(t, marked, text, p, dom);
      } else {
        QueryTouchesSeen(marked, text, dom, []);
      }
    }
  }

  /** The records after the parent's check, as `Check` finishes them. */
  function AfterParent(p: CheckResult, text: string, dom: Dom): Tables
    requires text in p.tables.all
  {
    if !p.seen then p.tables.(all := p.tables.all[text := p.tables.all[text].(seen := false)])
    else Query(p.tables, text, dom, p.queried).tables
  }

  /** The step of `CheckKeepsOrigin` after the parent's check. */
  lemma OriginAfterParent(t: Tables, marked: Tables, text: string, p: CheckResult, dom: Dom)
    requires text in t.all && marked == t.(all := t.all[text := t.all[text].(checked := true)])
    requires p.tables.all.Keys == t.all.Keys
    requires forall k :: k in marked.all ==> SameOrigin(p.tables.all[k], marked.all[k])
    ensures forall k :: k in t.all ==> SameOrigin(AfterParent(p, text, dom).all[k], t.all[k])
  {
    if p.seen {
      QueryTouchesSeen(p.tables, text, dom, p.queried);
    }
    forall k | k in t.all ensures SameOrigin(AfterParent(p, text, dom).all[k], t.all[k]) {
      assert SameOrigin(marked.all[k], t.all[k]);
    }
  }

  /** The step of `CheckBuffer` after the parent's check. */
  lemma BufferAfterParent(t: Tables, marked: Tables, text: string, p: CheckResult, dom: Dom)
    requires text in t.all && marked == t.(all := t.all[text := t.all[text].(checked := true)])
    requires p.tables.all.Keys == t.all.Keys
    requires forall k :: k in marked.all ==> SameOrigin(p.tables.all[k], marked.all[k])
    requires |t.buffer| <= |p.tables.buffer| && p.tables.buffer[..|t.buffer|] == t.buffer
    requires forall i :: |t.buffer| <= i < |p.tables.buffer| ==> p.tables.buffer[i] in marked.all && marked.all[p.tables.buffer[i]].inSheet
    ensures var r := AfterParent(p, text, dom);
      && |t.buffer| <= |r.buffer|
      && r.buffer[..|t.buffer|] == t.buffer
      && (forall i :: |t.buffer| <= i < |r.buffer| ==> r.buffer[i] in t.all && t.all[r.buffer[i]].inSheet)
  {
    var r := AfterParent(p, text, dom);
    if p.seen {
      QueryBuffer(p.tables, text, dom, p.queried);
      assert SameOrigin(p.tables.all[text], marked.all[text]);
    }
    assert r.buffer[..|p.tables.buffer|] == p.tables.buffer;
    forall i | |t.buffer| <= i < |r.buffer| ensures r.buffer[i] in t.all && t.all[r.buffer[i]].inSheet {
      if i < |p.tables.buffer| {
        assert r.buffer[i] == p.tables.buffer[i];
        assert marked.all[r.buffer[i]].inSheet == t.all[r.buffer[i]].inSheet;
      }
    }
  }

  /** A check leaves the records already checked in this run alone. */
  lemma {:induction false} CheckKeepsChecked(t: Tables, text: string, dom: Dom)
    ensures var r := Check(t, text, dom).tables;
      forall k :: k in t.all && t.all[k].checked ==> r.all[k] == t.all[k]
    decreases |Unchecked(t.all)|
  {
    if text == "" || text !in t.all || t.all[text].checked {
    } else {
      var item := t.all[text];
      var marked := t.(all := t.all[text := item.(checked := true)]);
      MarkShrinks(t.all, text);
      if item.parentText.Some? && item.parentText.value != "" {
        var p := Check(marked, item.parentText.value, dom);
        CheckKeepsChecked(marked, item.parentText.value, dom);
        if p.seen {
          QueryTouchesSeen(p.tables, text, dom, p.queried);
        }
      } else {
        QueryTouchesSeen(marked, text, dom, []);
      }
    }
  }

  /** A check only sets `checked` flags, and leaves a known, non-empty `text` checked. */
  lemma {:induction false} CheckMarks(t: Tables, text: string, dom: Dom)
    ensures var r := Check(t, text, dom).tables;
      && (forall k :: k in t.all && t.all[k].checked ==> r.all[k].checked)
      && (text != "" && text in t.all ==> r.all[text].checked)
    decreases |Unchecked(t.all)|
  {
    if text == "" || text !in t.all || t.all[text].checked {
    } else {
      var item := t.all[text];
      var marked := t.(all := t.all[text := item.(checked := true)]);
      MarkShrinks(t.all, text);
      if item.parentText.Some? && item.parentText.value != "" {
        var p := Check(marked, item.parentText.value, dom);
        CheckMarks(marked, item.parentText.value, dom);
        if p.seen {
          QueryTouchesSeen(p.tables, text, dom, p.queried);
        }
      } else {
        QueryTouchesSeen(marked, text, dom, []);
      }
    }
  }

  /** Only selectors unchecked when the check began are looked up, so none is looked up twice in a run. */
  lemma {:induction false} CheckQueriesUnchecked(t: Tables, text: string, dom: Dom)
    ensures forall q :: q in Check(t, text, dom).queried ==> q in Unchecked(t.all)
    decreases |Unchecked(t.all)|
  {
    if text == "" || text !in t.all || t.all[text].checked {
    } else {
      var item := t.all[text];
      var marked := t.(all := t.all[text := item.(checked := true)]);
      MarkShrinks(t.all, text);
      if item.parentText.Some? && item.parentText.value != "" {
        CheckQueriesUnchecked(marked, item.parentText.value, dom);
      }
    }
  }

  /**
   * A check only appends to the buffer, and only selectors the stylesheet
   * holds: a synthetic parent record never reaches the buffer.
   */
  lemma {:induction false} CheckBuffer(t: Tables, text: string, dom: Dom)
    ensures var r := Check(t, text, dom).tables;
      && |t.buffer| <= |r.buffer|
      && r.buffer[..|t.buffer|] == t.buffer
      && (forall i :: |t.buffer| <= i < |r.buffer| ==> r.buffer[i] in t.all && t.all[r.buffer[i]].inSheet)
    decreases |Unchecked(t.all)|
  {
    if text == "" || text !in t.all || t.all[text].checked {
    } else {
      var item := t.all[text];
      var marked := t.(all := t.all[text := item.(checked := true)]);
      MarkShrinks(t.all, text);
      if item.parentText.Some? && item.parentText.value != "" {
        var p := Check(marked, item.parentText.value, dom);
        CheckBuffer(marked, item.parentText.value, dom);
        CheckKeepsOrigin(marked, item.parentText.value, dom);
        BufferAfterParent(t, marked, text, p, dom);
      } else {
        QueryBuffer(marked, text, dom, []);
      }
    }
  }

  /** A check only takes selectors off the waiting list. */
  lemma {:induction false} CheckUnseen(t: Tables, text: string, dom: Dom)
    ensures multiset(Check(t, text, dom).tables.unseen) <= multiset(t.unseen)
    decreases |Unchecked(t.all)|
  {
    if text == "" || text !in t.all || t.all[text].checked {
    } else {
      var item := t.all[text];
      var marked := t.(all := t.all[text := item.(checked := true)]);
      MarkShrinks(t.all, text);
      if item.parentText.Some? && item.parentText.value != "" {
        var p := Check(marked, item.parentText.value, dom);
        CheckUnseen(marked, item.parentText.value, dom);
        if p.seen {
          QueryBuffer(p.tables, text, dom, p.queried);
        }
      } else {
        QueryBuffer(marked, text, dom, []);
      }
    }
  }

  /** The lookup step of `CheckBuffer`. */
  lemma QueryBuffer(t: Tables, text: string, dom: Dom, queried: seq<string>)
    requires text in t.all
    ensures var r := Query(t, text, dom, queried).tables;
      && r.buffer == t.buffer + (if dom(t.all[text].fcn, text) == Found && t.all[text].inSheet then [text] else [])
      && multiset(r.unseen) <= multiset(t.unseen)
  {
    RemoveFirstCount(t.unseen, text);
  }

  /**
   * The outcomes of a lookup: a found selector the stylesheet holds leaves
   * the waiting list (once) and joins the buffer; a found synthetic one only
   * becomes seen; a miss clears `seen`; a thrown error changes nothing.
   */
  lemma QueryOutcome(t: Tables, text: string, dom: Dom, queried: seq<string>)
    requires text in t.all
    ensures var r := Query(t, text, dom, queried);
      var item := t.all[text];
      && r.queried == queried + [text]
      && (dom(item.fcn, text) == Found && item.inSheet ==>
            r.seen && r.tables.buffer == t.buffer + [text]
            && (text in t.unseen ==> multiset(r.tables.unseen) == multiset(t.unseen) - multiset{text})
            && (text !in t.unseen ==> r.tables.unseen == t.unseen))
      && (dom(item.fcn, text) == Found && !item.inSheet ==>
            r.seen && r.tables.buffer == t.buffer && r.tables.unseen == t.unseen)
      && (dom(item.fcn, text) == NotFound ==> !r.seen && !r.tables.all[text].seen && r.tables.buffer == t.buffer)
      && (dom(item.fcn, text) == Throws ==> r.tables == t && r.seen == item.seen)
  {
    RemoveFirstCount(t.unseen, text);
  }

  /** Empty or unknown text, or a selector already checked in this run: no lookup, no change. */
  lemma CheckWithoutLookup(t: Tables, text: string, dom: Dom)
    requires text == "" || text !in t.all || t.all[text].checked
    ensures var r := Check(t, text, dom);
      r.tables == t && r.queried == [] && r.seen == (text != "" && text in t.all && t.all[text].seen)
  {
  }

  /**
   * The parent short-circuit: when the parent check answers false, the
   * selector is recorded unseen and its own lookup never runs.
   */
  lemma ParentShortCircuit(t: Tables, text: string, dom: Dom)
    requires text != "" && text in t.all && !t.all[text].checked
    requires t.all[text].parentText.Some? && t.all[text].parentText.value != ""
    requires !Check(t.(all := t.all[text := t.all[text].(checked := true)]), t.all[text].parentText.value, dom).seen
    ensures var r := Check(t, text, dom);
      !r.seen && !r.tables.all[text].seen && text !in r.queried
  {
    var marked := t.(all := t.all[text := t.all[text].(checked := true)]);
    MarkShrinks(t.all, text);
    CheckQueriesUnchecked(marked, t.all[text].parentText.value, dom);
  }

  /** A check keeps the invariant. */
  lemma CheckKeepsWellformed(t: Tables, text: string, dom: Dom)
    requires Wellformed(t)
    ensures Wellformed(Check(t, text, dom).tables)
  {
    var r := Check(t, text, dom).tables;
    CheckKeepsOrigin(t, text, dom);
    CheckBuffer(t, text, dom);
    CheckUnseen(t, text, dom);
    forall s | s in r.unseen
      ensures s in r.all && r.all[s].inSheet
    {
      assert s in multiset(r.unseen);
      assert s in t.unseen by {
        assert s in multiset(t.unseen);
      }
      assert SameOrigin(r.all[s], t.all[s]);
    }
    forall s | s in r.buffer
      ensures s in r.all
    {
      var i :| 0 <= i < |r.buffer| && r.buffer[i] == s;
      if i < |t.buffer| {
        assert r.buffer[..|t.buffer|][i] == s;
      }
    }
  }

  /** The chunked drain: selectors are popped from the end of `pending` and checked one by one. */
  function Drain(t: Tables, pending: seq<string>, dom: Dom): (r: Tables)
    ensures r.all.Keys == t.all.Keys
    decreases |pending|
  {
    if pending == [] then t
    else Drain(Check(t, pending[|pending| - 1], dom).tables, pending[..|pending| - 1], dom)
  }

  /** Draining in chunks is draining the popped tail first, then the rest. */
  lemma {:induction false} DrainAppend(t: Tables, front: seq<string>, back: seq<string>, dom: Dom)
    ensures Drain(t, front + back, dom) == Drain(Drain(t, back, dom), front, dom)
    decreases |back|
  {
    if back == [] {
      assert front + back == front;
    } else {
      var last := back[|back| - 1];
      assert (front + back)[..|front + back| - 1] == front + back[..|back| - 1];
      DrainAppend(Check(t, last, dom).tables, front, back[..|back| - 1], dom);
    }
  }

  /** The drain keeps the invariant and the set of known selectors. */
  lemma {:induction false} DrainKeepsWellformed(t: Tables, pending: seq<string>, dom: Dom)
    requires Wellformed(t)
    ensures Wellformed(Drain(t, pending, dom))
    ensures Drain(t, pending, dom).all.Keys == t.all.Keys
    decreases |pending|
  {
    if pending != [] {
      var last := pending[|pending| - 1];
      CheckKeepsWellformed(t, last, dom);
      DrainKeepsWellformed(Check(t, last, dom).tables, pending[..|pending| - 1], dom);
    }
  }

  /** The start of a run: every record unchecked, nothing else changed. */
  function Reset(all: map<string, SelectorRecord>): (r: map<string, SelectorRecord>)
    ensures r.Keys == all.Keys
    ensures forall k :: k in r ==> r[k] == all[k].(checked := false)
  {
    map k | k in all :: all[k].(checked := false)
  }

  /** After a reset no selector counts as checked, so each may be looked up once more. */
  lemma ResetUnchecksAll(t: Tables)
    requires Wellformed(t)
    ensures Unchecked(Reset(t.all)) == t.all.Keys
    ensures Wellformed(t.(all := Reset(t.all)))
  {
  }

  /** The record `_addSelector` creates for a selector it has not met before. */
  function NewRecord(url: string, item: Parse1ApiItem): SelectorRecord {
    SelectorRecord([url], false, item.inSheet, item.parent, item.fcn, false)
  }

  /**
   * `_addSelector`: a known selector only gains the stylesheet url; a new
   * one gets a fresh record and waits to be seen iff the stylesheet holds it.
   */
  function AddSelector(t: Tables, url: string, item: Parse1ApiItem): (r: Tables)
    ensures r.buffer == t.buffer
    ensures r.all.Keys == t.all.Keys + {item.selector}
  {
    var text := item.selector;
    if text in t.all then t.(all := t.all[text := t.all[text].(files := t.all[text].files + [url])])
    else Tables(t.all[text := NewRecord(url, item)], t.unseen + (if item.inSheet then [text] else []), t.buffer)
  }

  /**
   * Adding a selector keeps the invariant; a known selector keeps its flags,
   * parent, lookup and waiting status; a new one is unchecked, unseen,
   * listed under the one url, and waits iff `exists`.
   */
  lemma AddSelectorEffect(t: Tables, url: string, item: Parse1ApiItem)
    requires Wellformed(t)
    ensures var r := AddSelector(t, url, item);
      var text := item.selector;
      && Wellformed(r)
      && (text in t.all ==>
            r.unseen == t.unseen
            && r.all[text].files == t.all[text].files + [url]
            && r.all[text] == t.all[text].(files := r.all[text].files))
      && (text !in t.all ==>
            !r.all[text].checked && !r.all[text].seen && r.all[text].files == [url]
            && (text in r.unseen <==> item.inSheet))
      && (forall k :: k in t.all && k != text ==> r.all[k] == t.all[k])
  {
  }

  /** Every item of one stylesheet's answer, in order. */
  function AddItems(t: Tables, url: string, items: seq<Parse1ApiItem>): (r: Tables)
    ensures r.buffer == t.buffer && t.all.Keys <= r.all.Keys
    decreases |items|
  {
    if items == [] then t
    else AddSelector(AddItems(t, url, items[..|items| - 1]), url, items[|items| - 1])
  }

  /** The outcome of `_downloadCSSFiles`: the tables and whether every download succeeded. */
  datatype Downloaded = Downloaded(tables: Tables, ok: bool)

  /**
   * `_downloadCSSFiles`: each stylesheet is sent to the parse service;
   * the items of each answer are added, and a failed download fails the
   * whole step. `fetch` stands for the service.
   */
  function Download(t: Tables, urls: seq<string>, fetch: string -> Option<seq<Parse1ApiItem>>): (r: Downloaded)
    ensures r.tables.buffer == t.buffer && t.all.Keys <= r.tables.all.Keys
    ensures r.ok ==> forall i :: 0 <= i < |urls| ==> fetch(urls[i]).Some?
    decreases |urls|
  {
    if urls == [] then Downloaded(t, true)
    else
      var d := Download(t, urls[..|urls| - 1], fetch);
      match fetch(urls[|urls| - 1])
      case None => Downloaded(d.tables, false)
      case Some(items) => Downloaded(AddItems(d.tables, urls[|urls| - 1], items), d.ok)
  }

  /** Adding the answers keeps the invariant. */
  lemma {:induction false} AddItemsKeepsWellformed(t: Tables, url: string, items: seq<Parse1ApiItem>)
    requires Wellformed(t)
    ensures Wellformed(AddItems(t, url, items))
    decreases |items|
  {
    if items != [] {
      AddItemsKeepsWellformed(t, url, items[..|items| - 1]);
      AddSelectorEffect(AddItems(t, url, items[..|items| - 1]), url, items[|items| - 1]);
    }
  }

  /** Downloading keeps the invariant, and succeeds iff the service answered for every url. */
  lemma {:induction false} DownloadKeepsWellformed(t: Tables, urls: seq<string>, fetch: string -> Option<seq<Parse1ApiItem>>)
    requires Wellformed(t)
    ensures Wellformed(Download(t, urls, fetch).tables)
    ensures Download(t, urls, fetch).ok <==> forall i :: 0 <= i < |urls| ==> fetch(urls[i]).Some?
    decreases |urls|
  {
    if urls != [] {
      var init := urls[..|urls| - 1];
      DownloadKeepsWellformed(t, init, fetch);
      var d := Download(t, init, fetch);
      if fetch(urls[|urls| - 1]).Some? {
        AddItemsKeepsWellformed(d.tables, urls[|urls| - 1], fetch(urls[|urls| - 1]).value);
      }
      assert forall i :: 0 <= i < |init| ==> init[i] == urls[i];
    }
  }

  /** A stylesheet url the probe should send for parsing: present, over http(s), not already processed. */
  predicate IsNewUrl(href: Option<string>, known: seq<string>) {
    href.Some? && href.value != "" && StartsWith(href.value, "http") && href.value !in known
  }

  /** `_getNewCssFileUrls`: the new stylesheet urls, in page order. */
  function NewUrls(hrefs: seq<Option<string>>, known: seq<string>): (r: seq<string>)
    ensures |r| <= |hrefs|
    ensures forall u :: u in r ==> u != "" && StartsWith(u, "http") && u !in known
    decreases |hrefs|
  {
    if hrefs == [] then []
    else
      var last := hrefs[|hrefs| - 1];
      NewUrls(hrefs[..|hrefs| - 1], known) + (if IsNewUrl(last, known) then [last.value] else [])
  }

  /** A url is returned iff some stylesheet has it as a new http(s) href. */
  lemma {:induction false} NewUrlsExactly(hrefs: seq<Option<string>>, known: seq<string>, u: string)
    ensures u in NewUrls(hrefs, known) <==>
      exists i :: 0 <= i < |hrefs| && hrefs[i] == Some(u) && IsNewUrl(hrefs[i], known)
    decreases |hrefs|
  {
    if hrefs != [] {
      var init := hrefs[..|hrefs| - 1];
      NewUrlsExactly(init, known, u);
      if u in NewUrls(hrefs, known) {
        if u in NewUrls(init, known) {
          var i :| 0 <= i < |init| && init[i] == Some(u) && IsNewUrl(init[i], known);
          assert hrefs[i] == init[i];
        } else {
          assert hrefs[|hrefs| - 1] == Some(u);
        }
      }
      if exists i :: 0 <= i < |hrefs| && hrefs[i] == Some(u) && IsNewUrl(hrefs[i], known) {
        var i :| 0 <= i < |hrefs| && hrefs[i] == Some(u) && IsNewUrl(hrefs[i], known);
        if i < |init| {
          assert init[i] == hrefs[i];
        }
      }
    }
  }

  /** A stylesheet without a usable href is never sent, whatever the page holds. */
  lemma NullHrefSkipped(known: seq<string>)
    ensures NewUrls([None], known) == []
    ensures NewUrls([Some("chrome-extension://x/a.css")], known) == []
  {
    assert !StartsWith("chrome-extension://x/a.css", "http") by {
      assert "chrome-extension://x/a.css"[0] == 'c';
    }
  }

  /** The value of `map[key]` when present, an empty list otherwise. */
  function Get(m: map<string, seq<string>>, key: string): seq<string> {
    if key in m then m[key] else []
  }

  /** The report body: append `s` under every file in `files`, in order. */
  function AddUnder(data: map<string, seq<string>>, s: string, files: seq<string>): (r: map<string, seq<string>>)
    decreases |files|
  {
    if files == [] then data
    else
      var d := AddUnder(data, s, files[..|files| - 1]);
      var f := files[|files| - 1];
      d[f := Get(d, f) + [s]]
  }

  /** `_sendBuffer`'s grouping: each buffered selector under each of its stylesheets. */
  function Group(buffer: seq<string>, all: map<string, SelectorRecord>): (r: map<string, seq<string>>)
    requires forall s :: s in buffer ==> s in all
    ensures forall f :: f in r ==> r[f] != []
    decreases |buffer|
  {
    if buffer == [] then map[]
    else
      var s := buffer[|buffer| - 1];
      var g := Group(buffer[..|buffer| - 1], all);
      AddUnderNonEmpty(g, s, all[s].files);
      AddUnder(g, s, all[s].files)
  }

  /** Appending under files never leaves a file with an empty list. */
  lemma {:induction false} AddUnderNonEmpty(data: map<string, seq<string>>, s: string, files: seq<string>)
    requires forall f :: f in data ==> data[f] != []
    ensures forall f :: f in AddUnder(data, s, files) ==> AddUnder(data, s, files)[f] != []
    decreases |files|
  {
    if files != [] {
      AddUnderNonEmpty(data, s, files[..|files| - 1]);
    }
  }

  /** `s` repeated `n` times. */
  function Repeat(s: string, n: nat): (r: seq<string>)
    ensures |r| == n
  {
    if n == 0 then [] else Repeat(s, n - 1) + [s]
  }

  /** How many times `f` occurs in `files`. */
  function Count(files: seq<string>, f: string): nat
    decreases |files|
  {
    if files == [] then 0
    else
      Count(files[..|files| - 1], f) + (if files[|files| - 1] == f then 1 else 0)
  }

  /**
   * The reference reading of the grouping: under stylesheet `f`, every
   * buffered selector in buffer order, once per time `f` is among its files.
   */
  function Listed(buffer: seq<string>, all: map<string, SelectorRecord>, f: string): seq<string>
    requires forall s :: s in buffer ==> s in all
    decreases |buffer|
  {
    if buffer == [] then []
    else
      var s := buffer[|buffer| - 1];
      Listed(buffer[..|buffer| - 1], all, f) + Repeat(s, Count(all[s].files, f))
  }

  /** Appending under `files` adds `s` under `f` once per occurrence of `f`. */
  lemma {:induction false} AddUnderListed(data: map<string, seq<string>>, s: string, files: seq<string>, f: string)
    ensures Get(AddUnder(data, s, files), f) == Get(data, f) + Repeat(s, Count(files, f))
    decreases |files|
  {
    if files != [] {
      var init := files[..|files| - 1];
      var last := files[|files| - 1];
      AddUnderListed(data, s, init, f);
      var d := AddUnder(data, s, init);
      if last == f {
        assert Get(AddUnder(data, s, files), f) == Get(d, f) + [s];
        assert Repeat(s, Count(files, f)) == Repeat(s, Count(init, f)) + [s];
      } else {
        assert Get(AddUnder(data, s, files), f) == Get(d, f);
      }
    }
  }

  /** Appending under `files` creates exactly the entries of `files`. */
  lemma {:induction false} AddUnderKeys(data: map<string, seq<string>>, s: string, files: seq<string>)
    ensures AddUnder(data, s, files).Keys == data.Keys + set f | f in files
    decreases |files|
  {
    if files != [] {
      var init := files[..|files| - 1];
      AddUnderKeys(data, s, init);
      assert files == init + [files[|files| - 1]];
    }
  }

  /**
   * The report lists, under each stylesheet, exactly the buffered selectors
   * that come from it, in buffer order; its stylesheets are exactly those
   * of the buffered selectors.
   */
  lemma GroupListed(buffer: seq<string>, all: map<string, SelectorRecord>, f: string)
    requires forall s :: s in buffer ==> s in all
    ensures Get(Group(buffer, all), f) == Listed(buffer, all, f)
    ensures f in Group(buffer, all) <==> exists i :: 0 <= i < |buffer| && f in all[buffer[i]].files
  {
    GroupGet(buffer, all, f);
    GroupKeys(buffer, all, f);
  }

  /** The entry of the grouping under `f` is the reference listing. */
  lemma {:induction false} GroupGet(buffer: seq<string>, all: map<string, SelectorRecord>, f: string)
    requires forall s :: s in buffer ==> s in all
    ensures Get(Group(buffer, all), f) == Listed(buffer, all, f)
    decreases |buffer|
  {
    if buffer != [] {
      var init := buffer[..|buffer| - 1];
      var s := buffer[|buffer| - 1];
      GroupGet(init, all, f);
      AddUnderListed(Group(init, all), s, all[s].files, f);
    }
  }

  /** The grouping has an entry for `f` iff some buffered selector comes from `f`. */
  lemma {:induction false} GroupKeys(buffer: seq<string>, all: map<string, SelectorRecord>, f: string)
    requires forall s :: s in buffer ==> s in all
    ensures f in Group(buffer, all) <==> exists i :: 0 <= i < |buffer| && f in all[buffer[i]].files
    decreases |buffer|
  {
    if buffer != [] {
      var init := buffer[..|buffer| - 1];
      var s := buffer[|buffer| - 1];
      GroupKeys(init, all, f);
      AddUnderKeys(Group(init, all), s, all[s].files);
      assert f in Group(buffer, all) <==> f in Group(init, all) || f in all[s].files;
      if f in Group(init, all) {
        var i :| 0 <= i < |init| && f in all[init[i]].files;
        assert buffer[i] == init[i];
      }
      if i :| 0 <= i < |buffer| && f in all[buffer[i]].files {
        if i < |init| {
          assert init[i] == buffer[i];
        }
      }
    }
  }

  /** The probe's options (probe/src/probe.ts:3-10), with the key used in reports. */
  datatype Options = Options(
    url: string,
    pattern: Option<seq<string>>,
    chunkSize: int,
    debug: bool,
    throttle: int,
    key: Option<string>)

  /** The defaults of probe/src/probe.ts:30-49. */
  const DefaultOptions := Options("https://www.bleachcss.com/api/v1/probes/", None, 250, true, 200, None)

  /** The options a page passes to `start`; an absent field keeps the current value. */
  datatype UserOptions = UserOptions(
    url: Option<string>,
    pattern: Option<Option<seq<string>>>,
    chunkSize: Option<int>,
    debug: Option<bool>,
    throttle: Option<int>,
    key: Option<string>)

  function Pick<T>(given: Option<T>, current: T): T {
    if given.Some? then given.value else current
  }

  /** `start`'s copy loop: every field the page gives replaces the current one, the others stay. */
  function Merge(o: Options, u: UserOptions): (r: Options)
    ensures u.chunkSize.Some? ==> r.chunkSize == u.chunkSize.value
    ensures u.chunkSize.None? ==> r.chunkSize == o.chunkSize
    ensures u.throttle.Some? ==> r.throttle == u.throttle.value
    ensures u.throttle.None? ==> r.throttle == o.throttle
    ensures u.url.Some? ==> r.url == u.url.value
    ensures u.url.None? ==> r.url == o.url
    ensures u.key.Some? ==> r.key == u.key
    ensures u.key.None? ==> r.key == o.key
  {
    Options(
      Pick(u.url, o.url),
      Pick(u.pattern, o.pattern),
      Pick(u.chunkSize, o.chunkSize),
      Pick(u.debug, o.debug),
      Pick(u.throttle, o.throttle),
      if u.key.Some? then u.key else o.key)
  }

  /** The body the probe posts to the server. */
  datatype Report = Report(endpoint: string, v: string, k: Option<string>, f: map<string, seq<string>>)

  /** The drain only appends to the buffer. */
  lemma {:induction false} DrainBufferPrefix(t: Tables, pending: seq<string>, dom: Dom)
    ensures var r := Drain(t, pending, dom);
      |t.buffer| <= |r.buffer| && r.buffer[..|t.buffer|] == t.buffer
    decreases |pending|
  {
    if pending != [] {
      var c := Check(t, pending[|pending| - 1], dom).tables;
      CheckBuffer(t, pending[|pending| - 1], dom);
      DrainBufferPrefix(c, pending[..|pending| - 1], dom);
      var r := Drain(t, pending, dom);
      assert r.buffer[..|t.buffer|] == r.buffer[..|c.buffer|][..|t.buffer|];
    }
  }

  /** `f` occurs in `files` at least once when it is among them. */
  lemma {:induction false} CountPositive(files: seq<string>, f: string)
    requires f in files
    ensures Count(files, f) >= 1
    decreases |files|
  {
    if files[|files| - 1] != f {
      assert f in files[..|files| - 1];
      CountPositive(files[..|files| - 1], f);
    }
  }

  /** A buffered selector is listed in the report under each of its stylesheets. */
  lemma {:induction false} GroupHas(buffer: seq<string>, all: map<string, SelectorRecord>, s: string, f: string)
    requires forall x :: x in buffer ==> x in all
    requires s in buffer && f in all[s].files
    ensures s in Get(Group(buffer, all), f)
    decreases |buffer|
  {
    var init := buffer[..|buffer| - 1];
    var last := buffer[|buffer| - 1];
    AddUnderListed(Group(init, all), last, all[last].files, f);
    if s in init {
      GroupHas(init, all, s, f);
    } else {
      assert s == last;
      CountPositive(all[s].files, f);
      var n := Count(all[s].files, f);
      assert Repeat(s, n)[n - 1] == s;
    }
  }

  /** `PING_FREQUENCY` of `_mainLoop`'s `doneCb`: the least gap between two flushes, in milliseconds. */
  const PingFrequency := 500

  /** Everything the probe keeps, as one value. */
  datatype ProbeState = ProbeState(
    options: Options,
    cssFilesURLs: seq<string>,
    tables: Tables,
    timeMainLoopCall: int,
    timeBufferFlushCall: int,
    observing: bool,
    sent: seq<Report>)

  /** The report `_sendBuffer` posts: every buffered selector under each of its stylesheets. */
  function ReportOf(o: Options, t: Tables): Report
    requires Wellformed(t)
  {
    Report(o.url + "/a/1/report", "0.1", o.key, Group(t.buffer, t.all))
  }

  /** `_sendBuffer`: the buffer is emptied and, unless it was empty, posted as one report. */
  function Flush(p: ProbeState): (r: ProbeState)
    requires Wellformed(p.tables)
    ensures Wellformed(r.tables) && r.tables.buffer == []
  {
    p.(tables := p.tables.(buffer := []),
       sent := if p.tables.buffer == [] then p.sent else p.sent + [ReportOf(p.options, p.tables)])
  }

  /** `doneCb` at time `flushTime`: a flush when the last one is more than `PingFrequency` ms old. */
  function Done(p: ProbeState, flushTime: int): (r: ProbeState)
    requires Wellformed(p.tables)
    ensures Wellformed(r.tables)
  {
    if flushTime - p.timeBufferFlushCall > PingFrequency then Flush(p.(timeBufferFlushCall := flushTime)) else p
  }

  /**
   * `_mainLoop` at time `now`, on a page whose stylesheets have the hrefs
   * `hrefs`: nothing within `throttle` ms of the last accepted run;
   * otherwise an accepted run.
   */
  function Run(p: ProbeState, now: int, hrefs: seq<Option<string>>,
               fetch: string -> Option<seq<Parse1ApiItem>>, dom: Dom, flushTime: int): (r: ProbeState)
    requires Wellformed(p.tables)
    ensures Wellformed(r.tables)
  {
    if now - p.timeMainLoopCall < p.options.throttle then p
    else Accept(p, now, hrefs, fetch, dom, flushTime)
  }

  /**
   * An accepted run of `_mainLoop`: the run time is recorded and the new
   * stylesheets downloaded. A failed download ends the run. Otherwise
   * every record is reset and the waiting selectors are checked; when the
   * check completes, `doneCb` runs at `flushTime`.
   */
  function Accept(p: ProbeState, now: int, hrefs: seq<Option<string>>,
                  fetch: string -> Option<seq<Parse1ApiItem>>, dom: Dom, flushTime: int): (r: ProbeState)
    requires Wellformed(p.tables)
    ensures Wellformed(r.tables)
    ensures r.timeMainLoopCall == now && r.options == p.options && r.observing == p.observing
  {
    var urls := NewUrls(hrefs, p.cssFilesURLs);
    var d := Download(p.tables, urls, fetch);
    DownloadKeepsWellformed(p.tables, urls, fetch);
    var q := p.(timeMainLoopCall := now, tables := d.tables);
    if !d.ok then q
    else
      var t := d.tables.(all := Reset(d.tables.all));
      ResetUnchecksAll(d.tables);
      if t.unseen == [] || p.options.chunkSize >= 1 then
        DrainKeepsWellformed(t, t.unseen, dom);
        Done(q.(tables := Drain(t, t.unseen, dom)), flushTime)
      else q.(tables := t)
  }

  /** `resume`: an observed page is left alone; otherwise observing starts and the main loop runs once. */
  function Resumed(p: ProbeState, now: int, hrefs: seq<Option<string>>,
                   fetch: string -> Option<seq<Parse1ApiItem>>, dom: Dom, flushTime: int): (r: ProbeState)
    requires Wellformed(p.tables)
    ensures Wellformed(r.tables) && r.observing
    ensures r.options == p.options
  {
    if p.observing then p else Run(p.(observing := true), now, hrefs, fetch, dom, flushTime)
  }

  /**
   * Reports are only ever appended, at most one per run, and only by a run
   * that was not throttled and whose flush was due; such a run leaves the
   * buffer empty and records `flushTime`.
   */
  lemma RunSends(p: ProbeState, now: int, hrefs: seq<Option<string>>,
                 fetch: string -> Option<seq<Parse1ApiItem>>, dom: Dom, flushTime: int)
    requires Wellformed(p.tables)
    ensures var r := Run(p, now, hrefs, fetch, dom, flushTime);
      && |p.sent| <= |r.sent| <= |p.sent| + 1
      && r.sent[..|p.sent|] == p.sent
      && (|r.sent| > |p.sent| ==>
            && now - p.timeMainLoopCall >= p.options.throttle
            && flushTime - p.timeBufferFlushCall > PingFrequency
            && r.timeBufferFlushCall == flushTime
            && r.tables.buffer == []
            && r.sent[|p.sent|].endpoint == p.options.url + "/a/1/report")
  {
  }

  /**
   * A run never loses a buffered selector: each selector in the buffer
   * before the run is still buffered after it, or the run posted one
   * report listing it under each of its stylesheets.
   */
  lemma RunPostsBuffered(p: ProbeState, now: int, hrefs: seq<Option<string>>,
                         fetch: string -> Option<seq<Parse1ApiItem>>, dom: Dom, flushTime: int, s: string)
    requires Wellformed(p.tables)
    requires s in p.tables.buffer
    ensures var r := Run(p, now, hrefs, fetch, dom, flushTime);
      || s in r.tables.buffer
      || (&& |r.sent| == |p.sent| + 1
          && s in r.tables.all
          && forall f :: f in r.tables.all[s].files ==> s in Get(r.sent[|p.sent|].f, f))
  {
    if now - p.timeMainLoopCall >= p.options.throttle {
      var urls := NewUrls(hrefs, p.cssFilesURLs);
      var d := Download(p.tables, urls, fetch);
      DownloadKeepsWellformed(p.tables, urls, fetch);
      if d.ok {
        var t := d.tables.(all := Reset(d.tables.all));
        ResetUnchecksAll(d.tables);
        if t.unseen == [] || p.options.chunkSize >= 1 {
          var c := Drain(t, t.unseen, dom);
          DrainBufferPrefix(t, t.unseen, dom);
          DrainKeepsWellformed(t, t.unseen, dom);
          assert s in c.buffer by {
            assert s in c.buffer[..|t.buffer|];
          }
          forall f | f in c.all[s].files
            ensures s in Get(Group(c.buffer, c.all), f)
          {
            GroupHas(c.buffer, c.all, s, f);
          }
        }
      }
    }
  }

  /** Resuming twice is resuming once: the second call finds the page observed. */
  lemma ResumedOnce(p: ProbeState, now: int, hrefs: seq<Option<string>>,
                    fetch: string -> Option<seq<Parse1ApiItem>>, dom: Dom, flushTime: int,
                    later: int, laterHrefs: seq<Option<string>>, laterFlush: int)
    requires Wellformed(p.tables)
    ensures var r := Resumed(p, now, hrefs, fetch, dom, flushTime);
      Resumed(r, later, laterHrefs, fetch, dom, laterFlush) == r
  {
  }
}
