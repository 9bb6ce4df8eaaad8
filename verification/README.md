# BleachCSS selector tracking and pruning, modelled in Dafny

BleachCSS finds the CSS selectors a site never uses and removes them from the
site's stylesheets through a pull request. Its core has these parts:

- **The browser probe** (`probe/src/probe.ts`):
  - learns the selectors of the page's stylesheets from a parse service;
  - checks them against the page in chunks, with a selector's parent checked before the selector;
  - buffers the ones it sees and posts them, grouped by stylesheet.
- **The selector extraction**. `postCssExtractor` (two identical copies):
  - skips rules under `@keyframes`;
  - cuts each selector at its first pseudo-class unless the last one is a `-child` variant;
  - trims, and collects in a set.

  `extract_parents` computes the ancestor selectors of a compound selector.
  The parse endpoint sorts the set into a manifest.
- **The server ledgers.**
  - The SQL tables (`css_selector`, `file_selector`, `css_file`, `css_file_history`) are kept in step with each stylesheet version by `process_css_file`.
  - The in-memory `selectorStore` of `Selector` objects is fed by `processProbeReport`. That handler de-duplicates reports by md5, queues first-seen stylesheet urls, and links and marks seen every reported selector. Each queued stylesheet is reconciled against its master file.
- **The pruning job** (`repo-sync.ts`):
  - checks the `Config`;
  - lists the repository's stylesheets;
  - parses them all, with a parse failure ending the run;
  - removes every rule whose selector is exactly an unused selector, with no cap applied as the code is written;
  - creates one blob per modified stylesheet.

One Dafny module per source file.

Where the source mutates state, the model is imperative:
- `Probe`, `Processor`, `Store`, `Selector`, `Database` and `Config` are classes whose methods update fields. Each method is proved against a function on values: `ProbeSpec.Check`, `Drain`, `Group`, `Download`, `Flush`, `Done`, `Run`, `Accept`, `Resumed`; `SelectorStore.Linking`; `ProcessProbeReport.AfterReport`, `AfterProcessFile`; `Configuration.Configured`; `RepoSync.Pruned`.
- The loops of the source are `for`/`while` loops with invariants.

Pure code becomes functions and lemmas: `extract_parents`, the normalisation, the extraction, the rule removal.

Collaborators outside the core are parameters of the methods that use them:
- the page's DOM lookups (`Dom`), the parse service (`fetch`), the downloader (`downloaded`);
- md5, `JSON.parse`, `findPattern` (`masterOf`), the CSS parser (`parse`);
- GitHub's blob store (`blobSha`), the file listing (`listing`);
- the clock (`now`, `flushTime`).

Behaviour of the code that is easy to misread, which the model keeps:
- **`Selector.create(file, s, false)`**: overwrites an existing `seen_at` with null, so a known selector loses its seen time whenever a new version of one of its stylesheets is processed.
- **The probe's `_cssFilesURLs`**: the probe never appends to it, so every accepted main loop downloads every stylesheet of the page again.
- **The pruning job's ignore lists**: the job never consults them. `Config` reads them; `processFile` does not use them.
- **The per-run cap**: it is not applied, so every unused selector is removed. See Findings.

## Model

| member | source | states |
|---|---|---|
| Strings.TrimIsSlice | server/lib/postCssExtractor.ts:42 | `trim` returns a contiguous slice of the input. Only white space is cut before and after it, and none is left at either end |
| Strings.Trim | server/lib/postCssExtractor.ts:42 | `trim` never lengthens a string |
| Strings.TrimTrimmed | server/lib/postCssExtractor.ts:42 | a trimmed string is empty or has no white space at either end |
| Strings.TrimDropsTrailingSpace | server/lib/postCssExtractor.ts:42 | a trailing white-space character does not change the trimmed result |
| Strings.TrimOfTrimmed | server/lib/postCssExtractor.ts:42 | trimming a string with no white space at its ends returns it unchanged |
| Strings.TrimStartShape | server/lib/postCssExtractor.ts:42 | the start-trim removes exactly the leading run of white space |
| Strings.TrimEndShape | server/lib/postCssExtractor.ts:42 | the end-trim removes exactly the trailing run of white space |
| Strings.Split | server/handlers/parse-css-file.ts:48 | `split` on a character class gives at least one piece, and its last piece is the text after the last separator |
| Strings.SplitSingle | server/handlers/parse-css-file.ts:48-51 | `split` gives a single piece iff no separator occurs, and that piece is the whole string |
| Strings.SplitLength | server/handlers/parse-css-file.ts:48-49 | one piece iff the string holds no separator |
| Strings.SplitWhole | server/handlers/parse-css-file.ts:48-51 | without a separator the single piece is the whole string |
| Strings.SplitStep | server/lib/postCssExtractor.ts:36-40 | one more character extends the first piece iff no separator has occurred and it is not one |
| Strings.SplitAtLeast | server/handlers/parse-css-file.ts:48-49 | with a separator present there are at least two pieces |
| Strings.SplitFirst | server/lib/postCssExtractor.ts:36-40 | the first piece is the text before the first separator |
| Strings.LastSegment | server/handlers/parse-css-file.ts:53 | the popped last piece holds no separator and is no longer than the string |
| Strings.LastSegmentShape | server/handlers/parse-css-file.ts:53-55 | the last piece is a suffix, preceded by a separator unless it is the whole string |
| Strings.LastSegmentShorter | server/handlers/parse-css-file.ts:53-55 | with a separator present, the last piece is strictly shorter than the string |
| Strings.LastSegmentWhole | server/handlers/parse-css-file.ts:53 | without a separator the popped last piece is the whole string |
| Strings.LastPieceShorter | server/handlers/parse-css-file.ts:53-55 | with a separator present the popped piece is strictly shorter than the string |
| Strings.NoSeparatorInit | server/handlers/parse-css-file.ts:48-49 | a string has no separator iff its prefix has none and its last character is not one |
| Strings.FirstSegment | server/lib/postCssExtractor.ts:36-40 | the text before the first separator is a separator-free prefix, followed by a separator when it is not the whole string |
| Strings.FirstSegmentWhole | server/lib/postCssExtractor.ts:36-40 | without a `:` the first piece is the whole selector |
| Strings.FirstSegmentExtend | server/lib/postCssExtractor.ts:36-40 | one more character joins the first piece iff no separator has occurred and it is not one |
| Strings.SortStrings | server/handlers/parse-css-file.ts:38-39 | `sort()` returns a permutation of its input |
| Strings.SortStringsSorted | server/handlers/parse-css-file.ts:38-39 | `sort()` returns its input in ascending code-unit order |
| Strings.Insert | server/handlers/parse-css-file.ts:39 | one insertion step of the sort adds exactly one element |
| Strings.InsertSorted | server/handlers/parse-css-file.ts:39 | inserting into a sorted list keeps it sorted |
| Strings.InsertLowerBound | server/handlers/parse-css-file.ts:39 | a bound at or below the inserted value and every element bounds the result |
| Strings.BeforeIrreflexive | server/handlers/parse-css-file.ts:39 | the string order is irreflexive |
| Strings.BeforeTransitive | server/handlers/parse-css-file.ts:39 | the string order is transitive |
| Strings.BeforeTotal | server/handlers/parse-css-file.ts:39 | two different strings are ordered exactly one way |
| MemorySelector.Linked | server/lib/Selector.ts:20-22 | `Set.add`: the file is present afterwards, no other membership changes, no repeats are created, and adding a present file changes nothing |
| MemorySelector.Without | server/lib/Selector.ts:24-26 | `Set.delete`: the file is absent afterwards, no other membership changes, no repeats are created, and deleting an absent file changes nothing |
| MemorySelector.LinkUnlinkRoundTrip | server/lib/Selector.ts:20-26 | linking and then unlinking a file that was not linked restores the selector |
| MemorySelector.Selector.constructor | server/lib/Selector.ts:3-10 | a new selector has the given id, was never seen and is in no file |
| MemorySelector.Selector.ToJson | server/lib/Selector.ts:32-38 | `toJSON` gives the id, the seen time, and exactly the linked files |
| MemorySelector.Selector.MarkAsSeen | server/lib/Selector.ts:12-14 | only the seen time changes, and it becomes `now` |
| MemorySelector.Selector.LinkToFile | server/lib/Selector.ts:20-22 | afterwards the file is linked and every other file keeps its link state |
| MemorySelector.Selector.UnlinkToFile | server/lib/Selector.ts:24-26 | afterwards the file is not linked and every other file keeps its link state |
| MemorySelector.HasLinksIffLinked | server/lib/Selector.ts:28-30 | `hasLinks` holds iff some file is linked |
| SelectorStore.Enrolled | server/selectorStore.ts:6-12 | after `_getOrCreate` the id is stored with its previous selector, or with a fresh one |
| SelectorStore.Linking | server/selectorStore.ts:14-17 | `linkSelector` stores `id`, links it to the master, and leaves every other stored selector as it was |
| SelectorStore.Seeing | server/selectorStore.ts:19-22 | `selectorSeen` stores `id`, sets its seen time to `now`, and leaves every other stored selector as it was |
| SelectorStore.Unlinking | server/selectorStore.ts:24-27 | `unlinkSelector` stores `id`, unlinks it from the master, and leaves every other stored selector as it was |
| SelectorStore.EnrolledKeeps | server/selectorStore.ts:6-12 | `_getOrCreate` keeps the store well formed. It adds only `id`, keeps every stored selector and keeps the insertion order of the ids already stored |
| SelectorStore.LinkingKeeps | server/selectorStore.ts:14-17 | `linkSelector` changes only the selector `id` and keeps the store well formed and ordered |
| SelectorStore.SeeingKeeps | server/selectorStore.ts:19-22 | `selectorSeen` changes only the selector `id` and keeps the store well formed and ordered |
| SelectorStore.UnlinkingKeeps | server/selectorStore.ts:24-27 | `unlinkSelector` changes only the selector `id` and keeps the store well formed and ordered |
| SelectorStore.LinkingEffect | server/selectorStore.ts:14-17 | after `linkSelector` the selector is linked to the master. Its other links, seen time and id are as they were |
| SelectorStore.UnlinkingEffect | server/selectorStore.ts:24-27 | after `unlinkSelector` the selector is not linked to the master. Its other links, seen time and id are as they were |
| SelectorStore.LinkThenUnlink | server/selectorStore.ts:14-27 | linking and then unlinking a master a stored selector lacked restores the whole store |
| SelectorStore.OfMasterExactly | server/selectorStore.ts:29-37 | the selectors of a master are exactly the stored selectors linked to it, each once |
| SelectorStore.Store.constructor | server/selectorStore.ts:4 | the store starts empty |
| SelectorStore.Store.GetOrCreate | server/selectorStore.ts:6-12 | returns the stored selector, or a fresh one that is stored last. The new state is `Enrolled` |
| SelectorStore.Store.LinkSelector | server/selectorStore.ts:14-17 | the new state is `Linking` of the old one, and the store stays well formed |
| SelectorStore.Store.SelectorSeen | server/selectorStore.ts:19-22 | the new state is `Seeing` of the old one, and the store stays well formed |
| SelectorStore.Store.UnlinkSelector | server/selectorStore.ts:24-27 | the new state is `Unlinking` of the old one, and the store stays well formed |
| SelectorStore.Store.GetSelectorsOfMaster | server/selectorStore.ts:29-37 | returns exactly the stored selectors linked to the master, in insertion order |
| SelectorStore.Store.GetState | server/selectorStore.ts:46-48 | returns every stored (id, selector) entry, in insertion order |
| ProcessProbeReport.FirstSeenExactly | server/processProbeReport.ts:19-24 | the queued urls are exactly the reported urls that were not known, each once |
| ProcessProbeReport.QueueStep | server/processProbeReport.ts:19-24 | one more key queues its url iff it is neither known nor already reported |
| ProcessProbeReport.LinkedAndSeen | server/processProbeReport.ts:28-32 | the inner loop keeps every stored selector |
| ProcessProbeReport.AfterReport | server/processProbeReport.ts:14-34 | `_main` keeps every stored selector |
| ProcessProbeReport.AfterReportStep | server/processProbeReport.ts:14-34 | one more payload key is one more run of the inner loop, for that key's master, and one more url |
| ProcessProbeReport.MentionedStep | server/processProbeReport.ts:14-34 | one more key mentions a selector iff it lists it, and reports it for its master |
| ProcessProbeReport.LinkedAndSeenGrows | server/processProbeReport.ts:28-32 | the inner loop keeps the store well formed and keeps every stored id in its place |
| ProcessProbeReport.LinkedAndSeenAt | server/processProbeReport.ts:28-32 | after the inner loop a listed selector is stored, seen at `now`, and linked to the master plus the files it had. Other selectors are unchanged |
| ProcessProbeReport.AfterReportGrows | server/processProbeReport.ts:14-34 | `_main` keeps the store well formed and keeps every stored id in its place |
| ProcessProbeReport.AfterReportAt | server/processProbeReport.ts:14-34 | after `_main` a reported selector is seen at `now`. It is linked to exactly its previous files plus the masters of the keys that list it. Other selectors are unchanged |
| ProcessProbeReport.StaleExactly | server/processProbeReport.ts:70-75 | the diff lists exactly the previously linked ids missing from the file |
| ProcessProbeReport.LinkedToAllGrows | server/processProbeReport.ts:65-67 | the link loop keeps the store well formed and ordered |
| ProcessProbeReport.UnlinkedFromAllGrows | server/processProbeReport.ts:78-80 | the unlink loop keeps the store well formed and ordered |
| ProcessProbeReport.LinkedToAllAt | server/processProbeReport.ts:65-67 | after the link loop each listed id is linked to the master, with its other links and seen time kept |
| ProcessProbeReport.UnlinkedFromAllAt | server/processProbeReport.ts:78-80 | after the unlink loop each listed id is not linked to the master. Every id keeps its other links and seen time |
| ProcessProbeReport.LinkedToAll | server/processProbeReport.ts:65-67 | the link loop keeps every stored selector and stores every listed id |
| ProcessProbeReport.UnlinkedFromAll | server/processProbeReport.ts:78-80 | the unlink loop keeps every stored selector |
| ProcessProbeReport.AfterProcessFile | server/processProbeReport.ts:41-81 | `_processFile` keeps every stored selector and stores every selector the file offers |
| ProcessProbeReport.AfterProcessFileAt | server/processProbeReport.ts:41-81 | after `_processFile` a stored selector is linked to the master iff the file's content offers it. Other links and seen times are kept, and only offered selectors are new |
| ProcessProbeReport.AfterProcessFileGrows | server/processProbeReport.ts:41-81 | `_processFile` keeps the store well formed and ordered |
| ProcessProbeReport.AfterProcessFileSettles | server/processProbeReport.ts:41-81 | processing the same content twice changes no selector the second time |
| ProcessProbeReport.UnboundExtractorDropsLinks | server/processProbeReport.ts:6-6 | when the content offers a selector not yet linked to the master, the intended `_processFile` links it and so changes the store, which the job as written leaves as it was |
| ProcessProbeReport.ReportSelectors | server/processProbeReport.ts:28-32 | the store after the inner loop is `LinkedAndSeen` of the old one |
| ProcessProbeReport.LinkAll | server/processProbeReport.ts:65-67 | the store after the link loop is `LinkedToAll` of the old one |
| ProcessProbeReport.CollectStale | server/processProbeReport.ts:70-75 | returns exactly the previously linked ids that the file no longer offers |
| ProcessProbeReport.UnlinkAll | server/processProbeReport.ts:78-80 | the store after the unlink loop is `UnlinkedFromAll` of the old one |
| ProcessProbeReport.Processor.constructor | server/processProbeReport.ts:9-12 | no signature known, no url known or queued, and an empty store |
| ProcessProbeReport.Processor.ProcessProbeReport | server/processProbeReport.ts:83-96 | three outcomes. A known signature changes nothing. A body that does not parse throws and records nothing. Any other body runs `_main` and records the signature, so it is `Processed` iff a new signature was recorded |
| ProcessProbeReport.Processor.ProcessPayload | server/processProbeReport.ts:14-34 | every new url is known and queued once, in key order. The store is `AfterReport` of the old one |
| ProcessProbeReport.Processor.Enqueue | server/processProbeReport.ts:19-24 | a url is queued and made known unless already known |
| ProcessProbeReport.Processor.ProcessFile | server/processProbeReport.ts:41-81 | a failed download changes nothing. Otherwise the store is `AfterProcessFile` for the url's master and the extracted selectors |
| ProcessProbeReport.Processor.ProcessFileAsWritten | server/processProbeReport.ts:41-57 | as written, the job rejects exactly when the download succeeds, because the extractor call throws; the store is never changed |
| CssRules.NormaliseCases | server/lib/postCssExtractor.ts:36-42 | a selector is cut before its first `:` and trimmed, unless the last `:` piece contains `-child`, when it is only trimmed |
| CssRules.Normalise | server/lib/postCssExtractor.ts:36-42 | normalising never lengthens a selector |
| CssRules.CutHasNoColon | server/lib/postCssExtractor.ts:36-41 | a cut selector has no `:` left |
| CssRules.TrimKeepsChildMarker | server/lib/postCssExtractor.ts:39-42 | trimming keeps a `-child` marker in the last `:` piece |
| CssRules.NormaliseTrimmed | server/lib/postCssExtractor.ts:42 | a normalised selector has no white space at either end |
| CssRules.NormaliseIdempotent | server/lib/postCssExtractor.ts:36-42 | normalising twice is normalising once |
| CssRules.NormaliseIdempotentAll | server/lib/postCssExtractor.ts:36-42 | normalising twice is normalising once, for every selector |
| CssRules.MarkerInLastSegment | server/lib/postCssExtractor.ts:39-42 | a `-child` occurrence with no `:` after it lies in the last `:` piece |
| CssRules.NonEmptyImagesExactly | server/lib/postCssExtractor.ts:35-46 | one rule offers exactly the non-empty normalised images of its items |
| CssRules.NonEmptyImages | server/lib/postCssExtractor.ts:35-46 | a rule's selectors give at most one non-empty image each |
| CssRules.ImagesStep | server/lib/postCssExtractor.ts:35-46 | one more item adds its image iff it is non-empty |
| CssRules.AddStep | server/lib/postCssExtractor.ts:43-45 | one more item adds its non-empty image to the set iff it is not already there, at the end |
| CssRules.OfferedExactly | server/lib/postCssExtractor.ts:25-46 | the walk offers a selector iff some item of some rule not under keyframes normalises to it |
| CssRules.OfferedStep | server/lib/postCssExtractor.ts:25-46 | one more rule offers exactly what it yields, unless it is under keyframes |
| CssRules.OfferedWitness | server/lib/postCssExtractor.ts:25-46 | an offered selector comes from some item of some rule not under keyframes |
| CssRules.OffersOffered | server/lib/postCssExtractor.ts:25-46 | an item of a rule not under keyframes offers its image |
| CssRules.OffersWithout | server/lib/postCssExtractor.ts:26-34 | removing a keyframes rule keeps every other rule's offer |
| CssRules.OffersWith | server/lib/postCssExtractor.ts:26-34 | inserting a rule keeps every other rule's offer |
| CssRules.OfferedFixed | server/lib/postCssExtractor.ts:43-45 | every offered selector is non-empty and fixed by an idempotent normalisation |
| CssRules.KeyframesAddNothing | server/lib/postCssExtractor.ts:26-34 | a rule under a keyframes at-rule contributes no selector |
| CssRules.OfferedNormalised | server/lib/postCssExtractor.ts:35-46 | every offered selector is non-empty, trimmed and already normalised |
| CssRules.Collected | server/lib/postCssExtractor.ts:24-49 | the set holds each offered selector once and nothing else. Each is trimmed, non-empty and normalised |
| CssRules.Dedup | server/lib/postCssExtractor.ts:24 | a `Set` fed in order holds exactly the fed values, without repeats |
| CssRules.DedupSnoc | server/lib/postCssExtractor.ts:43-45 | adding a present value changes nothing; a new value goes last |
| CssExtractor.PostCssExtractor | server/lib/postCssExtractor.ts:18-52 | the set in insertion order (probe/src/postCssExtractor.ts:18-50 holds the same code). Exactly the offered selectors, each once, each trimmed, non-empty and normalised |
| CssExtractor.VisitRule | server/lib/postCssExtractor.ts:25-47 | one `walkRules` callback adds exactly the rule's offered selectors to the set (none under keyframes) |
| CssExtractor.AddItems | server/lib/postCssExtractor.ts:35-46 | the item loop adds the non-empty normalised items to the set |
| ParseCssFile.Process | server/handlers/parse-css-file.ts:35-45 | the manifest's keys are exactly the extracted selectors, every value `true`, and the keys strictly ascending |
| ParseCssFile.MarkAll | server/handlers/parse-css-file.ts:40-43 | the `forEach` over the sorted list sets exactly its selectors to `true`, each new key going last in an ascending chain |
| ParseCssFile.KeysStep | server/handlers/parse-css-file.ts:41-43 | a sorted list's next selector extends the chain of keys, or is already the last key |
| ParseCssFile.ChainAscending | server/handlers/parse-css-file.ts:40-44 | keys ascending pair by pair are ascending throughout |
| ParseCssFile.SortedSameKeys | server/handlers/parse-css-file.ts:38-43 | the keys of the sorted list are exactly the extracted selectors |
| ParseCssFile.ExtractParents | server/handlers/parse-css-file.ts:47-61 | there are never more parents than characters, which bounds the recursion |
| ParseCssFile.ParentText | server/handlers/parse-css-file.ts:54-59 | the parent text is never longer than the head it is cut from |
| ParseCssFile.NoParentsIffNoCombinator | server/handlers/parse-css-file.ts:48-51 | no parents iff no white space, `+`, `~` or `>` occurs, iff `split` gives one piece |
| ParseCssFile.ParentsShrink | server/handlers/parse-css-file.ts:47-61 | each parent is strictly shorter than the text before it |
| ParseCssFile.ParentsOfNearestParent | server/handlers/parse-css-file.ts:60 | the parents of the nearest parent are the remaining parents |
| ParseCssFile.LastSegmentAt | server/handlers/parse-css-file.ts:53-55 | when the last separator sits at `k`, the popped piece is the text after `k` |
| ParseCssFile.ParentStep | server/handlers/parse-css-file.ts:53-60 | when the last separator sits at `k`, the nearest parent is the parent text of the head |
| ParseCssFile.CompoundIsBareEnded | server/handlers/parse-css-file.ts:54-59 | a non-empty selector without separators is bare-ended |
| ParseCssFile.ParentTextOfBare | server/handlers/parse-css-file.ts:54-59 | a bare-ended head is its own parent text |
| ParseCssFile.ParentTextStripsCombinator | server/handlers/parse-css-file.ts:57-59 | a trailing ` >`, ` ~` or ` +` is stripped with its space |
| ParseCssFile.DescendantStep | server/handlers/parse-css-file.ts:53-60 | `p .x` has parents `p` followed by the parents of `p` |
| ParseCssFile.CombinatorStep | server/handlers/parse-css-file.ts:53-60 | `p > .x` has parents `p` followed by the parents of `p` |
| ParseCssFile.UnspacedStep | server/handlers/parse-css-file.ts:48-60 | `p>.x` has parents `p` followed by the parents of `p` |
| ParseCssFile.BareEndedAfterCombinator | server/handlers/parse-css-file.ts:54-59 | `p > .x` is bare-ended when `p` is |
| ParseCssFile.CombinatorAfter | server/handlers/parse-css-file.ts:53-60 | `p > .x` has parents `p` followed by any known parent list of `p` |
| ParseCssFile.DescendantPair | server/handlers/parse-css-file.test.js:15-18 | `.a .b`, `.a.b .c` and `.a .b.c` have only the first compound as parent |
| ParseCssFile.DescendantTriple | server/handlers/parse-css-file.test.js:16 | `.a .b .c` has parents `.a .b` and `.a` |
| ParseCssFile.CombinatorPair | server/handlers/parse-css-file.test.js:20-26 | `.a > .b`, `.a ~ .b` and `.a + .b` have parent `.a` |
| ParseCssFile.CombinatorTriple | server/handlers/parse-css-file.test.js:21-28 | `.a > .b > .c` and the like have parents `.a > .b` and `.a` |
| ParseCssFile.UnspacedLastCombinator | server/handlers/parse-css-file.test.js:24 | `.a ~ .b~.c` has parents `.a ~ .b` and `.a` |
| ParseCssFile.UnspacedPair | server/handlers/parse-css-file.ts:48 | `.a+.b` has parent `.a` |
| ParseCssFile.UnspacedThenCombinator | server/handlers/parse-css-file.test.js:30 | `.a+.b ~ .c.d` has parents `.a+.b` and `.a` |
| ParseCssFile.MixedChain | server/handlers/parse-css-file.test.js:30 | `.a+.b ~ .c.d > .e` has parents `.a+.b ~ .c.d`, `.a+.b` and `.a` |
| Ledger.Database.CreateSelector | server/models/Selector.ts:3-29 | the selector row is inserted, or on conflict only its `seen_at` is overwritten (with null when not seen). The link is added |
| Ledger.Database.GetFromFile | server/models/Selector.ts:31-47 | one row per selector linked to the file; each count is at least 1 and includes the file |
| Ledger.Database.RemoveAssociation | server/models/Selector.ts:49-64 | the one link is deleted, and the selector row too when asked |
| Ledger.Database.CreateFile | server/models/CssFile.ts:3-16 | the file row is inserted with both times `now`, or on conflict only `seen_at` is set |
| Ledger.Database.RecordHistory | server/models/CssFile.ts:18-42 | true iff a new (pattern, url) row went in. False on the uniqueness conflict, and a rejection on any other insert error, with the table unchanged |
| Ledger.LinkedIsCounted | server/models/Selector.ts:37-44 | a selector linked to the file counts at least that one file |
| Ledger.RemoveKeepsOthers | server/models/Selector.ts:55-58 | deleting one link leaves every other file's selectors and every other link |
| ProcessCssFile.AssociatedAfterLinking | server/handlers/process_css_file.ts:24-26 | linking adds exactly the names to the file's selectors and touches no other selector's files |
| ProcessCssFile.CreatedRows | server/handlers/process_css_file.ts:24-26 | the create loop leaves rows for exactly the old keys plus the extracted selectors |
| ProcessCssFile.CreatedRowsEffect | server/handlers/process_css_file.ts:24-26 | each created selector's `seen_at` is cleared and its `created_at` kept when it existed. Other rows are unchanged |
| ProcessCssFile.ReconciledLinks | server/handlers/process_css_file.ts:24-42 | afterwards the stylesheet is linked to exactly the extracted selectors; other stylesheets' links are unchanged |
| ProcessCssFile.ReconciledRows | server/handlers/process_css_file.ts:24-42 | extracted selectors have rows with `seen_at` cleared. A stale selector keeps its row iff another stylesheet links it. Other rows are unchanged |
| ProcessCssFile.ProcessCssFile | server/handlers/process_css_file.ts:7-44 | the file row is always touched. The history table gains the (pattern, url) version at `now` when it is new, and is unchanged on the uniqueness conflict or an insert fault. A history fault or failed download rejects with selectors and links unchanged. Otherwise it returns the extracted set and the tables are reconciled as above |
| ProcessCssFile.LinkAll | server/handlers/process_css_file.ts:24-26 | the create loop adds every extracted link and row |
| ProcessCssFile.UnlinkStale | server/handlers/process_css_file.ts:33-42 | the unlink loop deletes exactly the stale links, and the rows of selectors whose only link that was |
| ProbeSpec.IndexOf | probe/src/probe.ts:255 | `indexOf`: -1 iff absent, else the first position holding the value |
| ProbeSpec.RemoveFirstCount | probe/src/probe.ts:255-258 | `indexOf` plus `splice` takes exactly one occurrence out when present and changes nothing otherwise |
| ProbeSpec.MarkShrinks | probe/src/probe.ts:245 | marking a record checked leaves one fewer unchecked record, which bounds the recursion |
| ProbeSpec.QueryTouchesSeen | probe/src/probe.ts:252-268 | a lookup changes the `seen` flag of the selector and nothing else in the records |
| ProbeSpec.Query | probe/src/probe.ts:252-268 | a lookup keeps the set of known selectors |
| ProbeSpec.Check | probe/src/probe.ts:235-269 | a check keeps the set of known selectors |
| ProbeSpec.OriginAfterParent | probe/src/probe.ts:246-251 | after the parent's check, the record's own lookup or its unseen mark keeps every record's origin |
| ProbeSpec.BufferAfterParent | probe/src/probe.ts:246-260 | after the parent's check, the record's own step only appends in-sheet selectors to the buffer |
| ProbeSpec.QueryOutcome | probe/src/probe.ts:252-268 | found and in the sheet: leaves the waiting list once and joins the buffer. Found and synthetic: only becomes seen. Miss: clears `seen`. Throw: changes nothing |
| ProbeSpec.QueryBuffer | probe/src/probe.ts:253-260 | a lookup only appends the selector to the buffer, and only when it is in the sheet |
| ProbeSpec.CheckKeepsOrigin | probe/src/probe.ts:235-269 | a check keeps each record's files, parent, lookup and in-sheet flag |
| ProbeSpec.CheckKeepsChecked | probe/src/probe.ts:242-244 | records already checked in this run are left alone |
| ProbeSpec.CheckMarks | probe/src/probe.ts:245 | a check only sets `checked` flags, and leaves a known, non-empty selector checked |
| ProbeSpec.CheckQueriesUnchecked | probe/src/probe.ts:242-253 | only selectors unchecked at the start are looked up, so none is looked up twice in a run |
| ProbeSpec.CheckBuffer | probe/src/probe.ts:253-260 | a check only appends to the buffer, and only selectors in the sheet; parent-only records never reach it |
| ProbeSpec.CheckUnseen | probe/src/probe.ts:255-258 | a check only takes selectors off the waiting list |
| ProbeSpec.CheckWithoutLookup | probe/src/probe.ts:236-244 | empty or unknown text, or a checked record, gives no lookup and no change |
| ProbeSpec.ParentShortCircuit | probe/src/probe.ts:246-251 | when the parent answers false the selector is recorded unseen and its own lookup never runs |
| ProbeSpec.CheckKeepsWellformed | probe/src/probe.ts:235-269 | a check keeps the invariant: waiting selectors are known and in the sheet, and buffered ones are known |
| ProbeSpec.DrainAppend | probe/src/probe.ts:213-233 | checking in chunks equals checking the popped tail, then the rest |
| ProbeSpec.Drain | probe/src/probe.ts:213-233 | the chunked pass keeps the set of known selectors |
| ProbeSpec.DrainBufferPrefix | probe/src/probe.ts:213-233 | the chunked pass only appends to the buffer |
| ProbeSpec.DrainKeepsWellformed | probe/src/probe.ts:213-233 | the chunked pass keeps the invariant and the set of known selectors |
| ProbeSpec.Reset | probe/src/probe.ts:159-161 | every record is unchecked and otherwise unchanged |
| ProbeSpec.ResetUnchecksAll | probe/src/probe.ts:159-161 | after the reset every known selector may be looked up once more, and the invariant holds |
| ProbeSpec.AddSelectorEffect | probe/src/probe.ts:328-354 | a known selector gains only the url. A new one is unchecked, unseen, listed under the url, and waits iff the sheet holds it. The invariant is kept |
| ProbeSpec.AddSelector | probe/src/probe.ts:328-354 | adding an item knows exactly one more selector and leaves the buffer |
| ProbeSpec.AddItems | probe/src/probe.ts:319-321 | adding a stylesheet's items keeps every known selector and the buffer |
| ProbeSpec.Download | probe/src/probe.ts:310-326 | downloading keeps every known selector and the buffer, and succeeds only if every fetch answered |
| ProbeSpec.AddItemsKeepsWellformed | probe/src/probe.ts:319-321 | adding a stylesheet's items keeps the invariant |
| ProbeSpec.DownloadKeepsWellformed | probe/src/probe.ts:310-326 | downloading keeps the invariant and succeeds iff the service answered for every url |
| ProbeSpec.NewUrlsExactly | probe/src/probe.ts:190-208 | a url is requested iff some stylesheet has it as a present, `http`-prefixed href not yet processed |
| ProbeSpec.NewUrls | probe/src/probe.ts:190-208 | at most one url per stylesheet, each non-empty, `http`-prefixed and not yet processed |
| ProbeSpec.NullHrefSkipped | probe/src/probe.ts:199-203 | a stylesheet without an href, or with a non-http href, is never requested |
| ProbeSpec.AddUnderListed | probe/src/probe.ts:375-380 | the selector is appended under a file once per occurrence of that file |
| ProbeSpec.AddUnderKeys | probe/src/probe.ts:375-380 | the report's keys grow by exactly the files listed |
| ProbeSpec.AddUnderNonEmpty | probe/src/probe.ts:375-380 | appending under files never leaves a file with an empty list |
| ProbeSpec.Group | probe/src/probe.ts:373-381 | the report lists no stylesheet without a selector |
| ProbeSpec.GroupGet | probe/src/probe.ts:373-381 | under each stylesheet the report lists exactly the buffered selectors from it, in buffer order |
| ProbeSpec.GroupKeys | probe/src/probe.ts:373-381 | the report's stylesheets are exactly those of the buffered selectors |
| ProbeSpec.GroupHas | probe/src/probe.ts:373-381 | a buffered selector is listed under each of its stylesheets |
| ProbeSpec.GroupListed | probe/src/probe.ts:373-381 | under each stylesheet the report lists exactly the buffered selectors from it, in buffer order. Its stylesheets are exactly those of the buffered selectors |
| ProbeSpec.Merge | probe/src/probe.ts:101-105 | each option the page gives replaces the current one; the others stay |
| ProbeSpec.Flush | probe/src/probe.ts:359-386 | `_sendBuffer` leaves the buffer empty and keeps the invariant |
| ProbeSpec.Done | probe/src/probe.ts:165-175 | `doneCb` keeps the invariant |
| ProbeSpec.Run | probe/src/probe.ts:146-177 | one `_mainLoop` keeps the invariant |
| ProbeSpec.Accept | probe/src/probe.ts:154-176 | an accepted run keeps the invariant, the options and the observer, and records `now` as the run time |
| ProbeSpec.Resumed | probe/src/probe.ts:124-135 | `resume` keeps the invariant and the options and leaves the page observed |
| ProbeSpec.RunSends | probe/src/probe.ts:146-177 | a run never drops a sent report and appends at most one. It appends one only when not throttled and the flush is due; the flush time is then `flushTime`, the buffer is empty, and the report goes to `<url>/a/1/report` |
| ProbeSpec.RunPostsBuffered | probe/src/probe.ts:146-177 | a selector buffered before a run is still buffered after it, or the run posted one report listing it under each of its stylesheets |
| ProbeSpec.ResumedOnce | probe/src/probe.ts:124-135 | a second `resume` on the observed page changes nothing |
| BrowserProbe.Probe.constructor | probe/src/probe.ts:30-95 | the default options, empty collections, zero timestamps, no observer |
| BrowserProbe.Probe.Start | probe/src/probe.ts:101-108 | the options are merged, and the new state is `Resumed` of the merged state: an observer is attached and, unless one already was, the main loop runs once |
| BrowserProbe.Probe.Stop | probe/src/probe.ts:113-119 | the observer is detached and the state is kept |
| BrowserProbe.Probe.Resume | probe/src/probe.ts:124-135 | an attached observer means nothing changes. Otherwise one is attached and the new state is `Resumed`, that is `Run` of the old state: the main loop has run once |
| BrowserProbe.Probe.MainLoop | probe/src/probe.ts:146-177 | the new state is `Run` of the old one. Within `throttle` ms nothing changes. Otherwise the time is recorded, new sheets are downloaded, every record is unchecked, the waiting selectors are checked in chunks, and `doneCb` then acts as `Done` |
| BrowserProbe.Probe.AcceptedRun | probe/src/probe.ts:154-176 | the new state is `Accept` of the old one: the run time is recorded, the new sheets are downloaded and, if every download answered, the records are reset, the waiting selectors checked and `doneCb` run |
| BrowserProbe.Probe.DoneCallback | probe/src/probe.ts:165-175 | when the last flush is over 500 ms old, the flush time becomes `flushTime` and the buffer is emptied; if it held anything, one report of it is appended to `sent`. Otherwise nothing changes. The new state is `Done` of the old one |
| BrowserProbe.Probe.SyncSelectors | probe/src/probe.ts:182-188 | the new state and success flag are `Download` of the new urls |
| BrowserProbe.Probe.GetNewCssFileUrls | probe/src/probe.ts:190-208 | exactly the new http hrefs, in page order |
| BrowserProbe.Probe.DownloadCssFiles | probe/src/probe.ts:310-326 | the new state is `Download` of the urls, which succeeds iff every fetch answered |
| BrowserProbe.Probe.AddSelector | probe/src/probe.ts:328-354 | the new state is `ProbeSpec.AddSelector` of the old one |
| BrowserProbe.Probe.ResetChecked | probe/src/probe.ts:159-161 | every record is unchecked, as `Reset` says |
| BrowserProbe.Probe.CheckSelectorsByChunk | probe/src/probe.ts:213-233 | the callback runs iff the list is empty or the chunk size is at least 1. Then the state is the full drain of the list; otherwise nothing changes |
| BrowserProbe.Probe.CheckChunk | probe/src/probe.ts:215-220 | pops min(chunkSize, length) selectors from the end and checks them in pop order |
| BrowserProbe.Probe.SelectorCheck | probe/src/probe.ts:235-269 | the state and answer are those of `Check` |
| BrowserProbe.Probe.Lookup | probe/src/probe.ts:252-268 | the state and answer are those of `Query` |
| BrowserProbe.Probe.SendBuffer | probe/src/probe.ts:359-386 | the buffer is emptied. If it held anything, one report is posted with version `0.1`, the key, and the buffer grouped by stylesheet. The new state is `Flush` of the old one |
| BrowserProbe.ListUnderFiles | probe/src/probe.ts:375-380 | the inner loop computes `AddUnder` |
| Configuration.AssignByIndex | server/lib/Config.ts:128-133 | `Object.assign` on arrays: as long as the longer list, the source's entries over the target's |
| Configuration.DisabledKeepsDefaults | server/lib/Config.ts:49-54 | unless `push_to_github` is exactly `true`: syncing off, one message, no errors, every default kept |
| Configuration.MandatorySettings | server/lib/Config.ts:61-83 | one error per missing owner, name or token. Each present one is kept and reported, and there is an error iff one is missing |
| Configuration.OptionalSettings | server/lib/Config.ts:85-122 | each optional setting takes a truthy user value, else its default (`master`, `bleachcss`, 30, 25, []), and is reported; ten lines in all |
| Configuration.LogsAreMessages | server/lib/Config.ts:128-130 | there are always more messages than errors, so `logs` equals the messages |
| Configuration.Configured | server/lib/Config.ts:48-123 | syncing is on iff `push_to_github` is exactly `true`; errors only arise when it is on; there are always more messages than errors |
| Configuration.Config.constructor | server/lib/Config.ts:48-123 | the constructed state is `Configured` of the user config |
| Configuration.Config.ReadMandatory | server/lib/Config.ts:61-83 | appends the mandatory messages and errors and sets the three settings |
| Configuration.Config.ReadOptional | server/lib/Config.ts:85-122 | sets each optional setting from a truthy user value and appends its message |
| Configuration.Config.HasError | server/lib/Config.ts:125-127 | true iff some error is recorded |
| Configuration.Config.Logs | server/lib/Config.ts:128-130 | the messages over the errors, index by index |
| Configuration.Config.Errors | server/lib/Config.ts:131-133 | a copy of the errors |
| Configuration.ConfigGetters | server/lib/Config.ts:125-133 | `has_error` iff syncing is on and a mandatory setting is missing; `logs` is the messages |
| RepoSync.Strip | repo-sync.ts:169-176 | removing a selector's rules leaves no rule with it and adds no selector |
| RepoSync.StripAbsent | repo-sync.ts:169-176 | a selector no rule has leaves the stylesheet unchanged |
| RepoSync.StripChanges | repo-sync.ts:171-174 | a stylesheet changes iff it has a rule with that selector |
| RepoSync.StripCommutes | repo-sync.ts:164-178 | the order in which two selectors are removed does not matter |
| RepoSync.StripAll | repo-sync.ts:164-178 | after removing each selector in turn none of them is left, and no selector is added |
| RepoSync.StripAllChanges | repo-sync.ts:164-178 | a stylesheet changes iff it had a rule with one of the selectors |
| RepoSync.StripAllStep | repo-sync.ts:164-178 | one more selector changes a stylesheet iff it was changed or the selector finds a rule |
| RepoSync.StripFiles | repo-sync.ts:168-177 | stripping one selector from every stylesheet keeps the set of stylesheets |
| RepoSync.Pruned | repo-sync.ts:164-178 | the selector loop keeps the set of stylesheets |
| RepoSync.PrunedAt | repo-sync.ts:164-178 | each stylesheet ends stripped of every applied selector, and changed iff it had a rule with one |
| RepoSync.PrunedWithoutLimit | repo-sync.ts:164-178 | without a cap every unused selector is applied and none is left anywhere |
| RepoSync.PrunedWithinLimit | repo-sync.ts:165-167 | with a cap at most that many selectors remove rules |
| RepoSync.LimitIgnoredAsWritten | repo-sync.ts:165-167 | with the undefined limit as written, a cap of 1 still removes two selectors |
| RepoSync.ParseAll | repo-sync.ts:154-162 | succeeds iff every stylesheet parses; the map is exactly the parsed trees, and the paths are the stylesheets in first-occurrence order, once each |
| RepoSync.ParseStep | repo-sync.ts:154-162 | one more parsed stylesheet adds its tree and joins the paths unless already there |
| RepoSync.InsertionOrder | repo-sync.ts:154-162 | the paths of the parse loop hold each stylesheet once, and no other |
| RepoSync.StripEach | repo-sync.ts:168-177 | every stylesheet is stripped of the selector (`StripFiles`), and the stylesheets that had it and were not yet listed join the modified list, in path order (`ModifiedBy`) |
| RepoSync.ModifiedByAdds | repo-sync.ts:168-177 | the modified list gains exactly the stylesheets that had the selector, and keeps no repeat |
| RepoSync.ModifiedOrder | repo-sync.ts:164-178 | the modified list holds only stylesheets, each once |
| RepoSync.RemoveUnused | repo-sync.ts:164-178 | the trees are `Pruned`, and the modified list is `ModifiedOrder`: each changed stylesheet once, and nothing else |
| RepoSync.ChangedAfterStrip | repo-sync.ts:164-178 | after one more selector the modified list holds exactly the stylesheets changed so far |
| RepoSync.CreateBlobs | repo-sync.ts:180-200 | the map is `BlobMap`. Its keys are exactly the printed shas of the modified stylesheets, and each sha names the last modified stylesheet that prints to it, as `Map.set` overwrites |
| RepoSync.BlobMapLast | repo-sync.ts:180-200 | a sha is a key iff some modified stylesheet prints to it, and it names the last such stylesheet |
| RepoSync.NoBlobIffUnchanged | repo-sync.ts:62-65 | no blob is created iff no stylesheet changed |
| RepoSync.ProcessFile | repo-sync.ts:142-202 | fails iff a stylesheet does not parse. Otherwise the blobs are keyed by exactly the shas of the pruned, changed stylesheets. Each sha names a changed stylesheet printing to it, the last one in modified order |
| RepoSync.NonEmpty | repo-sync.ts:307-312 | keeps exactly the non-empty lines |
| RepoSync.SplitLinesJoin | repo-sync.ts:308 | joining the lines of `split("\n")` with newlines gives the output back |
| RepoSync.SplitLinesPieces | repo-sync.ts:308 | no line holds a newline |
| RepoSync.SplitLinesStep | repo-sync.ts:308 | one more character of the output extends the rejoined lines by that character |
| RepoSync.JoinLinesSnoc | repo-sync.ts:308 | one more line is joined after a newline |
| RepoSync.FindInPath | repo-sync.ts:295-316 | the non-empty lines of the listing, in order, none with a newline |
| RepoSync.Sync | repo-sync.ts:18-65 | exits in source order: invalid config iff `has_error`; off iff syncing is disabled; nothing iff no selector is unused; no archive url; listing failure; parse failure. Otherwise no cap applies (as written): every unused selector is gone from every stylesheet, there is no blob iff no stylesheet changed, and the blobs are those of the changed stylesheets |

## Left out

- I/O and collaborators are parameters, not models:
  - HTTP, `fetch`, `XMLHttpRequest`, the DOM and `MutationObserver`;
  - the database engine;
  - the file system and `exec`;
  - Octokit, md5, `JSON.parse`, `findPattern`/`MasterFile`, postcss parsing and printing.
- Asynchrony is sequentialised:
  - `setImmediate` jobs are recorded as `Processor.queue`, in order, and `Processor.ProcessFile` models one job;
  - the `setTimeout` continuations of `_checkSelectorsByChunk` run one after another;
  - the downloads of `Promise.all` are added in url order, not completion order.
- Clocks: each `new Date()` of one call is one `now`. Throttling and flushing compare against given times.
- SelectorStore.Store: selectors are held as values in a map, not as shared `Selector` objects, so aliasing of live instances is not modelled. `getRemovable` (lines 39-41) and `restoreFromState` (line 50) are empty in the source and not modelled.
- ProcessProbeReport.Processor.ProcessProbeReport: a parse failure is modelled as a throw before any key is processed. Not modelled:
  - a per-key value that is not an array, which throws part-way through `_main`;
  - JavaScript's integer-like keys coming first in `Object.keys`.
- ProcessProbeReport.Processor.ProcessFile: binds the extractor to its named export (probe/src/postCssExtractor.ts:18). As written, processProbeReport.ts:6 default-imports a module whose default export is commented out (lines 3-16), so every job after a successful download throws; that behaviour is `ProcessFileAsWritten` (see Findings).
- ProcessCssFile.ProcessCssFile and ProcessProbeReport.Processor.ProcessFile: content that downloads but that postcss cannot parse is not modelled. Neither extractor calls `reject` (server/lib/postCssExtractor.ts:19-50, probe/src/postCssExtractor.ts:19-49), so its promise never settles. `process_css_file` then hangs after `CssFile.create` and `record_history`, or the process dies on the unhandled error. `downloaded` stands for a download whose content parsed.
- ParseCssFile.Process: `keys` is the record's insertion order. JavaScript lists integer-like keys first, which is not modelled.
- The master file (`_identifyMasterFile`, processProbeReport.ts:36-39) is `masterOf(url)`, compared by id.
- Strings.SortStrings: orders by character code, as `sort()` does on UTF-16 code units. Surrogate pairs are not modelled.
- `encodeURIComponent` and the `/a/1/parse?url=` request are folded into `fetch(url)`.
- BrowserProbe.Probe.CheckChunk: no NaN or fractional `chunkSize`. A chunk size below 1 is modelled as the endless rescheduling it causes.
- BrowserProbe.Probe.Start: `pattern` and `debug` are copied but unused. Logging is left out.
- Configuration.Config.constructor: message texts are the `Line` datatype, not the emoji strings. `Number(num_selectors_per_pr)` on a non-numeric value (NaN) is not modelled, and the number is taken as given.
- RepoSync.Strip: removes rules by value. Not modelled:
  - `walkRules` still visiting the children of a removed rule, which cannot match again;
  - selector lists inside one rule (the source's FIXME).
- RepoSync.Sync: not modelled:
  - the parts of `main` after the blobs: branch, tree, commit and pull request;
  - `Selector.get_unused` (an input);
  - the local checkout cleanup.

  `Selector.get_unused` (repo-sync.ts:39) and `Download.toFile` (line 263) are not defined in the modules imported at lines 5 and 7: server/models/Selector.ts exports only `create`, `getFromFile` and `removeAssociation`, and server/lib/download.utils.ts only `toVariable`. As written, `main` therefore rejects at line 39 once the configuration checks pass, so the exits from `NothingUnused` on cannot be reached. The model assumes working implementations of both.

  The `find` command failing is `listing: None`. The pipe ends in `grep -v node_modules` (lines 298-301), which exits with status 1 when no line survives, so `exec` reports an error and `find_in_path` rejects (lines 303-305): a listing with no stylesheet is `None` in the source too. The model also admits `Some` of such a listing and ends that run at `NoBlob`, with nothing pruned. `downloadArchive` (repo-sync.ts:248-276, called at line 50) is the flag `archiveFound`: a missing archive url ends the run with `process.exit(1)` (line 261), which is the `ArchiveMissing` exit. The download and unzip of the archive fold into `listing`.
- Ledger.Database.CreateSelector: `created_at` and `seen_at` take the same `now`.

## Findings

| source | as written | input that shows it | evidently intended | confidence | as-written member | corrected member |
|---|---|---|---|---|---|---|
| repo-sync.ts:165 | the cap compares `selectors_removed.length >= config.max_num_selector`. `Config` has no `max_num_selector`, so the limit is undefined and the test is always false. `selectors_removed` is also never appended to | `num_selectors_per_pr` 1, unused `[".a", ".b"]`, `site.css` with rules `.a` and `.b`: both rules are removed (reachable only once `Selector.get_unused` and `Download.toFile`, missing at repo-sync.ts:39 and 263, exist) | at most `num_selectors_per_pr` selectors removed per run, counting those that removed a rule | not executed | RepoSync.LimitIgnoredAsWritten | RepoSync.PrunedWithinLimit |
| server/processProbeReport.ts:6 | `import postCssExtractor from "../probe/src/postCssExtractor"` takes the default export, which is commented out in that module (probe/src/postCssExtractor.ts:3-16); only the named export at line 18 exists. The call at line 57 throws, the `setImmediate` job rejects unhandled, and the store is never reconciled | any report naming a new stylesheet url whose download succeeds, e.g. one offering `.a`, which is then never linked to its master | `import { postCssExtractor }`, as server/handlers/process_css_file.ts:4 does, so the master's links follow the content | not executed | ProcessProbeReport.UnboundExtractorDropsLinks | ProcessProbeReport.Processor.ProcessFile |
