# Verified model of the firmware security agent

This project models the offline vulnerability matcher of the firmware agent and the inventory code around it, and
proves what they promise. `dafny verify dfyconfig.toml` checks all of it.

## What is modelled

| file | models |
|---|---|
| `Text.dfy`, `Ordering.dfy`, `Options.dfy`, `JsonValue.dfy` | ASCII string helpers, lexicographic and total orders with sorted listings, optional values, decoded JSON |
| `Cpe.dfy`, `Version.dfy` | CPE 2.3 splitting and parsing (NISTIR 7695 section 6.2), version keys, the version order, ranges (`cve_db/version.py`) |
| `SqlLike.dfy`, `CveCache.dfy` | LIKE with escapes, the table as a map from (CVE, CPE) to row, the row filter and `lookup_sync` (`cve_db/query.py`, `cve_db/schema.sql`) |
| `Records.dfy`, `Agreement.dfy`, `Sync.dfy` | page parsing, upserts, the agreement of cache and pages, paging and pacing (`cve_db/sync.py`) |
| `Nvd.dfy` | the throttled, caching `NvdClient`, with list objects on the heap (`nvd.py`) |
| `Epss.dfy` | query batching and identifier normalisation (`eps.py`) |
| `Components.dfy`, `Detectors.dfy`, `Rootfs.dfy` | detector merging and the bounded breadth-first search (`detectors/__init__.py`) |
| `Inventory.dfy`, `Staging.dfy` | evidence merging, once and in two stages (`providers/inventory.py`) |
| `Packages.dfy` | status-file parsing against the corpus printer (`detectors/packages.py`) |
| `Diff.dfy`, `Persistent.dfy` | inventory and vulnerability diffs (`diff.py`) |
| `CveRecords.dfy`, `Sbom.dfy` | CVE records, package identifiers and vulnerability grouping (`cve_db/mock.py`, `sbom/cyclonedx.py`) |

Loops and objects keep their imperative form: each loop is a method proved equal to a specification function, or
against the promised property directly, and the promises are then proved about that function. Loop states are named
by a predicate (`Collapsed`, `Paged`, `Batched`, `Tracks`, `Searching`, `Groups`, `Sifted`) with one lemma for each step.

The main results:

1. **The cache agrees with the pages.** After any sequence of successful, failed and malformed pages for any components,
   over an empty cache or one left by earlier runs, a lookup reports a CVE exactly when evaluating the downloaded pages,
   and the old rows they do not overwrite, directly does (`Agreement.LookupAgreesWithPages`,
   `Agreement.ResyncAgreesWithPages`), with the details of the last write (`Agreement.LookupCarriesLastWrite`).
   What a match covers is stated on its JSON (`Agreement.AffectsExactly`), and for one match end to end
   (`Agreement.SingleMatchIsReported`).
2. **The SQL prefilter** is a plain substring test for every component text (`SqlLike.LikeIsSubstring`), and what it
   keeps of the rows the Python filter would accept is stated exactly (`CveCache.PrefilterExact`).
3. **Paging** of every component of a run goes on exactly as long as the answers ask for it (`Sync.PagesStop`), at its own
   place in the run (`Sync.RunRequests`), takes as many requests as the total needs (`Sync.PagesNeeded`), and covers
   every result below a total its own pages agree on, whatever happens to the other components (`Sync.RunCoversTotal`);
   the whole run keeps the rate limit (`Sync.RunKeepsRateLimit`).
4. **The version order** is a total preorder, tokenising is compositional and invertible, appending text never lowers
   a version, ranges are convex.
5. **Rate and cache of the NVD client** over every run: at most 5 (or 50) request starts in any 30 seconds, one request
   per key, no list shared with callers.
6. **Greedy batching** uses the fewest queries of any order-preserving split.
7. **The root-filesystem search** returns the first sixteen, in depth and name order, of exactly the reportable directories.
8. **Merging, diffing, parsing and exporting**: exactly which disagreements are cited (`Detectors.CitationsExact`), staging
   agreement, swap and composition of diffs, round trip of the status file, injective identifiers.

Time is counted in tenths of a second. The network, the clock and sleeping are classes whose methods may do anything a
caller cannot exclude: a clock never goes back, a sleep lasts at least as long as asked, a request may take any time and
may fail. For paging, the answer to the n-th request of a run is an arbitrary function of n.

### Where a promise does not hold as stated

- *Staging never lowers a confidence* is false. A staged candidate whose `detection_sources` is the empty text counts as
  one more source in a single merge and is dropped by the second stage (`Staging.StagingCanLowerConfidence`).
  `Staging.StagingLowersExactly` gives the exact condition for confidences that are added exactly. The program adds binary
  floating-point numbers, so right at the edge of that condition rounding can decide either way.
- *The prefilter loses nothing* is false. A matching row with a product column is selected exactly when the column is a
  nonempty normal name, one with a null column exactly when `:name:` occurs in the lower-cased CPE
  (`CveCache.PrefilterExact`). `CveCache.PrefilterDropsUnnormalProduct` and `CveCache.PrefilterDropsPaddedProduct` are rows
  that match and are never selected. Of rows a sync writes, those with blanks around the product are lost and no others
  (`Agreement.SyncedPrefilterExact`); none is when the components to sync are named in normal form, stripped and
  lower-cased, as the default list is (`Agreement.SyncLosesNothing`). A caller may pass other names, and one with blanks
  around it loses rows (`Agreement.PaddedSyncIsLost`).
- *Every version ever detected stays visible* is false. A detection is cited exactly when it has a label and gives way to
  a detection of another version: a detection once kept gives way to the first later one of greater priority, any other to
  the earliest of the greatest before it (`Detectors.CitationsExact`). So an unlabelled version can vanish
  (`Detectors.UnlabelledVersionVanishes`), and so can a labelled one that gives way to its own version
  (`Detectors.LabelledVersionVanishes`). `Detectors.RecordedExactly` says for all inputs when a version stays visible, and
  `Detectors.HiddenExactly` reads it off the detections when citations are unambiguous: a version is hidden exactly when it
  is not the kept one and each detection of it that gave way to another version is unlabelled.

### Where code and comments disagree

The model follows the code. The comment on `matches_version` says a literal CPE version must compare equal; the code also
accepts a literal entry whose range contains the version. The comment on `_direction` names git-hash versions as
unordered; only versions without any letter or digit are. The docstring of the detector merge says the other records are
accumulated; only those with a label and another version than the winner of the moment are.

## Model

| member | source | states |
|---|---|---|
| `Cpe.SplitCpeFields` | src/ai_firmware_agent/cve_db/version.py:37-55 | the splitting loop loses nothing (its fields join to the input), leaves no unescaped colon in a field, and yields the unique such split |
| `Cpe.SplitJoin` | src/ai_firmware_agent/cve_db/version.py:37-55 | splitting the join of well-escaped fields returns them |
| `Cpe.ParseExactly` | src/ai_firmware_agent/cve_db/version.py:58-68 | a text parses exactly when, stripped, it joins six or more well-escaped fields starting with `cpe` in any case and `2.3`; to fields two to five in lower case |
| `Cpe.ParsePrinted` | src/ai_firmware_agent/cve_db/version.py:58-68 | a printed CPE name parses to its lower-cased part, vendor, product and version |
| `Cpe.ProductBetweenColons` | src/ai_firmware_agent/cve_db/version.py:58-68 | the lower-cased text of any parsed CPE holds its product between two colons |
| `Version.CompareIsPreorder` | src/ai_firmware_agent/cve_db/version.py:85-90 | comparison is antisymmetric in sign, transitive and total, and zero exactly on equal keys |
| `Version.KeyOrder` | src/ai_firmware_agent/cve_db/version.py:71-90 | keys of mixed numeric and letter tokens are totally ordered |
| `Version.KeyOfSeparated` | src/ai_firmware_agent/cve_db/version.py:71-82 | a separator between two strings gives the concatenation of their keys |
| `Version.KeyIgnoresBlanks` | src/ai_firmware_agent/cve_db/version.py:79 | stripping never changes the key |
| `Version.KeyRoundTrip` | src/ai_firmware_agent/cve_db/version.py:71-82 | printing any valid key with dots and re-reading it returns the key |
| `Version.PrintedKeyIsEquivalent` | src/ai_firmware_agent/cve_db/version.py:71-90 | every version compares equal to the dotted print of its key |
| `Version.FirstDifferenceDecides` | src/ai_firmware_agent/cve_db/version.py:71-90 | the first differing token decides: numbers by value, numbers below words, words by letter, whatever follows |
| `Version.ExtensionIsNotLower` | src/ai_firmware_agent/cve_db/version.py:71-90 | appending any text never makes a version compare lower |
| `Version.RangeIsConvex` | src/ai_firmware_agent/cve_db/version.py:93-126 | a range containing two versions contains every nonblank version between them |
| `Version.RangesSplit` | src/ai_firmware_agent/cve_db/version.py:114-126 | each bound splits the nonblank versions in two, with the bound itself on the right side |
| `Version.RangeIntersects` | src/ai_firmware_agent/cve_db/version.py:114-126 | combining bounds intersects what they contain |
| `Version.ContainsByKey` | src/ai_firmware_agent/cve_db/version.py:114-126 | nonblank versions with equal keys are in the same ranges |
| `Version.ContainsExactly` | src/ai_firmware_agent/cve_db/version.py:114-126 | a range contains exactly the nonblank versions that keep every bound given, when some bound is |
| `Version.MatchesExactly` | src/ai_firmware_agent/cve_db/version.py:129-148 | an entry covers exactly the nonblank versions with the key of its literal version, or inside its bounds |
| `Version.MatchesByKey` | src/ai_firmware_agent/cve_db/version.py:129-148 | nonblank versions with equal keys are covered by the same CPE entries |
| `SqlLike.ReplacementsEscape` | src/ai_firmware_agent/cve_db/query.py:53-60 | the three replacements escape each special character exactly once |
| `SqlLike.LikeIsSubstring` | src/ai_firmware_agent/cve_db/query.py:124-136 | LIKE on the escaped fragment is a plain substring test, for components holding `%`, `_` or backslash too |
| `CveCache.PrefilterExact` | src/ai_firmware_agent/cve_db/query.py:73-136 | which matching rows the WHERE clause selects, both directions |
| `CveCache.PrefilterLosesNothing` | src/ai_firmware_agent/cve_db/query.py:73-136 | matching rows with a null or normal product column and an unpadded CPE product are all selected |
| `CveCache.PrefilterDropsUnnormalProduct` | src/ai_firmware_agent/cve_db/query.py:73-136 | a matching row that is not selected: product column not in normal form |
| `CveCache.PrefilterDropsPaddedProduct` | src/ai_firmware_agent/cve_db/query.py:73-136 | a matching row that is not selected: blanks around the CPE product |
| `CveCache.HitExactly` | src/ai_firmware_agent/cve_db/query.py:63-136 | which rows of any table answer a query, in terms of product column, CPE text, key and bounds |
| `CveCache.CollapseRows` | src/ai_firmware_agent/cve_db/query.py:138-160 | the loop over ordered rows yields the specified answer |
| `CveCache.LookupIsOrdered` | src/ai_firmware_agent/cve_db/query.py:133-160 | entries come in strict CVE order, so one entry per CVE |
| `CveCache.LookupReportsHits` | src/ai_firmware_agent/cve_db/query.py:133-160 | a CVE is reported exactly when one of its rows is a hit |
| `CveCache.LookupEntries` | src/ai_firmware_agent/cve_db/query.py:133-160 | an entry is in the answer exactly when its row is the smallest hit of its CVE |
| `CveCache.EmbeddedCVEDatabase.constructor` | src/ai_firmware_agent/cve_db/query.py:85-87 | a database object starts uninitialised over whatever the file holds |
| `CveCache.EmbeddedCVEDatabase.InitializeSync` | src/ai_firmware_agent/cve_db/query.py:93-105 | a file of another schema version is emptied, a current one kept |
| `CveCache.EmbeddedCVEDatabase.LookupSync` | src/ai_firmware_agent/cve_db/query.py:107-160 | blank input touches nothing; otherwise the answer is that of the visible rows, which stay as they were |
| `Records.CollectCpeMatches` | src/ai_firmware_agent/cve_db/sync.py:93-111 | the recursive collection, list by list |
| `Records.VulnerableExactly` | src/ai_firmware_agent/cve_db/sync.py:98-105 | an entry counts exactly when it is an object with a text under `criteria` and no false value under `vulnerable` |
| `Records.CpeMatchesExact` | src/ai_firmware_agent/cve_db/sync.py:93-111 | such an entry is collected exactly when some path through lists, `nodes` and `children` leads to it |
| `Records.ObjectInOrder` | src/ai_firmware_agent/cve_db/sync.py:96-107 | an object's own matches come before those of its nodes, these before those of its children |
| `Records.ListInOrder` | src/ai_firmware_agent/cve_db/sync.py:108-110 | a list is read from front to back |
| `Records.DescriptionExactly` | src/ai_firmware_agent/cve_db/sync.py:62-69 | the description is the text of the first English item, empty when there is none |
| `Records.DetailsExactly` | src/ai_firmware_agent/cve_db/sync.py:72-144 | the score is the first one of version 4.0, 3.1, 3.0; the flag is set exactly by a true value under one of two members |
| `Records.PageExactly` | src/ai_firmware_agent/cve_db/sync.py:127-149 | a page is malformed exactly when it is no object or has no list of vulnerabilities; else it holds exactly the matches some path of an identified item leads to |
| `Records.OccurrencesInOrder` | src/ai_firmware_agent/cve_db/sync.py:135-149 | items are read from front to back |
| `Records.BoundsExactly` | src/ai_firmware_agent/cve_db/sync.py:114-171 | each bound is the nonblank text under its own member |
| `Records.BuildRecords` | src/ai_firmware_agent/cve_db/sync.py:127-174 | the record loops keep, in page order, the matches that name the component; malformed pages fail |
| `Records.UpsertFrame` | src/ai_firmware_agent/cve_db/sync.py:177-204 | rows of other (CVE, CPE) pairs are untouched |
| `Records.UpsertLast` | src/ai_firmware_agent/cve_db/sync.py:177-204 | a written row is that of its last record, whatever was there before |
| `Records.UpsertTwice` | src/ai_firmware_agent/cve_db/sync.py:177-204 | writing the same records twice equals writing them once |
| `Agreement.NamesExactly` | src/ai_firmware_agent/cve_db/sync.py:119-124 | a CPE names a component by its parsed product, or between colons when it does not parse |
| `Agreement.PageWrites` | src/ai_firmware_agent/cve_db/sync.py:119-204 | a page for a component sets exactly the rows whose CPE names it, parseable or not |
| `Agreement.AffectsExactly` | src/ai_firmware_agent/cve_db/version.py:114-148 | read off the JSON of a match: it affects a version exactly when its CPE version or its bounds cover it |
| `Agreement.RunWrites` | src/ai_firmware_agent/cve_db/sync.py:207-245 | after any run the row at a parseable CPE is that of the last match downloaded for its product, or the one before the run |
| `Agreement.SyncedRowHits` | src/ai_firmware_agent/cve_db/query.py:73-136 | a synced row is a hit, for any spelling of the component, exactly when its CPE names it and covers the version |
| `Agreement.ResyncAgreesWithPages` | src/ai_firmware_agent/cve_db/sync.py:93-245 | end to end over a cache of earlier runs: a CVE is reported exactly when some last-written downloaded match, or an old row not overwritten, names the component and covers the version |
| `Agreement.LookupAgreesWithPages` | src/ai_firmware_agent/cve_db/sync.py:93-204 | the same from an empty cache, where only downloaded matches count |
| `Agreement.LookupCarriesLastWrite` | src/ai_firmware_agent/cve_db/query.py:146-159 | the entry of a downloaded match carries the details and range of its last write |
| `Agreement.SyncedPrefilterExact` | src/ai_firmware_agent/cve_db/query.py:124-136 | of the matching rows a sync writes, the WHERE clause selects exactly those whose CPE product has no blanks around it |
| `Agreement.SyncLosesNothing` | src/ai_firmware_agent/cve_db/query.py:73-136 | when components are synced under normal names, every matching row of the resulting table is selected |
| `Agreement.PaddedSyncIsLost` | src/ai_firmware_agent/cve_db/sync.py:119-174 | a run under a padded name that stores a matching row which is never selected |
| `Agreement.SingleMatchIsReported` | src/ai_firmware_agent/cve_db/sync.py:93-204 | end to end for one match of any shape: reported exactly when not marked otherwise and its CPE version or its bounds cover the version |
| `Agreement.UnboundedMatchIsReported` | src/ai_firmware_agent/cve_db/version.py:129-148 | without bounds a literal match is reported exactly for equal nonblank versions, a `*` or `-` match never |
| `Agreement.RangedMatchIsReported` | src/ai_firmware_agent/cve_db/version.py:114-148 | with a start and an end, exactly for versions equal to a literal CPE version or from the start on and below the end |
| `Agreement.MarkedMatchIsSilent` | src/ai_firmware_agent/cve_db/sync.py:98-105 | a match marked as not vulnerable reports nothing |
| `Sync.Upsert` | src/ai_firmware_agent/cve_db/sync.py:177-204 | each record is written in turn and counted as one changed row |
| `Sync.SyncPage` | src/ai_firmware_agent/cve_db/sync.py:222-243 | one turn of the paging loop: what is requested, written and counted, and whether it goes on |
| `Sync.SyncComponent` | src/ai_firmware_agent/cve_db/sync.py:207-245 | the paging loop's requests, delays, table and count as functions of the answers |
| `Sync.SyncDatabase` | src/ai_firmware_agent/cve_db/sync.py:248-283 | the same for a whole run over all components, from the initialised table |
| `Sync.RunIsPaced` | src/ai_firmware_agent/cve_db/sync.py:219-221 | whatever the answers, every request but the first is preceded by exactly one delay |
| `Sync.RunKeepsRateLimit` | src/ai_firmware_agent/cve_db/sync.py:258-279 | a whole run makes at most 5 requests, or 50 with a key, in any half-open 30-second window |
| `Sync.TotalExactly` | src/ai_firmware_agent/cve_db/sync.py:232-241 | which answers give a total, read off the JSON: an integer or truth value under `totalResults` |
| `Sync.PagesStop` | src/ai_firmware_agent/cve_db/sync.py:219-243 | whatever the answers, a component is paged exactly as long as pages report a total past their window, at most 20 times |
| `Sync.NoTotalIsLast` | src/ai_firmware_agent/cve_db/sync.py:236-243 | a failed request, a malformed page or one without a number under `totalResults` is a component's last |
| `Sync.PagesNeeded` | src/ai_firmware_agent/cve_db/sync.py:219-243 | answers that report a total are asked for exactly as often as it takes windows of 2000, at least once and at most 20 times |
| `Sync.StableTotalIsCovered` | src/ai_firmware_agent/cve_db/sync.py:219-243 | when the pages a component asks for agree on a total: that many pages, disjoint windows covering the total up to 40000, none superfluous |
| `Sync.RunRequests` | src/ai_firmware_agent/cve_db/sync.py:265-279 | in a whole run each component's requests follow those of the components before it, the j-th starting at 2000 j |
| `Sync.RunAnswers` | src/ai_firmware_agent/cve_db/sync.py:265-279 | and the answer to the j-th request of a component is stored for it |
| `Sync.RunCoversTotal` | src/ai_firmware_agent/cve_db/sync.py:207-279 | for each component of any run, with its own total and whatever happens to the others, its requests in the trace cover the total |
| `Sync.RequestStarts` | src/ai_firmware_agent/cve_db/sync.py:223-230 | the k-th request of a component starts at index 2000 k |
| `Nvd.RateLimitHolds` | src/ai_firmware_agent/nvd.py:118-138 | paced requests start at most 5, or 50 with a key, times in any half-open 30-second window |
| `Nvd.StartsSpread` | src/ai_firmware_agent/nvd.py:132-138 | n starts in a window spread over at least n - 1 intervals |
| `Nvd.KeysExactly` | src/ai_firmware_agent/nvd.py:148 | two lookups share a cache entry exactly when normal names and stripped versions agree |
| `Nvd.NvdClient.constructor` | src/ai_firmware_agent/nvd.py:104-121 | a client starts with no request, an empty cache and the interval of its policy |
| `Nvd.NvdClient.Throttle` | src/ai_firmware_agent/nvd.py:132-138 | on return an interval has passed since the last request was recorded |
| `Nvd.NvdClient.Perform` | src/ai_firmware_agent/nvd.py:153-174 | a request starts an interval after the last recorded time and is recorded after it finished; it yields what the exchange brought, or the fallback when it failed |
| `Nvd.NvdClient.Lookup` | src/ai_firmware_agent/nvd.py:146-177 | a request is made exactly when none was before for the normal name and stripped version; repeats return the first answer, and the returned list is fresh and never owned by the cache |
| `Nvd.Tamper` | src/ai_firmware_agent/nvd.py:151-177 | changing a returned list changes neither the cache nor any later answer |
| `Nvd.MatchComponents` | src/ai_firmware_agent/analyzer.py:110-120 | a whole scan makes one request per new key, matches every component with the first answer for its key, and keeps the rate limit |
| `Nvd.MatchingExactly` | src/ai_firmware_agent/analyzer.py:110-120 | a component is matched exactly when the answer for its normal name and stripped version is not empty, and with it |
| `Epss.QueryChunks` | src/ai_firmware_agent/eps.py:24-39 | chunks concatenate to the list, fit 2000 characters with their commas unless single, and no split under the rule uses fewer |
| `Epss.JoinedExactly` | src/ai_firmware_agent/eps.py:24-39 | a query is as long as its identifiers and one comma between each two |
| `Epss.GreedyStaysAhead` | src/ai_firmware_agent/eps.py:24-39 | the greedy split is never behind any other |
| `Epss.NormalizedMembers` | src/ai_firmware_agent/eps.py:20-21 | exactly the nonblank identifiers, stripped and upper-cased |
| `Epss.NormalizedInOrder` | src/ai_firmware_agent/eps.py:20-21 | each once, in order of first occurrence |
| `CveRecords.NormalCvePadded` | src/ai_firmware_agent/eps.py:20-21 | blanks around an identifier go and its letters are raised |
| `Detectors.MergeComponents` | src/ai_firmware_agent/detectors/__init__.py:44-91 | the dictionary fold and the sorted listing yield the specified records |
| `Detectors.PriorityExactly` | src/ai_firmware_agent/detectors/__init__.py:29-41 | the ranking of the detectors, unknown ones last |
| `Detectors.CitationExactly` | src/ai_firmware_agent/detectors/__init__.py:69-73 | a detection is cited by its evidence, or its detector when it has none, and its version |
| `Detectors.WinnerIsEarliestGreatest` | src/ai_firmware_agent/detectors/__init__.py:58-68 | the kept record is the earliest of the greatest-priority detections |
| `Detectors.MergedNames` | src/ai_firmware_agent/detectors/__init__.py:75-91 | one record per nonempty normalised name, sorted |
| `Detectors.CitationsExact` | src/ai_firmware_agent/detectors/__init__.py:63-73 | the citations are those of exactly the labelled detections that gave way to a detection of another version |
| `Detectors.MergedRecord` | src/ai_firmware_agent/detectors/__init__.py:63-90 | the record equals its winner but for `also_detected_by`, which lists exactly those citations, sorted and once each |
| `Detectors.ListedExactly` | src/ai_firmware_agent/detectors/__init__.py:75-90 | a text is listed exactly when it is such a citation, or was listed by the winner and nothing is cited |
| `Detectors.RecordedExactly` | src/ai_firmware_agent/detectors/__init__.py:44-91 | for any detections, exactly when a version stays visible in the merged record |
| `Detectors.HiddenExactly` | src/ai_firmware_agent/detectors/__init__.py:44-91 | with unambiguous citations, a version is hidden exactly when it is not the kept one and each detection of it that gave way to another version is unlabelled |
| `Detectors.NoVersionHidden` | src/ai_firmware_agent/detectors/__init__.py:44-91 | a version stays visible if each detection of it that gave way to another version has a label |
| `Detectors.UnlabelledVersionVanishes` | src/ai_firmware_agent/detectors/__init__.py:69-73 | a concrete list whose merge hides the version of an unlabelled detection |
| `Detectors.LabelledVersionVanishes` | src/ai_firmware_agent/detectors/__init__.py:58-73 | a concrete list whose merge hides a version one of whose detections is labelled |
| `Detectors.MergeTwice` | src/ai_firmware_agent/detectors/__init__.py:44-91 | merging again changes nothing |
| `Rootfs.IterRootfsCandidates` | src/ai_firmware_agent/detectors/__init__.py:113-143 | the queue loop terminates and returns the first sixteen of the uncapped search |
| `Rootfs.UncappedExact` | src/ai_firmware_agent/detectors/__init__.py:106-143 | the uncapped search finds exactly the marked directories reachable through readable, real, unmarked ancestors within depth six |
| `Rootfs.FoundAboveOrdered` | src/ai_firmware_agent/detectors/__init__.py:127-142 | results come in order of depth, then name, without repetition |
| `Rootfs.NoNesting` | src/ai_firmware_agent/detectors/__init__.py:134-142 | no result other than the root contains another |
| `Rootfs.ResultsCharacterised` | src/ai_firmware_agent/detectors/__init__.py:102-143 | all of these about the capped result, and completeness below the cap |
| `Inventory.MergeComponents` | src/ai_firmware_agent/providers/inventory.py:249-319 | the grouping and candidate loops yield one specified record per identity, sorted |
| `Staging.EvidenceExactly` | src/ai_firmware_agent/providers/inventory.py:137-279 | what a component brings, read off its JSON: confidence, sources and licence |
| `Staging.FieldsExactly` | src/ai_firmware_agent/providers/inventory.py:262-318 | name and version of the first most confident candidate, and the first nonempty vendor, category, path and purl |
| `Staging.OtherFieldsArePrimarys` | src/ai_firmware_agent/providers/inventory.py:287-300 | every other extra field is that of the primary candidate |
| `Staging.RecordsExactly` | src/ai_firmware_agent/providers/inventory.py:249-258 | the merge holds a record for each trimmed version of each nonblank normal name, and no other |
| `Staging.RecordsInOrder` | src/ai_firmware_agent/providers/inventory.py:249-260 | and only one for each, in order of name and then version |
| `Staging.MergedSources` | src/ai_firmware_agent/providers/inventory.py:271-289 | reading a merged record's sources back gives the union of the nonempty sources |
| `Staging.MergedConfidence` | src/ai_firmware_agent/providers/inventory.py:279-294 | confidence is the combined one and lies in 0 to 0.99 |
| `Staging.OneMergeKeepsEvidence` | src/ai_firmware_agent/providers/inventory.py:277-297 | one merge lists exactly the nonempty paths and licences, and names the first licence in text order |
| `Staging.PrimaryIn` | src/ai_firmware_agent/providers/inventory.py:262-265 | the primary is the first of the most confident candidates |
| `Staging.StagingAgrees` | src/ai_firmware_agent/scanner.py:126-133 | staged and one-shot merging agree on identities, order, sources, purl, vendor, category and path |
| `Staging.StagingLowersExactly` | src/ai_firmware_agent/providers/inventory.py:271-294 | staging lowers a confidence exactly on one family of inputs with an empty-text source |
| `Staging.StagedInventoryConfidence` | src/ai_firmware_agent/scanner.py:126-133 | the same for every identity of whole inventories, with the 0 to 0.99 bound |
| `Staging.StagingCanLowerConfidence` | src/ai_firmware_agent/providers/inventory.py:273-274 | a concrete input of that family |
| `Packages.ParseStanzas` | src/ai_firmware_agent/detectors/packages.py:31-46 | the stanza loop yields the specified stanzas |
| `Packages.ComponentsFromStatus` | src/ai_firmware_agent/detectors/packages.py:86-111 | the filtering loop yields the specified components |
| `Packages.StatusRoundTrip` | benchmarks/corpus/openwrt-23.05.5-ath79-tiny/generate.py:45-48 | a printed status file parses back to its entries, in order, one stanza each |
| `Packages.ComponentsRoundTrip` | src/ai_firmware_agent/detectors/packages.py:86-111 | every printed entry is detected; the status filter drops none |
| `Packages.ReadField` | src/ai_firmware_agent/detectors/packages.py:42-44 | a printed field is read back whole, colons included |
| `Packages.OtherLinesArePassedOver` | src/ai_firmware_agent/detectors/packages.py:36-44 | continuation lines and lines without a colon change nothing wherever they stand |
| `Packages.BreaksExactly` | src/ai_firmware_agent/detectors/packages.py:34 | where lines end, a carriage return and line feed together once |
| `Packages.StanzaExactly` | src/ai_firmware_agent/detectors/packages.py:86-111 | a stanza is left out exactly when it lacks a name or version or holds one of three status markers in any case; else its fields are normalised |
| `Packages.UpstreamStripsDecoration` | src/ai_firmware_agent/detectors/packages.py:49-62 | an epoch and a revision are stripped around any trimmed base version |
| `Packages.EpochCut` | src/ai_firmware_agent/detectors/packages.py:55-58 | an epoch goes unless nothing follows it |
| `Packages.UpstreamExactly` | src/ai_firmware_agent/detectors/packages.py:49-62 | every version: with or without epoch, with a revision that goes unless nothing precedes it, or with none |
| `Diff.ByName` | src/ai_firmware_agent/diff.py:110-115 | the `setdefault` loop builds the specified index |
| `Diff.IndexIsFirst` | src/ai_firmware_agent/diff.py:110-115 | the index holds the first component of each name |
| `Diff.DirectionMeaning` | src/ai_firmware_agent/diff.py:83-97 | the direction is that of the version order, versions without tokens excepted |
| `Diff.DiffComponents` | src/ai_firmware_agent/diff.py:100-167 | the loops fill each bucket with exactly the names of its direction |
| `Diff.ChangesExactly` | src/ai_firmware_agent/diff.py:117-145 | what each entry says: old and new version are those its name has first on either side, the name is the newer spelling, the direction is that of these versions |
| `Diff.BucketsPartitionNames` | src/ai_firmware_agent/diff.py:117-167 | the six buckets list every known name exactly once, in order |
| `Diff.SwapReverses` | src/ai_firmware_agent/diff.py:83-167 | swapping the inputs swaps added/removed and upgraded/downgraded and fixes the rest, up to versions and display name |
| `Diff.UpgradesCompose` | src/ai_firmware_agent/diff.py:83-167 | upgrades, and downgrades, compose across three inventories |
| `Persistent.DiffVulnerabilities` | src/ai_firmware_agent/diff.py:170-198 | the loops list the specified entries in order of name and CVE |
| `Persistent.EntriesExact` | src/ai_firmware_agent/diff.py:170-198 | an entry is listed exactly when the last matches of a name in both inventories have its CVE, with the newer name, the old version and the new one |
| `Persistent.EntriesInOrder` | src/ai_firmware_agent/diff.py:184-189 | entries come in strict order of name and then CVE |
| `Persistent.IndexIsLast` | src/ai_firmware_agent/diff.py:180-181 | the index holds the last match of each name |
| `Sbom.QuoteInjective` | src/ai_firmware_agent/sbom/cyclonedx.py:29-30 | percent-encoding of UTF-8 loses nothing |
| `Sbom.QuoteRoundTrip` | src/ai_firmware_agent/sbom/cyclonedx.py:29-30 | decoding gives the UTF-8 bytes back, and plain characters are quoted as they are |
| `Sbom.PurlExactly` | src/ai_firmware_agent/sbom/cyclonedx.py:25-31 | a component keeps a nonblank identifier it brings, else its quoted name and version make one |
| `Sbom.GeneratedPurlIdentifies` | src/ai_firmware_agent/sbom/cyclonedx.py:25-31 | generated identifiers are equal exactly for equal trimmed names and versions |
| `Sbom.GroupVulnerabilities` | src/ai_firmware_agent/sbom/cyclonedx.py:138-156 | the grouping loop yields the specified entries |
| `Sbom.EntriesExact` | src/ai_firmware_agent/sbom/cyclonedx.py:142-156 | one entry per CVE, in order, with its first record and the sorted distinct identifiers it is paired with |
| `Sbom.CvesExact` | src/ai_firmware_agent/sbom/cyclonedx.py:143-145 | exactly the nonblank normalised CVEs are listed |
| `Sbom.OrderOfPairsIsIrrelevant` | src/ai_firmware_agent/sbom/cyclonedx.py:138-156 | permuting the pairs changes no refs |

## Left out

- Unicode beyond ASCII in `strip`, `lower`, `upper`, `casefold`, digits and line breaks; other characters are kept as they are.
- CPython's limit on the number of digits `int` accepts.
- The `synced_at` column; a row holds everything else, so upserting twice is plainly idempotent.
- Numbers given as text, and the rounding of floating-point numbers: scores and confidences are exact reals.
- The exact text `str` gives for fractional numbers, lists and objects; only that it is not blank.
- HTTP, JSON decoding, SQLite itself, asyncio and temporary files: only pages, failures and row maps appear.
- Exceptions outside the kinds the code catches, and opening and closing connections.
- The NVD client's response parser; its answers are arbitrary lists of records.
- EPSS requests and enrichment beyond the batches to be asked for.
- File-system errors while testing a single entry of a listing; an unreadable directory is unreadable as a whole.
- Sharing of one `extra` dictionary between component objects; components are values.
- Which files mark a root filesystem; a directory of the search carries a mark or not.
- Detection of binaries, Python and Node packages, and the choice of scanners.
- CycloneDX fields other than identifiers, shown records and affected refs.
- Risk scoring, reports, emulation, archive extraction, EMBA import and the command line.
- Nvd.NvdClient.Lookup: does not say which records a request returns, because the response parser is not part of this model.
- Records.BuildRecords: a base score given as text counts as unreadable, where `float` would read a numeral; it takes a
  decoded page, in which the decoder has already collapsed repeated object keys.
- Inventory.MergeComponents: a confidence given as text counts as unreadable and so as 0.5, and confidences are exact reals,
  where the program adds binary floating-point numbers.
- Staging.MergedConfidence: over exact reals; the stored floating-point number may differ by rounding.
- Staging.StagingLowersExactly: the condition is that of exact addition; with floating-point sums a confidence can also come
  out a rounding error lower, as with a staged confidence of 0.3 and four sources, two of them staged, one of those empty.
- Staging.StagedInventoryConfidence: the same, for whole inventories.
