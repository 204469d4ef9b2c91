# notes-infrastructure, modelled in Dafny

This project models the core of dtinth's notes infrastructure:

- **The notes database and its indexers.**
  - The insertion-ordered `IdentitySet`, which hands out stable identity objects.
  - The `NotesDatabase` holder with its tokeniser and term filter.
  - `indexNote` / `unindexNote`.
  - The two `indexDocumentIntoSearchEngine` versions: the TypeScript one, which keeps alias redirects, and the older JavaScript one.
- **The reindex pass** of `NotesManager`: it diffs the scanned notes against the ids known before the pass and counts what was added, changed and removed. A read that throws, or front matter that throws, stops the pass at that slug.
- **The reachability crawls over the link graph.**
  - The queue-and-cost-map walk of `generatePublicTree` and its copy in `test_create_index`.
  - The fringe walk of `generatePublicIndex` and its copy in `crawl-public`, the latter with a memoised `getDocument`, whose `git show` throws for an id with no file at `HEAD` and so stops the script before it writes anything.
- **The projections and planners.**
  - The two sitegraph builders.
  - The sidebar grouping.
  - The operation plan of the rename endpoint.
- **Publishing.**
  - The two publishing workers: the tar accept loop, alias and lower-case redirect synthesis, and the upload/delete/state diff.
  - The Supabase sync plans and the compile queue.
  - The decisions of the static site generator: pages, sitemap, the RSS item parser and the `recent.xml` rewrite rule.

Modules follow the program's structure. A core file whose logic no other file shares is one module: for example `IndexNote`, `NotesManager`, `StaticSite` and `Sidebar`. Logic that several files share, or that one file builds in stages, is factored into modules of its own:

- `Sitegraph` holds both sitegraph builders, service/src/generateSitegraph.ts and lib/generateSitegraph.ts, which run the same loop.
- lib/generatePublicIndex.ts is `Fringe`, the crawl pieces and the loop invariant it shares with scripts/crawl-public.mjs, plus `PublicIndex`, its top-level loop. `CrawlPublic` is the loop of crawl-public.
- src/workers/publish.ts is `PublishWorker`. Its accept loop is in `TarSources` and its state diff in `PublishDiff`; src/workers/publish.mjs (`PublishEsm`) shares both.
- service/scripts/publish.ts is `SyncPlans`, the table syncs, plus `CompileQueue`, the `findNotesToCompile` query it shares with service/scripts/generate_static_site.ts.
- `TextRules` holds the string rules both indexers use.

The model's form follows the source's:

- State the source mutates in place lives in classes whose methods carry `modifies` clauses: `IdentitySet`, `NotesDatabase`, the search engines, the `WeakMap` of the old indexer, and the document cache of the crawl.
- The loops of the source are `while`/`for` loops.
  - Most are proved against a specification function that folds over the input one element at a time (`Sources`, `Redirects`, `Reread`, `Upserts`, `RelaxAll` and others). Separate lemmas state what that function amounts to.
  - The three outer crawl loops are proved against a loop invariant instead, because what they build is a tree, not a fold. They are `PublicTree.Walk` (invariants `Walking` and `LinksCovered`), `PublicIndex.GeneratePublicIndex` and `CrawlPublic.Crawl` (invariant `Crawling`). Lemmas carry the invariant over one turn, and a closing lemma turns it into the shape of the result: `CoveredDone` for the walk, and `CrawlDone` with `IndexShaped` for the fringe crawls.
- Pure code, such as the sidebar, the title rule and the regular expressions, is written as functions.

Shared modules:

- `OrderedMaps` models a JavaScript `Map`, keys in insertion order: setting an existing key keeps its place, and deleting removes it.
- `StableSort` models the stable `Array.prototype.sort` with a numeric comparator.
- `Utf16` gives each string (a sequence of Unicode scalars here) its UTF-16 encoding, so that JavaScript's `length`, `slice` and default string order are taken over code units.
- `StringOrder` models the default string sort of `sort-keys`, which compares code units.
- `TextRules` holds the title rule, the timestamp scanner and `path.basename`.
- `Seqs`, `Strs` and `Options` are generic helpers.

Foreign code becomes function parameters:

- markdown parsing, gray-matter front matter (in the service and in both library indexers, with a predicate for the sources on which it throws), `source.read` (with a predicate for the slugs it throws on), MiniSearch search, `stemmer`, SHA-1, `JSON.stringify` and `toLowerCase`.

The MiniSearch index is a multiset of document ids, so "one search entry per id" can be stated. Floating-point costs are exact scaled integers:

- generatePublicTree: ×1000, so 0.001 becomes 1 and 1 becomes 1000.
- test_create_index: ×2, so 0.5 becomes 1 and 1 becomes 2.

Behaviour of the code worth noting:

- `indexNote` keeps `#` fragments in the stored links.
- A note that fails to read or parse is not skipped: it aborts the whole reindex pass, and the ids left over are not unindexed.
- `indexNote` adds the slug to the id set before parsing. A note whose front matter throws is left in the id set without a record. Every later pass counts it as removed when it is not scanned, because `unindexNote` cannot remove it, and as changed once its front matter parses.
- In the publish worker, a tarball note whose front matter throws ends `main` before anything is uploaded, deleted or saved.
- `crawl-public` writes the home note's node as it is, so when the home note has no document the write of `undefined` throws and no file is written.

## Model

| member | source | states |
|---|---|---|
| Identities.Identity.constructor | service/src/IdentitySet.ts:4-8 | a new identity object holds the id it stands for |
| Identities.IdentitySet.constructor | service/src/IdentitySet.ts:13-14 | a new set is empty: no ids, no identity objects |
| Identities.IdentitySet.Size | service/src/IdentitySet.ts:16-21 | `size` is the number of ids held |
| Identities.IdentitySet.Keys | service/src/IdentitySet.ts:70-80 | iteration, `keys()` and `values()` yield exactly the held ids, each once, and their count is `size` |
| Identities.IdentitySet.Add | service/src/IdentitySet.ts:23-32 | afterwards the id is held; re-adding a held id changes neither the order nor any identity object; a new id goes last with a freshly allocated identity and nothing else changes |
| Identities.IdentitySet.Delete | service/src/IdentitySet.ts:41-46 | returns true exactly when the id was held; afterwards it is not held, and only that id leaves the order and the map |
| Identities.IdentitySet.Clear | service/src/IdentitySet.ts:48-53 | afterwards `size` is 0 and `has` is false for every id |
| Identities.IdentitySet.Get | service/src/IdentitySet.ts:55-68 | the result stands for the id; for a held id it is the stored object (so repeated calls agree), otherwise a newly allocated one; the set is not modified |
| NotesDatabase.Tokenize | service/src/NotesDatabase.ts:15-18 | every token is a non-empty run of `\w` characters |
| NotesDatabase.TokenizeKeepsWordChars | service/src/NotesDatabase.ts:15-18 | the tokens, concatenated, are exactly the word characters of the input in order, so no word character is lost or invented; no word character gives no tokens |
| NotesDatabase.TokenizeJoin | service/src/NotesDatabase.ts:15-18 | words of word characters joined by spaces tokenize back into the same words |
| NotesDatabase.TokenizeWordAlone | service/src/NotesDatabase.ts:15-18 | a non-empty run of word characters on its own is exactly one token, itself |
| NotesDatabase.TokenizeAround | service/src/NotesDatabase.ts:15-18 | any character outside `\w` splits the input: the tokens of `a`, the character, then `b` are the tokens of `a` followed by those of `b`; with the previous row, the tokens are the maximal runs of word characters, left to right |
| NotesDatabase.Stopwords | service/src/NotesDatabase.ts:9-11 | the stopwords are the English list without `vs` and `recent` |
| NotesDatabase.ProcessTerm | service/src/NotesDatabase.ts:23-28 | no term exactly for a word longer than 32 UTF-16 code units or a stopword (tested on the raw word); otherwise the stem of the word |
| NotesDatabase.InStepAfterStore | service/src/indexNote.ts:67-73 | storing a record under its own id, its source, and replacing its search entry keeps a source per record, the ids known, and one search entry per record |
| NotesDatabase.InStepAfterRemove | service/src/indexNote.ts:76-83 | removing a record, its source, its id and its search entry keeps the structures in step |
| NotesDatabase.NotesDatabase.constructor | service/src/NotesDatabase.ts:37-42 | a new database has an empty document map, contents map, identity set and search index |
| NotesDatabase.NotesDatabase.OneSearchEntryPerRecord | service/src/NotesDatabase.ts:37-42 | in a consistent database the search index holds each id with a record exactly once and no other id |
| IndexNote.LocalLinks | service/src/indexNote.ts:29 | the kept hrefs are exactly those without `:`, in order, duplicates kept |
| IndexNote.DeriveNote | service/src/indexNote.ts:53-66 | the record is filed under the slug and keeps the parsed front matter |
| IndexNote.NoteFor | service/src/indexNote.ts:24-66 | the record derived from a source carries the slug as its id |
| IndexNote.IndexNote | service/src/indexNote.ts:10-74 | the slug always joins the id set first (a known slug keeps its identity); when the stored source is not identical and front matter throws, the call throws and nothing else changes; it returns false, leaving records, sources and search index unchanged, exactly when the stored source is identical or the public-only gate rejects the note; otherwise the derived record and the source are stored and true is returned |
| IndexNote.StoreNote | service/src/indexNote.ts:67-72 | the record and source are stored under the slug and the database stays consistent (one search entry per record) |
| IndexNote.UnindexNote | service/src/indexNote.ts:76-83 | with no record nothing changes, the id set included; otherwise the record, the source, the id and the one search entry are removed and nothing else |
| IndexNote.LinksSplitBack | service/src/indexNote.ts:29-61 | the stored `links` string splits back into the local hrefs in document order, duplicates and fragments kept |
| IndexNote.NamesSplitBack | service/src/indexNote.ts:44-64 | the stored `names` list the slug first, then each alias, each once, and nothing else |
| IndexNote.DerivedTitleAndBody | service/src/indexNote.ts:31-62 | with no front-matter title, the title is the text before the first sentence end (plus the topic suffix), the body is the trimmed rest, and the excerpt is a prefix of the body of at most 256 code units |
| NotesManager.RereadHas | service/src/NotesManager.ts:30-33 | after the reads of a scan, a slug has a source exactly when it had one or was read, and a slug read has what was read for it |
| NotesManager.FirstThrowIsFirst | service/src/NotesManager.ts:30-33 | the pass throws at the first iteration whose read throws or whose changed source makes front matter throw: it goes through exactly when no iteration throws, and when it throws at `k`, iteration `k` throws and none before it does |
| NotesManager.FirstThrowSticks | service/src/NotesManager.ts:30-33 | once the pass has thrown, the slugs after it cannot change where it threw |
| NotesManager.ThrowOrGoOn | service/src/NotesManager.ts:30-33 | after iteration `i` of a pass that has not thrown, the pass throws at `i` when that iteration throws, and otherwise has still not thrown |
| NotesManager.ThrowsAtPrefix | service/src/NotesManager.ts:30-33 | whether an iteration throws depends only on the slugs up to it |
| NotesManager.PassReadAll | service/src/NotesManager.ts:30-32 | in a pass that goes through, no `source.read` threw |
| NotesManager.AddedStep | service/src/NotesManager.ts:31-41 | one more slug adds one to the scanned slugs unknown before exactly when it was unknown and not read earlier in the pass |
| NotesManager.ChangedStep | service/src/NotesManager.ts:31-41 | one more slug adds one to the changed slugs exactly when it was known before the pass, not read earlier, and its source then differs from the one read |
| NotesManager.PassCountsStep | service/src/NotesManager.ts:31-41 | the counters after one more slug: unchanged when its stored source is the one read, otherwise `changed` moves when the id set has it and `added` moves when it does not |
| NotesManager.PassCountsCountSlugs | service/src/NotesManager.ts:31-41 | when every slug with a source is in the id set, the counters of the scan loop are the number of distinct scanned slugs unknown before the pass (added) and of those known before whose source then was missing or different (changed); identical sources count in neither |
| NotesManager.CountStep | service/src/NotesManager.ts:31-41 | one `indexNote` call moves the counters as the pass does: a slug indexed anew is changed when the id set had it (`has`, not a stored record) and added otherwise; a skipped one counts in neither |
| NotesManager.RereadWithoutExtras | service/src/NotesManager.ts:24-50 | once the ids left over are dropped, exactly the scanned slugs have a source, each the one read for it |
| NotesManager.IdsAfterPass | service/src/NotesManager.ts:24-50 | after a pass that goes through, the id set holds the scanned slugs and the ids known before the pass that had no source, which `unindexNote` leaves in place |
| NotesManager.LeftOver | service/src/NotesManager.ts:25-46 | the ids of the snapshot that the scan did not produce are distinct, and they are exactly the known ids that were not scanned |
| NotesManager.Records | service/src/NotesManager.ts:24-50 | the records derived from the stored sources are keyed by exactly the stored slugs |
| NotesManager.RecordsAfterStore | service/src/NotesManager.ts:56-61 | storing one more source replaces that slug's record only |
| NotesManager.RecordsAfterRemove | service/src/NotesManager.ts:43-46 | dropping a source drops its record only |
| NotesManager.DerivedAfterIndex | service/src/NotesManager.ts:33 | an `indexNote` call without the public-only gate keeps every record derived from its stored source; the slug's source becomes the one read unless front matter threw, and then no source changes |
| NotesManager.DerivedAfterRemove | service/src/NotesManager.ts:44 | unindexing keeps every remaining record derived from its stored source |
| NotesManager.RecordsOfScan | service/src/NotesManager.ts:24-50 | the records of one source per scanned slug are the derived records of exactly those slugs |
| NotesManager.SecondPassQuiet | service/src/NotesManager.ts:24-50 | a second pass over an unchanged source goes through and reports nothing added and nothing changed; it counts as removed exactly the ids without a source that were not scanned, on every pass |
| NotesManager.DropOne | service/src/NotesManager.ts:43-46 | unindexing the next left-over id removes its source and its id exactly when it still has a source, and otherwise changes nothing |
| NotesManager.NotesManager.constructor | service/src/NotesManager.ts:7-9 | a new manager starts with an empty database and an empty id set |
| NotesManager.NotesManager.DoUpdateIndex | service/src/NotesManager.ts:24-50 | the pass goes through exactly when no iteration throws. Then the database holds exactly the scanned slugs, with the sources read and the records derived from them, and the id set also keeps the known ids that had no source. `added`, `changed` and `removed` are the counts of scanned slugs unknown before, of known slugs with a missing or different source, and of known ids not scanned; each is counted even when unindexing does nothing. When iteration `k` throws, the pass stops at that slug: the sources are those after the first `k` reads, and the leftover ids keep theirs |
| NotesManager.NotesManager.IndexScan | service/src/NotesManager.ts:30-42 | the scan loop stops at the first iteration that throws, with the sources after the reads before it. Otherwise the sources are the reread ones, the ids left over are the snapshot minus the scanned slugs in snapshot order, and the counters are the pass counts |
| NotesManager.NotesManager.ScanSlug | service/src/NotesManager.ts:31-41 | one iteration either throws, leaving the sources as they were (the slug still joins the id set when only front matter threw), or moves the sources, the ids left over and the counters one slug further |
| NotesManager.NotesManager.IndexScanned | service/src/NotesManager.ts:31-33 | `existedBefore` is whether the id set had the slug. When the read throws, nothing changes. Otherwise the slug joins the id set; when front matter throws, the sources are unchanged. Otherwise the slug's source becomes the one read, and `indexed` is false exactly when the stored source was identical |
| NotesManager.NotesManager.Index | service/src/NotesManager.ts:56-61 | the call throws when the read throws, or when front matter throws on a changed source, and then no source or record changes; otherwise only that id's source and record change, to the ones read and derived now |
| NotesManager.NotesManager.UnindexAll | service/src/NotesManager.ts:43-46 | every left-over id with a source loses it and its place in the id set; left-over ids without a source stay in the id set; nothing else changes |
| TextRules.TitleMatch | service/src/indexNote.ts:34 | the lazy capture ends at the least position where `\.\s`, a newline or the end can follow with no line terminator before it, and there is none exactly when no such position exists |
| TextRules.SplitTitle | service/src/indexNote.ts:32-39 | a front-matter title is kept with the text as it is; otherwise the title is the capture and the body the trimmed rest; with no match, no title and the text unchanged |
| TextRules.DerivedTitleIsFirstSentence | service/src/indexNote.ts:34-37 | a derived title holds no line terminator and no period followed by white space, and title plus rest is the text, so the period stays at the front of the rest |
| TextRules.WholeTextIsTitle | service/src/indexNote.ts:34-37 | a one-line text with no sentence end becomes the whole title with an empty body |
| TextRules.Excerpt | service/src/indexNote.ts:62 | the excerpt is the longest prefix of the body that takes at most 256 UTF-16 code units |
| TextRules.StampIdEndShape | lib/indexer.ts:23 | the run found is an id of the form `\d+T\d+Z\d+` |
| TextRules.StampAt | lib/indexer.ts:23 | a match is `(`, an id, `)` |
| TextRules.StampAtShape | lib/indexer.ts:23 | what a match holds between the parentheses matches `\d+T\d+Z\d+` |
| TextRules.StampAtComplete | lib/indexer.ts:23 | conversely, every `(id)` with `id` of that form is matched, ending just after its `)` |
| TextRules.ScanStampsWellFormed | lib/indexer.js:19-22 | every id the global scan captures has the timestamp form |
| TextRules.ScanRendersBack | lib/indexer.js:19-22 | the scan loses nothing: its pieces put back together give the input |
| TextRules.StampIds | lib/indexer.js:19-22 | the captured ids, in order, all have the timestamp form |
| TextRules.StripStamps | lib/indexer.ts:23 | the global `replace` shortens the text by exactly the width of the captured ids and their parentheses |
| TextRules.StripLength | lib/indexer.ts:23 | stripping removes exactly the width of the matched `(id)` markers |
| TextRules.StripChangesIffStamps | lib/indexer.ts:23 | stripping changes a text exactly when it holds an id to extract |
| TextRules.DropTrailingSlashes | lib/indexer.ts:35 | the result is a prefix of the path with no trailing `/` |
| TextRules.LastComponent | lib/indexer.ts:35 | the result is the suffix after the last `/` and holds none |
| TextRules.BaseName | lib/indexer.ts:35 | the base name holds no `/`; a path that is `ext` itself gives the empty string; otherwise it is the last component once trailing `/` are dropped, with `ext` removed when the component ends with it and is longer |
| TextRules.BaseNameOfNoteFile | lib/indexer.ts:35 | the base name of `dir/<id>.md` without `.md` is `id` |
| TextRules.BaseNameAfterSlash | lib/indexer.ts:35 | the base name of a path ending in `/file` is `file`, minus the extension when it ends with it and is longer, and empty when the path is the extension |
| TextRules.LastComponentAfterSlash | lib/indexer.ts:35 | the last component of `pre/file` is `file` |
| LibIndexer.DocumentFor | lib/indexer.ts:52-64 | the document carries the id and the front matter's `public` and `topic` |
| LibIndexer.DocumentOf | lib/indexer.ts:15-64 | the stored document's id is the file's base name without `.md` |
| LibIndexer.RedirectAll | lib/indexer.ts:37-45 | every alias ends up redirecting to the id, overwriting any earlier target; every other key keeps its target; no key is lost |
| LibIndexer.Replace | lib/indexer.ts:46-66 | deleting an existing key and setting it again moves it last and holds the new value; no other entry changes |
| LibIndexer.StoreConsistent | lib/indexer.ts:46-67 | replacing the document of an id, storing its contents and keeping one search entry for it preserves the engine's invariant |
| LibIndexer.SearchEngine.constructor | lib/indexer.ts:9-14 | a new engine has no documents, contents, redirects or search entries |
| LibIndexer.SearchEngine.SetRedirects | lib/indexer.ts:41-44 | the redirects become those of the alias loop; documents, contents and the search index are untouched |
| LibIndexer.SearchEngine.IndexDocument | lib/indexer.ts:9-69 | a file the public-only gate turns away yields nothing and changes nothing; otherwise the aliases redirect to the id, the derived document replaces any earlier one and moves last, the raw contents are stored, the index holds the id once and no other entry changes, and the id is returned; identical contents are re-indexed all the same; when gray-matter throws on the contents the call throws before any change |
| LibIndexer.SearchEngine.StoreDocument | lib/indexer.ts:46-67 | the earlier document of the id leaves the index and the map, the new one is added to both, and the contents are stored |
| LibIndexer.TitleAfterStamps | lib/indexer.ts:23-34 | timestamp removal changes the body exactly when it holds an id; without a front-matter title the title is the first sentence of the stripped body (plus the topic suffix), the text the trimmed rest, and the excerpt a prefix of the text of at most 256 code units |
| LibIndexer.FrontTitleKept | lib/indexer.ts:24-34 | a front-matter title is kept (plus the topic suffix) and the text is the stripped body |
| LibIndexer.LinksAndNamesSplitBack | lib/indexer.ts:21-63 | the stored links split back into the hrefs without `:` in order; the stored names are the id then each alias, deduplicated |
| LibIndexer.ReindexMovesLast | lib/indexer.ts:46-66 | re-indexing with the same document keeps the values but moves the id to the end of the order, which leaves the order unchanged exactly when it was already last |
| LegacyIndexer.LegacyDocumentOf | lib/indexer.js:15-51 | the document's id is the file's base name without `.md` |
| LegacyIndexer.LegacyLinksAndText | lib/indexer.js:17-51 | the stored links split back into every captured timestamp id in order; the ids stay in the stored text (with a front-matter title it is the whole trimmed body); the excerpt is a prefix of the text of at most 256 code units |
| LegacyIndexer.MiniSearch.constructor | lib/indexer.js:52 | a new index holds no entries |
| LegacyIndexer.MiniSearch.Remove | lib/indexer.js:41 | `remove` takes one entry for the id away |
| LegacyIndexer.MiniSearch.Add | lib/indexer.js:52 | `add` puts one more entry for the id in, also when the index already holds one |
| LegacyIndexer.DocumentMaps.constructor | lib/indexer.js:8 | the module-level map starts empty |
| LegacyIndexer.DocumentMaps.Set | lib/indexer.js:8 | `set` files a document map under an engine |
| LegacyIndexer.Replace | lib/indexer.js:39-53 | the engine loses the entry of a document the map holds before gaining one for the new document, which replaces it in the map |
| LegacyIndexer.IndexAsWritten | lib/indexer.js:34-53 | the call throws exactly when gray-matter throws on the contents, and then changes nothing; otherwise, as written, the kept maps never change and the engine loses an entry only for a document of a kept map |
| LegacyIndexer.IndexDocument | lib/indexer.js:34-53 | the call throws exactly when gray-matter throws, changing nothing; otherwise, with the filled map stored back, the engine keeps exactly one entry for the id and the map holds the new document |
| LegacyIndexer.ReindexAsWritten | lib/indexer.js:34-53 | indexing one file twice into a new engine as written leaves two entries for its id, and none when gray-matter throws on it |
| LegacyIndexer.ReindexCorrected | lib/indexer.js:34-53 | with the map stored back the same two calls leave one entry, and none when gray-matter throws on it |
| PublicTree.PublicIds | service/src/generatePublicTree.ts:22-24 | the public ids are exactly the notes that exist and are public |
| PublicTree.RelaxAllEntry | service/src/generatePublicTree.ts:38-45 | after the inner loop a non-empty link holds `childCost` through the emitted note exactly when it had no entry or a strictly higher cost (ties keep the first discoverer); every other entry is unchanged, and no entry is lost |
| PublicTree.PushLinks | service/src/generatePublicTree.ts:38-45 | every non-empty link is pushed onto the queue in order, and the cost map is the relaxed one |
| PublicTree.CostOfAt | service/src/generatePublicTree.ts:27-34 | among visits to distinct notes, a note's cost is the one recorded at its visit |
| PublicTree.WalkingInit | service/src/generatePublicTree.ts:14-19 | the walk starts with the queue holding `HomePage` at cost 0 and nothing visited or emitted |
| PublicTree.SkipStep | service/src/generatePublicTree.ts:21-25 | taking off a missing, non-public or visited slug changes nothing else |
| PublicTree.EmitVisits | service/src/generatePublicTree.ts:27-34 | emitting the front note adds a visit of a public note with its title, the recorded cost and parent; the visited set and the emitted notes stay the same set |
| PublicTree.EmitCosts | service/src/generatePublicTree.ts:36-45 | relaxing the emitted note's links keeps `HomePage` at cost 0 with no parent, loses no entry, gives every non-empty link an entry, and records every entry through an emitted note at its cost plus its step |
| PublicTree.EmitStep | service/src/generatePublicTree.ts:27-46 | emitting, relaxing, pushing and sorting the queue keeps the loop invariant |
| PublicTree.QueueCovered | service/src/generatePublicTree.ts:40-46 | every queued slug still has a recorded cost after the push and the sort |
| PublicTree.VisitedGrows | service/src/generatePublicTree.ts:28 | emitting a note makes the set of public notes yet to visit smaller, the loop's measure |
| PublicTree.Walk | service/src/generatePublicTree.ts:14-47 | the loop ends on every graph, cycles included; it emits distinct public notes with their titles; only `HomePage` has no parent and cost 0; every other note's parent was emitted earlier, links to it, and its cost is the parent's plus the parent's step; nothing is emitted exactly when `HomePage` is missing or not public, and otherwise `HomePage` comes first; every public note an emitted note links to is emitted too |
| PublicTree.Emit | service/src/generatePublicTree.ts:27-46 | the loop body for a public unvisited note keeps the invariant and marks the note visited |
| PublicTree.CoveredSkip | service/src/generatePublicTree.ts:21-25 | taking off a non-public or visited slug keeps every public link of a visited note visited or queued |
| PublicTree.CoveredEmit | service/src/generatePublicTree.ts:27-46 | emitting the front note and queueing its non-empty links, in any order, keeps every public link of a visited note visited or queued |
| PublicTree.CoveredDone | service/src/generatePublicTree.ts:20 | once the queue is empty, every public note an emitted note links to has been emitted |
| PublicTree.RelaxedIs | service/src/generatePublicTree.ts:36-45 | the map the inner loop leaves is the relaxed map of the emitted note, at `thisCost` plus one weight per link entry |
| PublicTree.Slugs | service/src/generatePublicTree.ts:31 | the output's insertion order is the visit order |
| PublicTree.NodesOfKeys | service/src/generatePublicTree.ts:31-34 | exactly the visited notes have an output node |
| PublicTree.NodesOfAt | service/src/generatePublicTree.ts:31-34 | among distinct visits each visited note's node holds the title and parent of its visit |
| PublicTree.ChainEndsAtRoot | service/src/generatePublicTree.ts:30-42 | a parent chain ends at `HomePage` |
| PublicTree.ParentChain | service/src/generatePublicTree.ts:30-42 | every node has a finite parent chain, starting at the node and ending at `HomePage`, no longer than the node's position in the emission order |
| PublicTree.NodesArePublic | service/src/generatePublicTree.ts:22-34 | only public notes have nodes, each with the note's title, and there are none exactly when `HomePage` is not public |
| PublicTree.VisitOrderRooted | service/src/generatePublicTree.ts:30-34 | in emission order every node's parent comes before it and only the root has none |
| PublicTree.NodesOfClosed | service/src/generatePublicTree.ts:30-46 | the nodes of a closed walk contain every public note a node's note links to, and every node's parent links to it |
| PublicTree.PathInTree | service/src/generatePublicTree.ts:36-46 | when the nodes are closed under public links and hold `HomePage`, the end of every path of public notes from `HomePage` has a node |
| PublicTree.NodeReachable | service/src/generatePublicTree.ts:30-42 | when parents come first and link to their children, every node is reachable from `HomePage` through public notes |
| PublicTree.TreeIsReachable | service/src/generatePublicTree.ts:13-50 | such a tree holds exactly the notes reachable from `HomePage` by links through public notes |
| PublicTree.SortedKeys | service/src/generatePublicTree.ts:49 | the sorted keys are strictly ordered and are the same keys |
| PublicTree.GeneratePublicTree | service/src/generatePublicTree.ts:13-50 | the tree's ids are sorted and are exactly its nodes; only public notes appear, with their titles; the tree is empty exactly when `HomePage` is missing or not public; there is an order in which every parent comes before its child (so parent chains end at `HomePage`); every parent links to its child; and the nodes are exactly the notes reachable from `HomePage` through public notes |
| CreateIndex.RowsOfVisits | service/scripts/test_create_index.ts:26-38 | the rows of a walk are of distinct public notes, showing the title sliced to 64 UTF-16 code units, with the cost and parent at emission, the parent linking to the row's note, having an earlier row, and the cost being the parent's plus its links times the weight |
| CreateIndex.RowsReachable | service/scripts/test_create_index.ts:18-51 | every public note a row's note links to has a row, and the rows are exactly of the notes reachable from `HomePage` through public notes |
| CreateIndex.CreateIndexTable | service/scripts/test_create_index.ts:18-51 | one row per visited public note, the reported count is the number of rows, the rows are as `RowOk` says (each parent linking to its child), there are none exactly when `HomePage` is not public, otherwise `HomePage` comes first, and the rows are exactly of the notes reachable from `HomePage` through public notes |
| Sitegraph.LinksOf | service/src/generateSitegraph.ts:36-41 | one link per non-empty space-separated entry, none empty or holding a space, exactly the non-empty entries (targets outside the tree included) |
| Sitegraph.LinksOfJoin | service/src/generateSitegraph.ts:36-41 | space-joined non-empty ids come back as their links in order, duplicates kept |
| Sitegraph.Build | service/src/generateSitegraph.ts:28-44 | a node exactly for the ids other than `Recent` that have a document, each with that document's title and links |
| Sitegraph.GenerateSitegraph | service/src/generateSitegraph.ts:22-47 | the nodes are the tree's ids other than `Recent` that have a note, each with the note's title and non-empty links; no reachability filtering, nothing modified |
| Sitegraph.GenerateSitegraphOf | lib/generateSitegraph.ts:21-47 | the same over the given ids and the documents the repository finds |
| Fringe.BeforeHash | lib/generatePublicIndex.ts:47 | a prefix of the piece holding no `#`, ending just before the first `#`, and the whole piece when it has none |
| Fringe.Targets | lib/generatePublicIndex.ts:45-48 | no target is empty or holds a space, and when targets are cut none holds `#` |
| Fringe.TargetIsPiece | lib/generatePublicIndex.ts:45-48 | every target is the non-empty (cut) form of some space-separated piece of `links` |
| Fringe.PieceIsTarget | lib/generatePublicIndex.ts:45-48 | every piece whose (cut) form is non-empty is a target |
| Fringe.DropHeading | lib/generatePublicIndex.ts:33 | a leading `#` followed by white space loses the `#` and the whole run of white space; any other title is unchanged |
| Fringe.CleanTitle | lib/generatePublicIndex.ts:33 | no `*`, `[` or `]` is left in the node title, and it is no longer than the document's title |
| Fringe.CleanTitleShape | lib/generatePublicIndex.ts:33 | a cleaned title holds no `*`, `[` or `]` and only characters of the title; a title with nothing to remove is unchanged |
| Fringe.ChildItems | lib/generatePublicIndex.ts:49-60 | the pushed entries are exactly one per unvisited target, each with the document as parent and cost base plus link cost (10000 for the sink, 1 otherwise) |
| Fringe.PushTargets | lib/generatePublicIndex.ts:50-60 | the loop appends to the fringe exactly the entries `ChildItems` describes |
| Fringe.AttachedAt | lib/generatePublicIndex.ts:31-42 | the new node has no children, the parent's node gets the new id appended at the end, every other node is unchanged |
| Fringe.CrawlInit | lib/generatePublicIndex.ts:6-12 | the start entry at cost 0, nothing visited and no nodes satisfy the loop invariant |
| Fringe.CrawlDone | lib/generatePublicIndex.ts:14 | with the fringe empty, the nodes form a tree rooted at the start, the start has a node iff it has a document, and every document a node links to has a node |
| Fringe.SortStep | lib/generatePublicIndex.ts:15-17 | sorting the fringe by cost keeps the loop invariant |
| Fringe.SkipVisited | lib/generatePublicIndex.ts:22-25 | dropping an entry for a visited id keeps the loop invariant |
| Fringe.SkipMissing | lib/generatePublicIndex.ts:26-30 | marking visited an id with no document keeps the loop invariant without a new node |
| Fringe.VisitedGrows | lib/generatePublicIndex.ts:26 | visiting a new id shrinks the set of ids still to visit, so the loop ends |
| Fringe.EmitNodes | lib/generatePublicIndex.ts:31-42 | making the node and appending it to its parent's children keeps the tree: titles cleaned, children the later nodes with that parent in order, every parent linking to its child at the recorded cost |
| Fringe.EmitFringe | lib/generatePublicIndex.ts:45-60 | after the push every entry is well-formed and every target of a node is visited or queued |
| Fringe.EmitStep | lib/generatePublicIndex.ts:26-60 | visiting a document keeps the whole loop invariant |
| Fringe.TurnSkip | lib/generatePublicIndex.ts:15-25 | a turn that finds a visited id keeps the invariant and shortens the fringe |
| Fringe.TurnMissing | lib/generatePublicIndex.ts:15-30 | a turn that finds an id without a document keeps the invariant and visits one more id |
| Fringe.TurnEmit | lib/generatePublicIndex.ts:15-60 | a turn that finds a document keeps the invariant and visits one more id |
| PublicIndex.CrawlTurn | lib/generatePublicIndex.ts:14-61 | one loop turn keeps the invariant, looks each id up at most once, and either visits a new id or shortens the fringe |
| PublicIndex.GeneratePublicIndex | lib/generatePublicIndex.ts:5-64 | the nodes form the cost-ordered tree from `HomePage`; the result holds the `HomePage` node exactly when `HomePage` has a document; no id is looked up twice |
| CrawlPublic.DocumentCache.GetDocument | scripts/crawl-public.mjs:9-28 | an id is marked indexed and handed to the indexer only the first time it is asked for; the read throws exactly when a new id has no file at `HEAD`, after the id was marked and with the document map unchanged; otherwise the result is the stored document of the id, if any |
| CrawlPublic.TurnFrontInUniverse | scripts/crawl-public.mjs:37-50 | the id a turn takes off is the home id or a link target of a stored page |
| CrawlPublic.Visit | scripts/crawl-public.mjs:49-82 | marking the looked-up id visited, and emitting its node and pushing its targets when it has a document, keeps the invariant and visits one more id |
| CrawlPublic.CrawlTurn | scripts/crawl-public.mjs:37-82 | when the lookup throws, the turn reports the unvisited id without a file, which is the home id or a link target, as the last id handed to the indexer; otherwise one loop turn keeps the invariant, with the cache's indexed ids equal to the visited ones, and visits a new id or shortens the fringe |
| CrawlPublic.IndexedLast | scripts/crawl-public.mjs:19-28 | appending the id that threw, which had no file, keeps the indexed ids free of duplicates |
| CrawlPublic.Crawl | scripts/crawl-public.mjs:30-97 | no id is indexed twice; when every id looked up has a file, the nodes form the tree from the home note with targets kept whole and every indexed id had a file, and the home note's node is written when it has a document, while otherwise the write of `undefined` throws and nothing is written; when an id has no file, the script stops at the first such id, the home id or a link target of a stored page, and writes nothing |
| Sidebar.Children | src/sidebar.js:31-39 | one entry per document, in order, with its title as label and its id as id and note id |
| Sidebar.Label | src/sidebar.js:43 | the name, ` (`, the decimal digits of the count and `)` |
| Sidebar.Backlinks | src/sidebar.js:13 | exactly the documents whose links contain the id as a substring |
| Sidebar.Linked | src/sidebar.js:14-17 | exactly the documents whose id is one of the space-separated entries of the note's links |
| Sidebar.Similar | src/sidebar.js:21-27 | at most one document per search result; each is the document of a result id that is not a backlink's, and every such result id with a document has its document among them |
| Sidebar.SimilarInResultOrder | src/sidebar.js:21-27 | the similar documents are, one for one and in result order, the documents of the result ids left once backlinks and ids without a document are filtered out |
| Sidebar.IdsOf | src/sidebar.js:20 | exactly the ids of the backlink documents |
| Sidebar.BacklinksGroup | src/sidebar.js:41-46 | group `backlinks`, open, labelled with its size, holding an entry for exactly the documents linking to the id |
| Sidebar.SimilarGroup | src/sidebar.js:47-52 | group `similar`, open, labelled with its size, no larger than the results; its entries are exactly the entries of the documents of non-backlink results that have a document |
| Sidebar.LinksGroup | src/sidebar.js:53-58 | group `links`, open, labelled with its size, holding an entry for exactly the linked documents |
| Sidebar.GetSidebar | src/sidebar.js:6-60 | a missing or empty id gives no groups; otherwise exactly the backlinks, similar and links groups in that order, a missing document linking nowhere |
| Sidebar.PrefixIdIsBacklink | src/sidebar.js:13 | a note linking to `FooBar` is a backlink of `Foo` |
| Sidebar.MissingLinksNothing | src/sidebar.js:14-17 | a note without a document links to no document with a non-empty id |
| RenamePlan.AliasesAfter | src/serverV2.ts:66-67 | the renamed note's distinct names other than `to`, each once |
| RenamePlan.PlanRename | src/serverV2.ts:58-89 | echoes `from` and `to`, plans the operations of every entry in map order, exactly one rename when `from` has a document and none otherwise, and a link update for every note whose links hold `from` |
| RenamePlan.PlanOperation | src/serverV2.ts:64-82 | every planned operation is for an id of the map: a rename only of `from` to `to` with its aliases, a link update only of a note linking to `from` |
| RenamePlan.PlanUpdates | src/serverV2.ts:75-81 | every note whose links hold `from` gets a link update, `from` itself included |
| RenamePlan.RenamesAppend | src/serverV2.ts:63 | the renames of two operation lists add up |
| RenamePlan.OwnRenames | src/serverV2.ts:65-74 | one entry adds a rename exactly when its id is `from` |
| RenamePlan.PlanRenamesOnce | src/serverV2.ts:64-74 | over distinct ids a plan renames once when `from` is among them and never otherwise |
| TarSources.Sources | src/workers/publish.ts:82-99 | the source map is a well-formed ordered map with no more keys than entries, none of them the empty id |
| TarSources.SourcesOutcome | src/workers/publish.ts:82-99 | the sources are keyed by exactly the non-empty ids the indexer gives some accepted entry, each with the contents of the last such entry |
| TarSources.SourceOf | src/workers/publish.ts:82-99 | each key is non-empty and holds the contents of the last entry with that id |
| TarSources.SourceKept | src/workers/publish.ts:82-99 | every entry with a non-empty id leaves that id among the keys |
| TarSources.LastWithExtends | src/workers/publish.ts:82-99 | an entry that is the last with its id stays so when a final entry with another id is added |
| PublishDiff.Diff | src/workers/publish.ts:141-154 | uploads are the sources whose hash differs from the stored one, deletions the stored ids without a source, disjoint; the new files map exactly the sources to their hashes, and equal the old files iff nothing is uploaded or deleted |
| PublishDiff.HashSources | src/workers/publish.ts:141-148 | the uploads are the sources whose stored hash differs; each source's hash is set; other files kept |
| PublishDiff.HashingOutcome | src/workers/publish.ts:141-148 | the fold over the source ids uploads exactly the changed ones and hashes exactly them |
| PublishDiff.DropGone | src/workers/publish.ts:149-154 | the deletions are exactly the stored ids without a source, each removed, the rest kept |
| PublishDiff.DroppingOutcome | src/workers/publish.ts:149-154 | the fold over the stored ids deletes exactly those without a source |
| PublishDiff.DiffOutcome | src/workers/publish.ts:141-154 | uploads and deletions never meet, the new files are exactly the hashed sources and differ from the old iff something changes |
| PublishDiff.ShouldSave | src/workers/publish.ts:175-180 | the state is stored exactly when its files changed |
| PublishDiff.Reconcile | src/workers/publish.ts:117-180 | the plan's uploads, deletions and new state as in `Diff`, stored exactly when something is uploaded or deleted |
| PublishEsm.Listed | src/workers/publish.mjs:53-54 | a path matching `/^[^/]+\.md$/` is top-level, so the newer worker's base-name filter takes every entry this one does |
| PublishEsm.LoadPublicNotes | src/workers/publish.mjs:53-73 | the sources are those of the accept loop over top-level `*.md` files |
| PublishEsm.NestedNotListed | src/workers/publish.mjs:53-54 | a note in a sub-directory is not listed here, while the newer worker lists it |
| PublishEsm.Publish | src/workers/publish.mjs:91-138 | the sources of the tarball and the reconciliation of them with the stored state |
| PublishWorker.LoadPublicNotes | src/workers/publish.ts:65-105 | a fresh engine indexes the listed entries in tarball order; the loop stops at the first listed entry on which gray-matter throws, and reports it; the sources are those of the accept loop over the entries before it (all of them when none throws), and the engine's redirects those of the accepted files |
| PublishWorker.LoadEntry | src/workers/publish.ts:82-92 | one loop turn throws exactly when the entry is listed and gray-matter throws on it, and then changes neither map; otherwise it adds the accepted entry to the sources and its aliases to the redirects, one step of the accept loop |
| PublishWorker.FirstWhere | src/workers/publish.ts:82-87 | the index found is the first one whose entry satisfies the predicate; none found means no entry does |
| PublishWorker.FirstThrowing | src/workers/publish.ts:82-87 | the entry found is the first listed one on which gray-matter throws; none found means the indexer throws on no entry |
| PublishWorker.FirstWhereAt | src/workers/publish.ts:82-87 | an entry satisfying the predicate with none before it is the one found |
| PublishWorker.FirstWhereStep | src/workers/publish.ts:82-87 | an entry not satisfying the predicate, after a prefix with none found, extends that prefix with none found |
| PublishWorker.ListedBaseName | src/workers/publish.ts:77-80 | a top-level `*.md` path is its own base name and passes the base-name filter |
| PublishWorker.ListedId | src/workers/publish.ts:77-89 | the id of a listed entry is its base name without `.md` and is never empty, so only files the indexer turns away are dropped |
| PublishWorker.LastComponentOfName | src/workers/publish.ts:78 | a name without `/` is its own base name |
| PublishWorker.GenerateRedirect | src/workers/publish.ts:207-217 | the redirect file is `---`, `public: true`, `redirect_to: ` with the quoted target, `---` and `Redirect to [to](to)`, joined by newlines |
| PublishWorker.RedirectSplitsBack | src/workers/publish.ts:207-217 | a redirect file splits back into its five lines: public front matter naming the quoted target, then a link to it |
| PublishWorker.AddRedirects | src/workers/publish.ts:126-130 | the redirect loop computes the map `WithRedirects` describes |
| PublishWorker.WithRedirectsOutcome | src/workers/publish.ts:126-130 | every note keeps its contents and place, an alias that is no note maps to the redirect file of its target, nothing else is added |
| PublishWorker.FirstLowered | src/workers/publish.ts:132-140 | the id found lower-cases to the key and differs from it; none found means no id does |
| PublishWorker.FirstLoweredIsFirst | src/workers/publish.ts:132-140 | no earlier id lower-cases to the key from something else |
| PublishWorker.AddLowercaseRedirects | src/workers/publish.ts:132-140 | the loop over the key snapshot computes the map `WithLowercase` describes |
| PublishWorker.WithLowercaseOutcome | src/workers/publish.ts:132-140 | every key keeps its contents and place, a free lower-case form maps to the redirect file of the first id lowering to it, every differing lower-case form is present, nothing else is added |
| PublishWorker.Publish | src/workers/publish.ts:117-180 | when gray-matter throws on a listed entry, main ends with no plan: nothing is uploaded, deleted or saved; otherwise the files to publish are the notes plus alias and lower-case redirects, reconciled with the stored state as in `PublishDiff.Reconcile` |
| SyncPlans.Select | service/scripts/publish.ts:26-35 | the loop keeps exactly the keys the test accepts, in order |
| SyncPlans.Differences | service/scripts/publish.ts:24-35 | the uploads are the local keys the remote lacks or disagrees on, in local order; the deletions the remote keys without a local value, in remote order |
| SyncPlans.DifferencesOutcome | service/scripts/publish.ts:24-35 | an upload exactly for each local key whose remote value is missing or differs, a deletion exactly for each remote key gone locally, each once, never both |
| SyncPlans.Upserts | service/scripts/publish.ts:41-58 | no more upserts than ids |
| SyncPlans.UpsertsOutcome | service/scripts/publish.ts:41-58 | an upsert exactly for each id fetched with a note and a non-empty source, carrying that source and the note's version |
| SyncPlans.UploadNotes | service/scripts/publish.ts:41-58 | the upload loop makes the upserts `Upserts` describes |
| SyncPlans.SyncNoteContents | service/scripts/publish.ts:13-67 | the remote rows become a map, the outdated notes are fetched and upserted, the gone ones deleted |
| SyncPlans.SyncSearchKeys | service/scripts/publish.ts:87-132 | the same comparison over search keys and their note ids |
| CompileQueue.StaleIds | service/scripts/publish.ts:144-153 | no more ids than rows |
| CompileQueue.FindNotesToCompile | service/scripts/publish.ts:136-154 | the loop returns the ids of the stale rows in row order |
| CompileQueue.Selected | service/scripts/publish.ts:145-152 | an id is selected exactly when some row of it was compiled by another compiler version or from another source version |
| CompileQueue.Compiled | service/scripts/publish.ts:156-174 | the written-back row keeps its id and source version and is no longer stale |
| CompileQueue.CompiledNothingLeft | service/scripts/publish.ts:176-180 | once every row is compiled by the current version, nothing is left to compile |
| CompileQueue.VersionsDisagree | service/scripts/publish.ts:134 | a row compiled by version `2` is stale for the static site's version `6`, and the other way round |
| StaticSite.FindNotesToCompile | service/scripts/generate_static_site.ts:43-63 | exactly the ids of the rows stale for compiler version `6`, no more ids than rows |
| StaticSite.Pages | service/scripts/generate_static_site.ts:128-149 | at most two writes per note |
| StaticSite.PagesCover | service/scripts/generate_static_site.ts:128-149 | every note of the tree with compiled output gets its `<id>.html` page, and `HomePage` also `index.html` |
| StaticSite.PagesOnlyTree | service/scripts/generate_static_site.ts:128-149 | every page written is one of a note of the tree with compiled output |
| StaticSite.PagesTask | service/scripts/generate_static_site.ts:120-152 | the pages of the tree's notes, then `404.html` last |
| StaticSite.Sitemap | service/scripts/generate_static_site.ts:161-171 | `sitemap.txt` is empty exactly when the tree has no nodes, and holds the page URL of every node id |
| StaticSite.SitemapLines | service/scripts/generate_static_site.ts:161-171 | over ids without newlines the sitemap splits back into one page URL per id, in order |
| StaticSite.UrlWithoutNewline | service/scripts/generate_static_site.ts:167 | a page URL of an id without newline has none |
| StaticSite.EmptySitemap | service/scripts/generate_static_site.ts:161-171 | a tree without nodes gives an empty sitemap |
| StaticSite.TargetRun | service/scripts/generate_static_site.ts:211 | the longest run of characters other than `)` and white space |
| StaticSite.TitleEnd | service/scripts/generate_static_site.ts:211 | the first position where `](target)` follows, with no line terminator before it; none when a line ends first |
| StaticSite.MatchAt | service/scripts/generate_static_site.ts:211 | a match ends after it starts and within the text |
| StaticSite.MatchText | service/scripts/generate_static_site.ts:210-212 | a match spans exactly `- `, the date, `: [`, the title, `](`, the target and `)` |
| StaticSite.SevenPieces | service/scripts/generate_static_site.ts:211 | a slice cut at six points is its seven pieces |
| StaticSite.MatchParts | service/scripts/generate_static_site.ts:211 | the date has the `dddd-dd-dd` shape, the target is non-empty without `)` or white space, the title is one line and the shortest the rest follows |
| StaticSite.ItemsFrom | service/scripts/generate_static_site.ts:210-212 | every item is the match at a line start |
| StaticSite.RssItems | service/scripts/generate_static_site.ts:209-226 | the feed gets the first 20 matches, in source order |
| StaticSite.CloseTagAt | service/scripts/generate_static_site.ts:184 | the position found holds `</lastBuildDate>` |
| StaticSite.DropBuildDate | service/scripts/generate_static_site.ts:184 | the normaliser either leaves the feed as it is or removes one stretch running from an opening `<lastBuildDate>` through a closing tag |
| StaticSite.DropBuildDateNoTag | service/scripts/generate_static_site.ts:184 | a feed without an opening `<lastBuildDate>` is left unchanged |
| StaticSite.DropBuildDateOf | service/scripts/generate_static_site.ts:184 | the normaliser removes the first one-line build-date element and keeps the rest |
| StaticSite.UpdateFile | service/scripts/generate_static_site.ts:250-260 | the file is written exactly when the normal forms of the old and new content differ, and then with the new content as it is, not normalised |
| StaticSite.UpdateFileSettles | service/scripts/generate_static_site.ts:250-260 | a second update with the same content, on the file the first left, writes nothing |
| StaticSite.FeedRewrite | service/scripts/generate_static_site.ts:250-260 | `recent.xml` is rewritten exactly when the feeds differ outside their build dates |
| StableSort.SortBy | lib/generatePublicIndex.ts:15-17 | a sorted permutation of the input by the key |
| StableSort.SortByIsStable | lib/generatePublicIndex.ts:15-17 | entries of equal cost keep their order, as the engine's stable sort does |
| StableSort.SortByHead | lib/generatePublicIndex.ts:15-18 | the entry taken off first is the earliest one of least cost |
| Utf16.Slice | service/src/indexNote.ts:62 | `slice(0, n)`: the longest prefix of the string whose encoding takes at most `n` code units |
| Utf16.SliceAsJavaScript | service/src/indexNote.ts:62 | the slice encodes to the first `n` code units of the string (all of them when it is shorter), except when the cut falls inside a surrogate pair, where it stops one code unit short |
| Utf16.CodeUnitsInjective | service/src/generatePublicTree.ts:49 | different strings have different UTF-16 encodings |
| StringOrder.SortStrings | service/src/generatePublicTree.ts:49 | the distinct keys, strictly increasing in the code unit order of `Array.prototype.sort`, a permutation of the input |
| StringOrder.AstralSortsBySurrogate | service/src/generatePublicTree.ts:49 | U+1F600 sorts before U+FF61, because its high surrogate 0xD83D is below 0xFF61 |
| StringOrder.LessTotal | service/src/generatePublicTree.ts:49 | any two different strings are ordered one way or the other |
| StringOrder.LessTransitive | service/src/generatePublicTree.ts:49 | the string order is transitive |

## Left out

- **I/O is not modelled.** Each source becomes a value, parameter or sequence of entries, and each side effect becomes part of the result. This covers:
  - the file system, tar parsing, octokit and the storage bucket;
  - Supabase queries and updates, and `git`/`rsync` shell calls;
  - the RSS XML document, `prettier`, `new URL` and `Date`;
  - console logging and `printToc`.
- **Foreign libraries are uninterpreted function parameters:** markdown link and text extraction, gray-matter front matter, MiniSearch search and ranking, `stemmer`, SHA-1, `JSON.stringify` and `String.prototype.toLowerCase`. The JSON escaping inside `generateRedirect` is therefore an abstract `quote`.
- **Concurrency is not modelled.** The DataLoader batching, the timer and the mutex of `NotesManager`, and the `pMap` concurrency of the publish scripts, are absent. Each pass and loop is sequential, in source order.
- **Floating-point costs:** the 0.001 and 0.5 weights are exact scaled integers, so binary rounding of sums is not captured.
- **Object key order:** JavaScript lists integer-like keys of a plain object first. The model keeps insertion order for the objects that `Object.keys` iterates.
- **The `hashMap` of both publishing workers** is written and never read, so it is not modelled.
- **The indexer called by `src/workers/publish.mjs` and `scripts/crawl-public.mjs`** is an abstract function from path and contents to an optional id, and an abstract store of public documents, and it never throws. The `lib/indexer.js` that these files import does not return an id, and these files pass it an object `{ minisearch, documentMap }` while it calls `searchEngine.add` and `searchEngine.remove` on that argument, so the call as written would fail.
- **The tail of `src/workers/publish.ts` main (lines 182-201)** reads `.indexData` and `.ids`, which `generatePublicIndex` does not return. It is not modelled.
- **The upserts of `syncSearchKeys`:** only the key lists are modelled, not the row contents written.
- **Uploads, deletions and state writes** of the publishing workers are not performed. They are returned as the plan.
- **`generateHtml` rendering** is an abstract `render` function. The feed item descriptions and the HTML from the compiled notes are not modelled.
- **The content of the tree, index and sitegraph JSON files, `CNAME` and `.nojekyll`** written by the static site generator is not modelled; only the decisions about pages, sitemap and `recent.xml` are.
- **`Sitegraph`:** the optional `displayText` of a link and `description` of a node are not fields of the model's datatypes, because neither builder sets them.
- **`PublicIndex.GeneratePublicIndex` and `CrawlPublic.Crawl`:**
  - They do not state the cost order in which nodes are visited. They state the tree shape, the recorded costs, and which ids have nodes.
  - Children are named by id and resolved in the returned node map; the model does not build nested objects.
- StaticSite.UpdateFile: the old content of `recent.xml` is a parameter. The throw of `readFileSync` when the file does not exist yet is not modelled.
- LegacyIndexer.MiniSearch.Add: it models an `add` that accepts an id the index already holds, adding a second entry. MiniSearch releases that reject a duplicate id throw there instead; that throw is not modelled.
- TextRules.Excerpt: where `slice(0, 256)` cuts through a surrogate pair, JavaScript keeps the pair's high half. A string of Unicode scalars cannot hold a lone surrogate, so the model stops before the pair, one code unit short.
- CreateIndex.RowsOfVisits: the same holds for the 64-code-unit title cut of each row.
- PublicTree.Walk, PublicTree.GeneratePublicTree and CreateIndex.CreateIndexTable: the recorded cost of each note is the cost along its parent chain, but it is not proved to be the least cost over all paths to the note. The stable sort by recorded cost, which is what makes the walk a uniform-cost search, is modelled and not reasoned about.
- **`StaticSite.RssItems`:** the `matchAll` regular expression is a purpose-written matcher, not a general regex engine. It covers multi-line `^`, the lazy `.*?` (which does not cross line terminators) and the greedy `[^)\s]+`.
- **`StaticSite.DropBuildDateOf`:** the normaliser is proved only for feeds of the shape the generator writes. That shape has no `<lastBuildDate>` before the real one and a one-line date.

## Findings

| source | as written | input that shows it | evidently intended | confidence | as-written member | corrected member |
|---|---|---|---|---|---|---|
| lib/indexer.js:34-43 | the document map taken from the `WeakMap` for an engine is, when missing, replaced by a new `Map` that is never stored back, so every call sees an empty map and never removes the earlier document from the engine | indexing the same file twice into one new engine leaves two search entries for its id, given a MiniSearch `add` that accepts an id it already holds (releases that reject a duplicate id throw on the second call instead) | store the map back (`searchEngineToDocumentMap.set(searchEngine, documentMap)`) so re-indexing replaces the entry | not executed | LegacyIndexer.ReindexAsWritten | LegacyIndexer.ReindexCorrected |
