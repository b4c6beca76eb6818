# PDFolio-Engine: the folder synchroniser and the query normaliser

PDFolio-Engine keeps a knowledge base of HTML documents and searches it.
Each `.html`/`.htm` file under an HTML root is rendered to a mirrored PDF
under a PDF root. Its plain text is kept in a SQLite table `documents`,
paired with a full-text index `documents_fts`. Search turns a free-text
query into a prefix query for that index.

This project models two parts of the system, with proofs:

- **The synchroniser** (`app/services/indexer.py`). A pass fingerprints
  every scanned file. It skips files whose stored fingerprint matches, and
  renders, extracts and upserts the rest. It then deletes records whose
  file has gone, and returns `IngestStats`.
  - `catalog.dfy` (module `Catalog`) holds the two tables as values: the
    record map from `html_path` to its row, the index map from id to text,
    and the next id to hand out. It defines what each step does
    (`Upserted`, `Pruned`, `Step`, `ScanFiles`, `Synced`, `Ingested`) and
    proves the properties of the pass as lemmas.
  - `indexer.dfy` (module `Indexer`) is the synchroniser as it runs: a
    class `Store` whose methods update the three fields in place, and the
    pass itself as a method with a loop and counters. Each method is
    proved to produce exactly the state and results of its function in
    `Catalog`.
  - New record ids come from a counter that never goes back. This is the
    corrected allocation of the finding below. The program as written
    takes SQLite's rowid, which is one more than the largest id present
    (`Catalog.NextRowid`). The two agree until the record with the largest
    id is deleted.
  - `paths.dfy` (module `Paths`) covers the path strings the pass uses:
    pathlib's `name`, `suffix` and `with_suffix`, the case-insensitive
    `.html`/`.htm` filter, and the PDF path derived from a relative path.
- **The query normaliser** (`app/services/searcher.py`), in `searcher.dfy`
  (module `Searcher`). `_normalize_query` has a specification function
  and a method with the source's token loop. `search` is modelled down to
  its empty-query short-circuit. The SQL query is a parameter.

What the pass sees of the outside world is a `World` value. It holds the
fingerprint of each file (`_sha256`), the text extracted from it
(`read_text` then `extract_text`), whether rendering it succeeds
(`html_to_pdf`), and the timestamp read by the upsert of the k-th scanned
file.

The scan is given as the sorted listing of files below the HTML root,
relative to it. A failed render raises out of the connection's `with`
block, which rolls the whole pass back. The model returns that as
`RenderFailed` with the store as it was before the pass.

The pairing invariant `Catalog.Valid` says:

- the index has one entry per record id and no other;
- each entry holds its record's text;
- ids identify records;
- ids lie between 1 and the next id.

## Model

The pass lemmas are stated for `Synced`, over the filtered files.
`Ingested` is `Synced` over `Paths.HtmlFiles(listing)` with the PDF paths
of `Paths.PdfPath`, so each lemma applies to the pass that
`Indexer.IngestHtmlFolder` runs.

| member | source | states |
|---|---|---|
| Indexer.Store.Upsert | app/services/indexer.py:52-94 | The store's new tables and the returned flag are exactly `Catalog.Upserted` of the old tables: skip, insert under the counter's next id (the corrected allocation, see "## Findings"), or update in place. |
| Indexer.Store.Delete | app/services/indexer.py:102-103 | Deleting a row and its index entry leaves the store equal to evicting that one path. |
| Indexer.Store.RemoveMissing | app/services/indexer.py:97-105 | The loop over the fetched rows leaves the store and the count exactly `Catalog.Pruned` of the old store. |
| Indexer.Store.Restore | app/services/indexer.py:117 | The rollback of the pass's transaction puts back the saved tables. |
| Indexer.Store.constructor | app/services/indexer.py:21-41 | A fresh database has empty tables and ids starting at 1, and satisfies the pairing invariant. |
| Indexer.ScanFile | app/services/indexer.py:119-145 | One loop iteration (fingerprint check, render, extract, upsert, counters) produces exactly `Catalog.Step` of the pass so far. |
| Indexer.IngestHtmlFolder | app/services/indexer.py:108-150 | The pass's final store, outcome and rendered files are exactly `Catalog.Ingested` of the old store and the listing, including the rollback on a failed render. |
| Indexer.RemoveStep | app/services/indexer.py:100-104 | One iteration of the delete loop: a row whose path is missing is evicted and counted; any other row is left alone. |
| Catalog.Valid | app/services/indexer.py:24-41 | The pairing the schema sets up: the index has one entry per record id (`content_rowid='id'`) and no other, each holding its record's `extracted_text`. Ids are primary keys: each identifies one record, and all lie between 1 and the next id. |
| Catalog.InSync | app/services/indexer.py:66 | The fingerprint test `row is not None and row[...] == sha256`: a record is stored for the path and holds that fingerprint. The loop makes the same test at app/services/indexer.py:128. |
| Catalog.Upserted | app/services/indexer.py:52-94 | `_upsert_document` on the tables. A stored record with the same fingerprint gives the tables unchanged and false. A new path gets a record under the counter's next id and an index entry for that id, and the counter moves on; the program as written takes SQLite's rowid instead (see "## Findings"). A known path keeps its id, takes the new fields and gets its index entry replaced. Both write cases report true. |
| Catalog.Evict | app/services/indexer.py:102-103 | Deleting the records of a set of paths, and the index entries of their ids. |
| Catalog.Pruned | app/services/indexer.py:97-105 | `_remove_missing`: every stored path not in `existing` is evicted, and the count is the number of such paths. |
| Catalog.PdfOf | app/services/indexer.py:120-121 | The PDF path of a relative path under a PDF root. |
| Catalog.Step | app/services/indexer.py:119-145 | One iteration: a matching stored fingerprint counts a processed skip. Otherwise the file is rendered: a failed render stops the pass at this file; a successful one upserts the extracted text, counts processed and, when the upsert reports a change, updated. |
| Catalog.ScanFiles | app/services/indexer.py:115-145 | The loop: counters from 0, then one `Step` per file in order. |
| Catalog.Existing | app/services/indexer.py:113 | `existing`: the source paths of the scanned files. |
| Catalog.Synced | app/services/indexer.py:115-148 | The pass inside the connection's `with` block: a failed render rolls every change back and reports the file. Otherwise `_remove_missing` runs on the loop's result over `existing`, and the four counts are returned. |
| Catalog.Ingested | app/services/indexer.py:108-150 | `ingest_html_folder`: `Synced` over the listed files that pass the HTML filter, with PDF paths under the PDF root. |
| Catalog.Stale | app/services/indexer.py:128-131 | A reference definition: the source paths, in scan order, whose stored fingerprint is absent or different. |
| Catalog.UpsertSkips | app/services/indexer.py:60-67 | A stored record with the same fingerprint: both tables unchanged and the call reports false. |
| Catalog.UpsertInserts | app/services/indexer.py:69-77 | A new path gets a new record under an id no record has, with the given fields and one index entry holding the text. All other records and entries are kept, and the call reports true. |
| Catalog.UpsertUpdates | app/services/indexer.py:78-94 | A known path with a new fingerprint keeps its id and takes the new PDF path, fingerprint, text and timestamp. Its index entry is replaced by one with the new text. Other records and entries and the next id are kept, and the call reports true. |
| Catalog.UpsertPreservesValid | app/services/indexer.py:88-93 | Every upsert keeps the record table and the index paired. |
| Catalog.InsertPreservesValid | app/services/indexer.py:69-77 | Adding a record under the next id, with its index entry, keeps the pairing. |
| Catalog.ReplacePreservesValid | app/services/indexer.py:78-93 | Replacing a record under its own id, together with its index entry, keeps the pairing. |
| Catalog.IdsUpdate | app/services/indexer.py:69-94 | Inserting a record at a new path adds exactly its id to the id set; rewriting a stored path under the same id leaves the id set unchanged. These are the only writes `_upsert_document` makes. |
| Catalog.PruneRemovesMissing | app/services/indexer.py:97-105 | Pruning keeps exactly the records whose path is in `existing`, each unchanged. It drops the index entries of the others. The count it returns is the number of records dropped, and the next id is unchanged. |
| Catalog.PrunePreservesValid | app/services/indexer.py:102-103 | `_remove_missing` keeps the pairing. |
| Catalog.EvictPreservesValid | app/services/indexer.py:102-103 | Deleting whole records together with their index entries keeps the pairing. |
| Catalog.EvictOneMore | app/services/indexer.py:100-104 | Deleting paths one after another is the same as deleting them all at once. |
| Catalog.EvictNothing | app/services/indexer.py:100-104 | Deleting no paths changes nothing. |
| Catalog.StepSkips | app/services/indexer.py:128-131 | A file whose stored fingerprint matches: one more processed and skipped, nothing else changes. |
| Catalog.StepFails | app/services/indexer.py:133 | A stale file whose render fails stops the pass at that file. |
| Catalog.StepUpserts | app/services/indexer.py:133-145 | A stale file that renders is upserted with its extracted text. It is counted as processed, and as updated when the upsert reports a change, and it joins the rendered files. |
| Catalog.ScanFilesSnoc | app/services/indexer.py:119 | One more file in the listing is one more iteration of the loop. |
| Catalog.ScanFailureSticks | app/services/indexer.py:117-133 | Once a render has failed, the remaining files change nothing. |
| Catalog.ScanFailureRendered | app/services/indexer.py:133 | A failed pass names the last file it handed to the renderer. |
| Catalog.ScanCounts | app/services/indexer.py:115-145 | A completed loop has `processed == len(files) == updated + skipped`, and `updated` equals the number of rendered files. |
| Catalog.StepPreservesValid | app/services/indexer.py:119-145 | One iteration keeps the pairing. |
| Catalog.ScanPreservesValid | app/services/indexer.py:119-145 | The loop keeps the pairing. |
| Catalog.ExistingPrefix | app/services/indexer.py:113 | The scanned path set grows by one path per file. |
| Catalog.ScanFrame | app/services/indexer.py:119-145 | The loop touches no record whose path it does not scan. |
| Catalog.ScanKeepsSynced | app/services/indexer.py:128-131 | A record whose stored fingerprint matches is never rewritten. |
| Catalog.ScanKeys | app/services/indexer.py:119-145 | After a completed loop, the stored paths are the old ones plus the scanned ones. |
| Catalog.ScanSyncs | app/services/indexer.py:119-145 | After a completed loop, every scanned path's record holds that file's current fingerprint. |
| Catalog.ScanAllSynced | app/services/indexer.py:128-131 | Over files whose records all match, the loop only counts skips and renders nothing. |
| Catalog.DistinctNotInPrefix | app/services/indexer.py:110-113 | With distinct relative paths, the last file's source path is not among the earlier ones. |
| Catalog.ScanRendersStale | app/services/indexer.py:128-135 | Over distinct files, a completed loop renders and extracts exactly the files whose stored fingerprint is absent or different, each once, in scan order. |
| Catalog.StepGrows | app/services/indexer.py:69-94 | An iteration drops no path. A kept path keeps its id, a new path's id is at least the old next id, and the next id does not go back. |
| Catalog.GrowsTransitive | app/services/indexer.py:119-145 | What `Grows` says is preserved across consecutive iterations. |
| Catalog.ScanIdsStable | app/services/indexer.py:119-145 | Over the whole loop, records keep their ids and new records get ids at or above the old next id. |
| Catalog.PruneAfterScan | app/services/indexer.py:147 | Pruning the loop's result to the scanned paths leaves exactly those paths, and counts the old paths that were not scanned. |
| Catalog.PruneNothing | app/services/indexer.py:97-105 | Pruning a store that holds only existing paths changes nothing and counts 0. |
| Catalog.GrowsPruned | app/services/indexer.py:97-105 | Stable ids survive the pruning. |
| Catalog.SyncCounts | app/services/indexer.py:115-147 | A completed pass has `processed == len(html_files) == updated + skipped`. Every non-skipped file is upserted with a change, so `updated` is the number of rendered files. |
| Catalog.ScanFailedInFiles | app/services/indexer.py:119-133 | A failing file is one of the scanned files. |
| Catalog.SyncFailureRollsBack | app/services/indexer.py:117-133 | A failed render aborts the pass: the store is as before the pass, and the failing file is one of the scanned files and the last one rendered. |
| Catalog.SyncMirrorsFolder | app/services/indexer.py:110-113 | After a completed pass the stored paths are exactly `existing`. `removed` counts the previously stored paths that were not found. |
| Catalog.SyncPreservesValid | app/services/indexer.py:117-148 | A pass, completed or failed, keeps the record table and the index paired. |
| Catalog.ScanNeverRendersSynced | app/services/indexer.py:128-135 | A file whose stored fingerprint matches is never rendered or extracted by the loop, whether it completes or stops at a failed render, and whether or not files repeat. |
| Catalog.SyncNeverRendersSynced | app/services/indexer.py:115-148 | A pass, completed or rolled back, never renders or extracts a file whose stored fingerprint matches. |
| Catalog.SyncRendersStale | app/services/indexer.py:128-135 | Over distinct files, a completed pass renders and extracts exactly the files whose stored fingerprint is absent or different, in scan order. |
| Catalog.SyncKeepsUnchanged | app/services/indexer.py:128-131 | A scanned file whose stored fingerprint matches keeps its record exactly, `updated_at` included. |
| Catalog.SyncIdsStable | app/services/indexer.py:69-77 | A record that survives a pass keeps its id. A new record gets an id at or above the old next id, held by no earlier record. |
| Catalog.SyncIdempotent | app/services/indexer.py:128-131 | After a completed pass, a second pass over the same files with unchanged fingerprints leaves the store identical and renders nothing. It reports `processed == skipped == len(files)` and `updated == removed == 0`. |
| Catalog.IngestedPreservesValid | app/services/indexer.py:108-150 | A pass over a listing, completed or failed, keeps the record table and the index paired. |
| Catalog.IngestedNeverRendersSynced | app/services/indexer.py:108-148 | A pass over any listing, completed or rolled back, never renders or extracts a file whose stored fingerprint matches. |
| Catalog.IngestedRendersStale | app/services/indexer.py:110-135 | Over a listing without repeats, a completed pass renders and extracts exactly the HTML files whose stored fingerprint is absent or different, in scan order. |
| Catalog.IngestedStoresHtmlFiles | app/services/indexer.py:110-113 | After a completed pass the stored paths are exactly the HTML-root joins of the listed files that pass the `.html`/`.htm` filter. |
| Catalog.MaxId | app/services/indexer.py:27 | The largest id in a set: no id exceeds it, and it is in any non-empty set. |
| Catalog.NextRowid | app/services/indexer.py:27 | The rowid SQLite gives a row inserted without one when `id INTEGER PRIMARY KEY` lacks `AUTOINCREMENT`: one more than the largest id present. |
| Catalog.RowidReusedAfterEvictingNewest | app/services/indexer.py:27 | As the schema is written, for any paired store: once the record with the largest id is deleted, the next rowid is at most that record's id and below the counter, so an id already passed is handed out again. |
| Catalog.RowidReusedAfterEviction | app/services/indexer.py:27 | On the two-record store a.html (id 1), b.html (id 2): after b.html is deleted, the next rowid is 2, the id b.html held. |
| Catalog.CounterNotReusedAfterEviction | app/services/indexer.py:69-77 | With the model's counter, the same sequence gives the new record a never-used id. |
| Paths.Name | app/services/indexer.py:111 | pathlib's `name`: the path after its last `/`. |
| Paths.Suffix | app/services/indexer.py:111 | pathlib's `suffix`: the final component from its last `.`, or empty when that dot is the component's first or last character or there is none. |
| Paths.WithoutSuffix | app/services/indexer.py:121 | The path without its suffix. |
| Paths.WithSuffix | app/services/indexer.py:121 | pathlib's `with_suffix`: the suffix, if any, replaced. |
| Paths.Join | app/services/indexer.py:120-121 | pathlib's `/` between a root and a relative path. |
| Paths.AsciiLower | app/services/indexer.py:111 | `str.lower()` on ASCII letters; other characters are kept. |
| Paths.IsHtml | app/services/indexer.py:111 | The filter `p.suffix.lower() in {".html", ".htm"}`. |
| Paths.Filter | app/services/indexer.py:111 | The comprehension `[p for p in ... if ...]`: the accepted elements, in order, never more than the input. |
| Paths.HtmlFiles | app/services/indexer.py:110-112 | The listed files that pass the filter, in listing order. The filter is applied to the relative path; `Paths.IsHtmlOfJoin` shows it gives the same answer as on the full path under the HTML root that the source tests. |
| Paths.IsHtmlOfJoin | app/services/indexer.py:111 | Testing `.html`/`.htm` on the path under the HTML root gives the same answer as testing it on the relative path. |
| Paths.PdfPath | app/services/indexer.py:121 | `(pdf_root / rel_path).with_suffix(".pdf")`. |
| Paths.RFind | app/services/indexer.py:121 | The index of the last occurrence, or -1 when the character is absent. |
| Paths.SuffixShape | app/services/indexer.py:111 | A suffix is a tail of the final path component and starts with its dot. |
| Paths.FilterMembers | app/services/indexer.py:110-112 | The filter keeps exactly the elements the predicate accepts. |
| Paths.FilterDistinct | app/services/indexer.py:110-112 | Filtering a sequence without repeats gives one without repeats. |
| Paths.HtmlFilesMembers | app/services/indexer.py:110-112 | The scan keeps exactly the listed files whose lower-cased suffix is `.html` or `.htm`. |
| Paths.HtmlFilesDistinct | app/services/indexer.py:110-112 | A listing without repeats gives scanned files without repeats. |
| Paths.RFindAppend | app/services/indexer.py:120-121 | The last occurrence in a concatenation is in the second part when it occurs there, and in the first part otherwise. |
| Paths.NameOfJoin | app/services/indexer.py:121 | Joining a root in front does not change the final component. |
| Paths.PdfPathMirrors | app/services/indexer.py:120-121 | The PDF path is the relative path under the PDF root, with only its final suffix replaced by `.pdf`. |
| Paths.PdfPathCollision | app/services/indexer.py:121 | Two files share a PDF path exactly when their relative paths agree without their suffixes. |
| Paths.JoinInjective | app/services/indexer.py:113 | Distinct relative paths give distinct source paths under one root. |
| Paths.PdfPathNested | app/services/indexer.py:120-121 | `docs/a.html` renders to `pdf/docs/a.pdf`. |
| Paths.PdfPathHtmHtml | app/services/indexer.py:121 | `a.htm` and `a.html` render to the same PDF. |
| Paths.IsHtmlUpperCase | app/services/indexer.py:111 | The filter ignores case: `a.HTML` is scanned. |
| Paths.IsHtmlDotName | app/services/indexer.py:111 | A name that is only a suffix, `.html`, has no suffix and is not scanned. |
| Paths.IsHtmlOtherSuffix | app/services/indexer.py:111 | `a.pdf` is not scanned. |
| Searcher.HasQuote | app/services/searcher.py:8 | `'"' in query or "'" in query`. |
| Searcher.IsSpace | app/services/searcher.py:10 | The characters `str.split()` with no argument splits on. |
| Searcher.Split | app/services/searcher.py:10 | `str.split()`: the maximal runs of non-whitespace characters, in order, each a non-empty word. |
| Searcher.DropEmpty | app/services/searcher.py:10 | The comprehension `[t for t in ... if t]`: the non-empty tokens, in order. |
| Searcher.Expand | app/services/searcher.py:15-18 | One token: kept when it ends in `*`, otherwise given one trailing `*`. |
| Searcher.ExpandAll | app/services/searcher.py:13-18 | The `normalized` list: as many tokens as the input, the k-th the expansion of the k-th input token. |
| Searcher.Join | app/services/searcher.py:19 | `" ".join(...)`. |
| Searcher.NormalizedQuery | app/services/searcher.py:7-19 | `_normalize_query`: a query holding `"` or `'` is returned as is. Otherwise it is split into tokens; no tokens gives `""`, and otherwise the expanded tokens are joined by single spaces. |
| Searcher.NormalizeByLoop | app/services/searcher.py:7-19 | The token loop returns exactly the normalised query. |
| Searcher.Search | app/services/searcher.py:22-44 | The index is consulted exactly when the query is not blank, with the normalised query, `limit` and `offset`. Otherwise the answer is empty. |
| Searcher.QuotedPassThrough | app/services/searcher.py:8-9 | A query holding `"` or `'` is returned unchanged. |
| Searcher.BlankIffEmpty | app/services/searcher.py:10-12 | The result is empty exactly when the query is empty or only whitespace. |
| Searcher.SplitEmptyIff | app/services/searcher.py:10 | `str.split()` gives no tokens exactly when the string is all whitespace. |
| Searcher.TokensAreSplit | app/services/searcher.py:10 | Dropping empty tokens after `str.split()` changes nothing. |
| Searcher.TokensExpanded | app/services/searcher.py:13-19 | For unquoted input, splitting the output gives the input's tokens, in order and as many. Each output token ends in `*`: it is the input token when that already ends in `*`, and the token with one `*` appended otherwise. |
| Searcher.SplitJoin | app/services/searcher.py:19 | Joining non-empty, whitespace-free tokens with single spaces and splitting again gives the tokens back. |
| Searcher.ExpandIdempotent | app/services/searcher.py:15-18 | Expanding a token twice equals expanding it once. |
| Searcher.ExpandAllIdempotent | app/services/searcher.py:14-18 | Expanding every token twice equals expanding every token once. |
| Searcher.NormalizedIdempotent | app/services/searcher.py:7-19 | Normalising twice equals normalising once. |
| Searcher.NormalizeJoined | app/services/searcher.py:13-19 | Normalising a space-joined list of quoteless words expands each one. |
| Searcher.TwoWords | app/services/searcher.py:13-19 | Two quoteless words get expanded one by one. |
| Searcher.NormalizeAlpha | tests/test_search.py:28-30 | `"alpha"` normalises to `"alpha*"`. |
| Searcher.NormalizeAlphaBeta | app/services/searcher.py:14-19 | `"alpha beta"` normalises to `"alpha* beta*"`. |
| Searcher.NormalizeKeepsStar | app/services/searcher.py:15-16 | `"pre* fix"` normalises to `"pre* fix*"`: a token already ending in `*` is kept as is. |
| Searcher.NormalizePhraseAndBlank | app/services/searcher.py:8-12 | A quoted phrase passes through, and blank queries give `""`. |

## Left out

- `_sha256` (app/services/indexer.py:44-49) is an opaque function of the file in `World`. Hashing and chunked reads are not modelled.
- `html_to_pdf` (app/services/converter.py) and `extract_text` (app/services/extractor.py) call a headless browser and an HTML parser. They are opaque functions in `World`. Reading the file (`read_text`) is folded into `textOf`, so read errors are not modelled.
- `datetime.now` (app/services/indexer.py:64) is the `clock` of `World`, indexed by the file's position in the scan.
- `init_db` (app/services/indexer.py:21-41) is modelled only as the empty store that `Indexer.Store.constructor` builds. Directory creation, the `CREATE ... IF NOT EXISTS` statements and the WAL pragma (app/services/indexer.py:118) are not modelled.
- SQLite and FTS5 mechanics are not modelled: connections, commit, crashes and concurrent writers. The index is the abstract map from id to text. FTS5's external-content deletes (app/services/indexer.py:88 and 103) are modelled as removing the entry, whatever text it held.
- Exceptions other than a failed render are not modelled. The rollback on a failed render is.
- The filesystem walk (`rglob`, `is_file`, `relative_to`) is not modelled. The listing is given as relative path strings, already in `sorted()` order; pathlib's part-wise ordering and path normalisation are not modelled. Lemmas that need distinct files require it.
- `Paths.AsciiLower`: `str.lower()` is modelled for ASCII letters only, not for other Unicode case mappings.
- `search`'s SQL (app/services/searcher.py:27-44) is the `engine` parameter of `Searcher.Search`: bm25 ranking, `snippet`, `MATCH` syntax, `LIMIT` and `OFFSET`. Negative `limit`/`offset` values are passed through to the engine, as the code does; they are not rejected. `search`'s default arguments `limit=20` and `offset=0` (app/services/searcher.py:22) are not modelled: `Searcher.Search` takes both explicitly.
- Two scanned files that differ only in suffix (`a.html`, `a.htm`) share one PDF path, and the later render overwrites the earlier. This is stated by `Paths.PdfPathCollision` and `Paths.PdfPathHtmHtml`, not treated as an error.
- The HTTP layer (app/main.py, app/routes_search.py), the DTOs (app/models/schema.py), configuration (app/config.py) and the CLI scripts are not part of this model.
- Indexer.Store.Upsert, Indexer.Store.RemoveMissing and Indexer.IngestHtmlFolder state equality with their `Catalog` functions, not the pairing invariant. Preservation of `Catalog.Valid` is proved about those functions, by `Catalog.UpsertPreservesValid`, `Catalog.PrunePreservesValid` and, for the whole pass that `Indexer.IngestHtmlFolder` runs, `Catalog.IngestedPreservesValid`.
- Catalog.Upserted: a new record's id is the counter `nextId`, the corrected allocation of the finding under "## Findings", not SQLite's max(id)+1 (`Catalog.NextRowid`) that the `INSERT` at app/services/indexer.py:70-77 gets as written. `Indexer.Store.Upsert`, `Indexer.ScanFile` and `Indexer.IngestHtmlFolder` inherit this; they differ from the program only after a pass deletes the record with the largest id.
- Indexer.Store.RemoveMissing picks the fetched rows in an unspecified order, as `fetchall()` without `ORDER BY` does.

## Findings

| source | as written | input that shows it | evidently intended | confidence | as-written member | corrected member |
|---|---|---|---|---|---|---|
| app/services/indexer.py:27 | `id INTEGER PRIMARY KEY` without `AUTOINCREMENT`: SQLite gives a new row one more than the largest id present. After the record with the largest id is deleted, the next insert gets an id no larger than the deleted one, an id the sequence has already passed. | Store a.html (id 1) and b.html (id 2); run a pass in which b.html has gone; then add c.html. c.html gets id 2, the old id of b.html, so a link or bookmark to document 2 now opens a different file. | Ids are stable and never reused: a new record gets an id no record ever had. | not executed | Catalog.NextRowid, Catalog.RowidReusedAfterEvictingNewest, Catalog.RowidReusedAfterEviction | Catalog.Upserted, Catalog.SyncIdsStable |
