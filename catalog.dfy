/**
 * The record table and the full-text index as values, and what each step
 * of the synchroniser (app/services/indexer.py) does to them.
 *
 * `documents` maps a source path (`html_path`) to its record; `fts` maps a
 * record id to the text the index holds for it; `nextId` is the next id to
 * hand out. The class in indexer.dfy holds the same three fields and its
 * methods are proved to act as the functions here; the lemmas below state
 * what the synchroniser promises about them.
 */
module Catalog {
  import opened Wrappers
  import Paths

  /** One row of `documents` (indexer.py:26-33), keyed by its `html_path`. */
  datatype Document = Document(id: nat, pdfPath: string, sha256: string, text: string, updatedAt: string)

  datatype Tables = Tables(documents: map<string, Document>, fts: map<nat, string>, nextId: nat)

  function Ids(docs: map<string, Document>): set<nat>
  {
    set p | p in docs :: docs[p].id
  }

  /**
   * The pairing invariant: the index holds exactly one entry per record id
   * and no other, each with its record's `extracted_text`; ids identify
   * records and lie below the next id to be handed out.
   */
  ghost predicate Valid(t: Tables)
  {
    && t.nextId > 0
    && t.fts.Keys == Ids(t.documents)
    && (forall p :: p in t.documents ==> t.documents[p].id in t.fts && t.fts[t.documents[p].id] == t.documents[p].text)
    && (forall p, q :: p in t.documents && q in t.documents && t.documents[p].id == t.documents[q].id ==> p == q)
    && (forall p :: p in t.documents ==> 0 < t.documents[p].id < t.nextId)
  }

  /** The stored record for `htmlPath` has fingerprint `sha256`. */
  predicate InSync(t: Tables, htmlPath: string, sha256: string)
  {
    htmlPath in t.documents && t.documents[htmlPath].sha256 == sha256
  }

  datatype UpsertResult = UpsertResult(tables: Tables, changed: bool)

  /** `_upsert_document` (indexer.py:52-94). */
  function Upserted(t: Tables, htmlPath: string, pdfPath: string, sha256: string, text: string, updatedAt: string): UpsertResult
  {
    if InSync(t, htmlPath, sha256) then UpsertResult(t, false)
    else if htmlPath !in t.documents then
      var id := t.nextId;
      UpsertResult(Tables(t.documents[htmlPath := Document(id, pdfPath, sha256, text, updatedAt)], t.fts[id := text], id + 1), true)
    else
      var id := t.documents[htmlPath].id;
      UpsertResult(Tables(t.documents[htmlPath := Document(id, pdfPath, sha256, text, updatedAt)], t.fts[id := text], t.nextId), true)
  }

  /** The ids of the records stored under the paths in `paths`. */
  function IdsAt(docs: map<string, Document>, paths: set<string>): set<nat>
  {
    set p | p in docs && p in paths :: docs[p].id
  }

  /** Delete the records of the paths in `gone` and the index entries of their ids. */
  function Evict(t: Tables, gone: set<string>): Tables
  {
    Tables(t.documents - gone, t.fts - IdsAt(t.documents, gone), t.nextId)
  }

  datatype Removal = Removal(tables: Tables, removed: nat)

  /** `_remove_missing` (indexer.py:97-105). */
  function Pruned(t: Tables, existing: set<string>): Removal
  {
    Removal(Evict(t, t.documents.Keys - existing), |t.documents.Keys - existing|)
  }

  /**
   * What the pass sees of the world: the fingerprint of each source file
   * (`_sha256`), the text extracted from it (`read_text` then
   * `extract_text`), whether rendering it succeeds (`html_to_pdf`), and the
   * timestamp the k-th file's upsert reads.
   */
  datatype World = World(
    sha256Of: string -> string,
    textOf: string -> string,
    renders: (string, string) -> bool,
    clock: nat -> string)

  /** The pass so far: tables, counters, files rendered, and the file whose render failed. */
  datatype Scan = Scan(tables: Tables, processed: nat, updated: nat, skipped: nat, rendered: seq<string>, failed: Option<string>)

  /** The PDF path the pass derives for a relative path (indexer.py:120-121). */
  function PdfOf(pdfRoot: string): string -> string
  {
    rel => Paths.PdfPath(pdfRoot, rel)
  }

  /**
   * One iteration of the loop in `ingest_html_folder` (indexer.py:119-145);
   * `pdfOf` gives the PDF path of a relative path, `k` is the iteration.
   */
  function Step(s: Scan, htmlRoot: string, pdfOf: string -> string, rel: string, k: nat, w: World): Scan
  {
    if s.failed.Some? then s
    else
      var html := Paths.Join(htmlRoot, rel);
      var pdf := pdfOf(rel);
      var sha := w.sha256Of(html);
      if InSync(s.tables, html, sha) then
        s.(processed := s.processed + 1, skipped := s.skipped + 1)
      else if !w.renders(html, pdf) then
        s.(rendered := s.rendered + [html], failed := Some(html))
      else
        var u := Upserted(s.tables, html, pdf, sha, w.textOf(html), w.clock(k));
        s.(tables := u.tables, processed := s.processed + 1,
           updated := if u.changed then s.updated + 1 else s.updated,
           rendered := s.rendered + [html])
  }

  /** The loop over the filtered files, in order. */
  function ScanFiles(t: Tables, htmlRoot: string, pdfOf: string -> string, files: seq<string>, w: World): Scan
    decreases |files|
  {
    if files == [] then Scan(t, 0, 0, 0, [], None)
    else
      var n := |files| - 1;
      Step(ScanFiles(t, htmlRoot, pdfOf, files[..n], w), htmlRoot, pdfOf, files[n], n, w)
  }

  /** The set `existing` of source paths found by the scan (indexer.py:113). */
  function Existing(htmlRoot: string, files: seq<string>): set<string>
  {
    set f | f in files :: Paths.Join(htmlRoot, f)
  }

  /** `IngestStats` (indexer.py:13-18). */
  datatype IngestStats = IngestStats(processed: nat, updated: nat, skipped: nat, removed: nat)

  /** A pass returns its counts, or fails with the source whose rendering failed. */
  datatype Outcome = Completed(stats: IngestStats) | RenderFailed(htmlPath: string)

  datatype Ingest = Ingest(tables: Tables, outcome: Outcome, rendered: seq<string>)

  /**
   * The pass over the filtered files `files`, in one transaction: when a
   * render fails the exception leaves the connection's `with` block, which
   * rolls every change of the pass back.
   */
  function Synced(t: Tables, htmlRoot: string, pdfOf: string -> string, files: seq<string>, w: World): Ingest
  {
    var s := ScanFiles(t, htmlRoot, pdfOf, files, w);
    if s.failed.Some? then Ingest(t, RenderFailed(s.failed.value), s.rendered)
    else
      var r := Pruned(s.tables, Existing(htmlRoot, files));
      Ingest(r.tables, Completed(IngestStats(s.processed, s.updated, s.skipped, r.removed)), s.rendered)
  }

  /** `ingest_html_folder` (indexer.py:108-150): the pass over the HTML files of the listing. */
  function Ingested(t: Tables, htmlRoot: string, pdfRoot: string, listing: seq<string>, w: World): Ingest
  {
    Synced(t, htmlRoot, PdfOf(pdfRoot), Paths.HtmlFiles(listing), w)
  }

  /** The source paths, in scan order, whose stored fingerprint in `t` is absent or different. */
  function Stale(t: Tables, htmlRoot: string, files: seq<string>, w: World): seq<string>
    decreases |files|
  {
    if files == [] then []
    else
      var n := |files| - 1;
      var h := Paths.Join(htmlRoot, files[n]);
      Stale(t, htmlRoot, files[..n], w) + (if InSync(t, h, w.sha256Of(h)) then [] else [h])
  }

  // ----- _upsert_document -----

  /** An unchanged fingerprint: nothing is written and the call reports false. */
  lemma UpsertSkips(t: Tables, htmlPath: string, pdfPath: string, sha256: string, text: string, updatedAt: string)
    requires InSync(t, htmlPath, sha256)
    ensures Upserted(t, htmlPath, pdfPath, sha256, text, updatedAt) == UpsertResult(t, false)
  {
  }

  /**
   * A new path: one new record under an id no record has, with one index
   * entry for that id holding the text; nothing else changes.
   */
  lemma UpsertInserts(t: Tables, htmlPath: string, pdfPath: string, sha256: string, text: string, updatedAt: string)
    requires Valid(t) && htmlPath !in t.documents
    ensures var u := Upserted(t, htmlPath, pdfPath, sha256, text, updatedAt);
      && u.changed
      && u.tables.documents.Keys == t.documents.Keys + {htmlPath}
      && (forall p :: p in t.documents ==> u.tables.documents[p] == t.documents[p])
    ensures var u := Upserted(t, htmlPath, pdfPath, sha256, text, updatedAt);
      var d := u.tables.documents[htmlPath];
      && d.id !in Ids(t.documents)
      && d.pdfPath == pdfPath && d.sha256 == sha256 && d.text == text && d.updatedAt == updatedAt
      && u.tables.fts.Keys == t.fts.Keys + {d.id}
      && u.tables.fts[d.id] == text
      && (forall i :: i in t.fts ==> u.tables.fts[i] == t.fts[i])
  {
  }

  /**
   * A known path with a new fingerprint: the record keeps its id and takes
   * the new PDF path, fingerprint, text and timestamp; its index entry is
   * replaced by one with the new text; other records and entries are kept.
   */
  lemma UpsertUpdates(t: Tables, htmlPath: string, pdfPath: string, sha256: string, text: string, updatedAt: string)
    requires Valid(t) && htmlPath in t.documents && t.documents[htmlPath].sha256 != sha256
    ensures var u := Upserted(t, htmlPath, pdfPath, sha256, text, updatedAt);
      && u.changed
      && u.tables.documents.Keys == t.documents.Keys
      && u.tables.documents[htmlPath] == Document(t.documents[htmlPath].id, pdfPath, sha256, text, updatedAt)
      && (forall p :: p in t.documents && p != htmlPath ==> u.tables.documents[p] == t.documents[p])
    ensures var u := Upserted(t, htmlPath, pdfPath, sha256, text, updatedAt);
      var id := t.documents[htmlPath].id;
      && u.tables.fts.Keys == t.fts.Keys
      && u.tables.fts[id] == text
      && (forall i :: i in t.fts && i != id ==> u.tables.fts[i] == t.fts[i])
      && u.tables.nextId == t.nextId
  {
  }

  /** Ids of a map updated at one path: the other records' ids and the new one. */
  lemma IdsUpdate(docs: map<string, Document>, h: string, d: Document)
    ensures h !in docs ==> Ids(docs[h := d]) == Ids(docs) + {d.id}
    ensures h in docs && docs[h].id == d.id ==> Ids(docs[h := d]) == Ids(docs)
  {
    var u := docs[h := d];
    forall i | i in Ids(u) ensures i in Ids(docs) + {d.id} {
      var q :| q in u && u[q].id == i;
      if q != h {
        assert docs[q].id == i;
      }
    }
    forall i | i in Ids(docs) ensures (h in docs && docs[h].id == d.id) || h !in docs ==> i in Ids(u) {
      var q :| q in docs && docs[q].id == i;
      if q != h {
        assert u[q].id == i;
      } else {
        assert u[h].id == d.id;
      }
    }
    assert d.id in Ids(u) by {
      assert u[h].id == d.id;
    }
  }

  /** Adding a record under the next id, with its index entry, keeps the pairing. */
  lemma InsertPreservesValid(t: Tables, h: string, d: Document)
    requires Valid(t) && h !in t.documents && d.id == t.nextId
    ensures Valid(Tables(t.documents[h := d], t.fts[d.id := d.text], t.nextId + 1))
  {
    var u := Tables(t.documents[h := d], t.fts[d.id := d.text], t.nextId + 1);
    IdsUpdate(t.documents, h, d);
    assert u.fts.Keys == Ids(u.documents);
    forall p | p in u.documents && p != h ensures u.documents[p].id != d.id {
      assert u.documents[p] == t.documents[p];
    }
  }

  /** Replacing a record under its own id, and its index entry, keeps the pairing. */
  lemma ReplacePreservesValid(t: Tables, h: string, d: Document)
    requires Valid(t) && h in t.documents && d.id == t.documents[h].id
    ensures Valid(Tables(t.documents[h := d], t.fts[d.id := d.text], t.nextId))
  {
    var u := Tables(t.documents[h := d], t.fts[d.id := d.text], t.nextId);
    IdsUpdate(t.documents, h, d);
    assert u.fts.Keys == t.fts.Keys;
    forall p | p in u.documents
      ensures u.documents[p].id in u.fts && u.fts[u.documents[p].id] == u.documents[p].text
    {
      if p != h {
        assert u.documents[p] == t.documents[p];
        assert t.documents[p].id != d.id;
      }
    }
    forall p, q | p in u.documents && q in u.documents && u.documents[p].id == u.documents[q].id
      ensures p == q
    {
      assert u.documents[p].id == t.documents[p].id;
      assert u.documents[q].id == t.documents[q].id;
    }
  }

  /** Every upsert keeps the record table and the index paired. */
  lemma UpsertPreservesValid(t: Tables, htmlPath: string, pdfPath: string, sha256: string, text: string, updatedAt: string)
    requires Valid(t)
    ensures Valid(Upserted(t, htmlPath, pdfPath, sha256, text, updatedAt).tables)
  {
    if InSync(t, htmlPath, sha256) {
    } else if htmlPath !in t.documents {
      InsertPreservesValid(t, htmlPath, Document(t.nextId, pdfPath, sha256, text, updatedAt));
    } else {
      ReplacePreservesValid(t, htmlPath, Document(t.documents[htmlPath].id, pdfPath, sha256, text, updatedAt));
    }
  }

  // ----- _remove_missing -----

  /**
   * Pruning keeps exactly the records whose path is in `existing`, each
   * unchanged, drops the index entries of the others, and reports how many
   * it dropped.
   */
  lemma PruneRemovesMissing(t: Tables, existing: set<string>)
    ensures var r := Pruned(t, existing);
      && r.tables.documents.Keys == t.documents.Keys * existing
      && (forall p :: p in r.tables.documents ==> r.tables.documents[p] == t.documents[p])
      && (forall p :: p in t.documents && p !in existing ==> t.documents[p].id !in r.tables.fts)
      && r.removed == |t.documents| - |r.tables.documents|
      && r.tables.nextId == t.nextId
  {
    var r := Pruned(t, existing);
    var gone := t.documents.Keys - existing;
    assert r.tables.documents.Keys == t.documents.Keys * existing;
    assert t.documents.Keys == r.tables.documents.Keys + gone;
    assert r.tables.documents.Keys !! gone;
    assert |t.documents.Keys| == |r.tables.documents.Keys| + |gone|;
  }

  /** Evicting whole records, index entries with them, keeps the pairing. */
  lemma EvictPreservesValid(t: Tables, gone: set<string>)
    requires Valid(t)
    ensures Valid(Evict(t, gone))
  {
    var e := Evict(t, gone);
    var ids := IdsAt(t.documents, gone);
    forall i | i in e.fts.Keys ensures i in Ids(e.documents) {
      var q :| q in t.documents && t.documents[q].id == i;
      assert q in e.documents;
    }
    forall i | i in Ids(e.documents) ensures i in e.fts.Keys {
      var q :| q in e.documents && e.documents[q].id == i;
      forall g | g in t.documents && g in gone ensures t.documents[g].id != i {
        assert g != q;
      }
      assert i !in ids;
    }
    assert e.fts.Keys == Ids(e.documents);
  }

  /** `_remove_missing` keeps the pairing. */
  lemma PrunePreservesValid(t: Tables, existing: set<string>)
    requires Valid(t)
    ensures Valid(Pruned(t, existing).tables)
  {
    EvictPreservesValid(t, t.documents.Keys - existing);
  }

  /** Evicting one more path after a set of paths is evicting both. */
  lemma EvictOneMore(t: Tables, gone: set<string>, p: string)
    ensures Evict(Evict(t, gone), {p}) == Evict(t, gone + {p})
  {
    var e1 := Evict(t, gone);
    var a := Evict(e1, {p});
    var b := Evict(t, gone + {p});
    assert a.documents == b.documents;
    var idsGone := IdsAt(t.documents, gone);
    var idsP := IdsAt(e1.documents, {p});
    var idsAll := IdsAt(t.documents, gone + {p});
    assert idsAll == idsGone + idsP by {
      forall i | i in idsAll ensures i in idsGone + idsP {
        var q :| q in t.documents && q in gone + {p} && t.documents[q].id == i;
        assert q in gone || q in e1.documents;
      }
      forall i | i in idsP ensures i in idsAll {
        var q :| q in e1.documents && q in {p} && e1.documents[q].id == i;
        assert t.documents[q].id == i;
      }
    }
    assert a.fts == b.fts;
  }

  lemma EvictNothing(t: Tables)
    ensures Evict(t, {}) == t
  {
    var e := Evict(t, {});
    assert e.documents == t.documents;
    assert e.fts == t.fts;
  }

  // ----- the loop of ingest_html_folder -----

  /** An iteration over a file whose record matches counts a skip and nothing else. */
  lemma StepSkips(s: Scan, htmlRoot: string, pdfOf: string -> string, rel: string, k: nat, w: World)
    requires s.failed.None?
    requires InSync(s.tables, Paths.Join(htmlRoot, rel), w.sha256Of(Paths.Join(htmlRoot, rel)))
    ensures Step(s, htmlRoot, pdfOf, rel, k, w) == s.(processed := s.processed + 1, skipped := s.skipped + 1)
  {
  }

  /** An iteration whose render fails stops the scan at that file. */
  lemma StepFails(s: Scan, htmlRoot: string, pdfOf: string -> string, rel: string, k: nat, w: World)
    requires s.failed.None?
    requires !InSync(s.tables, Paths.Join(htmlRoot, rel), w.sha256Of(Paths.Join(htmlRoot, rel)))
    requires !w.renders(Paths.Join(htmlRoot, rel), pdfOf(rel))
    ensures Step(s, htmlRoot, pdfOf, rel, k, w).failed == Some(Paths.Join(htmlRoot, rel))
  {
  }

  /** An iteration over a stale file that renders upserts it and counts it. */
  lemma StepUpserts(s: Scan, htmlRoot: string, pdfOf: string -> string, rel: string, k: nat, w: World, u: UpsertResult)
    requires s.failed.None?
    requires !InSync(s.tables, Paths.Join(htmlRoot, rel), w.sha256Of(Paths.Join(htmlRoot, rel)))
    requires w.renders(Paths.Join(htmlRoot, rel), pdfOf(rel))
    requires u == Upserted(s.tables, Paths.Join(htmlRoot, rel), pdfOf(rel), w.sha256Of(Paths.Join(htmlRoot, rel)),
                           w.textOf(Paths.Join(htmlRoot, rel)), w.clock(k))
    ensures Step(s, htmlRoot, pdfOf, rel, k, w)
      == Scan(u.tables, s.processed + 1, if u.changed then s.updated + 1 else s.updated, s.skipped,
              s.rendered + [Paths.Join(htmlRoot, rel)], None)
  {
  }

  /** One more file is one more iteration. */
  lemma ScanFilesSnoc(t: Tables, htmlRoot: string, pdfOf: string -> string, files: seq<string>, w: World, i: nat)
    requires i < |files|
    ensures ScanFiles(t, htmlRoot, pdfOf, files[..i + 1], w)
      == Step(ScanFiles(t, htmlRoot, pdfOf, files[..i], w), htmlRoot, pdfOf, files[i], i, w)
  {
    assert files[..i + 1][..i] == files[..i];
  }

  lemma {:induction false} ScanFailureSticks(t: Tables, htmlRoot: string, pdfOf: string -> string, files: seq<string>, w: World, j: nat)
    requires j <= |files|
    requires ScanFiles(t, htmlRoot, pdfOf, files[..j], w).failed.Some?
    ensures ScanFiles(t, htmlRoot, pdfOf, files, w) == ScanFiles(t, htmlRoot, pdfOf, files[..j], w)
    decreases |files|
  {
    if j < |files| {
      var n := |files| - 1;
      assert files[..n][..j] == files[..j];
      ScanFailureSticks(t, htmlRoot, pdfOf, files[..n], w, j);
    } else {
      assert files[..j] == files;
    }
  }

  lemma {:induction false} ScanFailureRendered(t: Tables, htmlRoot: string, pdfOf: string -> string, files: seq<string>, w: World)
    ensures var s := ScanFiles(t, htmlRoot, pdfOf, files, w);
      s.failed.Some? ==> s.rendered != [] && s.rendered[|s.rendered| - 1] == s.failed.value
    decreases |files|
  {
    if files != [] {
      ScanFailureRendered(t, htmlRoot, pdfOf, files[..|files| - 1], w);
    }
  }

  lemma {:induction false} ScanCounts(t: Tables, htmlRoot: string, pdfOf: string -> string, files: seq<string>, w: World)
    ensures var s := ScanFiles(t, htmlRoot, pdfOf, files, w);
      s.failed.None? ==>
        && s.processed == |files|
        && s.processed == s.updated + s.skipped
        && s.updated == |s.rendered|
    decreases |files|
  {
    if files != [] {
      ScanCounts(t, htmlRoot, pdfOf, files[..|files| - 1], w);
    }
  }

  lemma StepPreservesValid(s: Scan, htmlRoot: string, pdfOf: string -> string, rel: string, k: nat, w: World)
    requires Valid(s.tables)
    ensures Valid(Step(s, htmlRoot, pdfOf, rel, k, w).tables)
  {
    if s.failed.None? {
      var html := Paths.Join(htmlRoot, rel);
      UpsertPreservesValid(s.tables, html, pdfOf(rel), w.sha256Of(html), w.textOf(html), w.clock(k));
    }
  }

  lemma {:induction false} ScanPreservesValid(t: Tables, htmlRoot: string, pdfOf: string -> string, files: seq<string>, w: World)
    requires Valid(t)
    ensures Valid(ScanFiles(t, htmlRoot, pdfOf, files, w).tables)
    decreases |files|
  {
    if files != [] {
      var n := |files| - 1;
      ScanPreservesValid(t, htmlRoot, pdfOf, files[..n], w);
      StepPreservesValid(ScanFiles(t, htmlRoot, pdfOf, files[..n], w), htmlRoot, pdfOf, files[n], n, w);
    }
  }

  /** The files in a prefix of the scan are files of the scan. */
  lemma ExistingPrefix(htmlRoot: string, files: seq<string>)
    requires files != []
    ensures Existing(htmlRoot, files) == Existing(htmlRoot, files[..|files| - 1]) + {Paths.Join(htmlRoot, files[|files| - 1])}
  {
    var n := |files| - 1;
    assert files == files[..n] + [files[n]];
    forall f | f in files ensures f in files[..n] || f == files[n] {
    }
  }

  /** The pass touches no record whose path it does not scan. */
  lemma {:induction false} ScanFrame(t: Tables, htmlRoot: string, pdfOf: string -> string, files: seq<string>, w: World, p: string)
    requires p !in Existing(htmlRoot, files)
    ensures var s := ScanFiles(t, htmlRoot, pdfOf, files, w);
      && (p in s.tables.documents <==> p in t.documents)
      && (p in t.documents ==> s.tables.documents[p] == t.documents[p])
    decreases |files|
  {
    if files != [] {
      var n := |files| - 1;
      ExistingPrefix(htmlRoot, files);
      ScanFrame(t, htmlRoot, pdfOf, files[..n], w, p);
    }
  }

  /** A record whose stored fingerprint matches is never rewritten. */
  lemma {:induction false} ScanKeepsSynced(t: Tables, htmlRoot: string, pdfOf: string -> string, files: seq<string>, w: World, h: string)
    requires InSync(t, h, w.sha256Of(h))
    ensures var s := ScanFiles(t, htmlRoot, pdfOf, files, w);
      h in s.tables.documents && s.tables.documents[h] == t.documents[h]
    decreases |files|
  {
    if files != [] {
      ScanKeepsSynced(t, htmlRoot, pdfOf, files[..|files| - 1], w, h);
    }
  }

  /** After a completed loop every scanned path has a record, and no other new one. */
  lemma {:induction false} ScanKeys(t: Tables, htmlRoot: string, pdfOf: string -> string, files: seq<string>, w: World)
    ensures var s := ScanFiles(t, htmlRoot, pdfOf, files, w);
      s.failed.None? ==> s.tables.documents.Keys == t.documents.Keys + Existing(htmlRoot, files)
    decreases |files|
  {
    if files != [] {
      ExistingPrefix(htmlRoot, files);
      ScanKeys(t, htmlRoot, pdfOf, files[..|files| - 1], w);
    } else {
      assert Existing(htmlRoot, files) == {};
    }
  }

  /** After a completed loop every scanned path's record holds its current fingerprint. */
  lemma {:induction false} ScanSyncs(t: Tables, htmlRoot: string, pdfOf: string -> string, files: seq<string>, w: World)
    ensures var s := ScanFiles(t, htmlRoot, pdfOf, files, w);
      s.failed.None? ==> forall h :: h in Existing(htmlRoot, files) ==> InSync(s.tables, h, w.sha256Of(h))
    decreases |files|
  {
    if files != [] {
      ExistingPrefix(htmlRoot, files);
      ScanSyncs(t, htmlRoot, pdfOf, files[..|files| - 1], w);
    }
  }

  /** Over files whose records all match, the loop only counts skips. */
  lemma {:induction false} ScanAllSynced(t: Tables, htmlRoot: string, pdfOf: string -> string, files: seq<string>, w: World)
    requires forall h :: h in Existing(htmlRoot, files) ==> InSync(t, h, w.sha256Of(h))
    ensures ScanFiles(t, htmlRoot, pdfOf, files, w) == Scan(t, |files|, 0, |files|, [], None)
    decreases |files|
  {
    if files != [] {
      ExistingPrefix(htmlRoot, files);
      ScanAllSynced(t, htmlRoot, pdfOf, files[..|files| - 1], w);
    }
  }

  /** Distinct relative paths are distinct source paths. */
  lemma DistinctNotInPrefix(htmlRoot: string, files: seq<string>)
    requires files != [] && Paths.Distinct(files)
    ensures Paths.Join(htmlRoot, files[|files| - 1]) !in Existing(htmlRoot, files[..|files| - 1])
  {
    var n := |files| - 1;
    forall f | f in files[..n] ensures Paths.Join(htmlRoot, f) != Paths.Join(htmlRoot, files[n]) {
      var i :| 0 <= i < n && files[..n][i] == f;
      assert f != files[n];
      Paths.JoinInjective(htmlRoot, f, files[n]);
    }
  }

  /** A completed loop renders (and extracts) exactly the stale files, in order. */
  lemma {:induction false} ScanRendersStale(t: Tables, htmlRoot: string, pdfOf: string -> string, files: seq<string>, w: World)
    requires Paths.Distinct(files)
    ensures var s := ScanFiles(t, htmlRoot, pdfOf, files, w);
      s.failed.None? ==> s.rendered == Stale(t, htmlRoot, files, w)
    decreases |files|
  {
    if files != [] {
      var n := |files| - 1;
      var h := Paths.Join(htmlRoot, files[n]);
      ScanRendersStale(t, htmlRoot, pdfOf, files[..n], w);
      DistinctNotInPrefix(htmlRoot, files);
      ScanFrame(t, htmlRoot, pdfOf, files[..n], w, h);
    }
  }

  /**
   * A record whose stored fingerprint matches is never rendered, whether
   * the loop completes or stops at a failed render, and with or without
   * repeated files.
   */
  lemma {:induction false} ScanNeverRendersSynced(t: Tables, htmlRoot: string, pdfOf: string -> string, files: seq<string>, w: World, h: string)
    requires InSync(t, h, w.sha256Of(h))
    ensures h !in ScanFiles(t, htmlRoot, pdfOf, files, w).rendered
    decreases |files|
  {
    if files != [] {
      var n := |files| - 1;
      ScanNeverRendersSynced(t, htmlRoot, pdfOf, files[..n], w, h);
      ScanKeepsSynced(t, htmlRoot, pdfOf, files[..n], w, h);
    }
  }

  /**
   * `b` extends `a`: no path is dropped, a kept path keeps its id, a new
   * path's id is at least `a`'s next id, and the next id does not go back.
   */
  ghost predicate Grows(a: Tables, b: Tables)
  {
    && a.documents.Keys <= b.documents.Keys
    && b.nextId >= a.nextId
    && forall p :: p in b.documents ==>
      if p in a.documents then b.documents[p].id == a.documents[p].id
      else b.documents[p].id >= a.nextId
  }

  lemma StepGrows(s: Scan, htmlRoot: string, pdfOf: string -> string, rel: string, k: nat, w: World)
    ensures Grows(s.tables, Step(s, htmlRoot, pdfOf, rel, k, w).tables)
  {
  }

  lemma GrowsTransitive(a: Tables, b: Tables, c: Tables)
    requires Grows(a, b) && Grows(b, c)
    ensures Grows(a, c)
  {
  }

  /** Records keep their ids; a new record's id is at least the old next id. */
  lemma {:induction false} ScanIdsStable(t: Tables, htmlRoot: string, pdfOf: string -> string, files: seq<string>, w: World)
    ensures Grows(t, ScanFiles(t, htmlRoot, pdfOf, files, w).tables)
    decreases |files|
  {
    if files != [] {
      var n := |files| - 1;
      var s := ScanFiles(t, htmlRoot, pdfOf, files[..n], w);
      ScanIdsStable(t, htmlRoot, pdfOf, files[..n], w);
      StepGrows(s, htmlRoot, pdfOf, files[n], n, w);
      GrowsTransitive(t, s.tables, Step(s, htmlRoot, pdfOf, files[n], n, w).tables);
    }
  }

  /** Pruning a scan's result to the scanned paths leaves exactly those paths. */
  lemma PruneAfterScan(t: Tables, s: Tables, existing: set<string>)
    requires s.documents.Keys == t.documents.Keys + existing
    ensures var p := Pruned(s, existing);
      && p.tables.documents.Keys == existing
      && p.removed == |t.documents.Keys - existing|
  {
    PruneRemovesMissing(s, existing);
    assert s.documents.Keys * existing == existing;
    assert s.documents.Keys - existing == t.documents.Keys - existing;
  }

  /** Pruning a table that only holds existing paths changes nothing. */
  lemma PruneNothing(t: Tables, existing: set<string>)
    requires t.documents.Keys <= existing
    ensures Pruned(t, existing) == Removal(t, 0)
  {
    assert t.documents.Keys - existing == {};
    EvictNothing(t);
  }

  /** What `Grows` says survives pruning, against the ids `a` held. */
  lemma GrowsPruned(a: Tables, b: Tables, existing: set<string>)
    requires Valid(a) && Grows(a, b)
    ensures var r := Pruned(b, existing).tables;
      && r.nextId >= a.nextId
      && forall p :: p in r.documents ==>
        if p in a.documents then r.documents[p].id == a.documents[p].id
        else r.documents[p].id >= a.nextId && r.documents[p].id !in Ids(a.documents)
  {
    PruneRemovesMissing(b, existing);
    forall i | i in Ids(a.documents) ensures i < a.nextId {
      var q :| q in a.documents && a.documents[q].id == i;
    }
  }

  // ----- ingest_html_folder -----

  /**
   * A completed pass processes every filtered file once, and each either
   * was skipped or was rendered and upserted (the upsert then always
   * reports a change, since the loop has already ruled out a match).
   */
  lemma SyncCounts(t: Tables, htmlRoot: string, pdfOf: string -> string, files: seq<string>, w: World)
    ensures var r := Synced(t, htmlRoot, pdfOf, files, w);
      r.outcome.Completed? ==>
        && r.outcome.stats.processed == |files|
        && r.outcome.stats.processed == r.outcome.stats.updated + r.outcome.stats.skipped
        && r.outcome.stats.updated == |r.rendered|
  {
    ScanCounts(t, htmlRoot, pdfOf, files, w);
  }

  lemma {:induction false} ScanFailedInFiles(t: Tables, htmlRoot: string, pdfOf: string -> string, files: seq<string>, w: World)
    ensures var s := ScanFiles(t, htmlRoot, pdfOf, files, w);
      s.failed.Some? ==> s.failed.value in Existing(htmlRoot, files)
    decreases |files|
  {
    if files != [] {
      ExistingPrefix(htmlRoot, files);
      ScanFailedInFiles(t, htmlRoot, pdfOf, files[..|files| - 1], w);
    }
  }

  /**
   * A failed render aborts the pass: every change is rolled back and the
   * failing file is the last one handed to the renderer.
   */
  lemma SyncFailureRollsBack(t: Tables, htmlRoot: string, pdfOf: string -> string, files: seq<string>, w: World)
    ensures var r := Synced(t, htmlRoot, pdfOf, files, w);
      r.outcome.RenderFailed? ==>
        && r.tables == t
        && r.rendered != [] && r.rendered[|r.rendered| - 1] == r.outcome.htmlPath
        && r.outcome.htmlPath in Existing(htmlRoot, files)
  {
    ScanFailureRendered(t, htmlRoot, pdfOf, files, w);
    ScanFailedInFiles(t, htmlRoot, pdfOf, files, w);
  }

  /**
   * After a completed pass the stored paths are exactly the scanned ones,
   * and `removed` counts the previously stored paths that were not found.
   */
  lemma SyncMirrorsFolder(t: Tables, htmlRoot: string, pdfOf: string -> string, files: seq<string>, w: World)
    ensures var r := Synced(t, htmlRoot, pdfOf, files, w);
      var existing := Existing(htmlRoot, files);
      r.outcome.Completed? ==>
        && r.tables.documents.Keys == existing
        && r.outcome.stats.removed == |t.documents.Keys - existing|
  {
    var s := ScanFiles(t, htmlRoot, pdfOf, files, w);
    ScanKeys(t, htmlRoot, pdfOf, files, w);
    if s.failed.None? {
      PruneAfterScan(t, s.tables, Existing(htmlRoot, files));
    }
  }

  /** A pass, completed or failed, keeps the record table and the index paired. */
  lemma SyncPreservesValid(t: Tables, htmlRoot: string, pdfOf: string -> string, files: seq<string>, w: World)
    requires Valid(t)
    ensures Valid(Synced(t, htmlRoot, pdfOf, files, w).tables)
  {
    ScanPreservesValid(t, htmlRoot, pdfOf, files, w);
    var s := ScanFiles(t, htmlRoot, pdfOf, files, w);
    PrunePreservesValid(s.tables, Existing(htmlRoot, files));
  }

  /**
   * Over distinct files, a completed pass renders and extracts exactly the
   * files whose stored fingerprint is absent or different, each once, in
   * scan order.
   */
  lemma SyncRendersStale(t: Tables, htmlRoot: string, pdfOf: string -> string, files: seq<string>, w: World)
    requires Paths.Distinct(files)
    ensures var r := Synced(t, htmlRoot, pdfOf, files, w);
      r.outcome.Completed? ==> r.rendered == Stale(t, htmlRoot, files, w)
  {
    ScanRendersStale(t, htmlRoot, pdfOf, files, w);
  }

  /** A pass, completed or failed, never renders a file whose stored fingerprint matches. */
  lemma SyncNeverRendersSynced(t: Tables, htmlRoot: string, pdfOf: string -> string, files: seq<string>, w: World, h: string)
    requires InSync(t, h, w.sha256Of(h))
    ensures h !in Synced(t, htmlRoot, pdfOf, files, w).rendered
  {
    ScanNeverRendersSynced(t, htmlRoot, pdfOf, files, w, h);
  }

  /** A scanned file whose stored fingerprint matches keeps its record as it was, `updated_at` included. */
  lemma SyncKeepsUnchanged(t: Tables, htmlRoot: string, pdfOf: string -> string, files: seq<string>, w: World, h: string)
    requires h in Existing(htmlRoot, files) && InSync(t, h, w.sha256Of(h))
    ensures var r := Synced(t, htmlRoot, pdfOf, files, w);
      h in r.tables.documents && r.tables.documents[h] == t.documents[h]
  {
    ScanKeepsSynced(t, htmlRoot, pdfOf, files, w, h);
  }

  /**
   * Ids are stable and never handed out twice: a record that survives the
   * pass keeps its id, and a new record gets an id above every id the
   * store held before.
   */
  lemma SyncIdsStable(t: Tables, htmlRoot: string, pdfOf: string -> string, files: seq<string>, w: World)
    requires Valid(t)
    ensures var r := Synced(t, htmlRoot, pdfOf, files, w);
      && r.tables.nextId >= t.nextId
      && forall p :: p in r.tables.documents ==>
        if p in t.documents then r.tables.documents[p].id == t.documents[p].id
        else r.tables.documents[p].id >= t.nextId && r.tables.documents[p].id !in Ids(t.documents)
  {
    var s := ScanFiles(t, htmlRoot, pdfOf, files, w);
    ScanIdsStable(t, htmlRoot, pdfOf, files, w);
    GrowsPruned(t, s.tables, Existing(htmlRoot, files));
  }

  /**
   * After a completed pass, a second pass over the same files with the
   * same contents renders nothing, updates and removes nothing, and leaves
   * the store as it was.
   */
  lemma SyncIdempotent(t: Tables, htmlRoot: string, pdfOf: string -> string, files: seq<string>, w1: World, w2: World)
    requires forall p :: w2.sha256Of(p) == w1.sha256Of(p)
    requires Synced(t, htmlRoot, pdfOf, files, w1).outcome.Completed?
    ensures var r1 := Synced(t, htmlRoot, pdfOf, files, w1);
      var r2 := Synced(r1.tables, htmlRoot, pdfOf, files, w2);
      var n := |files|;
      && r2.tables == r1.tables
      && r2.outcome == Completed(IngestStats(n, 0, n, 0))
      && r2.rendered == []
  {
    var existing := Existing(htmlRoot, files);
    var s1 := ScanFiles(t, htmlRoot, pdfOf, files, w1);
    ScanKeys(t, htmlRoot, pdfOf, files, w1);
    ScanSyncs(t, htmlRoot, pdfOf, files, w1);
    var t1 := Pruned(s1.tables, existing).tables;
    PruneAfterScan(t, s1.tables, existing);
    PruneRemovesMissing(s1.tables, existing);
    forall h | h in existing ensures InSync(t1, h, w2.sha256Of(h)) {
      assert InSync(s1.tables, h, w1.sha256Of(h));
    }
    ScanAllSynced(t1, htmlRoot, pdfOf, files, w2);
    PruneNothing(t1, existing);
  }

  /**
   * After a completed pass the stored paths are exactly the listed files
   * that pass the `.html`/`.htm` filter, under the HTML root.
   */
  lemma IngestedStoresHtmlFiles(t: Tables, htmlRoot: string, pdfRoot: string, listing: seq<string>, w: World)
    ensures var r := Ingested(t, htmlRoot, pdfRoot, listing, w);
      r.outcome.Completed? ==>
        forall h :: h in r.tables.documents <==> exists f :: f in listing && Paths.IsHtml(f) && h == Paths.Join(htmlRoot, f)
  {
    var files := Paths.HtmlFiles(listing);
    SyncMirrorsFolder(t, htmlRoot, PdfOf(pdfRoot), files, w);
    Paths.HtmlFilesMembers(listing);
  }

  /** A pass over a listing, completed or failed, keeps the record table and the index paired. */
  lemma IngestedPreservesValid(t: Tables, htmlRoot: string, pdfRoot: string, listing: seq<string>, w: World)
    requires Valid(t)
    ensures Valid(Ingested(t, htmlRoot, pdfRoot, listing, w).tables)
  {
    SyncPreservesValid(t, htmlRoot, PdfOf(pdfRoot), Paths.HtmlFiles(listing), w);
  }

  /**
   * Over a listing without repeats, a completed pass renders and extracts
   * exactly the HTML files whose stored fingerprint is absent or different,
   * in scan order.
   */
  lemma IngestedRendersStale(t: Tables, htmlRoot: string, pdfRoot: string, listing: seq<string>, w: World)
    requires Paths.Distinct(listing)
    ensures var r := Ingested(t, htmlRoot, pdfRoot, listing, w);
      r.outcome.Completed? ==> r.rendered == Stale(t, htmlRoot, Paths.HtmlFiles(listing), w)
  {
    Paths.HtmlFilesDistinct(listing);
    SyncRendersStale(t, htmlRoot, PdfOf(pdfRoot), Paths.HtmlFiles(listing), w);
  }

  /**
   * A pass over any listing, completed or failed, never renders or extracts
   * a file whose stored fingerprint matches.
   */
  lemma IngestedNeverRendersSynced(t: Tables, htmlRoot: string, pdfRoot: string, listing: seq<string>, w: World, h: string)
    requires InSync(t, h, w.sha256Of(h))
    ensures h !in Ingested(t, htmlRoot, pdfRoot, listing, w).rendered
  {
    SyncNeverRendersSynced(t, htmlRoot, PdfOf(pdfRoot), Paths.HtmlFiles(listing), w, h);
  }

  // ----- id allocation as the schema declares it -----

  ghost function MaxId(ids: set<nat>): (m: nat)
    ensures forall i :: i in ids ==> i <= m
    ensures ids != {} ==> m in ids
    decreases ids
  {
    if ids == {} then 0
    else
      var i :| i in ids;
      var r := MaxId(ids - {i});
      assert forall j :: j in ids ==> j == i || j in ids - {i};
      if i > r then i else r
  }

  /**
   * The rowid SQLite gives a row inserted without one into a table whose
   * `id INTEGER PRIMARY KEY` lacks AUTOINCREMENT (indexer.py:27): one more
   * than the largest id present.
   */
  ghost function NextRowid(ids: set<nat>): nat
  {
    MaxId(ids) + 1
  }

  /**
   * As the schema is written, deleting the record with the largest id lets
   * SQLite hand out an id no larger than the deleted one, so an id below
   * the counter, one already handed out, is given to the next insert.
   */
  lemma RowidReusedAfterEvictingNewest(t: Tables, p: string)
    requires Valid(t) && p in t.documents
    requires forall q :: q in t.documents ==> t.documents[q].id <= t.documents[p].id
    ensures var ids := Ids(Evict(t, {p}).documents);
      && t.documents[p].id !in ids
      && NextRowid(ids) <= t.documents[p].id < t.nextId
  {
    var e := Evict(t, {p}).documents;
    assert e == t.documents - {p};
    var ids := Ids(e);
    var id := t.documents[p].id;
    forall i | i in ids ensures i < id {
      var q :| q in e && e[q].id == i;
      assert q != p && q in t.documents;
    }
    if ids != {} {
      assert MaxId(ids) in ids;
    }
  }

  const SampleStore := Tables(
    map["a.html" := Document(1, "a.pdf", "h1", "alpha", "t0"), "b.html" := Document(2, "b.pdf", "h2", "beta", "t0")],
    map[1 := "alpha", 2 := "beta"],
    3)

  /**
   * As the schema is written, evicting the newest record frees its id for
   * the next insert: once b.html (id 2) is removed, a new document gets 2.
   */
  lemma RowidReusedAfterEviction()
    ensures var evicted := Pruned(SampleStore, {"a.html"}).tables;
      && 2 in Ids(SampleStore.documents)
      && 2 !in Ids(evicted.documents)
      && NextRowid(Ids(evicted.documents)) == 2
  {
    var evicted := Pruned(SampleStore, {"a.html"}).tables;
    assert SampleStore.documents["b.html"].id == 2;
    assert evicted.documents == map["a.html" := Document(1, "a.pdf", "h1", "alpha", "t0")];
    assert Ids(evicted.documents) == {1} by {
      assert evicted.documents["a.html"].id == 1;
    }
  }

  /** With the counter, the same sequence gives the new document id 3, never 2. */
  lemma CounterNotReusedAfterEviction()
    ensures var evicted := Pruned(SampleStore, {"a.html"}).tables;
      var u := Upserted(evicted, "c.html", "c.pdf", "h3", "gamma", "t1").tables;
      && u.documents["c.html"].id == 3
      && u.documents["c.html"].id !in Ids(SampleStore.documents)
  {
    var evicted := Pruned(SampleStore, {"a.html"}).tables;
    assert "c.html" !in evicted.documents;
    forall i | i in Ids(SampleStore.documents) ensures i < 3 {
      var q :| q in SampleStore.documents && SampleStore.documents[q].id == i;
    }
  }
}
