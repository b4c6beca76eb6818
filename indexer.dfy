/**
 * The synchroniser as it runs (app/services/indexer.py): a store whose
 * two tables and id counter the operations update in place, and the pass
 * that walks the scanned files. Each method is proved to act as its
 * counterpart in Catalog, where the properties of the pass are proved.
 */
module Indexer {
  import opened Wrappers
  import Paths
  import opened Catalog

  /** The `documents` table, its full-text index `documents_fts`, and the next id to hand out. */
  class Store {
    var documents: map<string, Document>
    var fts: map<nat, string>
    var nextId: nat

    function State(): Tables
      reads this
    {
      Tables(documents, fts, nextId)
    }

    ghost predicate Valid()
      reads this
    {
      Catalog.Valid(State())
    }

    /** A freshly created database: both tables empty, ids start at 1. */
    constructor ()
      ensures State() == Tables(map[], map[], 1)
      ensures Valid()
    {
      documents := map[];
      fts := map[];
      nextId := 1;
    }

    /** `_upsert_document` (indexer.py:52-94). */
    method Upsert(htmlPath: string, pdfPath: string, sha256: string, text: string, updatedAt: string) returns (changed: bool)
      modifies this
      ensures Upserted(old(State()), htmlPath, pdfPath, sha256, text, updatedAt) == UpsertResult(State(), changed)
    {
      ghost var t := State();
      ghost var u := Upserted(t, htmlPath, pdfPath, sha256, text, updatedAt);
      if htmlPath in documents && documents[htmlPath].sha256 == sha256 {
        return false;
      }
      var id: nat;
      if htmlPath !in documents {
        id := nextId;
        documents := documents[htmlPath := Document(id, pdfPath, sha256, text, updatedAt)];
        nextId := nextId + 1;
        fts := fts[id := text];
      } else {
        id := documents[htmlPath].id;
        documents := documents[htmlPath := Document(id, pdfPath, sha256, text, updatedAt)];
        fts := fts - {id};
        fts := fts[id := text];
        assert fts == t.fts[id := text];
      }
      changed := true;
      assert State() == u.tables;
    }

    /**
     * The two `DELETE` statements of `_remove_missing` (indexer.py:102-103):
     * the row of `htmlPath` goes, and so does its index entry.
     */
    method Delete(htmlPath: string)
      requires htmlPath in documents
      modifies this
      ensures State() == Evict(old(State()), {htmlPath})
    {
      var id := documents[htmlPath].id;
      EvictOne(State(), htmlPath);
      documents := documents - {htmlPath};
      fts := fts - {id};
    }

    /** `_remove_missing` (indexer.py:97-105): one pass over the rows fetched at the start. */
    method RemoveMissing(existing: set<string>) returns (removed: nat)
      modifies this
      ensures Pruned(old(State()), existing) == Removal(State(), removed)
    {
      ghost var t0 := State();
      var rows := documents.Keys;
      removed := 0;
      RemoveNone(t0, existing);
      while rows != {}
        invariant rows <= t0.documents.Keys
        invariant State() == Evict(t0, Visited(t0, rows) - existing)
        invariant removed == |Visited(t0, rows) - existing|
        decreases |rows|
      {
        var p :| p in rows;
        RemoveStep(t0, existing, rows, p, State(), removed);
        if p !in existing {
          Delete(p);
          removed := removed + 1;
        }
        rows := rows - {p};
      }
      assert Visited(t0, rows) == t0.documents.Keys;
    }

    /** The rollback of the connection's transaction: the tables return to `saved`. */
    method Restore(saved: Tables)
      modifies this
      ensures State() == saved
    {
      documents := saved.documents;
      fts := saved.fts;
      nextId := saved.nextId;
    }
  }

  /** Deleting one record and its index entry is evicting its path. */
  lemma EvictOne(t: Tables, p: string)
    requires p in t.documents
    ensures Evict(t, {p}) == Tables(t.documents - {p}, t.fts - {t.documents[p].id}, t.nextId)
  {
    var e := Evict(t, {p});
    assert IdsAt(t.documents, {p}) == {t.documents[p].id};
    assert e.documents == t.documents - {p};
    assert e.fts == t.fts - {t.documents[p].id};
  }

  /** The fetched rows the loop of `_remove_missing` has been through, when `rows` are left. */
  ghost function Visited(t0: Tables, rows: set<string>): set<string>
  {
    t0.documents.Keys - rows
  }

  /** Before the loop of `_remove_missing` nothing is visited and nothing removed. */
  lemma RemoveNone(t0: Tables, existing: set<string>)
    ensures Evict(t0, Visited(t0, t0.documents.Keys) - existing) == t0
    ensures |Visited(t0, t0.documents.Keys) - existing| == 0
  {
    assert Visited(t0, t0.documents.Keys) - existing == {};
    EvictNothing(t0);
  }

  /**
   * One iteration of the loop of `_remove_missing`: the row `p` is deleted
   * with its index entry and counted when its path is not in `existing`,
   * and left alone otherwise.
   */
  lemma RemoveStep(t0: Tables, existing: set<string>, rows: set<string>, p: string, before: Tables, removed: nat)
    requires rows <= t0.documents.Keys && p in rows
    requires before == Evict(t0, Visited(t0, rows) - existing)
    requires removed == |Visited(t0, rows) - existing|
    ensures p !in existing ==>
      && p in before.documents
      && Evict(t0, Visited(t0, rows - {p}) - existing) == Evict(before, {p})
      && |Visited(t0, rows - {p}) - existing| == removed + 1
    ensures p in existing ==>
      && Evict(t0, Visited(t0, rows - {p}) - existing) == before
      && |Visited(t0, rows - {p}) - existing| == removed
  {
    var gone := Visited(t0, rows) - existing;
    assert p !in gone;
    if p !in existing {
      assert Visited(t0, rows - {p}) - existing == gone + {p};
      EvictOneMore(t0, gone, p);
    } else {
      assert Visited(t0, rows - {p}) - existing == gone;
    }
  }

  /**
   * One iteration of the loop in `ingest_html_folder` (indexer.py:119-145)
   * over the relative path `rel`, the `k`-th file: skip it when its stored
   * fingerprint matches, otherwise render it, extract its text and upsert
   * it. A failed render is reported in `failed`, with the store as it was.
   */
  method ScanFile(db: Store, htmlRoot: string, pdfRoot: string, rel: string, k: nat, w: World,
                  processed: nat, updated: nat, skipped: nat, rendered: seq<string>)
    returns (processed': nat, updated': nat, skipped': nat, rendered': seq<string>, failed: Option<string>)
    modifies db
    ensures Step(Scan(old(db.State()), processed, updated, skipped, rendered, None), htmlRoot, PdfOf(pdfRoot), rel, k, w)
      == Scan(db.State(), processed', updated', skipped', rendered', failed)
  {
    var html := Paths.Join(htmlRoot, rel);
    var pdf := Paths.PdfPath(pdfRoot, rel);
    assert pdf == PdfOf(pdfRoot)(rel);
    var sha := w.sha256Of(html);
    processed', updated', skipped', rendered', failed := processed, updated, skipped, rendered, None;
    if html in db.documents && db.documents[html].sha256 == sha {
      skipped' := skipped + 1;
      processed' := processed + 1;
      return;
    }
    rendered' := rendered + [html];
    if !w.renders(html, pdf) {
      failed := Some(html);
      return;
    }
    var changed := db.Upsert(html, pdf, sha, w.textOf(html), w.clock(k));
    if changed {
      updated' := updated + 1;
    }
    processed' := processed + 1;
  }

  /**
   * `ingest_html_folder` (indexer.py:108-150). `listing` is the sorted
   * list of files below `htmlRoot`, relative to it. A failed render raises
   * out of the connection's `with` block, which rolls the pass back; the
   * model returns that as `RenderFailed` with the store restored.
   */
  method IngestHtmlFolder(db: Store, htmlRoot: string, pdfRoot: string, listing: seq<string>, w: World)
    returns (outcome: Outcome, rendered: seq<string>)
    modifies db
    ensures Ingested(old(db.State()), htmlRoot, pdfRoot, listing, w) == Ingest(db.State(), outcome, rendered)
  {
    var files := Paths.HtmlFiles(listing);
    var existing := Existing(htmlRoot, files);
    ghost var pdfOf := PdfOf(pdfRoot);
    var saved := db.State();
    var processed: nat, updated: nat, skipped: nat := 0, 0, 0;
    rendered := [];
    var i := 0;
    while i < |files|
      invariant 0 <= i <= |files|
      invariant ScanFiles(saved, htmlRoot, pdfOf, files[..i], w) == Scan(db.State(), processed, updated, skipped, rendered, None)
    {
      ScanFilesSnoc(saved, htmlRoot, pdfOf, files, w, i);
      var failed;
      processed, updated, skipped, rendered, failed := ScanFile(db, htmlRoot, pdfRoot, files[i], i, w, processed, updated, skipped, rendered);
      if failed.Some? {
        ScanFailureSticks(saved, htmlRoot, pdfOf, files, w, i + 1);
        db.Restore(saved);
        outcome := RenderFailed(failed.value);
        return;
      }
      i := i + 1;
    }
    assert files[..i] == files;
    var removed := db.RemoveMissing(existing);
    outcome := Completed(IngestStats(processed, updated, skipped, removed));
  }
}
