/** The memory table with everything SQLite keeps beside it: the full-text copy, the embeddings and the
    baseline revision counters, each maintained by triggers on single-row statements. */
module MemoryTables {
  import opened Basics
  import opened Text
  import opened Records

  type Model = string

  /** The counter a row moves, keyed as in `baseline_revisions`. */
  datatype CounterKey = CounterKey(namespace: string, workspace: string, scopeKey: string)

  function CounterOf(r: Record): CounterKey {
    CounterKey(r.address.namespace, r.address.workspace, Coalesce(r.address.scopeKey))
  }

  /** One row of `memories_fts`; its rowid is the rowid of the memory it copies. */
  datatype FtsEntry = FtsEntry(rowid: MemoryId, namespace: string, workspace: string, text: string)

  function EntryOf(r: Record): FtsEntry {
    FtsEntry(r.id, r.address.namespace, r.address.workspace, r.derived.normalized)
  }

  datatype Embedding = Embedding(contentHash: ContentHash, dimensions: nat, bucket: nat, vector: Bytes)

  type Embeddings = map<(MemoryId, Model), Embedding>

  type Revisions = map<CounterKey, nat>

  datatype Db = Db(rows: Rows, fts: seq<FtsEntry>, embeddings: Embeddings, revisions: Revisions)

  /** Which columns an UPDATE names, as far as the triggers can tell: only the access telemetry; columns
      that describe the row but not its address or content; or all of them. */
  datatype SetList = AccessOnly | RowColumns | AllColumns

  /** `new'` differs from `old'` in the named columns only. */
  predicate Respects(old': Record, new': Record, cols: SetList) {
    && new'.id == old'.id && new'.createdAt == old'.createdAt
    && (!cols.AllColumns? ==> new'.address == old'.address && new'.kind == old'.kind
                              && new'.content == old'.content && new'.derived == old'.derived)
    && (cols.AccessOnly? ==> Quiet(new') == Quiet(old'))
  }

  /** A row without its access telemetry. */
  function Quiet(r: Record): Record {
    r.(access := Access(None, 0))
  }

  // ---------- what one statement does, triggers included ----------

  function Revision(revisions: Revisions, k: CounterKey): nat {
    if k in revisions then revisions[k] else 0
  }

  function Bump(revisions: Revisions, k: CounterKey): Revisions {
    revisions[k := Revision(revisions, k) + 1]
  }

  function Without(fts: seq<FtsEntry>, rowid: MemoryId): seq<FtsEntry> {
    if fts == [] then []
    else (if fts[0].rowid == rowid then [] else [fts[0]]) + Without(fts[1..], rowid)
  }

  function DropEmbeddings(embeddings: Embeddings, id: MemoryId): Embeddings {
    map k | k in embeddings && k.0 != id :: embeddings[k]
  }

  function Inserted(db: Db, r: Record): Db {
    Db(db.rows[r.id := r], db.fts + [EntryOf(r)], db.embeddings, Bump(db.revisions, CounterOf(r)))
  }

  function Deleted(db: Db, id: MemoryId): Db
    requires id in db.rows
  {
    Db(db.rows - {id}, Without(db.fts, id), DropEmbeddings(db.embeddings, id), Bump(db.revisions, CounterOf(db.rows[id])))
  }

  /** The three UPDATE triggers look at the columns named, not at the values, except that embeddings go
      only when the hash really changes. */
  function Updated(db: Db, r: Record, cols: SetList): Db
    requires r.id in db.rows
  {
    var was := db.rows[r.id];
    Db(db.rows[r.id := r],
       if cols.AllColumns? then Without(db.fts, r.id) + [EntryOf(r)] else db.fts,
       if cols.AllColumns? && was.derived.contentHash != r.derived.contentHash
       then DropEmbeddings(db.embeddings, r.id) else db.embeddings,
       if !cols.AccessOnly? then Bump(Bump(db.revisions, CounterOf(was)), CounterOf(r)) else db.revisions)
  }

  // ---------- coherence ----------

  ghost predicate DistinctRowids(fts: seq<FtsEntry>) {
    forall i, j :: 0 <= i < j < |fts| ==> fts[i].rowid != fts[j].rowid
  }

  /** Exactly one full-text entry per memory, carrying its current text. */
  ghost predicate FtsCoherent(rows: Rows, fts: seq<FtsEntry>) {
    && (forall e :: e in fts ==> e.rowid in rows && e == EntryOf(rows[e.rowid]))
    && (forall id :: id in rows ==> EntryOf(rows[id]) in fts)
    && DistinctRowids(fts)
  }

  /** Every embedding belongs to a memory and was computed from its current content. */
  ghost predicate EmbeddingsCoherent(rows: Rows, embeddings: Embeddings) {
    forall k :: k in embeddings ==> k.0 in rows && embeddings[k].contentHash == rows[k.0].derived.contentHash
  }

  ghost predicate Inv(rules: LibraryRules, db: Db) {
    && RowsInv(rules, db.rows)
    && FtsCoherent(db.rows, db.fts)
    && EmbeddingsCoherent(db.rows, db.embeddings)
  }

  ghost predicate RowsInv(rules: LibraryRules, rows: Rows) {
    && RowsKeyed(rows)
    && (forall id :: id in rows ==> RowOk(rules, rows[id]))
    && ActiveUnique(rows)
  }

  lemma RowFacts(rules: LibraryRules, db: Db, id: MemoryId)
    requires Inv(rules, db) && id in db.rows
    ensures db.rows[id].id == id && ConstraintsOk(db.rows[id])
  {
  }

  lemma {:induction false} WithoutIs(fts: seq<FtsEntry>, rowid: MemoryId)
    ensures forall e :: e in Without(fts, rowid) <==> e in fts && e.rowid != rowid
  {
    if fts != [] {
      WithoutIs(fts[1..], rowid);
      assert fts == [fts[0]] + fts[1..];
    }
  }

  lemma DistinctTail(fts: seq<FtsEntry>)
    requires DistinctRowids(fts) && fts != []
    ensures DistinctRowids(fts[1..]) && forall e :: e in fts[1..] ==> e.rowid != fts[0].rowid
  {
  }

  lemma {:induction false} WithoutDistinct(fts: seq<FtsEntry>, rowid: MemoryId)
    requires DistinctRowids(fts)
    ensures DistinctRowids(Without(fts, rowid))
  {
    if fts != [] {
      DistinctTail(fts);
      WithoutDistinct(fts[1..], rowid);
      WithoutIs(fts[1..], rowid);
    }
  }

  lemma AppendCoherent(rows: Rows, fts: seq<FtsEntry>, r: Record)
    requires RowsKeyed(rows) && FtsCoherent(rows - {r.id}, fts)
    ensures FtsCoherent(rows[r.id := r], fts + [EntryOf(r)])
  {
    var all, after := fts + [EntryOf(r)], rows[r.id := r];
    forall id | id in after
      ensures EntryOf(after[id]) in all
    {
      if id != r.id {
        assert id in rows - {r.id} && EntryOf(rows[id]) in fts;
      } else {
        assert all[|fts|] == EntryOf(r);
      }
    }
    forall i, j | 0 <= i < j < |all|
      ensures all[i].rowid != all[j].rowid
    {
      assert all[i] in fts;
    }
  }

  lemma WithoutCoherent(rows: Rows, fts: seq<FtsEntry>, id: MemoryId)
    requires RowsKeyed(rows) && FtsCoherent(rows, fts)
    ensures FtsCoherent(rows - {id}, Without(fts, id))
  {
    WithoutDistinct(fts, id);
    WithoutIs(fts, id);
  }

  // ---------- two-state promises ----------

  /** What counter `k` summarises. */
  function View(rows: Rows, k: CounterKey): map<MemoryId, Record> {
    map id | id in rows && CounterOf(rows[id]) == k :: Quiet(rows[id])
  }

  /** No counter goes back, and a counter that stands still vouches for its rows. */
  ghost predicate Tracks(a: Db, b: Db) {
    forall k :: TracksAt(a, b, k)
  }

  ghost predicate TracksAt(a: Db, b: Db, k: CounterKey) {
    && Revision(a.revisions, k) <= Revision(b.revisions, k)
    && (Revision(a.revisions, k) == Revision(b.revisions, k) ==> View(a.rows, k) == View(b.rows, k))
  }

  /** A surviving row keeps its creation time and never becomes less restricted. */
  ghost predicate Keeps(a: Rows, b: Rows) {
    forall id :: id in a && id in b ==>
      a[id].sensitivity.Rank() <= b[id].sensitivity.Rank() && a[id].createdAt == b[id].createdAt
  }

  ghost predicate Step(a: Db, b: Db) {
    Tracks(a, b) && Keeps(a.rows, b.rows)
  }

  lemma TracksTransitive(a: Db, b: Db, c: Db)
    requires Tracks(a, b) && Tracks(b, c)
    ensures Tracks(a, c)
  {
    forall k
      ensures TracksAt(a, c, k)
    {
      assert TracksAt(a, b, k) && TracksAt(b, c, k);
    }
  }

  lemma StepTransitive(a: Db, b: Db, c: Db)
    requires Step(a, b) && Step(b, c)
    requires forall id :: id in a.rows && id in c.rows ==> id in b.rows
    ensures Step(a, c)
  {
    TracksTransitive(a, b, c);
  }

  // ---------- each statement keeps the invariant and the promises ----------

  /** The unique index lets `r` in. */
  ghost predicate IndexAllows(rows: Rows, r: Record) {
    forall id :: id in rows && id != r.id ==> !Twins(rows[id], r)
  }

  lemma PutKeepsRows(rules: LibraryRules, rows: Rows, r: Record)
    requires RowsInv(rules, rows) && RowOk(rules, r) && IndexAllows(rows, r)
    ensures RowsInv(rules, rows[r.id := r])
  {
    hide RowOk, IdentityOf;
    var after := rows[r.id := r];
    forall a, b | a in after && b in after && Twins(after[a], after[b])
      ensures a == b
    {
      assert (a != r.id ==> after[a] == rows[a]) && (b != r.id ==> after[b] == rows[b]);
    }
  }

  lemma DropKeepsRows(rules: LibraryRules, rows: Rows, id: MemoryId)
    requires RowsInv(rules, rows)
    ensures RowsInv(rules, rows - {id})
  {
  }

  lemma InsertTracks(db: Db, r: Record)
    requires r.id !in db.rows
    ensures Step(db, Inserted(db, r))
  {
    forall k
      ensures TracksAt(db, Inserted(db, r), k)
    {
      if k != CounterOf(r) {
        assert View(db.rows, k) == View(Inserted(db, r).rows, k);
      }
    }
  }

  lemma RowsKeyedIs(rules: LibraryRules, rows: Rows)
    requires RowsInv(rules, rows)
    ensures RowsKeyed(rows)
  {
  }

  lemma InsertKeeps(rules: LibraryRules, db: Db, r: Record)
    requires Inv(rules, db) && r.id !in db.rows && RowOk(rules, r) && IndexAllows(db.rows, r)
    ensures Inv(rules, Inserted(db, r)) && Step(db, Inserted(db, r))
  {
    hide RowOk, RowsInv, ActiveUnique, IndexAllows, Tracks, FtsCoherent, Keeps;
    PutKeepsRows(rules, db.rows, r);
    assert db.rows - {r.id} == db.rows;
    RowsKeyedIs(rules, db.rows);
    AppendCoherent(db.rows, db.fts, r);
    InsertTracks(db, r);
  }

  lemma DropCoherent(rows: Rows, embeddings: Embeddings, id: MemoryId)
    requires EmbeddingsCoherent(rows, embeddings)
    ensures EmbeddingsCoherent(rows - {id}, DropEmbeddings(embeddings, id))
  {
  }

  lemma DeleteTracks(db: Db, id: MemoryId)
    requires id in db.rows
    ensures Step(db, Deleted(db, id))
  {
    forall k
      ensures TracksAt(db, Deleted(db, id), k)
    {
      if k != CounterOf(db.rows[id]) {
        assert View(db.rows, k) == View(Deleted(db, id).rows, k);
      }
    }
  }

  lemma DeleteKeeps(rules: LibraryRules, db: Db, id: MemoryId)
    requires Inv(rules, db) && id in db.rows
    ensures Inv(rules, Deleted(db, id)) && Step(db, Deleted(db, id))
  {
    DropKeepsRows(rules, db.rows, id);
    WithoutCoherent(db.rows, db.fts, id);
    DropCoherent(db.rows, db.embeddings, id);
    DeleteTracks(db, id);
  }

  lemma UpdateTracks(db: Db, r: Record, cols: SetList)
    requires r.id in db.rows && Respects(db.rows[r.id], r, cols)
    ensures Tracks(db, Updated(db, r, cols))
  {
    var was, after := db.rows[r.id], Updated(db, r, cols);
    forall k
      ensures TracksAt(db, after, k)
    {
      if cols.AccessOnly? {
        assert View(db.rows, k) == View(after.rows, k);
      } else if k != CounterOf(was) && k != CounterOf(r) {
        assert View(db.rows, k) == View(after.rows, k);
      }
    }
  }

  lemma UpdateFtsCoherent(db: Db, r: Record, cols: SetList)
    requires RowsKeyed(db.rows) && FtsCoherent(db.rows, db.fts)
    requires r.id in db.rows && Respects(db.rows[r.id], r, cols)
    ensures FtsCoherent(Updated(db, r, cols).rows, Updated(db, r, cols).fts)
  {
    if cols.AllColumns? {
      WithoutCoherent(db.rows, db.fts, r.id);
      AppendCoherent(db.rows, Without(db.fts, r.id), r);
      hide FtsCoherent, RowsKeyed, Respects;
    } else {
      assert EntryOf(r) == EntryOf(db.rows[r.id]);
      hide Respects, DistinctRowids;
    }
  }

  lemma UpdateCoherent(db: Db, r: Record, cols: SetList)
    requires RowsKeyed(db.rows) && FtsCoherent(db.rows, db.fts) && EmbeddingsCoherent(db.rows, db.embeddings)
    requires r.id in db.rows && Respects(db.rows[r.id], r, cols)
    ensures FtsCoherent(Updated(db, r, cols).rows, Updated(db, r, cols).fts)
    ensures EmbeddingsCoherent(Updated(db, r, cols).rows, Updated(db, r, cols).embeddings)
  {
    UpdateFtsCoherent(db, r, cols);
    hide FtsCoherent, RowsKeyed;
  }

  lemma KeyIs(rules: LibraryRules, rows: Rows, id: MemoryId)
    requires RowsInv(rules, rows) && id in rows
    ensures RowsKeyed(rows) && rows[id].id == id
  {
  }

  lemma UpdateKeepsRows(db: Db, r: Record, cols: SetList)
    requires r.id in db.rows && Respects(db.rows[r.id], r, cols) && db.rows[r.id].sensitivity.Rank() <= r.sensitivity.Rank()
    ensures Updated(db, r, cols).rows == db.rows[r.id := r] && Keeps(db.rows, db.rows[r.id := r])
  {
  }

  lemma UpdateKeeps(rules: LibraryRules, db: Db, r: Record, cols: SetList)
    requires Inv(rules, db) && r.id in db.rows && RowOk(rules, r) && IndexAllows(db.rows, r)
    requires Respects(db.rows[r.id], r, cols)
    requires db.rows[r.id].sensitivity.Rank() <= r.sensitivity.Rank()
    ensures Inv(rules, Updated(db, r, cols)) && Step(db, Updated(db, r, cols))
  {
    hide RowOk, RowsInv, ActiveUnique, IndexAllows, Tracks, FtsCoherent, EmbeddingsCoherent, Respects;
    PutKeepsRows(rules, db.rows, r);
    KeyIs(rules, db.rows, r.id);
    UpdateTracks(db, r, cols);
    UpdateCoherent(db, r, cols);
    UpdateKeepsRows(db, r, cols);
  }
}
