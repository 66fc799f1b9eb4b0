/** What each operation's row means for its readers: when it is valid, and which columns it leaves alone. */
module RowEffects {
  import opened Basics
  import opened Records
  import opened MemoryTables
  import opened MemoryStores
  import opened Text
  import opened Utf8
  import D = Duplicates

  // ---------- closing ----------

  /** The row is valid from now on at no time, and at earlier times exactly when it was. */
  ghost predicate EndsNow(before: Record, after: Record, now: int) {
    forall t: int :: IsValidAt(after, t) <==> IsValidAt(before, t) && t < now
  }

  lemma ClosedEnds(before: Record, after: Record, now: int)
    requires after.validFrom == before.validFrom && after.validUntil == ClosedAt(before.validUntil, now)
    ensures EndsNow(before, after, now)
  {
  }

  /** Superseding and archiving end a validity and never extend one; the other statuses leave it alone. */
  lemma StatusEndsValidity(row: Record, status: Status, supersedes: Option<MemoryId>, now: int)
    ensures var after := WithStatus(row, status, supersedes, now);
            && (if status.Superseded? || status.Archived? then EndsNow(row, after, now)
                else after.validFrom == row.validFrom && after.validUntil == row.validUntil)
            && after.status == status && after.supersedesId == supersedes && after.updatedAt == now
            && SameElsewhere(row, after)
  {
    var after := WithStatus(row, status, supersedes, now);
    if status.Superseded? || status.Archived? {
      ClosedEnds(row, after, now);
    }
  }

  lemma ArchiveEndsValidity(row: Record, now: int)
    ensures var after := ArchivedRow(row, now);
            EndsNow(row, after, now) && after.status == Archived && after.supersedesId == row.supersedesId && after.updatedAt == now
            && SameElsewhere(row, after)
  {
    ClosedEnds(row, ArchivedRow(row, now), now);
  }

  lemma ConsolidationEndsValidity(row: Record, keep: MemoryId, now: int)
    ensures var after := D.SupersededRow(row, keep, now);
            EndsNow(row, after, now) && after.status == Superseded && after.supersedesId == Some(keep) && after.updatedAt == now
            && SameElsewhere(row, after)
  {
    ClosedEnds(row, D.SupersededRow(row, keep, now), now);
  }

  /** In the migration a loser's validity ends now and its update time stays; a leader changes in sensitivity only. */
  lemma ResolutionEndsValidity(rows: Rows, g: D.Groups, now: int, id: MemoryId)
    requires RowsKeyed(rows) && D.IsGrouping(rows, rows.Keys, g) && id in rows && rows[id].status.Active?
    ensures IdentityOf(rows[id]) in g
    ensures var row, after := rows[id], D.ResolvedRows(rows, g, now)[id];
            if g[IdentityOf(row)].leader == id then after == row.(sensitivity := after.sensitivity)
            else EndsNow(row, after, now) && after.updatedAt == row.updatedAt && SameElsewhere(row, after)
  {
    D.GroupResolved(rows, g, now, id);
    var row, after := rows[id], D.ResolvedRows(rows, g, now)[id];
    if g[IdentityOf(row)].leader != id {
      ClosedEnds(row, after, now);
    }
  }

  /** The columns closing and superseding leave alone. */
  predicate SameElsewhere(a: Record, b: Record) {
    && a.id == b.id && a.address == b.address && a.kind == b.kind && a.content == b.content && a.derived == b.derived
    && a.sensitivity == b.sensitivity && a.importance == b.importance && a.confidence == b.confidence
    && a.createdAt == b.createdAt && a.access == b.access && a.validFrom == b.validFrom && a.pinned == b.pinned
    && a.metadata == b.metadata
  }

  // ---------- new rows and merged rows ----------

  /** A memory with a time to live is valid for exactly that long, one without for ever. */
  lemma TimeToLive(m: NewMemory, id: MemoryId, now: int, t: int)
    requires 0 <= now && (m.ttlSeconds.Some? ==> now + m.ttlSeconds.value <= 0x7FFF_FFFF_FFFF_FFFF)
    ensures IsValidAt(RawRecord(m, id, now), t) <==> now <= t && (m.ttlSeconds.Some? ==> t < now + m.ttlSeconds.value)
  {
  }

  /** A huge time to live saturates instead of wrapping. */
  lemma HugeTimeToLive(m: NewMemory, id: MemoryId, now: int)
    requires 0 <= now <= 0x7FFF_FFFF_FFFF_FFFF && m.ttlSeconds.Some? && now + m.ttlSeconds.value > 0x7FFF_FFFF_FFFF_FFFF
    ensures RawRecord(m, id, now).validUntil == Some(0x7FFF_FFFF_FFFF_FFFF)
  {
  }

  /** A new row is active, unread, and says what the caller said. */
  lemma NewRowSays(m: NewMemory, id: MemoryId, now: int)
    ensures var r := RawRecord(m, id, now);
            && r.id == id && r.address == m.address && r.kind == m.kind && r.content == m.content && r.sensitivity == m.sensitivity
            && r.importance == m.importance && r.confidence == m.confidence && r.pinned == m.pinned && r.metadata == m.metadata
            && r.status == Active && r.createdAt == now && r.updatedAt == now && r.access.lastAt.None? && r.access.count == 0
            && r.supersedesId.None?
  {
  }

  /** Merging changes the five joined columns and the update time. */
  lemma MergeLeaves(row: Record, r: Record, now: int)
    ensures var m := Merged(row, r, now);
            && m.updatedAt == now && m.id == row.id && m.address == row.address && m.kind == row.kind && m.content == row.content
            && m.derived == row.derived && m.status == row.status && m.createdAt == row.createdAt && m.access == row.access
            && m.validFrom == row.validFrom && m.supersedesId == row.supersedesId && m.metadata == row.metadata
  {
  }

  /** An upsert of a known id takes everything from the record but its creation time and a looser sensitivity. */
  lemma ReplaceTakes(row: Record, r: Record)
    ensures var n := Replaced(row, r);
            && n.createdAt == row.createdAt
            && n == r.(createdAt := row.createdAt, sensitivity := n.sensitivity)
            && (n.sensitivity == row.sensitivity || n.sensitivity == r.sensitivity)
            && n.sensitivity.Rank() >= row.sensitivity.Rank() && n.sensitivity.Rank() >= r.sensitivity.Rank()
  {
  }

  /** Pinning changes the pin and the update time, touching the access columns. */
  lemma PinAndTouchLeave(row: Record, pinned: bool, now: int)
    ensures var p := PinnedRow(row, pinned, now);
            p.pinned == pinned && p.updatedAt == now && p.(pinned := row.pinned, updatedAt := row.updatedAt) == row
    ensures var t := TouchedRow(row, now);
            t.access.lastAt == Some(now) && t.access.count == row.access.count + 1 && t.(access := row.access) == row
  {
  }

  // ---------- which rows ----------

  /** Pruning leaves no active row past its end, and removes nothing else. */
  lemma PruneRemoves(rows: Rows, now: int, id: MemoryId)
    requires id in rows
    ensures id !in rows - ExpiredIn(rows, now) <==>
            rows[id].status.Active? && rows[id].validUntil.Some? && rows[id].validUntil.value <= now
  {
  }

  /** Archiving takes the active rows of the workspace and no others. */
  lemma ArchiveTakes(rows: Rows, namespace: string, workspace: string, now: int, id: MemoryId)
    requires id in rows
    ensures var after := Mapped(rows, ActiveIn(rows, namespace, workspace), Archiver(now));
            id in after
            && (if rows[id].status.Active? && rows[id].address.namespace == namespace && rows[id].address.workspace == workspace
                then after[id].status.Archived? && EndsNow(rows[id], after[id], now) else after[id] == rows[id])
  {
    ArchiveEndsValidity(rows[id], now);
    hide EndsNow;
  }

  /** A touch counts each of the first 128 ids once, however often it is named. */
  lemma TouchTakes(rows: Rows, ids: seq<MemoryId>, now: int, id: MemoryId)
    requires id in rows
    ensures var after := Mapped(rows, FirstIds(ids), Toucher(now));
            id in after
            && after[id].access.count == rows[id].access.count + (if exists i :: 0 <= i < 128 && i < |ids| && ids[i] == id then 1 else 0)
            && (after[id].access.count == rows[id].access.count ==> after[id] == rows[id])
  {
  }

  /** Two rows share the slot of the unique index exactly when both are active and agree in address, kind and hash. */
  lemma TwinsIff(a: Record, b: Record)
    ensures Twins(a, b) <==>
            && a.status == Active && b.status == Active && a.kind == b.kind && a.derived.contentHash == b.derived.contentHash
            && a.address.namespace == b.address.namespace && a.address.workspace == b.address.workspace
            && a.address.scope == b.address.scope && Coalesce(a.address.scopeKey) == Coalesce(b.address.scopeKey)
  {
  }

  // ---------- derived data ----------

  /** In every state the store keeps, each memory has a full-text entry with the normalised form of its own content,
      and each embedding was computed from the content its memory has now. */
  lemma IndexSaysContent(rules: LibraryRules, db: Db, id: MemoryId)
    requires Inv(rules, db) && id in db.rows
    ensures exists e :: e in db.fts && e.rowid == id && e.text == Normalized(rules, db.rows[id].content)
                        && e.namespace == db.rows[id].address.namespace && e.workspace == db.rows[id].address.workspace
    ensures forall e :: e in db.fts && e.rowid == id ==> e.text == Normalized(rules, db.rows[id].content)
    ensures forall k :: k in db.embeddings && k.0 == id ==>
                          db.embeddings[k].contentHash == Sha256(Normalized(rules, db.rows[id].content))
  {
    assert EntryOf(db.rows[id]) in db.fts;
    assert db.rows[id].derived == DerivedOf(rules, db.rows[id].content);
    hide Normalized, Gist, Tokens;
  }

  /** Inserting, deleting and updating move exactly the counters of the row's old and new place, and touching none. */
  lemma CountersMove(db: Db, r: Record, cols: SetList, k: CounterKey)
    ensures Revision(Inserted(db, r).revisions, k) == Revision(db.revisions, k) + if k == CounterOf(r) then 1 else 0
    ensures r.id in db.rows ==>
              var was := CounterOf(db.rows[r.id]);
              && Revision(Deleted(db, r.id).revisions, k) == Revision(db.revisions, k) + (if k == was then 1 else 0)
              && Revision(Updated(db, r, cols).revisions, k) ==
                 Revision(db.revisions, k) + (if cols.AccessOnly? then 0 else (if k == was then 1 else 0) + if k == CounterOf(r) then 1 else 0)
  {
  }

  /** A dream that commits leaves every record of the batch in the table and every source attached to a row of it. */
  lemma {:induction false} BatchLands(rows: Rows, records: seq<Record>, id: MemoryId)
    requires BatchRows(rows, records).Some?
    ensures id in BatchRows(rows, records).value <==> id in rows || exists i :: 0 <= i < |records| && records[i].id == id
    ensures (forall i :: 0 <= i < |records| ==> records[i].id != id) && id in rows ==>
              BatchRows(rows, records).value[id] == rows[id]
  {
    hide TwinElsewhere, UpsertedRow;
    if records != [] {
      var n := |records| - 1;
      BatchLands(rows, records[..n], id);
      assert records[n].id == id ==> exists i :: 0 <= i < |records| && records[i].id == id;
    }
  }

  lemma DreamLands(rules: LibraryRules, rows: Rows, raws: seq<Record>, sourceIds: seq<MemoryId>)
    requires DreamRows(rules, rows, raws, sourceIds).Some?
    ensures forall i :: 0 <= i < |raws| ==> Canonicalized(rules, raws[i]).Ok? && raws[i].id in DreamRows(rules, rows, raws, sourceIds).value
    ensures forall k :: 0 <= k < |sourceIds| ==> sourceIds[k] in DreamRows(rules, rows, raws, sourceIds).value
  {
    var records := Canonicals(rules, raws).value;
    forall i | 0 <= i < |raws|
      ensures Canonicalized(rules, raws[i]).Ok? && raws[i].id in DreamRows(rules, rows, raws, sourceIds).value
    {
      CanonicalAt(rules, raws, i);
      BatchLands(rows, records, raws[i].id);
      hide Canonicalized, BatchRows;
    }
  }

  lemma CanonicalId(rules: LibraryRules, raw: Record)
    ensures Canonicalized(rules, raw).Ok? ==> Canonicalized(rules, raw).value.id == raw.id
  {
    if Canonicalized(rules, raw).Ok? {
      CanonicalKeeps(rules, raw);
    }
  }

  lemma {:induction false} CanonicalAt(rules: LibraryRules, raws: seq<Record>, i: nat)
    requires Canonicals(rules, raws).Some? && i < |raws|
    ensures |Canonicals(rules, raws).value| == |raws| && Canonicalized(rules, raws[i]).Ok?
    ensures Canonicals(rules, raws).value[i] == Canonicalized(rules, raws[i]).value
    ensures Canonicals(rules, raws).value[i].id == raws[i].id
  {
    hide Canonicalized;
    var n := |raws| - 1;
    CanonicalsLength(rules, raws[..n]);
    CanonicalId(rules, raws[i]);
    if i < n {
      CanonicalAt(rules, raws[..n], i);
    }
  }

  lemma {:induction false} CanonicalsLength(rules: LibraryRules, raws: seq<Record>)
    requires Canonicals(rules, raws).Some?
    ensures |Canonicals(rules, raws).value| == |raws|
  {
    hide Canonicalized;
    if raws != [] {
      CanonicalsLength(rules, raws[..|raws| - 1]);
    }
  }

  // ---------- embeddings ----------

  /** A model is named by 1 to 128 characters from the space to the tilde. */
  lemma ModelNames(model: Model)
    ensures IsModelName(model) <==>
            1 <= |model| && |model| < 129 && forall i :: 0 <= i < |model| ==> ' ' <= model[i] && model[i] <= '~'
  {
  }

  /** Vectors go to active rows that are not ephemeral and still have the content the vector was computed from. */
  lemma EmbeddableIff(rules: LibraryRules, db: Db, id: MemoryId, content: string)
    requires Inv(rules, db)
    ensures Embeddable(db.rows, id, Sha256(Normalized(rules, content))) <==>
            && id in db.rows && db.rows[id].status == Active && db.rows[id].sensitivity != Ephemeral
            && Normalized(rules, db.rows[id].content) == Normalized(rules, content)
  {
    hide Normalized, Gist, Tokens, FtsCoherent, EmbeddingsCoherent, ActiveUnique, AddressOk, ConstraintsOk;
  }

  /** Clearing a model takes its vectors, counts them, and leaves the other models'. */
  lemma ClearTakes(embeddings: Embeddings, model: Model, k: (MemoryId, Model))
    requires k in embeddings
    ensures k in WithoutModel(embeddings, model) <==> k.1 != model
    ensures k in WithoutModel(embeddings, model) ==> WithoutModel(embeddings, model)[k] == embeddings[k]
    ensures k in OfModel(embeddings, model) <==> k.1 == model
    ensures |WithoutModel(embeddings, model)| + |OfModel(embeddings, model)| == |embeddings|
  {
    assert WithoutModel(embeddings, model).Keys + OfModel(embeddings, model) == embeddings.Keys;
    assert WithoutModel(embeddings, model).Keys !! OfModel(embeddings, model);
  }

  /** An upsert on a known identifier keeps its creation time and the stricter sensitivity and takes everything else. */
  lemma UpsertTakes(rows: Rows, r: Record)
    ensures r.id !in rows ==> UpsertedRow(rows, r) == r
    ensures r.id in rows ==>
              var u := UpsertedRow(rows, r);
              && u.createdAt == rows[r.id].createdAt
              && u.sensitivity.Rank() >= rows[r.id].sensitivity.Rank() && u.sensitivity.Rank() >= r.sensitivity.Rank()
              && u.sensitivity in {rows[r.id].sensitivity, r.sensitivity}
              && r == u.(createdAt := r.createdAt, sensitivity := r.sensitivity)
  {
  }

  /** A memory keeps its vectors through every update that leaves its content's hash alone, loses all of them in any other, and no
      other memory is affected. */
  lemma UpdateKeepsVectors(db: Db, r: Record, cols: SetList, k: (MemoryId, Model))
    requires r.id in db.rows && Respects(db.rows[r.id], r, cols) && k in db.embeddings
    ensures k in Updated(db, r, cols).embeddings <==> k.0 != r.id || r.derived.contentHash == db.rows[r.id].derived.contentHash
    ensures k in Updated(db, r, cols).embeddings ==> Updated(db, r, cols).embeddings[k] == db.embeddings[k]
  {
  }
}
