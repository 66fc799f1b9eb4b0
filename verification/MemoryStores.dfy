/** The operations of the memory store, each one transaction over the memory table. */
module MemoryStores {
  import opened Basics
  import opened Text
  import opened Utf8
  import opened Records
  import opened MemoryTables

  const I64_MAX: int := 0x7FFF_FFFF_FFFF_FFFF
  const TOUCH_LIMIT: nat := 128
  const MODEL_LIMIT: nat := 128
  const MIN_DIMENSIONS: nat := 2
  const MAX_DIMENSIONS: nat := 2048

  /** SQL's RAISE(ABORT) or a unique-index violation, and the errors found before any statement. */
  datatype Error = BadRecord(reason: Invalid) | IdentityConflict(holder: MemoryId) | Aborted | BadModel | BadVector

  datatype NewMemory = NewMemory(
    address: Address, kind: Kind, content: string, sensitivity: Sensitivity, importance: real, confidence: real,
    pinned: bool, ttlSeconds: Option<nat>, metadata: string)

  /** `into_record`, before canonicalisation. */
  function RawRecord(m: NewMemory, id: MemoryId, now: int): Record {
    Record(id, m.address, m.kind, m.content, Derived("", Sha256(""), "", 0), Active, m.sensitivity, m.importance, m.confidence,
           now, now, Access(None, 0), Some(now),
           if m.ttlSeconds.Some? then Some(Min(now + Min(m.ttlSeconds.value, I64_MAX), I64_MAX)) else None,
           None, m.pinned, m.metadata)
  }

  // ---------- the row each operation writes ----------

  function MaxReal(a: real, b: real): real {
    if a >= b then a else b
  }

  /** No end is the latest end. */
  function LaterEnd(a: Option<int>, b: Option<int>): Option<int> {
    if a.None? || b.None? then None else Some(Max(a.value, b.value))
  }

  /** `remember` on content that is already there. */
  function Merged(row: Record, r: Record, now: int): Record {
    row.(sensitivity := row.sensitivity.MostRestrictive(r.sensitivity),
         pinned := row.pinned || r.pinned,
         importance := MaxReal(row.importance, r.importance),
         confidence := MaxReal(row.confidence, r.confidence),
         validUntil := LaterEnd(row.validUntil, r.validUntil),
         updatedAt := now)
  }

  /** ON CONFLICT(id) DO UPDATE: everything replaced, but creation time kept and sensitivity joined. */
  function Replaced(row: Record, r: Record): Record {
    r.(createdAt := row.createdAt, sensitivity := row.sensitivity.MostRestrictive(r.sensitivity))
  }

  function UpsertedRow(rows: Rows, r: Record): Record {
    if r.id in rows then Replaced(rows[r.id], r) else r
  }

  predicate Closes(status: Status) {
    status.Superseded? || status.Archived?
  }

  /** Setting a status: superseding and archiving end the validity, the others apply to active rows only. */
  function WithStatus(row: Record, status: Status, supersedes: Option<MemoryId>, now: int): Record {
    if Closes(status) then
      row.(status := status, supersedesId := supersedes, updatedAt := now, validUntil := ClosedAt(row.validUntil, now))
    else
      row.(status := status, supersedesId := supersedes, updatedAt := now)
  }

  function ArchivedRow(row: Record, now: int): Record {
    row.(status := Archived, updatedAt := now, validUntil := ClosedAt(row.validUntil, now))
  }

  function TouchedRow(row: Record, now: int): Record {
    row.(access := Access(Some(now), row.access.count + 1))
  }

  function ActiveIn(rows: Rows, namespace: string, workspace: string): set<MemoryId> {
    set id | id in rows && InWorkspace(rows[id], namespace, workspace)
  }

  function ExpiredIn(rows: Rows, now: int): set<MemoryId> {
    set id | id in rows && HasExpired(rows[id], now)
  }

  ghost predicate AnyStartsLater(rows: Rows, ids: set<MemoryId>, now: int) {
    exists id :: id in ids && id in rows && StartsLater(rows[id], now)
  }

  lemma NobodyStartsLater(rows: Rows, now: int)
    ensures !AnyStartsLater(rows, {}, now)
  {
  }

  lemma StartsLaterFirst(rows: Rows, ids: set<MemoryId>, id: MemoryId, r: Record, now: int)
    requires id in ids && id in rows
    ensures AnyStartsLater(rows, ids, now) <==> StartsLater(rows[id], now) || AnyStartsLater(rows[id := r], ids - {id}, now)
  {
    if AnyStartsLater(rows[id := r], ids - {id}, now) {
      var k :| k in ids - {id} && k in rows[id := r] && StartsLater(rows[id := r][k], now);
      assert k in ids && k in rows && StartsLater(rows[k], now);
    }
    if AnyStartsLater(rows, ids, now) && !StartsLater(rows[id], now) {
      var k :| k in ids && k in rows && StartsLater(rows[k], now);
      assert k in ids - {id} && k in rows[id := r] && StartsLater(rows[id := r][k], now);
    }
  }

  function FirstIds(ids: seq<MemoryId>): set<MemoryId> {
    set i | 0 <= i < |ids| && i < TOUCH_LIMIT :: ids[i]
  }

  predicate StartsLater(r: Record, now: int) {
    r.validFrom.Some? && r.validFrom.value > now
  }

  predicate InWorkspace(r: Record, namespace: string, workspace: string) {
    r.status.Active? && r.address.namespace == namespace && r.address.workspace == workspace
  }

  predicate HasExpired(r: Record, now: int) {
    r.status.Active? && r.validUntil.Some? && r.validUntil.value <= now
  }

  // ---------- small facts about those rows ----------

  /** A row whose address and content stay keeps everything but its interval and scores. */
  lemma SameContentOk(rules: LibraryRules, was: Record, r: Record)
    requires RowOk(rules, was) && r.address == was.address && r.content == was.content && r.derived == was.derived
    requires IntervalOk(r) && ScoresOk(r)
    ensures RowOk(rules, r)
  {
  }

  lemma SameIdentityAllowed(rules: LibraryRules, rows: Rows, r: Record)
    requires RowsInv(rules, rows) && r.id in rows && IdentityOf(r) == IdentityOf(rows[r.id])
    requires r.status.Active? ==> rows[r.id].status.Active?
    ensures IndexAllows(rows, r)
  {
    forall id | id in rows && id != r.id
      ensures !Twins(rows[id], r)
    {
      assert Twins(rows[id], r) ==> Twins(rows[id], rows[r.id]);
    }
  }

  lemma CanonicalKeeps(rules: LibraryRules, raw: Record)
    requires Canonicalized(rules, raw).Ok?
    ensures var c := Canonicalized(rules, raw).value;
            c == raw.(address := c.address, content := c.content, derived := c.derived)
  {
  }

  lemma RowOkConstraints(rules: LibraryRules, r: Record)
    requires RowOk(rules, r)
    ensures ConstraintsOk(r)
  {
  }

  /** An update of `row` to `r` that leaves address and content alone, breaks no constraint, activates
      nothing and relaxes nothing. */
  ghost predicate Amends(row: Record, r: Record, cols: SetList) {
    && Respects(row, r, cols) && !cols.AllColumns?
    && IntervalOk(r) && ScoresOk(r)
    && (r.status.Active? ==> row.status.Active?)
    && row.sensitivity.Rank() <= r.sensitivity.Rank()
  }

  lemma MergedAmends(row: Record, r: Record, now: int)
    requires ConstraintsOk(row) && ConstraintsOk(r)
    ensures Amends(row, Merged(row, r, now), RowColumns)
  {
  }

  lemma MergedKeepsId(row: Record, r: Record, now: int)
    ensures Merged(row, r, now).id == row.id
  {
  }

  lemma InsertIs(db: Db, r: Record)
    ensures Inserted(db, r).rows == db.rows[r.id := r]
  {
  }

  lemma NoTwinAllows(rows: Rows, r: Record)
    requires forall id :: id in rows ==> !Twins(rows[id], r)
    ensures IndexAllows(rows, r)
  {
  }

  /** The only way to break a constraint by closing is a start in the future. */
  lemma StatusAmends(row: Record, status: Status, supersedes: Option<MemoryId>, now: int)
    requires ConstraintsOk(row) && (Closes(status) || row.status.Active?)
    ensures ConstraintsOk(WithStatus(row, status, supersedes, now)) <==> !(Closes(status) && StartsLater(row, now))
    ensures ConstraintsOk(WithStatus(row, status, supersedes, now)) ==>
              Amends(row, WithStatus(row, status, supersedes, now), RowColumns)
  {
    ClosingNeedsPastStart(row, now);
  }

  lemma ArchivedAmends(row: Record, now: int)
    requires ConstraintsOk(row)
    ensures ConstraintsOk(ArchivedRow(row, now)) <==> !StartsLater(row, now)
    ensures ConstraintsOk(ArchivedRow(row, now)) ==> Amends(row, ArchivedRow(row, now), RowColumns)
  {
    ClosingNeedsPastStart(row, now);
  }

  function PinnedRow(row: Record, pinned: bool, now: int): Record {
    row.(pinned := pinned, updatedAt := now)
  }

  lemma PinnedAmends(row: Record, pinned: bool, now: int)
    requires ConstraintsOk(row)
    ensures Amends(row, PinnedRow(row, pinned, now), RowColumns)
  {
  }

  lemma TouchedAmends(row: Record, now: int)
    requires ConstraintsOk(row)
    ensures Amends(row, TouchedRow(row, now), AccessOnly)
  {
  }

  lemma ReplacedOk(rules: LibraryRules, was: Record, r: Record)
    requires RowOk(rules, r)
    ensures RowOk(rules, Replaced(was, r))
  {
  }

  /** The record a transaction would upsert is refused by the index exactly when another active row has
      its identity. */
  ghost predicate TwinElsewhere(rows: Rows, r: Record) {
    exists id :: id in rows && id != r.id && Twins(rows[id], r)
  }

  // ---------- a batch of upserts ----------

  /** The table after upserting canonical records in order, or nothing if the index stops one of them. */
  ghost function BatchRows(rows: Rows, records: seq<Record>): Option<Rows> {
    if records == [] then Some(rows)
    else
      var before := BatchRows(rows, records[..|records| - 1]);
      var r := records[|records| - 1];
      if before.None? || TwinElsewhere(before.value, r) then None
      else Some(before.value[r.id := UpsertedRow(before.value, r)])
  }

  ghost function Canonicals(rules: LibraryRules, raws: seq<Record>): Option<seq<Record>> {
    if raws == [] then Some([])
    else
      var init := Canonicals(rules, raws[..|raws| - 1]);
      var last := Canonicalized(rules, raws[|raws| - 1]);
      if init.None? || last.Err? then None else Some(init.value + [last.value])
  }

  /** What a dream commits: every record canonical, no identity taken at its turn, every source attached
      to a memory that exists at the end. */
  ghost function DreamRows(rules: LibraryRules, rows: Rows, raws: seq<Record>, sourceIds: seq<MemoryId>): Option<Rows> {
    var records := Canonicals(rules, raws);
    if records.None? then None
    else
      var after := BatchRows(rows, records.value);
      if after.None? || exists i :: 0 <= i < |sourceIds| && sourceIds[i] !in after.value then None else after
  }

  // ---------- the store ----------

  class MemoryStore {
    const rules: LibraryRules
    var rows: Rows
    var fts: seq<FtsEntry>
    var embeddings: Embeddings
    var revisions: Revisions

    ghost function State(): Db
      reads this
    {
      Db(rows, fts, embeddings, revisions)
    }

    ghost predicate Valid()
      reads this
    {
      Inv(rules, State())
    }

    constructor (rules: LibraryRules)
      ensures this.rules == rules && Valid() && State() == Db(map[], [], map[], map[])
    {
      this.rules := rules;
      rows, fts, embeddings, revisions := map[], [], map[], map[];
    }

    // ----- single-row statements with their triggers -----

    method IndexScan(r: Record) returns (free: bool)
      ensures free <==> IndexAllows(rows, r)
    {
      var rest := rows.Keys;
      while rest != {}
        invariant rest <= rows.Keys
        invariant forall id :: id in rows && id !in rest && id != r.id ==> !Twins(rows[id], r)
        decreases |rest|
      {
        var id :| id in rest;
        if id != r.id && Twins(rows[id], r) {
          return false;
        }
        rest := rest - {id};
      }
      return true;
    }

    method InsertRow(r: Record) returns (ok: bool)
      requires r.id !in rows
      modifies this
      ensures ok <==> ConstraintsOk(r) && IndexAllows(old(rows), r)
      ensures State() == if ok then Inserted(old(State()), r) else old(State())
    {
      var free := IndexScan(r);
      ok := ConstraintsOk(r) && free;
      if ok {
        rows := rows[r.id := r];
        fts := fts + [EntryOf(r)];
        revisions := Bump(revisions, CounterOf(r));
      }
    }

    method UpdateRow(r: Record, cols: SetList) returns (ok: bool)
      requires r.id in rows
      modifies this
      ensures ok <==> ConstraintsOk(r) && IndexAllows(old(rows), r)
      ensures State() == if ok then Updated(old(State()), r, cols) else old(State())
    {
      var free := IndexScan(r);
      ok := ConstraintsOk(r) && free;
      if ok {
        var was := rows[r.id];
        rows := rows[r.id := r];
        if cols.AllColumns? {
          fts := Without(fts, r.id);
          fts := fts + [EntryOf(r)];
          if was.derived.contentHash != r.derived.contentHash {
            embeddings := DropEmbeddings(embeddings, r.id);
          }
        }
        if !cols.AccessOnly? {
          revisions := Bump(revisions, CounterOf(was));
          revisions := Bump(revisions, CounterOf(r));
        }
      }
    }

    method DeleteRow(id: MemoryId)
      requires id in rows
      modifies this
      ensures State() == Deleted(old(State()), id)
    {
      var was := rows[id];
      rows := rows - {id};
      fts := Without(fts, id);
      embeddings := DropEmbeddings(embeddings, id);
      revisions := Bump(revisions, CounterOf(was));
    }

    lemma RowFact(id: MemoryId)
      requires Valid() && id in rows
      ensures rows[id].id == id && ConstraintsOk(rows[id])
    {
      RowFacts(rules, State(), id);
    }

    lemma AmendFacts(id: MemoryId, r: Record, cols: SetList)
      requires Valid() && id in rows && Amends(rows[id], r, cols)
      ensures r.id == id && ConstraintsOk(r) && IndexAllows(rows, r)
      ensures Inv(rules, Updated(State(), r, cols)) && Step(State(), Updated(State(), r, cols))
    {
      RowFacts(rules, State(), id);
      SameContentOk(rules, rows[id], r);
      SameIdentityAllowed(rules, rows, r);
      UpdateKeeps(rules, State(), r, cols);
    }

    /** An amendment always gets through. */
    method AmendRow(id: MemoryId, r: Record, cols: SetList)
      requires Valid() && id in rows && Amends(rows[id], r, cols)
      modifies this
      ensures Valid() && Step(old(State()), State())
      ensures rows == old(rows)[id := r]
      ensures cols.AccessOnly? ==> fts == old(fts) && embeddings == old(embeddings) && revisions == old(revisions)
    {
      AmendFacts(id, r, cols);
      hide Inv, Step, ConstraintsOk, IndexAllows, Amends;
      var ok := UpdateRow(r, cols);
    }

    method FindTwin(r: Record) returns (twin: Option<MemoryId>)
      ensures twin.Some? ==> twin.value in rows && Twins(rows[twin.value], r)
      ensures twin.None? ==> forall id :: id in rows ==> !Twins(rows[id], r)
    {
      var rest := rows.Keys;
      while rest != {}
        invariant rest <= rows.Keys
        invariant forall id :: id in rows && id !in rest ==> !Twins(rows[id], r)
        decreases |rest|
      {
        var id :| id in rest;
        if Twins(rows[id], r) {
          return Some(id);
        }
        rest := rest - {id};
      }
      return None;
    }

    // ----- the operations -----

    /** The same identity is stored once: a second write joins the first row.  Neither path is ever
        stopped by the index or by a trigger. */
    method Remember(memory: NewMemory, id: MemoryId, madeAt: int, now: int) returns (r: Result<Record, Error>)
      requires Valid() && id !in rows
      modifies this
      ensures Valid() && Step(old(State()), State())
      ensures var c := Canonicalized(rules, RawRecord(memory, id, madeAt));
              match c
              case Err(reason) => r == Err(BadRecord(reason)) && State() == old(State())
              case Ok(record) =>
                if memory.sensitivity.Ephemeral? then r == Ok(record) && State() == old(State())
                else if exists twin :: twin in old(rows) && Twins(old(rows)[twin], record) then
                  r.Ok? && r.value.id in old(rows) && Twins(old(rows)[r.value.id], record)
                  && r.value == Merged(old(rows)[r.value.id], record, now) && rows == old(rows)[r.value.id := r.value]
                else r == Ok(record) && rows == old(rows)[id := record]
    {
      var raw := RawRecord(memory, id, madeAt);
      var c := Canonicalized(rules, raw);
      StepReflexive(State());
      if c.Err? {
        return Err(BadRecord(c.error));
      }
      var record := c.value;
      CanonicalRowOk(rules, raw);
      CanonicalKeeps(rules, raw);
      hide Inv, Step, RowOk, Canonicalized;
      if memory.sensitivity.Ephemeral? {
        return Ok(record);
      }
      var twin := FindTwin(record);
      match twin
      case Some(existing) =>
        var merged := MergeRow(existing, record, now);
        return Ok(merged);
      case None =>
        InsertNew(record);
        return Ok(record);
    }

    method MergeRow(id: MemoryId, record: Record, now: int) returns (merged: Record)
      requires Valid() && RowOk(rules, record) && id in rows
      modifies this
      ensures Valid() && Step(old(State()), State())
      ensures merged == Merged(old(rows)[id], record, now) && merged.id == id && rows == old(rows)[id := merged]
    {
      RowOkConstraints(rules, record);
      hide *;
      RowFact(id);
      MergedAmends(rows[id], record, now);
      MergedKeepsId(rows[id], record, now);
      merged := Merged(rows[id], record, now);
      AmendRow(id, merged, RowColumns);
    }

    method InsertNew(record: Record)
      requires Valid() && RowOk(rules, record) && record.id !in rows
      requires forall id :: id in rows ==> !Twins(rows[id], record)
      modifies this
      ensures Valid() && Step(old(State()), State())
      ensures rows == old(rows)[record.id := record]
    {
      RowOkConstraints(rules, record);
      NoTwinAllows(rows, record);
      hide *;
      InsertIs(State(), record);
      InsertKeeps(rules, State(), record);
      var ok := InsertRow(record);
    }

    /** The identity check made first is exactly what the index would check, so the write itself never
        fails. */
    method UpsertRecord(raw: Record) returns (r: Result<(), Error>)
      requires Valid()
      modifies this
      ensures Valid() && Step(old(State()), State())
      ensures match Canonicalized(rules, raw)
              case Err(reason) => r == Err(BadRecord(reason)) && State() == old(State())
              case Ok(record) =>
                if TwinElsewhere(old(rows), record) then
                  r.Err? && r.error.IdentityConflict? && r.error.holder in old(rows) && Twins(old(rows)[r.error.holder], record)
                  && State() == old(State())
                else r.Ok? && rows == old(rows)[record.id := UpsertedRow(old(rows), record)]
    {
      var c := Canonicalized(rules, raw);
      if c.Err? {
        return Err(BadRecord(c.error));
      }
      var record := c.value;
      CanonicalRowOk(rules, raw);
      if record.status.Active? {
        var twin := FindTwin(record);
        if twin.Some? && twin.value != record.id {
          return Err(IdentityConflict(twin.value));
        }
        TwinIsSelf(record, twin);
      }
      var ok := UpsertRow(record);
      assert ok;
      return Ok(());
    }

    lemma TwinIsSelf(record: Record, twin: Option<MemoryId>)
      requires Valid() && record.status.Active?
      requires twin.Some? ==> twin.value == record.id && twin.value in rows && Twins(rows[twin.value], record)
      requires twin.None? ==> forall id :: id in rows ==> !Twins(rows[id], record)
      ensures !TwinElsewhere(rows, record)
    {
      assert twin.Some? ==> forall id :: id in rows && Twins(rows[id], record) ==> Twins(rows[id], rows[twin.value]);
    }

    /** INSERT ... ON CONFLICT(id) DO UPDATE. */
    method UpsertRow(record: Record) returns (ok: bool)
      requires Valid() && RowOk(rules, record)
      modifies this
      ensures Valid() && Step(old(State()), State())
      ensures ok <==> !TwinElsewhere(old(rows), record)
      ensures rows == if ok then old(rows)[record.id := UpsertedRow(old(rows), record)] else old(rows)
      ensures !ok ==> State() == old(State())
    {
      if record.id in rows {
        var r := Replaced(rows[record.id], record);
        ReplacedOk(rules, rows[record.id], record);
        assert TwinElsewhere(rows, record) <==> !IndexAllows(rows, r);
        if IndexAllows(rows, r) {
          UpdateKeeps(rules, State(), r, AllColumns);
        }
        ok := UpdateRow(r, AllColumns);
      } else {
        assert TwinElsewhere(rows, record) <==> !IndexAllows(rows, record);
        if IndexAllows(rows, record) {
          InsertKeeps(rules, State(), record);
        }
        ok := InsertRow(record);
      }
    }

    /** Closing a row that starts in the future aborts and changes nothing. */
    method SetStatus(id: MemoryId, status: Status, supersedes: Option<MemoryId>, now: int) returns (r: Result<bool, Error>)
      requires Valid()
      modifies this
      ensures Valid() && Step(old(State()), State())
      ensures r.Err? <==> id in old(rows) && Closes(status) && StartsLater(old(rows)[id], now)
      ensures r == Ok(true) <==> id in old(rows) && (if Closes(status) then !StartsLater(old(rows)[id], now)
                                                     else old(rows)[id].status.Active?)
      ensures if r == Ok(true) then rows == old(rows)[id := WithStatus(old(rows)[id], status, supersedes, now)]
              else State() == old(State())
    {
      StepReflexive(State());
      hide Inv, Step, ConstraintsOk, Amends, WithStatus;
      if id !in rows || (!Closes(status) && !rows[id].status.Active?) {
        return Ok(false);
      }
      var row := WithStatus(rows[id], status, supersedes, now);
      RowFact(id);
      StatusAmends(rows[id], status, supersedes, now);
      if !ConstraintsOk(row) {
        return Err(Aborted);
      }
      AmendRow(id, row, RowColumns);
      return Ok(true);
    }

    method SetPinned(id: MemoryId, pinned: bool, now: int) returns (changed: bool)
      requires Valid()
      modifies this
      ensures Valid() && Step(old(State()), State())
      ensures changed <==> id in old(rows)
      ensures rows == if changed then old(rows)[id := PinnedRow(old(rows)[id], pinned, now)] else old(rows)
    {
      StepReflexive(State());
      hide *;
      if id !in rows {
        return false;
      }
      RowFact(id);
      PinnedAmends(rows[id], pinned, now);
      AmendRow(id, PinnedRow(rows[id], pinned, now), RowColumns);
      return true;
    }

    method Forget(id: MemoryId) returns (deleted: bool)
      requires Valid()
      modifies this
      ensures Valid() && Step(old(State()), State())
      ensures deleted <==> id in old(rows)
      ensures rows == old(rows) - {id}
      ensures forall k :: k in embeddings ==> k in old(embeddings) && k.0 != id
    {
      StepReflexive(State());
      assert rows - {id} == if id in rows then rows - {id} else rows;
      EmbeddingOwner(id);
      hide *;
      if id !in rows {
        return false;
      }
      DeleteOne(id);
      return true;
    }

    lemma EmbeddingOwner(id: MemoryId)
      requires Valid()
      ensures id !in rows ==> forall k :: k in embeddings ==> k.0 != id
    {
    }

    /** Touching moves telemetry and nothing else: no counter, no copy, no embedding. */
    method Touch(ids: seq<MemoryId>, now: int)
      requires Valid()
      modifies this
      ensures Valid() && Step(old(State()), State())
      ensures rows == Mapped(old(rows), FirstIds(ids), Toucher(now))
      ensures revisions == old(revisions) && fts == old(fts) && embeddings == old(embeddings)
    {
      MappedWithin(rows, FirstIds(ids), Toucher(now));
      hide *;
      TouchAll(FirstIds(ids) * rows.Keys, now);
    }

    /** The rows of one UPDATE statement, in any order. */
    method TouchAll(targets: set<MemoryId>, now: int)
      requires Valid() && targets <= rows.Keys
      modifies this
      ensures Valid() && Step(old(State()), State())
      ensures rows == Mapped(old(rows), targets, Toucher(now))
      ensures revisions == old(revisions) && fts == old(fts) && embeddings == old(embeddings)
      decreases |targets|
    {
      hide *;
      StepReflexive(State());
      StateRows();
      MappedNone(rows, Toucher(now));
      if targets != {} {
        var id :| id in targets;
        MappedFirst(rows, targets, id, Toucher(now));
        ToucherIs(rows[id], now);
        TouchRow(id, now);
        label First:
        StateRows();
        TouchAll(targets - {id}, now);
        StateRows();
        MappedKeys(old@First(rows), targets - {id}, Toucher(now));
        SameKeysTransitive(old(State()), old@First(State()), State());
      }
    }

    lemma StateRows()
      ensures State().rows == rows
    {
    }

    method TouchRow(id: MemoryId, now: int)
      requires Valid() && id in rows
      modifies this
      ensures Valid() && Step(old(State()), State())
      ensures rows == old(rows)[id := TouchedRow(old(rows)[id], now)]
      ensures revisions == old(revisions) && fts == old(fts) && embeddings == old(embeddings)
    {
      hide *;
      RowFact(id);
      TouchedAmends(rows[id], now);
      AmendRow(id, TouchedRow(rows[id], now), AccessOnly);
    }

    /** Every active row of the workspace is archived, or, if one of them starts in the future, none is. */
    method ArchiveWorkspace(namespace: string, workspace: string, now: int) returns (r: Result<set<MemoryId>, Error>)
      requires Valid()
      modifies this
      ensures Valid() && Step(old(State()), State())
      ensures r.Err? <==> AnyStartsLater(old(rows), ActiveIn(old(rows), namespace, workspace), now)
      ensures r.Err? ==> State() == old(State())
      ensures r.Ok? ==> r.value == ActiveIn(old(rows), namespace, workspace) && rows == Mapped(old(rows), r.value, Archiver(now))
    {
      ghost var before := State();
      StepReflexive(before);
      assert ActiveIn(rows, namespace, workspace) <= rows.Keys;
      hide *;
      StateIs();
      var targets := ActiveIn(rows, namespace, workspace);
      var rows0, fts0, embeddings0, revisions0 := rows, fts, embeddings, revisions;
      var ok := ArchiveAll(targets, now);
      if !ok {
        rows, fts, embeddings, revisions := rows0, fts0, embeddings0, revisions0;
        StateIs();
        return Err(Aborted);
      }
      return Ok(targets);
    }

    /** The rows of one UPDATE statement, in any order, until the trigger aborts. */
    method ArchiveAll(targets: set<MemoryId>, now: int) returns (ok: bool)
      requires Valid() && targets <= rows.Keys
      modifies this
      ensures Valid() && Step(old(State()), State())
      ensures ok <==> !AnyStartsLater(old(rows), targets, now)
      ensures ok ==> rows == Mapped(old(rows), targets, Archiver(now))
      decreases |targets|
    {
      hide *;
      StepReflexive(State());
      StateRows();
      MappedNone(rows, Archiver(now));
      if targets == {} {
        NobodyStartsLater(rows, now);
        return true;
      }
      var id :| id in targets;
      MappedFirst(rows, targets, id, Archiver(now));
      StartsLaterFirst(rows, targets, id, ArchivedRow(rows[id], now), now);
      ArchiverIs(rows[id], now);
      ok := ArchiveRow(id, now);
      if ok {
        label First:
        StateRows();
        ok := ArchiveAll(targets - {id}, now);
        StateRows();
        SameKeysTransitive(old(State()), old@First(State()), State());
      }
    }

    method ArchiveRow(id: MemoryId, now: int) returns (ok: bool)
      requires Valid() && id in rows
      modifies this
      ensures Valid() && Step(old(State()), State())
      ensures ok <==> !StartsLater(old(rows)[id], now)
      ensures if ok then rows == old(rows)[id := ArchivedRow(old(rows)[id], now)] else State() == old(State())
    {
      StepReflexive(State());
      hide *;
      var row := ArchivedRow(rows[id], now);
      RowFact(id);
      ArchivedAmends(rows[id], now);
      ok := ConstraintsOk(row);
      if ok {
        AmendRow(id, row, RowColumns);
      }
    }

    /** Expired active rows go, with their copies and embeddings. */
    method PruneExpired(now: int) returns (count: nat)
      requires Valid()
      modifies this
      ensures Valid() && Step(old(State()), State())
      ensures rows == old(rows) - ExpiredIn(old(rows), now) && count == |ExpiredIn(old(rows), now)|
    {
      assert ExpiredIn(rows, now) <= rows.Keys;
      hide *;
      count := DeleteAll(ExpiredIn(rows, now));
    }

    method DeleteAll(targets: set<MemoryId>) returns (count: nat)
      requires Valid() && targets <= rows.Keys
      modifies this
      ensures Valid() && Step(old(State()), State())
      ensures rows == old(rows) - targets && count == |targets|
      decreases |targets|
    {
      StepReflexive(State());
      hide *;
      if targets == {} {
        return 0;
      }
      var id :| id in targets;
      StateRows();
      DeleteOne(id);
      label First:
      StateRows();
      assert targets - {id} <= rows.Keys;
      count := DeleteAll(targets - {id});
      StateRows();
      DropTransitive(old(State()), old@First(State()), State());
      assert old(rows) - {id} - (targets - {id}) == old(rows) - targets;
      count := count + 1;
    }

    method DeleteOne(id: MemoryId)
      requires Valid() && id in rows
      modifies this
      ensures Valid() && Step(old(State()), State())
      ensures rows == old(rows) - {id}
      ensures forall k :: k in embeddings ==> k in old(embeddings) && k.0 != id
    {
      DeleteKeeps(rules, State(), id);
      hide Inv, Step;
      DeleteRow(id);
    }

    /** A batch lands whole or not at all. */
    method CommitDream(raws: seq<Record>, sourceIds: seq<MemoryId>) returns (ok: bool)
      requires Valid()
      modifies this
      ensures Valid() && Step(old(State()), State())
      ensures ok <==> DreamRows(rules, old(rows), raws, sourceIds).Some?
      ensures ok ==> Some(rows) == DreamRows(rules, old(rows), raws, sourceIds)
      ensures !ok ==> State() == old(State())
    {
      ghost var before := State();
      var rows0, fts0, embeddings0, revisions0 := rows, fts, embeddings, revisions;
      StepReflexive(before);
      hide Inv, Step, Canonicals, BatchRows;
      ok := UpsertAll(raws);
      if ok {
        var i := 0;
        while i < |sourceIds| && sourceIds[i] in rows
          invariant 0 <= i <= |sourceIds| && forall k :: 0 <= k < i ==> sourceIds[k] in rows
        {
          i := i + 1;
        }
        ok := i == |sourceIds|;
      }
      if !ok {
        rows, fts, embeddings, revisions := rows0, fts0, embeddings0, revisions0;
      }
    }

    method UpsertAll(raws: seq<Record>) returns (ok: bool)
      requires Valid()
      modifies this
      ensures Valid() && Step(old(State()), State())
      ensures ok <==> Canonicals(rules, raws).Some? && BatchRows(old(rows), Canonicals(rules, raws).value).Some?
      ensures ok ==> Some(rows) == BatchRows(old(rows), Canonicals(rules, raws).value)
    {
      ghost var before := State();
      StepReflexive(before);
      for i := 0 to |raws|
        invariant Valid() && Step(before, State()) && before.rows.Keys <= rows.Keys
        invariant Canonicals(rules, raws[..i]).Some?
        invariant BatchRows(before.rows, Canonicals(rules, raws[..i]).value) == Some(rows)
      {
        BatchSnoc(rules, before.rows, raws, i);
        var c := Canonicalized(rules, raws[i]);
        if c.Err? {
          BatchFails(rules, before.rows, raws, i + 1);
          return false;
        }
        CanonicalRowOk(rules, raws[i]);
        ghost var mid := State();
        ok := UpsertRow(c.value);
        if !ok {
          BatchFails(rules, before.rows, raws, i + 1);
          return false;
        }
        StepTransitive(before, mid, State());
      }
      assert raws[..|raws|] == raws;
      ok := true;
    }

    /** The vector is attached to the content it was computed from: an upsert against an older read finds
        no matching row and stores nothing. */
    method UpsertEmbedding(id: MemoryId, model: Model, expected: ContentHash, dimensions: nat, bucket: nat, vector: Bytes)
        returns (stored: Result<bool, Error>)
      requires Valid()
      modifies this
      ensures Valid() && Step(old(State()), State())
      ensures stored == Err(BadModel) <==> !IsModelName(model)
      ensures stored == Err(BadVector) <==> IsModelName(model) && !(2 <= dimensions <= 2048)
      ensures stored.Ok? <==> IsModelName(model) && 2 <= dimensions <= 2048
      ensures stored == Ok(true) ==> Embeddable(old(rows), id, expected)
      ensures stored == Ok(false) ==> !Embeddable(old(rows), id, expected)
      ensures rows == old(rows) && fts == old(fts) && revisions == old(revisions)
      ensures embeddings == if stored == Ok(true) then old(embeddings)[(id, model) := Embedding(expected, dimensions, bucket, vector)]
                            else old(embeddings)
    {
      StepReflexive(State());
      hide Inv, Step;
      if !IsModelName(model) {
        return Err(BadModel);
      }
      if !(MIN_DIMENSIONS <= dimensions <= MAX_DIMENSIONS) {
        return Err(BadVector);
      }
      if !Embeddable(rows, id, expected) {
        return Ok(false);
      }
      EmbeddingKept(rules, State(), (id, model), Embedding(rows[id].derived.contentHash, dimensions, bucket, vector));
      hide *;
      embeddings := embeddings[(id, model) := Embedding(rows[id].derived.contentHash, dimensions, bucket, vector)];
      StateIs();
      return Ok(true);
    }

    lemma StateIs()
      ensures State() == Db(rows, fts, embeddings, revisions) && (Valid() <==> Inv(rules, State()))
    {
    }

    method ClearEmbeddings(model: Model) returns (cleared: Result<nat, Error>)
      requires Valid()
      modifies this
      ensures Valid() && Step(old(State()), State())
      ensures rows == old(rows) && fts == old(fts) && revisions == old(revisions)
      ensures cleared == if model == "" || |Encode(model)| > 128 then Err(BadModel) else Ok(|OfModel(old(embeddings), model)|)
      ensures embeddings == if cleared.Ok? then WithoutModel(old(embeddings), model) else old(embeddings)
    {
      StepReflexive(State());
      ModelCleared(rules, State(), model);
      hide *;
      StateIs();
      if model == "" || |Encode(model)| > MODEL_LIMIT {
        return Err(BadModel);
      }
      cleared := Ok(|OfModel(embeddings, model)|);
      embeddings := WithoutModel(embeddings, model);
      StateIs();
    }
  }

  /** At most 128 printable ASCII characters. */
  predicate IsModelName(model: Model) {
    0 < |model| <= MODEL_LIMIT && forall i :: 0 <= i < |model| ==> 0x20 <= model[i] as int < 0x7F
  }

  predicate Embeddable(rows: Rows, id: MemoryId, expected: ContentHash) {
    id in rows && rows[id].derived.contentHash == expected && rows[id].status.Active? && !rows[id].sensitivity.Ephemeral?
  }

  function OfModel(embeddings: Embeddings, model: Model): set<(MemoryId, Model)> {
    set k | k in embeddings && k.1 == model
  }

  /** `f` applied to the rows named in `done`. */
  function Mapped(rows: Rows, done: set<MemoryId>, f: Record -> Record): Rows {
    map id | id in rows :: if id in done then f(rows[id]) else rows[id]
  }

  function Toucher(now: int): Record -> Record {
    r => TouchedRow(r, now)
  }

  lemma ToucherIs(r: Record, now: int)
    ensures Toucher(now)(r) == TouchedRow(r, now)
  {
  }

  function Archiver(now: int): Record -> Record {
    r => ArchivedRow(r, now)
  }

  lemma ArchiverIs(r: Record, now: int)
    ensures Archiver(now)(r) == ArchivedRow(r, now)
  {
  }

  lemma MappedNone(rows: Rows, f: Record -> Record)
    ensures Mapped(rows, {}, f) == rows
  {
  }

  lemma MappedWithin(rows: Rows, done: set<MemoryId>, f: Record -> Record)
    ensures Mapped(rows, done * rows.Keys, f) == Mapped(rows, done, f)
  {
  }

  lemma MappedKeys(rows: Rows, done: set<MemoryId>, f: Record -> Record)
    ensures Mapped(rows, done, f).Keys == rows.Keys
  {
  }

  lemma MappedFirst(rows: Rows, targets: set<MemoryId>, id: MemoryId, f: Record -> Record)
    requires id in targets && id in rows
    ensures Mapped(rows[id := f(rows[id])], targets - {id}, f) == Mapped(rows, targets, f)
  {
  }

  lemma SameKeysTransitive(a: Db, b: Db, c: Db)
    requires Step(a, b) && Step(b, c) && a.rows.Keys == b.rows.Keys
    ensures Step(a, c)
  {
    StepTransitive(a, b, c);
  }

  lemma DropTransitive(a: Db, b: Db, c: Db)
    requires Step(a, b) && Step(b, c) && c.rows.Keys <= b.rows.Keys
    ensures Step(a, c)
  {
    StepTransitive(a, b, c);
  }

  function WithoutModel(embeddings: Embeddings, model: Model): Embeddings {
    map k | k in embeddings && k.1 != model :: embeddings[k]
  }

  lemma EmbeddingKept(rules: LibraryRules, db: Db, k: (MemoryId, Model), e: Embedding)
    requires Inv(rules, db) && k.0 in db.rows && e.contentHash == db.rows[k.0].derived.contentHash
    ensures var after := Db(db.rows, db.fts, db.embeddings[k := e], db.revisions);
            Inv(rules, after) && Step(db, after)
  {
    StepSameRows(db, Db(db.rows, db.fts, db.embeddings[k := e], db.revisions));
    hide RowsInv, FtsCoherent, Step;
  }

  lemma ModelCleared(rules: LibraryRules, db: Db, model: Model)
    requires Inv(rules, db)
    ensures var after := Db(db.rows, db.fts, WithoutModel(db.embeddings, model), db.revisions);
            Inv(rules, after) && Step(db, after)
  {
    StepSameRows(db, Db(db.rows, db.fts, WithoutModel(db.embeddings, model), db.revisions));
    hide RowsInv, FtsCoherent, Step;
  }

  lemma StepSameRows(a: Db, b: Db)
    requires a.rows == b.rows && a.revisions == b.revisions
    ensures Step(a, b)
  {
  }

  lemma StepReflexive(a: Db)
    ensures Step(a, a)
  {
  }

  lemma BatchSnoc(rules: LibraryRules, rows: Rows, raws: seq<Record>, i: nat)
    requires i < |raws| && Canonicals(rules, raws[..i]).Some?
    ensures var last := Canonicalized(rules, raws[i]);
            if last.Err? then Canonicals(rules, raws[..i + 1]).None?
            else
              && Canonicals(rules, raws[..i + 1]) == Some(Canonicals(rules, raws[..i]).value + [last.value])
              && var before := BatchRows(rows, Canonicals(rules, raws[..i]).value);
                 BatchRows(rows, Canonicals(rules, raws[..i + 1]).value) ==
                 if before.None? || TwinElsewhere(before.value, last.value) then None
                 else Some(before.value[last.value.id := UpsertedRow(before.value, last.value)])
  {
    assert raws[..i + 1][..i] == raws[..i];
    var last := Canonicalized(rules, raws[i]);
    hide Canonicalized, BatchRows, TwinElsewhere, UpsertedRow;
    if last.Ok? {
      RowsSnoc(rows, Canonicals(rules, raws[..i]).value, last.value);
    }
  }

  lemma RowsSnoc(rows: Rows, records: seq<Record>, r: Record)
    ensures var before := BatchRows(rows, records);
            BatchRows(rows, records + [r]) ==
            if before.None? || TwinElsewhere(before.value, r) then None
            else Some(before.value[r.id := UpsertedRow(before.value, r)])
  {
    hide TwinElsewhere, UpsertedRow;
    assert (records + [r])[..|records|] == records;
  }

  /** Once a prefix fails the batch fails. */
  lemma {:induction false} BatchFails(rules: LibraryRules, rows: Rows, raws: seq<Record>, i: nat)
    requires i <= |raws|
    requires Canonicals(rules, raws[..i]).None? || BatchRows(rows, Canonicals(rules, raws[..i]).value).None?
    ensures Canonicals(rules, raws).None? || BatchRows(rows, Canonicals(rules, raws).value).None?
    decreases |raws| - i
  {
    if i < |raws| {
      if Canonicals(rules, raws[..i]).None? {
        assert raws[..i + 1][..i] == raws[..i];
      } else {
        BatchSnoc(rules, rows, raws, i);
      }
      BatchFails(rules, rows, raws, i + 1);
    } else {
      assert raws[..i] == raws;
    }
  }
}
