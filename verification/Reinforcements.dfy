/** Consumption receipts as one transaction over both tables: the receipts are merged and the memories they
    report as used are reinforced, once per receipt. */
module Reinforcements {
  import opened Basics
  import opened Records
  import opened MemoryTables
  import opened MemoryStores
  import opened Consumption

  /** The access columns after the UPDATE of each receipt, in order; `clock` has one reading per UPDATE. */
  function Reinforced(rows: Rows, touches: seq<Touch>, clock: seq<int>): Rows
    requires |clock| == |touches|
  {
    if touches == [] then rows
    else
      var n := |touches| - 1;
      var before, touch := Reinforced(rows, touches[..n], clock[..n]), touches[n];
      if touch.memory in before then
        before[touch.memory := TouchedRow(before[touch.memory], Max(touch.consumedAt, clock[n]))]
      else before
  }

  /** How many updates name the memory. */
  function Occurrences(touches: seq<Touch>, id: MemoryId): nat {
    if touches == [] then 0
    else Occurrences(touches[..|touches| - 1], id) + if touches[|touches| - 1].memory == id then 1 else 0
  }

  /** How many receipts report an action on the memory. */
  function Actions(batch: seq<Receipt>, id: MemoryId): nat {
    if batch == [] then 0
    else
      var last := batch[|batch| - 1];
      Actions(batch[..|batch| - 1], id) + if Acts(last.use) && last.key.memory == id then 1 else 0
  }

  lemma OccurrencesSnoc(touches: seq<Touch>, touch: Touch, id: MemoryId)
    ensures Occurrences(touches + [touch], id) == Occurrences(touches, id) + if touch.memory == id then 1 else 0
  {
    assert (touches + [touch])[..|touches|] == touches;
  }

  lemma {:induction false} OccurrencesAreActions(batch: seq<Receipt>, id: MemoryId)
    ensures Occurrences(Touches(batch), id) == Actions(batch, id)
  {
    if batch != [] {
      var n := |batch| - 1;
      OccurrencesAreActions(batch[..n], id);
      OccurrencesSnoc(Touches(batch[..n]), Touch(batch[n].key.memory, batch[n].use.consumedAt), id);
      assert Touches(batch[..n]) + [] == Touches(batch[..n]);
    }
  }

  /** Access counts rise by the number of updates and nothing but access telemetry changes. */
  lemma {:induction false} CountsRise(rows: Rows, touches: seq<Touch>, clock: seq<int>, id: MemoryId)
    requires |clock| == |touches| && id in rows
    ensures Reinforced(rows, touches, clock).Keys == rows.Keys
    ensures var after := Reinforced(rows, touches, clock)[id];
            after.access.count == rows[id].access.count + Occurrences(touches, id) && Quiet(after) == Quiet(rows[id])
  {
    if touches != [] {
      var n := |touches| - 1;
      CountsRise(rows, touches[..n], clock[..n], id);
    }
  }

  /** The stored access count after a batch counts its receipts, and a batch recorded again counts them again,
      although no receipt changes. */
  lemma ReplayCountsTwice(rows: Rows, batch: seq<Receipt>, first: seq<int>, second: seq<int>, id: MemoryId)
    requires |first| == |second| == |Touches(batch)| && id in rows
    ensures var once := Reinforced(rows, Touches(batch), first);
            var twice := Reinforced(once, Touches(batch), second);
            && id in once && id in twice
            && once[id].access.count == rows[id].access.count + Actions(batch, id)
            && twice[id].access.count == rows[id].access.count + 2 * Actions(batch, id)
  {
    OccurrencesAreActions(batch, id);
    CountsRise(rows, Touches(batch), first, id);
    CountsRise(Reinforced(rows, Touches(batch), first), Touches(batch), second, id);
  }

  lemma ReinforcedSnoc(rows: Rows, touches: seq<Touch>, clock: seq<int>, i: nat)
    requires |clock| == |touches| && i < |touches|
    ensures var before := Reinforced(rows, touches[..i], clock[..i]);
            Reinforced(rows, touches[..i + 1], clock[..i + 1]) ==
            if touches[i].memory in before then
              before[touches[i].memory := TouchedRow(before[touches[i].memory], Max(touches[i].consumedAt, clock[i]))]
            else before
  {
    assert touches[..i + 1][..i] == touches[..i] && clock[..i + 1][..i] == clock[..i];
  }

  /** What some of the UPDATEs have done to the table. */
  ghost predicate Applied(a: Db, b: Db, touches: seq<Touch>, clock: seq<int>)
    requires |clock| == |touches|
  {
    && Step(a, b) && b.rows == Reinforced(a.rows, touches, clock)
    && b.revisions == a.revisions && b.fts == a.fts && b.embeddings == a.embeddings
  }

  lemma NoneApplied(a: Db)
    ensures Applied(a, a, [], [])
  {
    StepReflexive(a);
  }

  lemma AppliedSnoc(a: Db, b: Db, c: Db, touches: seq<Touch>, clock: seq<int>, i: nat)
    requires |clock| == |touches| && i < |touches| && Applied(a, b, touches[..i], clock[..i]) && Step(b, c)
    requires c.rows == if touches[i].memory in b.rows
                       then b.rows[touches[i].memory := TouchedRow(b.rows[touches[i].memory], Max(touches[i].consumedAt, clock[i]))]
                       else b.rows
    requires c.revisions == b.revisions && c.fts == b.fts && c.embeddings == b.embeddings
    ensures Applied(a, c, touches[..i + 1], clock[..i + 1])
  {
    hide Step, TouchedRow;
    ReinforcedSnoc(a.rows, touches, clock, i);
    KeysKept(a.rows, touches[..i], clock[..i]);
    StepTransitive(a, b, c);
    hide Reinforced;
  }

  lemma {:induction false} KeysKept(rows: Rows, touches: seq<Touch>, clock: seq<int>)
    requires |clock| == |touches|
    ensures Reinforced(rows, touches, clock).Keys == rows.Keys
  {
    hide TouchedRow;
    if touches != [] {
      KeysKept(rows, touches[..|touches| - 1], clock[..|touches| - 1]);
    }
  }

  /** The UPDATE statements: no counter, no full-text entry and no embedding moves. */
  method ReinforceAll(store: MemoryStore, touches: seq<Touch>, clock: seq<int>)
    requires store.Valid() && |clock| == |touches|
    modifies store
    ensures store.Valid() && Step(old(store.State()), store.State())
    ensures store.rows == Reinforced(old(store.rows), touches, clock)
    ensures store.revisions == old(store.revisions) && store.fts == old(store.fts) && store.embeddings == old(store.embeddings)
  {
    ghost var before := store.State();
    NoneApplied(before);
    hide Step, Inv, Reinforced, TouchedRow;
    for i := 0 to |touches|
      invariant store.Valid() && Applied(before, store.State(), touches[..i], clock[..i])
    {
      ghost var mid := store.State();
      StepReflexive(mid);
      if touches[i].memory in store.rows {
        store.TouchRow(touches[i].memory, Max(touches[i].consumedAt, clock[i]));
      }
      AppliedSnoc(before, mid, store.State(), touches, clock, i);
    }
    assert touches[..|touches|] == touches && clock[..|touches|] == clock;
  }

  /** `record_consumption_receipts` with its updates of the memory table: both tables move or neither does, and
      the revision that etags name never moves. */
  method RecordReceipts(log: ConsumptionLog, store: MemoryStore, batch: seq<Receipt>, stored: set<string>, clock: seq<int>)
      returns (r: Result<(), Refusal>)
    requires log.Valid() && store.Valid() && |clock| == |Touches(batch)|
    modifies log, store
    ensures log.Valid() && store.Valid() && Step(old(store.State()), store.State())
    ensures store.revisions == old(store.revisions) && store.fts == old(store.fts) && store.embeddings == old(store.embeddings)
    ensures r.Ok? <==> Acceptable(batch, old(log.traces) + stored)
    ensures r.Ok? ==> log.receipts == Recorded(old(log.receipts), batch) && store.rows == Reinforced(old(store.rows), Touches(batch), clock)
    ensures r.Err? ==> log.receipts == old(log.receipts) && store.rows == old(store.rows)
  {
    StepReflexive(store.State());
    hide Acceptable, Recorded, Touches, Reinforced, Step, Inv;
    var recorded := log.RecordConsumptionReceipts(batch, stored);
    match recorded
    case Err(refusal) => return Err(refusal);
    case Ok(touches) =>
      ReinforceAll(store, touches, clock);
      return Ok(());
  }
}
