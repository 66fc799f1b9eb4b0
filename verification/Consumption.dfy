/** Consumption receipts: what a reader did with the memories a recall gave it, merged row by row. */
module Consumption {
  import opened Basics
  import opened Text

  const MAX_RECEIPT_BATCH: nat := 128

  datatype Key = Key(trace: string, memory: string, consumer: string, purpose: string, turn: string)

  datatype Use = Use(presented: bool, referenced: bool, usedForAction: bool, outcome: string, consumedAt: int)

  datatype Receipt = Receipt(key: Key, use: Use)

  datatype Refusal = BatchSize | IncompleteIdentity | UsedUnpresented | UnknownTrace

  type Table = map<Key, Use>

  predicate Complete(k: Key) {
    Trim(k.trace) != [] && Trim(k.memory) != [] && Trim(k.consumer) != [] && Trim(k.purpose) != [] && Trim(k.turn) != []
  }

  predicate Consistent(u: Use) {
    u.usedForAction ==> u.presented
  }

  /** ON CONFLICT DO UPDATE. */
  function Merge(old_: Use, new_: Use): Use {
    Use(old_.presented || new_.presented, old_.referenced || new_.referenced, old_.usedForAction || new_.usedForAction,
        if new_.outcome != "" then new_.outcome else old_.outcome, Max(old_.consumedAt, new_.consumedAt))
  }

  function RowRecorded(table: Table, r: Receipt): Table {
    table[r.key := if r.key in table then Merge(table[r.key], r.use) else r.use]
  }

  function Recorded(table: Table, batch: seq<Receipt>): Table {
    if batch == [] then table else RowRecorded(Recorded(table, batch[..|batch| - 1]), batch[|batch| - 1])
  }

  /** Merging is associative and absorbs repetition. */
  lemma MergeBand(a: Use, b: Use, c: Use)
    ensures Merge(Merge(a, b), c) == Merge(a, Merge(b, c))
    ensures Merge(a, a) == a && Merge(Merge(a, b), b) == Merge(a, b)
  {
  }

  /** The merge of the batch's receipts for one key, oldest first. */
  function Share(batch: seq<Receipt>, k: Key): Option<Use> {
    if batch == [] then None
    else
      var before, last := Share(batch[..|batch| - 1], k), batch[|batch| - 1];
      if last.key != k then before
      else if before.Some? then Some(Merge(before.value, last.use))
      else Some(last.use)
  }

  function MergeInto(row: Option<Use>, share: Option<Use>): Option<Use> {
    if share.None? then row else if row.None? then share else Some(Merge(row.value, share.value))
  }

  function Lookup(table: Table, k: Key): Option<Use> {
    if k in table then Some(table[k]) else None
  }

  /** A batch acts on each row through that row's share alone ... */
  lemma {:induction false} RecordedByShare(table: Table, batch: seq<Receipt>, k: Key)
    ensures Lookup(Recorded(table, batch), k) == MergeInto(Lookup(table, k), Share(batch, k))
  {
    if batch != [] {
      var init, last := batch[..|batch| - 1], batch[|batch| - 1];
      RecordedByShare(table, init, k);
      if last.key == k && k in table && Share(init, k).Some? {
        MergeBand(table[k], Share(init, k).value, last.use);
      }
    }
  }

  /** ... so recording a batch again changes no receipt ... */
  lemma ReplayChangesNothing(table: Table, batch: seq<Receipt>)
    ensures Recorded(Recorded(table, batch), batch) == Recorded(table, batch)
  {
    var once := Recorded(table, batch);
    var twice := Recorded(once, batch);
    forall k: Key
      ensures Lookup(twice, k) == Lookup(once, k)
    {
      RecordedByShare(table, batch, k);
      RecordedByShare(once, batch, k);
      var row, share := Lookup(table, k), Share(batch, k);
      if share.Some? {
        MergeBand(if row.Some? then row.value else share.value, share.value, share.value);
      }
    }
    assert forall k :: (k in twice <==> Lookup(twice, k).Some?) && (k in once <==> Lookup(once, k).Some?);
    assert forall k :: k in once ==> twice[k] == once[k];
  }

  /** ... and what a row says is what some receipt said: the flags are the union ... */
  lemma {:induction false} ShareIsUnion(batch: seq<Receipt>, k: Key)
    ensures Share(batch, k).Some? <==> exists i :: 0 <= i < |batch| && batch[i].key == k
    ensures Share(batch, k).Some? ==>
              var u := Share(batch, k).value;
              && (u.presented <==> exists i :: 0 <= i < |batch| && batch[i].key == k && batch[i].use.presented)
              && (u.referenced <==> exists i :: 0 <= i < |batch| && batch[i].key == k && batch[i].use.referenced)
              && (u.usedForAction <==> exists i :: 0 <= i < |batch| && batch[i].key == k && batch[i].use.usedForAction)
  {
    if batch != [] {
      var init, last := batch[..|batch| - 1], |batch| - 1;
      ShareIsUnion(init, k);
      assert forall i :: 0 <= i < last ==> init[i] == batch[i];
    }
  }

  /** ... and the time is the latest. */
  lemma {:induction false} ShareIsLatest(batch: seq<Receipt>, k: Key)
    requires Share(batch, k).Some?
    ensures var at := Share(batch, k).value.consumedAt;
            && (forall i :: 0 <= i < |batch| && batch[i].key == k ==> batch[i].use.consumedAt <= at)
            && (exists i :: 0 <= i < |batch| && batch[i].key == k && batch[i].use.consumedAt == at)
  {
    var init, last := batch[..|batch| - 1], |batch| - 1;
    assert forall i :: 0 <= i < last ==> init[i] == batch[i];
    if Share(init, k).Some? {
      ShareIsLatest(init, k);
    } else {
      ShareIsUnion(init, k);
    }
  }

  /** The UPDATE of one memory's access columns that a receipt asks for. */
  datatype Touch = Touch(memory: string, consumedAt: int)

  predicate Acts(u: Use) {
    u.referenced || u.usedForAction
  }

  /** One entry per receipt of the batch that reports an action. */
  function Touches(batch: seq<Receipt>): seq<Touch> {
    if batch == [] then []
    else
      var last := batch[|batch| - 1];
      Touches(batch[..|batch| - 1]) + if Acts(last.use) then [Touch(last.key.memory, last.use.consumedAt)] else []
  }

  ghost predicate Acceptable(batch: seq<Receipt>, traces: set<string>) {
    && 1 <= |batch| <= MAX_RECEIPT_BATCH
    && forall i :: 0 <= i < |batch| ==> Complete(batch[i].key) && Consistent(batch[i].use) && batch[i].key.trace in traces
  }

  lemma {:induction false} RecordedKeeps(table: Table, batch: seq<Receipt>, traces: set<string>)
    requires forall i :: 0 <= i < |batch| ==> Consistent(batch[i].use) && batch[i].key.trace in traces
    requires forall k :: k in table ==> k.trace in traces && Consistent(table[k])
    ensures forall k :: k in Recorded(table, batch) ==> k.trace in traces && Consistent(Recorded(table, batch)[k])
  {
    if batch != [] {
      RecordedKeeps(table, batch[..|batch| - 1], traces);
    }
  }

  lemma RecordedSnoc(table: Table, batch: seq<Receipt>, i: nat)
    requires i < |batch|
    ensures Recorded(table, batch[..i + 1]) == RowRecorded(Recorded(table, batch[..i]), batch[i])
    ensures Touches(batch[..i + 1]) ==
            Touches(batch[..i]) + if Acts(batch[i].use) then [Touch(batch[i].key.memory, batch[i].use.consumedAt)] else []
  {
    assert batch[..i + 1][..i] == batch[..i];
  }

  lemma RecordedNothing(table: Table)
    ensures Recorded(table, []) == table && Touches([]) == []
  {
  }

  class ConsumptionLog {
    var traces: set<string>
    var receipts: Table

    /** Every receipt belongs to a stored trace, and none says used but never presented. */
    ghost predicate Valid()
      reads this
    {
      forall k :: k in receipts ==> k.trace in traces && Consistent(receipts[k])
    }

    constructor ()
      ensures Valid() && traces == {} && receipts == map[]
    {
      traces, receipts := {}, map[];
    }

    /** `stored` are the traces the flush at the start of the call brings in. */
    method RecordConsumptionReceipts(batch: seq<Receipt>, stored: set<string>) returns (r: Result<seq<Touch>, Refusal>)
      requires Valid()
      modifies this
      ensures Valid()
      ensures r.Ok? <==> Acceptable(batch, old(traces) + stored)
      ensures r.Ok? ==> r.value == Touches(batch) && receipts == Recorded(old(receipts), batch)
      ensures r.Err? ==> receipts == old(receipts)
    {
      hide Complete, Recorded, Touches;
      if |batch| == 0 || |batch| > MAX_RECEIPT_BATCH {
        return Err(BatchSize);
      }
      for i := 0 to |batch|
        invariant forall j :: 0 <= j < i ==> Complete(batch[j].key) && Consistent(batch[j].use)
      {
        if !Complete(batch[i].key) {
          return Err(IncompleteIdentity);
        }
        if !Consistent(batch[i].use) {
          return Err(UsedUnpresented);
        }
      }
      traces := traces + stored;
      var staged, touched;
      staged, touched := Stage(batch);
      if staged.None? {
        return Err(UnknownTrace);
      }
      RecordedKeeps(receipts, batch, traces);
      receipts := staged.value;
      return Ok(touched);
    }

    /** The rows of the transaction, unless a foreign key stops it. */
    method Stage(batch: seq<Receipt>) returns (staged: Option<Table>, touched: seq<Touch>)
      ensures staged.Some? <==> forall i :: 0 <= i < |batch| ==> batch[i].key.trace in traces
      ensures staged.Some? ==> staged.value == Recorded(receipts, batch) && touched == Touches(batch)
    {
      hide Recorded, Touches, Merge, Consistent;
      RecordedNothing(receipts);
      var rows := receipts;
      touched := [];
      for i := 0 to |batch|
        invariant rows == Recorded(receipts, batch[..i]) && touched == Touches(batch[..i])
        invariant forall j :: 0 <= j < i ==> batch[j].key.trace in traces
      {
        var receipt := batch[i];
        if receipt.key.trace !in traces {
          return None, touched;
        }
        RecordedSnoc(receipts, batch, i);
        var row := if receipt.key in rows then Merge(rows[receipt.key], receipt.use) else receipt.use;
        rows := rows[receipt.key := row];
        if receipt.use.referenced || receipt.use.usedForAction {
          touched := touched + [Touch(receipt.key.memory, receipt.use.consumedAt)];
        }
      }
      assert batch[..|batch|] == batch;
      return Some(rows), touched;
    }

    /** ON DELETE CASCADE. */
    method DeleteTraces(gone: set<string>)
      requires Valid()
      modifies this
      ensures Valid() && traces == old(traces) - gone
      ensures receipts == map k | k in old(receipts) && k.trace !in gone :: old(receipts)[k]
    {
      traces := traces - gone;
      receipts := map k | k in receipts && k.trace !in gone :: receipts[k];
    }
  }
}
