/** What a batch of receipts leaves behind, receipt by receipt: the merged rows and the access columns of the memories. */
module ReceiptShares {
  import opened Basics
  import opened Text
  import opened Records
  import opened MemoryTables
  import opened MemoryStores
  import C = Consumption
  import opened Reinforcements

  // ---------- which batches are taken ----------

  /** One to 128 receipts, each of a stored trace, with every part of its identity and never used unseen. */
  lemma AcceptableIff(batch: seq<C.Receipt>, traces: set<string>)
    ensures C.Acceptable(batch, traces) <==>
            && 1 <= |batch| <= 128
            && (forall i :: 0 <= i < |batch| ==> batch[i].key.trace in traces)
            && (forall i :: 0 <= i < |batch| && batch[i].use.usedForAction ==> batch[i].use.presented)
            && (forall i :: 0 <= i < |batch| ==> Trim(batch[i].key.trace) != [] && Trim(batch[i].key.memory) != [])
            && (forall i :: 0 <= i < |batch| ==> Trim(batch[i].key.consumer) != [] && Trim(batch[i].key.purpose) != [])
            && forall i :: 0 <= i < |batch| ==> Trim(batch[i].key.turn) != []
  {
    hide Trim;
  }

  // ---------- the merged rows ----------

  /** Receipt `i` is about the row. */
  predicate About(batch: seq<C.Receipt>, k: C.Key, i: nat) {
    i < |batch| && batch[i].key == k
  }

  /** A row exists once it or a receipt for it does, and reports whatever either reported. */
  lemma {:induction false} RowFlags(table: C.Table, batch: seq<C.Receipt>, k: C.Key)
    ensures k in C.Recorded(table, batch) <==> k in table || exists i: nat :: About(batch, k, i)
    ensures k in C.Recorded(table, batch) ==>
              var u := C.Recorded(table, batch)[k];
              && (u.presented <==> (k in table && table[k].presented) || exists i: nat :: About(batch, k, i) && batch[i].use.presented)
              && (u.referenced <==> (k in table && table[k].referenced) || exists i: nat :: About(batch, k, i) && batch[i].use.referenced)
              && (u.usedForAction <==> (k in table && table[k].usedForAction) || exists i: nat :: About(batch, k, i) && batch[i].use.usedForAction)
  {
    if batch != [] {
      var last := |batch| - 1;
      RowFlags(table, batch[..last], k);
      AboutSnoc(batch, k);
    }
  }

  lemma AboutSnoc(batch: seq<C.Receipt>, k: C.Key)
    requires batch != []
    ensures forall i: nat :: About(batch, k, i) <==> About(batch[..|batch| - 1], k, i) || (i == |batch| - 1 && batch[i].key == k)
    ensures forall i: nat :: About(batch[..|batch| - 1], k, i) ==> batch[..|batch| - 1][i] == batch[i]
  {
  }

  /** The outcome is that of the last receipt to name one, or the row's own. */
  lemma {:induction false} RowOutcome(table: C.Table, batch: seq<C.Receipt>, k: C.Key)
    requires k in C.Recorded(table, batch)
    ensures var outcome := C.Recorded(table, batch)[k].outcome;
            && (forall i: nat :: About(batch, k, i) && batch[i].use.outcome != ""
                                 && (forall j: nat :: i < j && About(batch, k, j) ==> batch[j].use.outcome == "") ==>
                  outcome == batch[i].use.outcome)
            && ((forall j: nat :: About(batch, k, j) ==> batch[j].use.outcome == "") ==>
                  outcome == if k in table then table[k].outcome else "")
  {
    if batch != [] {
      var last := |batch| - 1;
      var init := batch[..last];
      AboutSnoc(batch, k);
      RowFlags(table, init, k);
      if k in C.Recorded(table, init) {
        RowOutcome(table, init, k);
        hide C.Recorded;
        OutcomeStep(init, batch, k);
      }
    }
  }

  lemma OutcomeStep(init: seq<C.Receipt>, batch: seq<C.Receipt>, k: C.Key)
    requires batch != [] && init == batch[..|batch| - 1]
    ensures forall j: nat :: About(init, k, j) ==> About(batch, k, j) && j != |batch| - 1
  {
  }

  /** The time is the latest of all. */
  lemma {:induction false} RowTime(table: C.Table, batch: seq<C.Receipt>, k: C.Key)
    requires k in C.Recorded(table, batch)
    ensures var at := C.Recorded(table, batch)[k].consumedAt;
            && (k in table ==> table[k].consumedAt <= at)
            && (forall i: nat :: About(batch, k, i) ==> batch[i].use.consumedAt <= at)
            && ((k in table && table[k].consumedAt == at) || exists i: nat :: About(batch, k, i) && batch[i].use.consumedAt == at)
  {
    if batch != [] {
      var last := |batch| - 1;
      AboutSnoc(batch, k);
      RowFlags(table, batch[..last], k);
      if k in C.Recorded(table, batch[..last]) {
        RowTime(table, batch[..last], k);
      }
    }
  }

  // ---------- the memories ----------

  predicate Reports(u: C.Use) {
    u.referenced || u.usedForAction
  }

  /** The receipts before the `n`-th that refer to their memory or act on it. */
  ghost function ReportsBefore(batch: seq<C.Receipt>, n: nat): set<nat>
    requires n <= |batch|
  {
    set i: nat | i < n && Reports(batch[i].use)
  }

  lemma ReportsSnoc(batch: seq<C.Receipt>, n: nat)
    requires n < |batch|
    ensures |ReportsBefore(batch, n + 1)| == |ReportsBefore(batch, n)| + if Reports(batch[n].use) then 1 else 0
    ensures ReportsBefore(batch[..n], n) == ReportsBefore(batch, n)
  {
    assert ReportsBefore(batch, n + 1) == ReportsBefore(batch, n) + if Reports(batch[n].use) then {n} else {};
  }

  /** There is one update per such receipt ... */
  lemma {:induction false} TouchCount(batch: seq<C.Receipt>)
    ensures |C.Touches(batch)| == |ReportsBefore(batch, |batch|)|
  {
    if batch != [] {
      var n := |batch| - 1;
      TouchCount(batch[..n]);
      ReportsSnoc(batch, n);
    }
  }

  /** ... in order, with its memory and its time ... */
  lemma {:induction false} TouchSays(batch: seq<C.Receipt>, m: nat) returns (i: nat)
    requires m < |C.Touches(batch)|
    ensures i < |batch| && Reports(batch[i].use) && m == |ReportsBefore(batch, i)|
    ensures C.Touches(batch)[m] == C.Touch(batch[i].key.memory, batch[i].use.consumedAt)
  {
    var n := |batch| - 1;
    if m < |C.Touches(batch[..n])| {
      i := TouchSays(batch[..n], m);
      assert ReportsBefore(batch[..n], i) == ReportsBefore(batch, i);
    } else {
      TouchCount(batch[..n]);
      ReportsSnoc(batch, n);
      i := n;
    }
  }

  /** ... and the access time of a memory is that of the last update to name it: the receipt's or the clock's, whichever is later. */
  lemma {:induction false} LastTouchStands(rows: Rows, touches: seq<C.Touch>, clock: seq<int>, id: MemoryId)
    requires |clock| == |touches| && id in rows
    ensures id in Reinforced(rows, touches, clock)
    ensures var at := Reinforced(rows, touches, clock)[id].access.lastAt;
            && ((forall i :: 0 <= i < |touches| ==> touches[i].memory != id) ==> at == rows[id].access.lastAt)
            && forall i :: 0 <= i < |touches| && touches[i].memory == id && (forall j :: i < j < |touches| ==> touches[j].memory != id) ==>
                 at == Some(if clock[i] > touches[i].consumedAt then clock[i] else touches[i].consumedAt)
  {
    if touches != [] {
      var n := |touches| - 1;
      LastTouchStands(rows, touches[..n], clock[..n], id);
    }
  }

  /** A memory is counted once for every such receipt that names it. */
  lemma {:induction false} ActionsAre(batch: seq<C.Receipt>, id: MemoryId)
    ensures Actions(batch, id) == |set i: nat | i < |batch| && Reports(batch[i].use) && batch[i].key.memory == id|
  {
    if batch != [] {
      var n := |batch| - 1;
      ActionsAre(batch[..n], id);
      assert (set i: nat | i < |batch| && Reports(batch[i].use) && batch[i].key.memory == id)
          == (set i: nat | i < n && Reports(batch[..n][i].use) && batch[..n][i].key.memory == id)
             + if Reports(batch[n].use) && batch[n].key.memory == id then {n} else {};
    }
  }

  /** What a valid log keeps. */
  lemma LogKeeps(log: C.ConsumptionLog, k: C.Key)
    requires log.Valid() && k in log.receipts
    ensures k.trace in log.traces && (log.receipts[k].usedForAction ==> log.receipts[k].presented)
  {
  }
}
