/** When a new request is admitted and what its admission does to the table, in the source's own numbers. */
module Admissions {
  import opened Basics
  import opened Requests
  import opened RequestProtocol

  /** The rows an admission at `readAt` keeps: pending, or not yet more than seven days old. */
  function Surviving(rows: Receipts, readAt: int): set<RequestId> {
    set id | id in rows && (rows[id].response.None? || rows[id].createdAt + 604800 >= readAt)
  }

  function PendingIn(rows: Receipts, ids: set<RequestId>): set<RequestId> {
    set id | id in ids && id in rows && rows[id].response.None?
  }

  function ReplyLength(r: Receipt): nat {
    match r.response
    case Some(reply) => |reply|
    case None => 0
  }

  /** The stored replies of some rows, in bytes. */
  ghost function ReplyBytes(rows: Receipts, ids: set<RequestId>): nat
    requires ids <= rows.Keys
  {
    if ids == {} then 0
    else
      var id :| id in ids;
      ReplyLength(rows[id]) + ReplyBytes(rows, ids - {id})
  }

  lemma {:induction false} ReplyBytesRemove(rows: Receipts, ids: set<RequestId>, id: RequestId)
    requires ids <= rows.Keys && id in ids
    ensures ReplyBytes(rows, ids) == ReplyLength(rows[id]) + ReplyBytes(rows, ids - {id})
    decreases |ids|
  {
    var pick :| pick in ids && ReplyBytes(rows, ids) == ReplyLength(rows[pick]) + ReplyBytes(rows, ids - {pick});
    if pick != id {
      ReplyBytesRemove(rows, ids - {pick}, id);
      ReplyBytesRemove(rows, ids - {id}, pick);
      assert ids - {pick} - {id} == ids - {id} - {pick};
    }
  }

  function Restricted(rows: Receipts, ids: set<RequestId>): Receipts {
    map id | id in rows && id in ids :: rows[id]
  }

  lemma {:induction false} CostByKind(rows: Receipts, ids: set<RequestId>)
    requires ids <= rows.Keys
    ensures TotalCost(Restricted(rows, ids)) == 1048576 * |PendingIn(rows, ids)| + ReplyBytes(rows, ids)
    decreases |ids|
  {
    if ids == {} {
      assert Restricted(rows, ids) == map[];
    } else {
      var id :| id in ids;
      CostByKind(rows, ids - {id});
      ReplyBytesRemove(rows, ids, id);
      TotalCostRemove(Restricted(rows, ids), id);
      assert Restricted(rows, ids) - {id} == Restricted(rows, ids - {id});
      assert PendingIn(rows, ids) == PendingIn(rows, ids - {id}) + if rows[id].response.None? then {id} else {};
      hide TotalCost, ReplyBytes;
    }
  }

  lemma EvictedAre(rows: Receipts, readAt: int)
    ensures Evict(rows, readAt) == Restricted(rows, Surviving(rows, readAt))
    ensures |Evict(rows, readAt)| == |Surviving(rows, readAt)|
  {
    assert Evict(rows, readAt).Keys == Surviving(rows, readAt);
    assert |Evict(rows, readAt)| == |Evict(rows, readAt).Keys|;
  }

  /** An unknown request is admitted unless the table is full, and the table is full exactly when 10000 rows
      survive, or a further reservation of 1 MiB beside the pending ones and the stored replies exceeds 64 MiB. */
  lemma UnknownRequestAdmitted(states: seq<Sys>, labels: seq<Label>, k: nat)
    requires IsRun(states, labels) && k < |labels| && labels[k].Arrive? && labels[k].id !in states[k].rows
    ensures Surviving(states[k].rows, labels[k].readAt) <= states[k].rows.Keys
    ensures var rows, kept := states[k].rows, Surviving(states[k].rows, labels[k].readAt);
            labels[k].outcome ==
            if |kept| >= 10000 || 1048576 * |PendingIn(rows, kept)| + ReplyBytes(rows, kept) + 1048576 > 67108864
            then CapacityExhausted else New
  {
    var rows, kept := states[k].rows, Surviving(states[k].rows, labels[k].readAt);
    assert Next(states[k], labels[k], states[k + 1]);
    EvictedAre(rows, labels[k].readAt);
    CostByKind(rows, kept);
    hide IsRun, TotalCost, ReplyBytes, Evict;
  }

  /** An admission keeps exactly the surviving rows as they were and adds a pending one, stamped with its time. */
  lemma AdmissionWrites(states: seq<Sys>, labels: seq<Label>, k: nat)
    requires IsRun(states, labels) && k < |labels| && labels[k].Arrive? && labels[k].outcome.New?
    ensures var rows, after := states[k].rows, states[k + 1].rows;
            && labels[k].id !in rows
            && after == Restricted(rows, Surviving(rows, labels[k].readAt))[labels[k].id := Receipt(labels[k].digest, None, labels[k].stampAt)]
            && states[k + 1].workers == states[k].workers[labels[k].worker := Admitted(labels[k].id, labels[k].digest)]
  {
    assert Next(states[k], labels[k], states[k + 1]);
    EvictedAre(states[k].rows, labels[k].readAt);
    hide IsRun, Evict;
  }

  /** A known request is answered from its row and changes nothing; a refusal for capacity changes nothing. */
  lemma KnownRequestAnswered(states: seq<Sys>, labels: seq<Label>, k: nat)
    requires IsRun(states, labels) && k < |labels| && labels[k].Arrive?
    ensures labels[k].id in states[k].rows ==>
              var row := states[k].rows[labels[k].id];
              labels[k].outcome == if row.digest != labels[k].digest then Conflict
                                   else if row.response.None? then Admission.Pending
                                   else Completed(row.response.value)
    ensures !labels[k].outcome.New? ==> states[k + 1].rows == states[k].rows && states[k + 1].workers == states[k].workers
  {
    assert Next(states[k], labels[k], states[k + 1]);
    hide Evict, HasRoom;
  }

  /** The longest reply the handler can deliver has 1048064 bytes. */
  lemma DeliveredFits(states: seq<Sys>, labels: seq<Label>, k: nat)
    requires IsRun(states, labels) && k < |labels| && labels[k].Finish? && labels[k].delivered
    ensures |labels[k].reply| <= 1048064
  {
    assert Next(states[k], labels[k], states[k + 1]);
  }

  /** In every reachable state each reply fits a frame and no row is stamped in the future. */
  lemma RowsFit(states: seq<Sys>, labels: seq<Label>, n: nat, id: RequestId)
    requires IsRun(states, labels) && n < |states| && id in states[n].rows
    ensures states[n].rows[id].createdAt <= states[n].clock
    ensures states[n].rows[id].response.Some? ==> |states[n].rows[id].response.value| <= 1048064
  {
    RunKeepsInv(states, labels, n);
    hide IsRun, Next, InLimits;
  }

  /** Storing a reply reports how many rows it changed, which is at most the one it names. */
  lemma StoreReports(rows: Receipts, id: RequestId, reply: Bytes)
    ensures var (after, changed) := Store(rows, id, reply);
            && after.Keys == rows.Keys && changed == |set k | k in rows && after[k] != rows[k]|
            && (forall k :: k in rows && k != id ==> after[k] == rows[k])
            && (id in rows ==> after[id] == if rows[id].response.Some? then rows[id] else Receipt(rows[id].digest, Some(reply), rows[id].createdAt))
  {
    var (after, changed) := Store(rows, id, reply);
    assert (set k | k in rows && after[k] != rows[k]) == if changed == 1 then {id} else {};
  }
}
