/** The request receipt table: a mutation is admitted here durably before its handler runs, and its
    reply is stored here afterwards. */
module Requests {
  import opened Basics

  const ROW_LIMIT: nat := 10000
  const BYTE_LIMIT: nat := 64 * 1024 * 1024
  const RESERVATION: nat := 1048576
  const RESPONSE_LIMIT: nat := 1024 * 1024 - 512
  const RETENTION: int := 7 * 24 * 3600

  type RequestId = string
  type Digest = string

  /** One row of `request_receipts`; `None` is SQL NULL, a mutation whose outcome is not known. */
  datatype Receipt = Receipt(digest: Digest, response: Option<Bytes>, createdAt: int)

  type Receipts = map<RequestId, Receipt>

  datatype Admission = New | Pending | Conflict | Completed(response: Bytes) | CapacityExhausted

  predicate Expired(r: Receipt, now: int) {
    r.response.Some? && r.createdAt < now - RETENTION
  }

  function Evict(rows: Receipts, now: int): Receipts {
    map id | id in rows && !Expired(rows[id], now) :: rows[id]
  }

  function Cost(r: Receipt): nat {
    if r.response.None? then RESERVATION else |r.response.value|
  }

  /** The SUM of the capacity query. */
  ghost function TotalCost(rows: Receipts): nat {
    if rows == map[] then 0
    else
      var id :| id in rows;
      Cost(rows[id]) + TotalCost(rows - {id})
  }

  ghost predicate HasRoom(rows: Receipts) {
    |rows| < ROW_LIMIT && TotalCost(rows) + RESERVATION <= BYTE_LIMIT
  }

  /** What admission does to the table and answers.  A refusal rolls the eviction back too. */
  ghost function Begin(rows: Receipts, id: RequestId, digest: Digest, readAt: int, stampAt: int): (Receipts, Admission) {
    if id in rows then
      (rows,
       if rows[id].digest != digest then Conflict
       else if rows[id].response.Some? then Completed(rows[id].response.value)
       else Pending)
    else if !HasRoom(Evict(rows, readAt)) then
      (rows, CapacityExhausted)
    else
      (Evict(rows, readAt)[id := Receipt(digest, None, stampAt)], New)
  }

  /** The guarded UPDATE of `finish_request`; the second component counts the rows it changed. */
  function Store(rows: Receipts, id: RequestId, response: Bytes): (Receipts, nat) {
    if id in rows && rows[id].response.None? then
      (rows[id := rows[id].(response := Some(response))], 1)
    else
      (rows, 0)
  }

  // ---------- the sum over a table ----------

  lemma {:induction false} TotalCostRemove(rows: Receipts, id: RequestId)
    requires id in rows
    ensures TotalCost(rows) == Cost(rows[id]) + TotalCost(rows - {id})
    decreases |rows|
  {
    var pick :| pick in rows && TotalCost(rows) == Cost(rows[pick]) + TotalCost(rows - {pick});
    if pick != id {
      TotalCostRemove(rows - {pick}, id);
      TotalCostRemove(rows - {id}, pick);
      assert rows - {pick} - {id} == rows - {id} - {pick};
    }
  }

  lemma TotalCostPut(rows: Receipts, id: RequestId, r: Receipt)
    ensures TotalCost(rows[id := r]) == Cost(r) + TotalCost(rows - {id})
  {
    TotalCostRemove(rows[id := r], id);
    assert rows[id := r] - {id} == rows - {id};
  }

  lemma {:induction false} TotalCostSubset(part: Receipts, rows: Receipts)
    requires part.Keys <= rows.Keys && forall id :: id in part ==> part[id] == rows[id]
    ensures TotalCost(part) <= TotalCost(rows) && |part| <= |rows|
    decreases |rows|
  {
    if rows == map[] {
      assert part == rows;
    } else {
      var id :| id in rows;
      TotalCostRemove(rows, id);
      if id in part {
        TotalCostRemove(part, id);
        TotalCostSubset(part - {id}, rows - {id});
      } else {
        TotalCostSubset(part, rows - {id});
      }
    }
  }

  function PendingRows(rows: Receipts): Receipts {
    map id | id in rows && rows[id].response.None? :: rows[id]
  }

  lemma {:induction false} PendingCost(rows: Receipts)
    requires forall id :: id in rows ==> rows[id].response.None?
    ensures TotalCost(rows) == |rows| * RESERVATION
    decreases |rows|
  {
    if rows != map[] {
      var id :| id in rows;
      TotalCostRemove(rows, id);
      PendingCost(rows - {id});
    }
  }

  /** The reservation bounds concurrency: a table within the byte limit has at most 64 pending rows. */
  lemma PendingBound(rows: Receipts)
    requires TotalCost(rows) <= BYTE_LIMIT
    ensures |PendingRows(rows)| <= 64
  {
    TotalCostSubset(PendingRows(rows), rows);
    PendingCost(PendingRows(rows));
  }

  // ---------- the table, updated in place ----------

  class ReceiptTable {
    var rows: Receipts

    constructor ()
      ensures rows == map[]
    {
      rows := map[];
    }

    method BeginRequest(id: RequestId, digest: Digest, readAt: int, stampAt: int) returns (a: Admission)
      modifies this
      ensures (rows, a) == Begin(old(rows), id, digest, readAt, stampAt)
    {
      if id in rows {
        if rows[id].digest != digest {
          return Conflict;
        }
        match rows[id].response
        case Some(response) => return Completed(response);
        case None => return Pending;
      }
      var kept := map k | k in rows && !Expired(rows[k], readAt) :: rows[k];
      assert kept == Evict(rows, readAt);
      var bytes := CapacityQuery(kept);
      if |kept| >= ROW_LIMIT || bytes + RESERVATION > BYTE_LIMIT {
        return CapacityExhausted;
      }
      rows := kept[id := Receipt(digest, None, stampAt)];
      return New;
    }

    /** `true` is `Ok`; a reply over the frame limit is refused before the table is touched. */
    method FinishRequest(id: RequestId, response: Bytes) returns (ok: bool)
      modifies this
      ensures ok <==> |response| <= 1048064
      ensures rows == if ok then Store(old(rows), id, response).0 else old(rows)
    {
      if |response| > RESPONSE_LIMIT {
        return false;
      }
      if id in rows && rows[id].response.None? {
        rows := rows[id := rows[id].(response := Some(response))];
      }
      return true;
    }

    /** `request_status`: absent, or the stored text with the empty text standing for NULL. */
    method RequestStatus(id: RequestId) returns (status: Option<Bytes>)
      ensures status.None? <==> id !in rows
      ensures id in rows && (rows[id].response.Some? ==> rows[id].response.value != []) ==>
                (status.value == [] <==> rows[id].response.None?)
      ensures id in rows && rows[id].response.Some? ==> status == rows[id].response
    {
      if id !in rows {
        return None;
      }
      match rows[id].response
      case Some(response) => return Some(response);
      case None => return Some([]);
    }
  }

  /** The row-by-row evaluation of the SUM. */
  method CapacityQuery(rows: Receipts) returns (bytes: nat)
    ensures bytes == TotalCost(rows)
  {
    bytes := 0;
    var rest := rows;
    while rest != map[]
      invariant bytes + TotalCost(rest) == TotalCost(rows)
      decreases |rest|
    {
      var id :| id in rest;
      TotalCostRemove(rest, id);
      bytes := bytes + Cost(rest[id]);
      rest := rest - {id};
    }
  }
}
