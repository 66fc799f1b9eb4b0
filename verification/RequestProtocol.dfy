/** Daemon workers over the receipt table: `handle` split into its three atomic parts, interleaved
    in any order, with crashes that lose workers and keep the table. */
module RequestProtocol {
  import opened Basics
  import opened Requests

  type WorkerId = nat

  /** Where a worker stands inside `handle`; an idle worker is absent. */
  datatype Worker =
    | Admitted(id: RequestId, digest: Digest)
    | Handled(id: RequestId, digest: Digest, reply: Bytes)

  datatype Sys = Sys(rows: Receipts, workers: map<WorkerId, Worker>, clock: int)

  datatype Label =
    | Arrive(worker: WorkerId, id: RequestId, digest: Digest, readAt: int, stampAt: int, outcome: Admission)
    | Run(worker: WorkerId, id: RequestId, reply: Bytes)
    | Finish(worker: WorkerId, id: RequestId, reply: Bytes, delivered: bool)
    | Crash(lost: set<WorkerId>)

  /** One atomic step.  `delivered` false is the `outcome_unknown` answer: the reply was too long for
      a frame or the write failed. */
  ghost predicate Next(s: Sys, l: Label, s': Sys) {
    match l
    case Arrive(w, id, digest, readAt, stampAt, outcome) =>
      && w !in s.workers
      && s.clock <= readAt <= stampAt
      && (s'.rows, outcome) == Begin(s.rows, id, digest, readAt, stampAt)
      && s'.workers == (if outcome.New? then s.workers[w := Admitted(id, digest)] else s.workers)
      && s'.clock == stampAt
    case Run(w, id, reply) =>
      && w in s.workers && s.workers[w].Admitted? && s.workers[w].id == id
      && s' == s.(workers := s.workers[w := Handled(id, s.workers[w].digest, reply)])
    case Finish(w, id, reply, delivered) =>
      && w in s.workers && s.workers[w].Handled? && s.workers[w].id == id && s.workers[w].reply == reply
      && (delivered ==> |reply| <= RESPONSE_LIMIT)
      && s'.rows == (if delivered then Store(s.rows, id, reply).0 else s.rows)
      && s'.workers == s.workers - {w}
      && s'.clock == s.clock
    case Crash(lost) =>
      s' == s.(workers := s.workers - lost)
  }

  ghost predicate Init(s: Sys) {
    s.rows == map[] && s.workers == map[]
  }

  ghost predicate IsRun(states: seq<Sys>, labels: seq<Label>) {
    && |states| == |labels| + 1
    && Init(states[0])
    && forall i :: 0 <= i < |labels| ==> Next(states[i], labels[i], states[i + 1])
  }

  // ---------- the inductive invariant ----------

  /** Every worker inside `handle` owns a pending receipt with its own digest, alone; every row fits
      a frame and was stamped in the past; the capacity query's limits hold. */
  ghost predicate Inv(s: Sys) {
    && (forall w :: w in s.workers ==> Owns(s, w))
    && (forall w, v :: w in s.workers && v in s.workers && s.workers[w].id == s.workers[v].id ==> w == v)
    && (forall id :: id in s.rows ==> RowOk(s.rows[id], s.clock))
    && InLimits(s.rows)
  }

  ghost predicate InLimits(rows: Receipts) {
    |rows| <= ROW_LIMIT && TotalCost(rows) <= BYTE_LIMIT
  }

  ghost predicate Owns(s: Sys, w: WorkerId)
    requires w in s.workers
  {
    var id := s.workers[w].id;
    id in s.rows && s.rows[id].response.None? && s.rows[id].digest == s.workers[w].digest
  }

  predicate RowOk(r: Receipt, clock: int) {
    r.createdAt <= clock && (r.response.Some? ==> |r.response.value| <= RESPONSE_LIMIT)
  }

  lemma BeginInLimits(rows: Receipts, id: RequestId, digest: Digest, readAt: int, stampAt: int)
    requires InLimits(rows)
    ensures InLimits(Begin(rows, id, digest, readAt, stampAt).0)
  {
    var kept := Evict(rows, readAt);
    if id !in rows && HasRoom(kept) {
      assert id !in kept;
      hide Evict, TotalCost;
      RoomForOne(kept, id, Receipt(digest, None, stampAt));
    }
  }

  lemma RoomForOne(kept: Receipts, id: RequestId, row: Receipt)
    requires HasRoom(kept) && id !in kept && row.response.None?
    ensures InLimits(kept[id := row])
  {
    TotalCostPut(kept, id, row);
    hide TotalCost;
    assert kept - {id} == kept;
    assert |kept[id := row].Keys| == |kept.Keys + {id}|;
  }

  lemma StoreInLimits(rows: Receipts, id: RequestId, reply: Bytes)
    requires InLimits(rows) && |reply| <= RESPONSE_LIMIT
    ensures InLimits(Store(rows, id, reply).0)
  {
    if id in rows && rows[id].response.None? {
      var row := rows[id].(response := Some(reply));
      TotalCostPut(rows, id, row);
      TotalCostRemove(rows, id);
      assert rows[id := row].Keys == rows.Keys;
      assert |rows[id := row].Keys| == |rows[id := row]|;
    }
  }

  lemma ArriveKeepsInv(s: Sys, l: Label, s': Sys)
    requires Inv(s) && l.Arrive? && Next(s, l, s')
    ensures Inv(s')
  {
    BeginInLimits(s.rows, l.id, l.digest, l.readAt, l.stampAt);
    if l.outcome.New? {
      forall w | w in s'.workers
        ensures Owns(s', w)
      {
        if w != l.worker {
          assert Owns(s, w);
        }
      }
    } else {
      assert s'.rows == s.rows;
      assert forall w :: w in s.workers ==> Owns(s, w) && Owns(s', w);
    }
  }

  lemma FinishKeepsInv(s: Sys, l: Label, s': Sys)
    requires Inv(s) && l.Finish? && Next(s, l, s')
    ensures Inv(s')
  {
    if l.delivered {
      StoreInLimits(s.rows, l.id, l.reply);
    }
    forall w | w in s'.workers
      ensures Owns(s', w)
    {
      assert Owns(s, w) && Owns(s, l.worker);
    }
  }

  lemma NextKeepsInv(s: Sys, l: Label, s': Sys)
    requires Inv(s) && Next(s, l, s')
    ensures Inv(s')
  {
    match l
    case Arrive(_, _, _, _, _, _) => ArriveKeepsInv(s, l, s');
    case Finish(_, _, _, _) => FinishKeepsInv(s, l, s');
    case _ =>
  }

  lemma {:induction false} RunKeepsInv(states: seq<Sys>, labels: seq<Label>, n: nat)
    requires IsRun(states, labels) && n < |states|
    ensures Inv(states[n])
  {
    if n > 0 {
      RunKeepsInv(states, labels, n - 1);
      NextKeepsInv(states[n - 1], labels[n - 1], states[n]);
    }
  }

  // ---------- the main results ----------

  /** Capacity holds in every reachable state, so at most 64 mutations are ever undecided at once. */
  lemma CapacityTheorem(states: seq<Sys>, labels: seq<Label>, n: nat)
    requires IsRun(states, labels) && n < |states|
    ensures |states[n].rows| <= 10000 && TotalCost(states[n].rows) <= 67108864
    ensures |PendingRows(states[n].rows)| <= 64
  {
    RunKeepsInv(states, labels, n);
    PendingBound(states[n].rows);
  }

  /** A reply is delivered from the handler only after exactly one pending row took exactly that reply. */
  lemma FinishHitsOneRow(states: seq<Sys>, labels: seq<Label>, i: nat)
    requires IsRun(states, labels) && i < |labels| && labels[i].Finish? && labels[i].delivered
    ensures Store(states[i].rows, labels[i].id, labels[i].reply).1 == 1
    ensures labels[i].id in states[i + 1].rows
    ensures states[i + 1].rows[labels[i].id].response == Some(labels[i].reply)
  {
    RunKeepsInv(states, labels, i);
    assert Next(states[i], labels[i], states[i + 1]);
    assert Owns(states[i], labels[i].worker);
  }

  /** Step `k` deletes the receipt of `id`. */
  ghost predicate Evicts(states: seq<Sys>, k: nat, id: RequestId)
    requires k + 1 < |states|
  {
    id in states[k].rows && id !in states[k + 1].rows
  }

  /** A receipt is deleted exactly when another request is admitted and finds it completed and admitted
      more than seven days before. */
  lemma EvictionCondition(states: seq<Sys>, labels: seq<Label>, k: nat, id: RequestId)
    requires IsRun(states, labels) && k < |labels|
    ensures Evicts(states, k, id) <==>
            && labels[k].Arrive? && labels[k].outcome.New? && labels[k].id != id
            && id in states[k].rows && states[k].rows[id].response.Some?
            && states[k].rows[id].createdAt + 604800 < labels[k].readAt
  {
    assert Next(states[k], labels[k], states[k + 1]);
  }

  /** The handler has been entered for `id` and no worker may enter it again. */
  ghost predicate Spent(s: Sys, id: RequestId) {
    id in s.rows && forall w :: w in s.workers && s.workers[w].id == id ==> s.workers[w].Handled?
  }

  lemma SpentStays(s: Sys, l: Label, s': Sys, id: RequestId)
    requires Inv(s) && Next(s, l, s') && Spent(s, id) && id in s'.rows
    ensures Spent(s', id)
  {
  }

  lemma RunSpends(s: Sys, l: Label, s': Sys)
    requires Inv(s) && l.Run? && Next(s, l, s')
    ensures Spent(s', l.id)
  {
    assert Owns(s, l.worker);
  }

  /** No deletion of `id` in steps `from .. to`. */
  ghost predicate Retained(states: seq<Sys>, id: RequestId, from: nat, to: nat)
    requires to < |states|
  {
    forall k :: from <= k < to ==> !Evicts(states, k, id)
  }

  lemma {:induction false} SpentThrough(states: seq<Sys>, labels: seq<Label>, id: RequestId, from: nat, to: nat)
    requires IsRun(states, labels) && from <= to < |states|
    requires Spent(states[from], id) && Retained(states, id, from, to)
    ensures Spent(states[to], id)
  {
    if from < to {
      SpentThrough(states, labels, id, from, to - 1);
      RunKeepsInv(states, labels, to - 1);
      assert !Evicts(states, to - 1, id);
      SpentStays(states[to - 1], labels[to - 1], states[to], id);
    }
  }

  /** At most once: between two entries of the handler for one request ID its receipt was deleted,
      completed and more than seven days after its admission. */
  lemma AtMostOnce(states: seq<Sys>, labels: seq<Label>, i: nat, j: nat)
    requires IsRun(states, labels) && i < j < |labels|
    requires labels[i].Run? && labels[j].Run? && labels[i].id == labels[j].id
    ensures exists k :: i < k < j && Evicts(states, k, labels[i].id)
                        && states[k].rows[labels[i].id].response.Some?
                        && states[k].rows[labels[i].id].createdAt + 604800 < labels[k].readAt
  {
    var id := labels[i].id;
    RunKeepsInv(states, labels, i);
    RunSpends(states[i], labels[i], states[i + 1]);
    assert Next(states[j], labels[j], states[j + 1]);
    if Retained(states, id, i + 1, j) {
      SpentThrough(states, labels, id, i + 1, j);
      assert false;
    } else {
      var k :| i + 1 <= k < j && Evicts(states, k, id);
      EvictionCondition(states, labels, k, id);
    }
  }

  /** The receipt of `id` is exactly `r` and nobody may change it. */
  ghost predicate Settled(s: Sys, id: RequestId, r: Receipt) {
    id in s.rows && s.rows[id] == r && forall w :: w in s.workers ==> s.workers[w].id != id
  }

  lemma {:induction false} SettledThrough(states: seq<Sys>, labels: seq<Label>, id: RequestId, r: Receipt, from: nat, to: nat)
    requires IsRun(states, labels) && from <= to < |states|
    requires Settled(states[from], id, r) && Retained(states, id, from, to)
    ensures Settled(states[to], id, r)
  {
    if from < to {
      SettledThrough(states, labels, id, r, from, to - 1);
      assert !Evicts(states, to - 1, id);
      assert Next(states[to - 1], labels[to - 1], states[to]);
    }
  }

  /** Replay: after a delivered reply, until the receipt is deleted, every later arrival with the
      same payload gets that very reply and every other payload is refused. */
  lemma ReplayTheorem(states: seq<Sys>, labels: seq<Label>, i: nat, j: nat)
    requires IsRun(states, labels) && i < j < |labels|
    requires labels[i].Finish? && labels[i].delivered
    requires labels[j].Arrive? && labels[j].id == labels[i].id
    requires Retained(states, labels[i].id, i + 1, j)
    ensures labels[i].worker in states[i].workers
    ensures labels[j].outcome ==
            if labels[j].digest == states[i].workers[labels[i].worker].digest
            then Completed(labels[i].reply) else Conflict
  {
    var id := labels[i].id;
    RunKeepsInv(states, labels, i);
    assert Next(states[i], labels[i], states[i + 1]);
    assert Owns(states[i], labels[i].worker);
    var r := states[i + 1].rows[id];
    assert Settled(states[i + 1], id, r);
    SettledThrough(states, labels, id, r, i + 1, j);
    assert Next(states[j], labels[j], states[j + 1]);
  }

  /** No request is admitted in steps `from .. to` at a clock reading after `deadline`. */
  ghost predicate NoneAdmittedAfter(labels: seq<Label>, deadline: int, from: nat, to: nat)
    requires to <= |labels|
  {
    forall k :: from <= k < to ==> !AdmittedAfter(labels[k], deadline)
  }

  predicate AdmittedAfter(l: Label, deadline: int) {
    l.Arrive? && l.outcome.New? && l.readAt > deadline
  }

  /** How long that lasts: the stored reply is kept from step `i` to state `j` exactly when no request in
      between is admitted more than seven days after the admission of `id`. */
  lemma {:induction false} RetainedIff(states: seq<Sys>, labels: seq<Label>, i: nat, j: nat)
    requires IsRun(states, labels) && i < j < |states| && labels[i].Finish? && labels[i].delivered
    ensures labels[i].id in states[i].rows
    ensures Retained(states, labels[i].id, i + 1, j) <==>
            NoneAdmittedAfter(labels, states[i].rows[labels[i].id].createdAt + 604800, i + 1, j)
  {
    var id := labels[i].id;
    var r := StoredReceipt(states, labels, i);
    hide IsRun, Settled, Evicts, AdmittedAfter;
    if i + 1 < j {
      RetainedIff(states, labels, i, j - 1);
      if Retained(states, id, i + 1, j - 1) {
        SettledThrough(states, labels, id, r, i + 1, j - 1);
        SettledEvictedIff(states, labels, id, r, j - 1);
      }
    }
  }

  lemma SettledEvictedIff(states: seq<Sys>, labels: seq<Label>, id: RequestId, r: Receipt, k: nat)
    requires IsRun(states, labels) && k < |labels| && Settled(states[k], id, r) && r.response.Some?
    ensures Evicts(states, k, id) <==> AdmittedAfter(labels[k], r.createdAt + RETENTION)
  {
    EvictionCondition(states, labels, k, id);
    assert Next(states[k], labels[k], states[k + 1]);
  }

  /** The receipt a delivered reply leaves: completed, with the admission time it had. */
  lemma StoredReceipt(states: seq<Sys>, labels: seq<Label>, i: nat) returns (r: Receipt)
    requires IsRun(states, labels) && i < |labels| && labels[i].Finish? && labels[i].delivered
    ensures labels[i].id in states[i].rows && r.createdAt == states[i].rows[labels[i].id].createdAt
    ensures r.response == Some(labels[i].reply) && Settled(states[i + 1], labels[i].id, r)
  {
    RunKeepsInv(states, labels, i);
    assert Next(states[i], labels[i], states[i + 1]);
    assert Owns(states[i], labels[i].worker);
    r := states[i + 1].rows[labels[i].id];
  }

  /** A pending receipt with no worker left behind it is settled for good: after a crash, or after a
      reply that could not be stored, the mutation never runs again, its receipt is never deleted and
      every later arrival hears `outcome_unknown` or a conflict. */
  lemma OrphanTheorem(states: seq<Sys>, labels: seq<Label>, id: RequestId, r: Receipt, i: nat, j: nat)
    requires IsRun(states, labels) && i <= j < |labels|
    requires Settled(states[i], id, r) && r.response.None?
    ensures Settled(states[j], id, r)
    ensures !(labels[j].Run? && labels[j].id == id)
    ensures labels[j].Arrive? && labels[j].id == id ==>
              labels[j].outcome == if labels[j].digest == r.digest then Pending else Conflict
  {
    OrphanRetained(states, labels, id, r, i, j);
    SettledThrough(states, labels, id, r, i, j);
    assert Next(states[j], labels[j], states[j + 1]);
  }

  lemma {:induction false} OrphanRetained(states: seq<Sys>, labels: seq<Label>, id: RequestId, r: Receipt, from: nat, to: nat)
    requires IsRun(states, labels) && from <= to < |states|
    requires Settled(states[from], id, r) && r.response.None?
    ensures Retained(states, id, from, to)
  {
    if from < to {
      OrphanRetained(states, labels, id, r, from, to - 1);
      SettledThrough(states, labels, id, r, from, to - 1);
      EvictionCondition(states, labels, to - 1, id);
      forall k | from <= k < to
        ensures !Evicts(states, k, id)
      {
        if k < to - 1 {
          assert Retained(states, id, from, to - 1);
        }
      }
    }
  }

  /** A crash that takes the worker of `id` leaves exactly such an orphan. */
  lemma CrashOrphans(states: seq<Sys>, labels: seq<Label>, i: nat, w: WorkerId)
    requires IsRun(states, labels) && i < |labels| && labels[i].Crash?
    requires w in labels[i].lost && w in states[i].workers
    ensures states[i].workers[w].id in states[i].rows
    ensures var id := states[i].workers[w].id;
            states[i].rows[id].response.None? && Settled(states[i + 1], id, states[i].rows[id])
  {
    RunKeepsInv(states, labels, i);
    assert Owns(states[i], w);
    assert Next(states[i], labels[i], states[i + 1]);
  }

  /** A run in which an old request finishes late: admitted at time 0, asked for again and answered at
      `late`, when a second request is admitted. */
  function LateLabels(id: RequestId, other: RequestId, reply: Bytes, late: int): seq<Label> {
    [Arrive(0, id, "d", 0, 0, New), Run(0, id, reply), Arrive(1, id, "d", late, late, Admission.Pending),
     Finish(0, id, reply, true), Arrive(1, other, "d", late, late, New)]
  }

  function LateStates(id: RequestId, other: RequestId, reply: Bytes, late: int): seq<Sys> {
    var row := Receipt("d", None, 0);
    var done := map[id := row.(response := Some(reply))];
    [Sys(map[], map[], 0),
     Sys(map[id := row], map[0 := Admitted(id, "d")], 0),
     Sys(map[id := row], map[0 := Handled(id, "d", reply)], 0),
     Sys(map[id := row], map[0 := Handled(id, "d", reply)], late),
     Sys(done, map[], late),
     Sys(Evict(done, late)[other := Receipt("d", None, late)], map[1 := Admitted(other, "d")], late)]
  }

  lemma OneRowCost(id: RequestId, row: Receipt)
    ensures TotalCost(map[id := row]) == Cost(row) && |map[id := row]| == 1
  {
    TotalCostRemove(map[id := row], id);
    assert map[id := row] - {id} == map[];
  }

  lemma LateAnswer(id: RequestId, other: RequestId, reply: Bytes, late: int)
    requires id != other && |reply| <= RESPONSE_LIMIT && late >= 0
    ensures var s, l := LateStates(id, other, reply, late), LateLabels(id, other, reply, late);
            Next(s[3], l[3], s[4])
  {
    assert map[0 := Handled(id, "d", reply)] - {0} == map[];
  }

  lemma LateEviction(id: RequestId, other: RequestId, reply: Bytes, late: int)
    requires id != other && |reply| <= RESPONSE_LIMIT && late >= 0
    ensures var s, l := LateStates(id, other, reply, late), LateLabels(id, other, reply, late);
            Next(s[4], l[4], s[5])
  {
    var done := map[id := Receipt("d", Some(reply), 0)];
    OneRowCost(id, done[id]);
    TotalCostSubset(Evict(done, late), done);
    hide TotalCost, Evict;
    assert other !in done;
  }

  lemma LateRunIsRun(id: RequestId, other: RequestId, reply: Bytes, late: int)
    requires id != other && |reply| <= RESPONSE_LIMIT && late >= 0
    ensures IsRun(LateStates(id, other, reply, late), LateLabels(id, other, reply, late))
  {
    var s, l := LateStates(id, other, reply, late), LateLabels(id, other, reply, late);
    assert Evict(map[], 0) == map[];
    assert Next(s[0], l[0], s[1]);
    assert Next(s[1], l[1], s[2]);
    assert Next(s[2], l[2], s[3]);
    LateAnswer(id, other, reply, late);
    LateEviction(id, other, reply, late);
    hide Next, Evict;
  }

  /** Eviction looks at the admission time: in a run, a reply stored at one clock reading is deleted by the
      next step at the same reading exactly when more than seven days have passed since admission. */
  lemma ReplyMayVanishAtOnce(id: RequestId, other: RequestId, reply: Bytes, late: int)
    requires id != other && |reply| <= RESPONSE_LIMIT && late >= 0
    ensures var s, l := LateStates(id, other, reply, late), LateLabels(id, other, reply, late);
            && IsRun(s, l) && l[3] == Finish(0, id, reply, true) && s[3].clock == late == l[4].readAt
            && (Evicts(s, 4, id) <==> late > 604800)
  {
    LateRunIsRun(id, other, reply, late);
    EvictionCondition(LateStates(id, other, reply, late), LateLabels(id, other, reply, late), 4, id);
  }

  // ---------- the daemon, step by step ----------

  /** `handle` for a mutating frame, cut at its three database interactions. */
  class Daemon {
    const table: ReceiptTable
    var workers: map<WorkerId, Worker>
    var clock: int

    ghost function State(): Sys
      reads this, table
    {
      Sys(table.rows, workers, clock)
    }

    constructor (start: int)
      ensures fresh(table) && Init(State()) && clock == start
    {
      table := new ReceiptTable();
      workers := map[];
      clock := start;
    }

    method Arrive(w: WorkerId, id: RequestId, digest: Digest, readAt: int, stampAt: int) returns (outcome: Admission)
      requires w !in workers && clock <= readAt <= stampAt
      modifies this, table
      ensures Next(old(State()), Label.Arrive(w, id, digest, readAt, stampAt, outcome), State())
    {
      outcome := table.BeginRequest(id, digest, readAt, stampAt);
      clock := stampAt;
      if outcome.New? {
        workers := workers[w := Admitted(id, digest)];
      }
    }

    method RunHandler(w: WorkerId, reply: Bytes)
      requires w in workers && workers[w].Admitted?
      modifies this
      ensures Next(old(State()), Run(w, old(workers[w].id), reply), State())
    {
      workers := workers[w := Handled(workers[w].id, workers[w].digest, reply)];
    }

    /** The answer is the handler's reply, or nothing when the outcome is unknown. */
    method FinishHandler(w: WorkerId, writeFails: bool) returns (answer: Option<Bytes>)
      requires w in workers && workers[w].Handled?
      modifies this, table
      ensures Next(old(State()), Finish(w, old(workers[w].id), old(workers[w].reply), answer.Some?), State())
      ensures answer.Some? ==> answer.value == old(workers[w].reply)
      ensures answer.None? <==> writeFails || |old(workers[w].reply)| > 1048064
    {
      var id, reply := workers[w].id, workers[w].reply;
      answer := None;
      if !writeFails {
        var ok := table.FinishRequest(id, reply);
        if ok {
          answer := Some(reply);
        }
      }
      workers := workers - {w};
    }

    method Crash(lost: set<WorkerId>)
      modifies this
      ensures Next(old(State()), Label.Crash(lost), State())
    {
      workers := workers - lost;
    }
  }
}
