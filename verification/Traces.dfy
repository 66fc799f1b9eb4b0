/** The buffer of recall traces: a bounded queue, flushed in one transaction outside its lock. */
module Traces {
  import opened Basics

  const MAX_QUEUED_TRACES: nat := 4096

  datatype Trace = Trace(id: string, workspace: string, body: string, createdAt: int)

  type Table = map<string, Trace>

  /** How a flush ends: all is well, the INSERT of that row fails, or the transaction does not begin or commit. */
  datatype Storage = Commits | InsertFails(at: nat) | TransactionFails

  type Flusher = nat

  /** The queue, the batches drained by threads that have not finished their flush, and the stored traces. */
  datatype Sys = Sys(queue: seq<Trace>, batches: map<Flusher, seq<Trace>>, table: Table)

  // ---------- the queue ----------

  function Pushed(queue: seq<Trace>, trace: Trace): seq<Trace> {
    (if |queue| >= MAX_QUEUED_TRACES then queue[1..] else queue) + [trace]
  }

  function PushedAll(queue: seq<Trace>, traces: seq<Trace>): seq<Trace>
    decreases |traces|
  {
    if traces == [] then queue else PushedAll(Pushed(queue, traces[0]), traces[1..])
  }

  /** The queue keeps the newest traces, in order, and only a full one forgets. */
  lemma {:induction false} PushedAllKeepsNewest(queue: seq<Trace>, traces: seq<Trace>)
    ensures |PushedAll(queue, traces)| == Max(|queue|, Min(4096, |queue| + |traces|))
    ensures |PushedAll(queue, traces)| <= |queue + traces|
    ensures PushedAll(queue, traces) == (queue + traces)[|queue + traces| - |PushedAll(queue, traces)|..]
    decreases |traces|
  {
    if traces != [] {
      var next := Pushed(queue, traces[0]);
      PushedAllKeepsNewest(next, traces[1..]);
      if |queue| >= MAX_QUEUED_TRACES {
        assert next + traces[1..] == (queue + traces)[1..];
      } else {
        assert next + traces[1..] == queue + traces;
      }
    }
  }

  /** INSERT OR REPLACE, row by row. */
  function Stored(table: Table, batch: seq<Trace>): Table {
    if batch == [] then table
    else Stored(table, batch[..|batch| - 1])[batch[|batch| - 1].id := batch[|batch| - 1]]
  }

  /** A stored id has the last trace of the batch that carries it ... */
  lemma {:induction false} StoredIsLast(table: Table, batch: seq<Trace>, i: nat)
    requires i < |batch| && forall j :: i < j < |batch| ==> batch[j].id != batch[i].id
    ensures batch[i].id in Stored(table, batch) && Stored(table, batch)[batch[i].id] == batch[i]
  {
    var last := |batch| - 1;
    if i < last {
      assert batch[last].id != batch[i].id;
      StoredIsLast(table, batch[..last], i);
    }
  }

  /** ... and the other ids are untouched. */
  lemma {:induction false} StoredElsewhere(table: Table, batch: seq<Trace>, id: string)
    requires forall i :: 0 <= i < |batch| ==> batch[i].id != id
    ensures id in Stored(table, batch) <==> id in table
    ensures id in table ==> Stored(table, batch)[id] == table[id]
  {
    if batch != [] {
      StoredElsewhere(table, batch[..|batch| - 1], id);
    }
  }

  // ---------- the steps ----------

  datatype Label =
    | Record(trace: Trace)
    | Drain(flusher: Flusher)
    | Commit(flusher: Flusher)
    | PutBack(flusher: Flusher)
    | Lose(flusher: Flusher)

  /** A flush drains the queue under its lock and ends later: committed, put back after a failed INSERT, or
      lost with its transaction. */
  ghost predicate Next(s: Sys, l: Label, s': Sys) {
    match l
    case Record(trace) => s' == s.(queue := Pushed(s.queue, trace))
    case Drain(f) => s.queue != [] && f !in s.batches && s' == s.(queue := [], batches := s.batches[f := s.queue])
    case Commit(f) => f in s.batches && s' == s.(batches := s.batches - {f}, table := Stored(s.table, s.batches[f]))
    case PutBack(f) => f in s.batches && s' == s.(queue := s.batches[f] + s.queue, batches := s.batches - {f})
    case Lose(f) => f in s.batches && s' == s.(batches := s.batches - {f})
  }

  predicate FailsAtRow(storage: Storage, rows: nat) {
    storage.InsertFails? && storage.at < rows
  }

  /** The step a flush of so many rows ends with. */
  function Ending(f: Flusher, storage: Storage, rows: nat): Label {
    if FailsAtRow(storage, rows) then PutBack(f) else if storage.TransactionFails? then Lose(f) else Commit(f)
  }

  class TraceBuffer {
    var queue: seq<Trace>
    var batches: map<Flusher, seq<Trace>>
    var table: Table

    ghost function State(): Sys
      reads this
    {
      Sys(queue, batches, table)
    }

    constructor ()
      ensures State() == Sys([], map[], map[])
    {
      queue, batches, table := [], map[], map[];
    }

    method RecordRecallTrace(trace: Trace)
      modifies this
      ensures Next(old(State()), Record(trace), State())
    {
      if |queue| >= MAX_QUEUED_TRACES {
        queue := queue[1..];
      }
      queue := queue + [trace];
    }

    /** `drain(..)`; an empty queue ends the flush at once. */
    method BeginFlush(f: Flusher) returns (drained: bool)
      requires f !in batches
      modifies this
      ensures drained <==> old(queue) != []
      ensures if drained then Next(old(State()), Drain(f), State()) else State() == old(State())
    {
      drained := queue != [];
      if drained {
        batches := batches[f := queue];
        queue := [];
      }
    }

    /** Newest first to the front, which restores the order. */
    method PutBackAll(batch: seq<Trace>)
      modifies this`queue
      ensures queue == batch + old(queue)
    {
      var i := |batch|;
      while i > 0
        invariant 0 <= i <= |batch|
        invariant queue == batch[i..] + old(queue)
      {
        i := i - 1;
        queue := [batch[i]] + queue;
      }
    }

    /** The transaction over the drained batch. */
    method FinishFlush(f: Flusher, storage: Storage) returns (flushed: Option<nat>)
      requires f in batches
      modifies this
      ensures Next(old(State()), Ending(f, storage, |old(batches)[f]|), State())
      ensures flushed == if Ending(f, storage, |old(batches)[f]|).Commit? then Some(|old(batches)[f]|) else None
    {
      var batch := batches[f];
      batches := batches - {f};
      var staged := table;
      if storage.TransactionFails? {
        return None;
      }
      for i := 0 to |batch|
        invariant staged == Stored(table, batch[..i])
        invariant table == old(table) && queue == old(queue) && batches == old(batches) - {f}
        invariant storage.InsertFails? ==> i <= storage.at
      {
        if storage.InsertFails? && storage.at == i {
          PutBackAll(batch);
          return None;
        }
        assert batch[..i + 1][..i] == batch[..i];
        staged := staged[batch[i].id := batch[i]];
      }
      assert batch[..|batch|] == batch;
      table := staged;
      return Some(|batch|);
    }

    /** A flush that no other thread overlaps stores the queue, puts it back as it was, or loses it. */
    method FlushRecallTraces(f: Flusher, storage: Storage) returns (flushed: Option<nat>)
      requires f !in batches
      modifies this
      ensures batches == old(batches)
      ensures flushed.Some? <==> old(queue) == [] || Ending(f, storage, |old(queue)|).Commit?
      ensures flushed.Some? ==> flushed.value == |old(queue)| && queue == [] && table == Stored(old(table), old(queue))
      ensures flushed.None? ==> table == old(table) && queue == if FailsAtRow(storage, |old(queue)|) then old(queue) else []
    {
      var drained := BeginFlush(f);
      if !drained {
        return Some(0);
      }
      assert batches - {f} == old(batches);
      flushed := FinishFlush(f, storage);
    }
  }

  /** A flush whose batch meets a failing INSERT puts the batch back, one whose transaction fails loses it, and any other commits. */
  lemma EndingIs(f: Flusher, at: nat, rows: nat)
    ensures Ending(f, Commits, rows) == Commit(f) && Ending(f, TransactionFails, rows) == Lose(f)
    ensures at < rows ==> FailsAtRow(InsertFails(at), rows) && Ending(f, InsertFails(at), rows) == PutBack(f)
    ensures at >= rows ==> !FailsAtRow(InsertFails(at), rows) && Ending(f, InsertFails(at), rows) == Commit(f)
  {
  }
}
