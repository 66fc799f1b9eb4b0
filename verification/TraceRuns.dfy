/** Several threads recording and flushing recall traces at once: when the queue keeps its limit and which
    traces survive. */
module TraceRuns {
  import opened Basics
  import opened Traces

  ghost predicate Init(s: Sys) {
    s == Sys([], map[], map[])
  }

  ghost predicate IsRun(states: seq<Sys>, labels: seq<Label>) {
    && |states| == |labels| + 1
    && Init(states[0])
    && forall i :: 0 <= i < |labels| ==> Next(states[i], labels[i], states[i + 1])
  }

  // ---------- the limit ----------

  /** The step puts back more than the queue has room for. */
  predicate Overfills(s: Sys, l: Label) {
    l.PutBack? && l.flusher in s.batches && |s.batches[l.flusher]| + |s.queue| > MAX_QUEUED_TRACES
  }

  lemma LimitStepIff(s: Sys, l: Label, s': Sys)
    requires Next(s, l, s') && |s.queue| <= MAX_QUEUED_TRACES
    ensures |s'.queue| <= MAX_QUEUED_TRACES <==> !Overfills(s, l)
  {
  }

  ghost predicate WithinLimit(states: seq<Sys>, n: nat)
    requires n < |states|
  {
    forall k :: 0 <= k <= n ==> |states[k].queue| <= MAX_QUEUED_TRACES
  }

  ghost predicate NoneOverfills(states: seq<Sys>, labels: seq<Label>, n: nat)
    requires n <= |labels| <= |states|
  {
    forall k :: 0 <= k < n ==> !Overfills(states[k], labels[k])
  }

  /** The queue keeps its limit of 4096 throughout a run exactly when every batch put back found room. */
  lemma {:induction false} WithinLimitIff(states: seq<Sys>, labels: seq<Label>, n: nat)
    requires IsRun(states, labels) && n < |states|
    ensures WithinLimit(states, n) <==> NoneOverfills(states, labels, n)
  {
    hide Overfills, Next;
    if n > 0 {
      WithinLimitIff(states, labels, n - 1);
      assert Next(states[n - 1], labels[n - 1], states[n]);
      if WithinLimit(states, n - 1) {
        LimitStepIff(states[n - 1], labels[n - 1], states[n]);
      }
    }
  }

  function Excess(traces: seq<Trace>): nat {
    Max(|traces| - MAX_QUEUED_TRACES, 0)
  }

  /** The excess of all batches together. */
  ghost function BatchExcess(batches: map<Flusher, seq<Trace>>): nat {
    if batches == map[] then 0
    else
      var f :| f in batches;
      Excess(batches[f]) + BatchExcess(batches - {f})
  }

  lemma {:induction false} BatchExcessRemove(batches: map<Flusher, seq<Trace>>, f: Flusher)
    requires f in batches
    ensures BatchExcess(batches) == Excess(batches[f]) + BatchExcess(batches - {f})
    decreases |batches|
  {
    var g :| g in batches && BatchExcess(batches) == Excess(batches[g]) + BatchExcess(batches - {g});
    if g != f {
      BatchExcessRemove(batches - {g}, f);
      BatchExcessRemove(batches - {f}, g);
      assert batches - {g} - {f} == batches - {f} - {g};
    }
  }

  function PutBacks(labels: seq<Label>, n: nat): nat
    requires n <= |labels|
  {
    if n == 0 then 0 else PutBacks(labels, n - 1) + if labels[n - 1].PutBack? then 1 else 0
  }

  lemma ExcessStep(s: Sys, l: Label, s': Sys)
    requires Next(s, l, s')
    ensures Excess(s'.queue) + BatchExcess(s'.batches) <=
            Excess(s.queue) + BatchExcess(s.batches) + if l.PutBack? then MAX_QUEUED_TRACES else 0
  {
    if l.Drain? {
      BatchExcessRemove(s'.batches, l.flusher);
      assert s'.batches - {l.flusher} == s.batches;
    } else if !l.Record? {
      BatchExcessRemove(s.batches, l.flusher);
    }
  }

  /** Each batch put back can raise the bound by 4096, and nothing else can ... */
  lemma {:induction false} QueueBounded(states: seq<Sys>, labels: seq<Label>, n: nat)
    requires IsRun(states, labels) && n < |states|
    ensures Excess(states[n].queue) + BatchExcess(states[n].batches) <= 4096 * PutBacks(labels, n)
    ensures |states[n].queue| <= 4096 * (1 + PutBacks(labels, n))
  {
    if n > 0 {
      QueueBounded(states, labels, n - 1);
      assert Next(states[n - 1], labels[n - 1], states[n]);
      ExcessStep(states[n - 1], labels[n - 1], states[n]);
    }
  }

  function Records(traces: seq<Trace>): (labels: seq<Label>)
    ensures |labels| == |traces| && forall i :: 0 <= i < |traces| ==> labels[i] == Record(traces[i])
  {
    seq(|traces|, i requires 0 <= i < |traces| => Record(traces[i]))
  }

  /** A run continued. */
  ghost predicate Leads(from: Sys, labels: seq<Label>, to: Sys)
    decreases |labels|
  {
    if labels == [] then from == to
    else exists mid :: Next(from, labels[0], mid) && Leads(mid, labels[1..], to)
  }

  lemma {:induction false} LeadsConcat(a: Sys, l: seq<Label>, b: Sys, m: seq<Label>, c: Sys)
    requires Leads(a, l, b) && Leads(b, m, c)
    ensures Leads(a, l + m, c)
    decreases |l|
  {
    if l == [] {
      assert l + m == m;
    } else {
      var mid :| Next(a, l[0], mid) && Leads(mid, l[1..], b);
      LeadsConcat(mid, l[1..], b, m, c);
      assert (l + m)[1..] == l[1..] + m;
    }
  }

  lemma {:induction false} RecordsLead(s: Sys, traces: seq<Trace>)
    ensures Leads(s, Records(traces), s.(queue := PushedAll(s.queue, traces)))
    decreases |traces|
  {
    if traces != [] {
      var mid := s.(queue := Pushed(s.queue, traces[0]));
      RecordsLead(mid, traces[1..]);
      assert Records(traces)[1..] == Records(traces[1..]);
      assert Next(s, Records(traces)[0], mid);
    }
  }

  /** One failing flush while 4096 traces are recorded. */
  lemma OvertakenFlush(s: Sys, traces: seq<Trace>)
    requires s.queue != [] && 0 !in s.batches && |traces| == MAX_QUEUED_TRACES
    ensures Leads(s, [Drain(0)] + Records(traces) + [PutBack(0)], s.(queue := s.queue + traces))
  {
    var drained := s.(queue := [], batches := s.batches[0 := s.queue]);
    var refilled := drained.(queue := PushedAll([], traces));
    PushedAllKeepsNewest([], traces);
    assert PushedAll([], traces) == traces;
    RecordsLead(drained, traces);
    assert s.batches[0 := s.queue] - {0} == s.batches;
    var end := s.(queue := s.queue + traces);
    assert Next(s, Drain(0), drained) && Next(refilled, PutBack(0), end);
    assert [Drain(0)][1..] == [] && [PutBack(0)][1..] == [];
    assert Leads(drained, [], drained) && Leads(end, [], end);
    assert Leads(s, [Drain(0)], drained) && Leads(refilled, [PutBack(0)], end);
    LeadsConcat(s, [Drain(0)], drained, Records(traces), refilled);
    LeadsConcat(s, [Drain(0)] + Records(traces), refilled, [PutBack(0)], end);
  }

  /** ... and it does: the queue of some run grows beyond every bound. */
  lemma {:induction false} QueueUnbounded(s: Sys, traces: seq<Trace>, n: nat) returns (labels: seq<Label>, s': Sys)
    requires s.queue != [] && 0 !in s.batches && |traces| == MAX_QUEUED_TRACES
    ensures Leads(s, labels, s') && s'.batches == s.batches && |s'.queue| == |s.queue| + MAX_QUEUED_TRACES * n
    decreases n
  {
    labels, s' := [], s;
    if n > 0 {
      var mid := s.(queue := s.queue + traces);
      OvertakenFlush(s, traces);
      var rest;
      rest, s' := QueueUnbounded(mid, traces, n - 1);
      labels := [Drain(0)] + Records(traces) + [PutBack(0)] + rest;
      LeadsConcat(s, [Drain(0)] + Records(traces) + [PutBack(0)], mid, rest, s');
    }
  }

  // ---------- which traces survive ----------

  predicate Has(traces: seq<Trace>, id: string) {
    exists i :: 0 <= i < |traces| && traces[i].id == id
  }

  ghost predicate DistinctIds(traces: seq<Trace>) {
    forall i, j :: 0 <= i < j < |traces| ==> traces[i].id != traces[j].id
  }

  /** Queued, drained or stored. */
  ghost predicate Kept(s: Sys, id: string) {
    Has(s.queue, id) || (exists f :: f in s.batches && Has(s.batches[f], id)) || id in s.table
  }

  /** Every trace is in one place. */
  ghost predicate Once(s: Sys) {
    && DistinctIds(s.queue)
    && (forall f :: f in s.batches ==> DistinctIds(s.batches[f]))
    && (forall f, id :: f in s.batches && Has(s.batches[f], id) ==> !Has(s.queue, id) && id !in s.table)
    && (forall id :: Has(s.queue, id) ==> id !in s.table)
    && (forall f, g, id :: f in s.batches && g in s.batches && Has(s.batches[f], id) && Has(s.batches[g], id) ==> f == g)
  }

  /** The two ways to lose a trace: a full queue forgets its oldest, a failed transaction its batch. */
  predicate Drops(s: Sys, l: Label, id: string) {
    || (l.Record? && |s.queue| >= MAX_QUEUED_TRACES && s.queue[0].id == id)
    || (l.Lose? && l.flusher in s.batches && Has(s.batches[l.flusher], id))
  }

  lemma HasConcat(a: seq<Trace>, b: seq<Trace>, id: string)
    ensures Has(a + b, id) <==> Has(a, id) || Has(b, id)
  {
    var all := a + b;
    if Has(a, id) {
      var i :| 0 <= i < |a| && a[i].id == id;
      assert all[i].id == id;
    }
    if Has(b, id) {
      var i :| 0 <= i < |b| && b[i].id == id;
      assert all[|a| + i].id == id;
    }
  }

  lemma HasOne(t: Trace, id: string)
    ensures Has([t], id) <==> t.id == id
  {
    assert [t][0] == t;
  }

  lemma PushedHas(queue: seq<Trace>, t: Trace, id: string)
    requires DistinctIds(queue)
    ensures Has(Pushed(queue, t), id) <==>
            id == t.id || (Has(queue, id) && !(|queue| >= MAX_QUEUED_TRACES && queue[0].id == id))
  {
    var kept := if |queue| >= MAX_QUEUED_TRACES then queue[1..] else queue;
    HasConcat(kept, [t], id);
    HasOne(t, id);
    if |queue| >= MAX_QUEUED_TRACES {
      assert queue == [queue[0]] + queue[1..];
      HasConcat([queue[0]], queue[1..], id);
      HasOne(queue[0], id);
      if Has(queue[1..], id) {
        var i :| 0 <= i < |queue[1..]| && queue[1..][i].id == id;
        assert queue[i + 1].id != queue[0].id;
      }
    }
  }

  lemma {:induction false} StoredHasIff(table: Table, batch: seq<Trace>, id: string)
    ensures id in Stored(table, batch) <==> id in table || Has(batch, id)
  {
    if batch != [] {
      var last := |batch| - 1;
      StoredHasIff(table, batch[..last], id);
      assert batch == batch[..last] + [batch[last]];
      HasConcat(batch[..last], [batch[last]], id);
      HasOne(batch[last], id);
    }
  }

  /** A trace is kept by a step exactly when the step does not drop it. */
  lemma KeptIff(s: Sys, l: Label, s': Sys, id: string)
    requires Next(s, l, s') && Once(s) && Kept(s, id) && (l.Record? ==> l.trace.id != id)
    ensures Kept(s', id) <==> !Drops(s, l, id)
  {
    match l
    case Record(t) =>
      PushedHas(s.queue, t, id);
      hide Pushed, DistinctIds;
      if |s.queue| >= MAX_QUEUED_TRACES {
        assert Has(s.queue, s.queue[0].id);
      }
    case Drain(f) =>
      assert s'.batches[f] == s.queue;
      assert forall g :: g in s.batches ==> s'.batches[g] == s.batches[g];
      assert Has(s.queue, id) ==> Has(s'.batches[f], id);
    case Commit(f) =>
      StoredHasIff(s.table, s.batches[f], id);
      hide Stored;
      assert forall g :: g in s'.batches ==> s'.batches[g] == s.batches[g];
    case PutBack(f) =>
      HasConcat(s.batches[f], s.queue, id);
      assert forall g :: g in s'.batches ==> s'.batches[g] == s.batches[g];
    case Lose(f) =>
      assert forall g :: g in s'.batches ==> s'.batches[g] == s.batches[g];
  }

  lemma KeptWas(s: Sys, l: Label, s': Sys, id: string)
    requires Next(s, l, s') && Once(s) && Kept(s', id)
    ensures Kept(s, id) || (l.Record? && l.trace.id == id)
  {
    match l
    case Record(t) => PushedHas(s.queue, t, id);
    case Drain(f) =>
    case Commit(f) => StoredHasIff(s.table, s.batches[f], id);
    case PutBack(f) => HasConcat(s.batches[f], s.queue, id);
    case Lose(f) =>
  }

  lemma PushedDistinct(queue: seq<Trace>, t: Trace)
    requires DistinctIds(queue) && !Has(queue, t.id)
    ensures DistinctIds(Pushed(queue, t))
  {
  }

  lemma DistinctConcat(a: seq<Trace>, b: seq<Trace>)
    requires DistinctIds(a) && DistinctIds(b) && forall id :: Has(a, id) ==> !Has(b, id)
    ensures DistinctIds(a + b)
  {
    forall i, j | 0 <= i < j < |a + b|
      ensures (a + b)[i].id != (a + b)[j].id
    {
      if i < |a| <= j {
        assert Has(a, a[i].id) && Has(b, b[j - |a|].id);
      }
    }
  }

  lemma OnceStep(s: Sys, l: Label, s': Sys)
    requires Next(s, l, s') && Once(s) && (l.Record? ==> !Kept(s, l.trace.id))
    ensures Once(s')
  {
    match l
    case Record(t) =>
      PushedDistinct(s.queue, t);
      forall id
        ensures Has(s'.queue, id) ==> id == t.id || Has(s.queue, id)
      {
        PushedHas(s.queue, t, id);
      }
      hide Pushed, DistinctIds, Has;
    case Drain(f) =>
      hide DistinctIds;
      assert forall id :: !Has(s'.queue, id);
      hide Has;
    case Commit(f) =>
      forall id
        ensures id in s'.table <==> id in s.table || Has(s.batches[f], id)
      {
        StoredHasIff(s.table, s.batches[f], id);
      }
      hide DistinctIds, Stored, Has;
    case PutBack(f) =>
      DistinctConcat(s.batches[f], s.queue);
      forall id
        ensures Has(s'.queue, id) <==> Has(s.batches[f], id) || Has(s.queue, id)
      {
        HasConcat(s.batches[f], s.queue, id);
      }
      hide DistinctIds, Has;
    case Lose(f) =>
      hide DistinctIds, Has;
  }

  /** No identifier is recorded twice: every trace gets a new one. */
  ghost predicate FreshIds(labels: seq<Label>) {
    forall i, j :: 0 <= i < j < |labels| && labels[i].Record? && labels[j].Record? ==> labels[i].trace.id != labels[j].trace.id
  }

  ghost predicate RecordedBefore(labels: seq<Label>, n: nat, id: string)
    requires n <= |labels|
  {
    exists k :: 0 <= k < n && labels[k].Record? && labels[k].trace.id == id
  }

  lemma {:induction false} RunKeepsOnce(states: seq<Sys>, labels: seq<Label>, n: nat)
    requires IsRun(states, labels) && FreshIds(labels) && n < |states|
    ensures Once(states[n])
    ensures forall id :: Kept(states[n], id) ==> RecordedBefore(labels, n, id)
  {
    if n > 0 {
      var s, l, s' := states[n - 1], labels[n - 1], states[n];
      RunKeepsOnce(states, labels, n - 1);
      assert Next(s, l, s');
      hide Next, Once, Kept, IsRun;
      assert l.Record? ==> !RecordedBefore(labels, n - 1, l.trace.id);
      OnceStep(s, l, s');
      forall id | Kept(s', id)
        ensures RecordedBefore(labels, n, id)
      {
        KeptWas(s, l, s', id);
      }
    }
  }

  /** A recorded trace is still queued, drained or stored exactly when no step since has dropped it: neither a
      full queue forgot it nor was it in a batch whose transaction did not begin or commit. */
  lemma {:induction false} SurvivesIff(states: seq<Sys>, labels: seq<Label>, i: nat, n: nat)
    requires IsRun(states, labels) && FreshIds(labels) && i < n < |states| && labels[i].Record?
    ensures Kept(states[n], labels[i].trace.id) <==>
            forall k :: i < k < n ==> !Drops(states[k], labels[k], labels[i].trace.id)
  {
    var id, s, l, s' := labels[i].trace.id, states[n - 1], labels[n - 1], states[n];
    RunKeepsOnce(states, labels, n - 1);
    assert Next(s, l, s');
    if i == n - 1 {
      assert s'.queue[|s'.queue| - 1].id == id;
    } else {
      SurvivesIff(states, labels, i, n - 1);
      hide Next, Once, Kept, Drops, IsRun;
      if Kept(s, id) {
        KeptIff(s, l, s', id);
      } else if Kept(s', id) {
        KeptWas(s, l, s', id);
      }
    }
  }

  lemma {:induction false} PutBacksAre(labels: seq<Label>, n: nat)
    requires n <= |labels|
    ensures PutBacks(labels, n) == |set i: nat | i < n && labels[i].PutBack?|
  {
    if n > 0 {
      PutBacksAre(labels, n - 1);
      assert (set i: nat | i < n && labels[i].PutBack?)
          == (set i: nat | i < n - 1 && labels[i].PutBack?) + if labels[n - 1].PutBack? then {n - 1} else {};
    }
  }

  /** Every step that is possible: recording always, draining by a flusher without a batch from a queue that is not empty, and the
      three endings of a flusher with one. */
  lemma Possible(s: Sys, trace: Trace, f: Flusher)
    ensures exists s' :: Next(s, Record(trace), s')
    ensures (exists s' :: Next(s, Drain(f), s')) <==> |s.queue| > 0 && f !in s.batches
    ensures (exists s' :: Next(s, Commit(f), s')) <==> f in s.batches
    ensures (exists s' :: Next(s, PutBack(f), s')) <==> f in s.batches
    ensures (exists s' :: Next(s, Lose(f), s')) <==> f in s.batches
  {
    assert Next(s, Record(trace), s.(queue := Pushed(s.queue, trace)));
    if s.queue != [] && f !in s.batches {
      assert Next(s, Drain(f), s.(queue := [], batches := s.batches[f := s.queue]));
    }
    if f in s.batches {
      assert Next(s, Commit(f), s.(batches := s.batches - {f}, table := Stored(s.table, s.batches[f])));
      assert Next(s, PutBack(f), s.(queue := s.batches[f] + s.queue, batches := s.batches - {f}));
      assert Next(s, Lose(f), s.(batches := s.batches - {f}));
    }
  }

  lemma FreshIff(traces: seq<Trace>)
    ensures FreshIds(Records(traces)) <==> forall i, j :: 0 <= i < j < |traces| ==> traces[i].id != traces[j].id
  {
    var labels := Records(traces);
    assert forall i :: 0 <= i < |traces| ==> labels[i].Record? && labels[i].trace == traces[i];
  }
}
