/** Which claims succeed, told from the events of a run alone. */
module JobClaims {
  import opened Basics
  import opened Jobs
  import opened JobRuns
  import opened Text
  import Order

  /** The step writes the row of `id`. */
  predicate Writes(l: Label, id: JobId) {
    match l
    case Enqueue(_, _, _, _, _, inserted) => l.id == id && inserted
    case Claim(_, _, _, _, _, won) => l.id == id && won
    case Complete(_, _, _, _, changed) => l.id == id && changed
    case Fail(_, _, _, _, _, changed) => l.id == id && changed
    case Terminate(_, _, _, changed) => l.id == id && changed
    case _ => false
  }

  /** Step `i` is the last before step `n` to write the row. */
  ghost predicate LastWrite(labels: seq<Label>, n: nat, id: JobId, i: nat)
    requires n <= |labels|
  {
    i < n && Writes(labels[i], id) && forall k :: i < k < n ==> !Writes(labels[k], id)
  }

  /** What the row is after that write. */
  ghost predicate IsAfter(l: Label, j: Job) {
    match l
    case Enqueue(_, key, watermark, createdAt, updatedAt, _) =>
      j == Job(key, watermark, Pending, None, None, 0, None, None, createdAt, updatedAt)
    case Claim(_, _, owner, now, leaseUntil, _) =>
      j.status.Running? && j.owner == Some(owner) && j.leaseUntil == Some(leaseUntil) && j.updatedAt == now
    case Complete(_, _, output, now, _) =>
      j.status.Succeeded? && j.owner.None? && j.leaseUntil.None? && j.nextRetryAt.None? && j.outputDigest == output && j.updatedAt == now
    case Fail(_, _, _, now, retryAt, _) =>
      j.status.Retry? && j.owner.None? && j.leaseUntil.None? && j.nextRetryAt == Some(retryAt) && j.updatedAt == now
    case Terminate(_, _, now, _) =>
      j.status.Failed? && j.owner.None? && j.leaseUntil.None? && j.nextRetryAt.None? && j.updatedAt == now
    case _ => false
  }

  lemma WriteStep(s: Sys, l: Label, s': Sys, id: JobId)
    requires Next(s, l, s') && id in s'.jobs
    ensures Writes(l, id) ==> IsAfter(l, s'.jobs[id])
    ensures !Writes(l, id) ==> id in s.jobs && s'.jobs[id] == s.jobs[id]
  {
  }

  /** Every row is what its last write made of it. */
  lemma {:induction false} RowIsLastWrite(states: seq<Sys>, labels: seq<Label>, n: nat, id: JobId) returns (i: nat)
    requires IsRun(states, labels) && n < |states| && id in states[n].jobs
    ensures LastWrite(labels, n, id, i) && IsAfter(labels[i], states[n].jobs[id])
  {
    assert n > 0;
    var l := labels[n - 1];
    assert Next(states[n - 1], l, states[n]);
    WriteStep(states[n - 1], l, states[n], id);
    hide Next, IsAfter, Writes;
    if Writes(l, id) {
      i := n - 1;
    } else {
      i := RowIsLastWrite(states, labels, n - 1, id);
    }
  }

  /** A job is free from the moment it is queued, after a failure from its retry time, after a claim from the end
      of the lease, and never after it finished. */
  predicate FreeAfter(l: Label, now: int) {
    match l
    case Enqueue(_, _, _, _, _, _) => true
    case Fail(_, _, _, _, retryAt, _) => retryAt <= now
    case Claim(_, _, _, _, leaseUntil, _) => leaseUntil <= now
    case _ => false
  }

  lemma ClaimStep(s: Sys, l: Label, s': Sys, last: Label)
    requires Next(s, l, s') && l.Claim? && l.id in s.jobs && IsAfter(last, s.jobs[l.id])
    ensures l.won <==> FreeAfter(last, l.now)
  {
  }

  /** The guarded claim of a row wins exactly when its last event left it free at the claim's clock reading. */
  lemma ClaimWinsIff(states: seq<Sys>, labels: seq<Label>, n: nat) returns (i: nat)
    requires IsRun(states, labels) && n < |labels| && labels[n].Claim? && labels[n].id in states[n].jobs
    ensures LastWrite(labels, n, labels[n].id, i)
    ensures labels[n].won <==> FreeAfter(labels[i], labels[n].now)
  {
    i := RowIsLastWrite(states, labels, n, labels[n].id);
    assert Next(states[n], labels[n], states[n + 1]);
    hide IsAfter, Writes;
    ClaimStep(states[n], labels[n], states[n + 1], labels[i]);
  }

  lemma SelectStep(s: Sys, l: Label, s': Sys, last: Label)
    requires Next(s, l, s') && l.Select? && IsAfter(last, s.jobs[l.id])
    ensures FreeAfter(last, l.now)
  {
  }

  /** And only free jobs are selected, under a lease of the length asked for within 5 to 3600 seconds. */
  lemma SelectedIsFree(states: seq<Sys>, labels: seq<Label>, n: nat) returns (i: nat)
    requires IsRun(states, labels) && n < |labels| && labels[n].Select?
    ensures labels[n].id in states[n].jobs && LastWrite(labels, n, labels[n].id, i) && FreeAfter(labels[i], labels[n].now)
  {
    assert Next(states[n], labels[n], states[n + 1]);
    i := RowIsLastWrite(states, labels, n, labels[n].id);
    hide IsAfter, Writes;
    SelectStep(states[n], labels[n], states[n + 1], labels[i]);
  }

  lemma {:induction false} WaitsForRetry(states: seq<Sys>, labels: seq<Label>, i: nat, n: nat, id: JobId)
    requires IsRun(states, labels) && i < n < |states| && labels[i].Fail? && labels[i].changed && labels[i].id == id
    requires PresentThrough(states, id, i, n) && forall k :: i < k < n ==> !Wins(labels[k], id)
    ensures states[n].jobs[id].status.Retry? && states[n].jobs[id].nextRetryAt == Some(labels[i].retryAt)
  {
    assert Next(states[n - 1], labels[n - 1], states[n]);
    if i < n - 1 {
      WaitsForRetry(states, labels, i, n - 1, id);
    }
  }

  /** After an accepted failure the first claim that wins the job reads a clock no earlier than its retry time. */
  lemma NoClaimBeforeRetry(states: seq<Sys>, labels: seq<Label>, i: nat, j: nat, id: JobId)
    requires IsRun(states, labels) && i < j < |labels| && labels[i].Fail? && labels[i].changed && labels[i].id == id
    requires Wins(labels[j], id) && forall k :: i < k < j ==> !Wins(labels[k], id)
    requires PresentThrough(states, id, i, j)
    ensures labels[i].retryAt <= labels[j].now
  {
    WaitsForRetry(states, labels, i, j, id);
    assert Next(states[j], labels[j], states[j + 1]);
    hide IsRun;
  }

  // ---------- the times written ----------

  /** The lease asked for, but no shorter than 5 and no longer than 3600 seconds. */
  lemma LeaseLength(now: int, seconds: int)
    requires now + 3600 <= 0x7FFF_FFFF_FFFF_FFFF
    ensures 5 <= LeaseEnd(now, seconds) - now <= 3600
    ensures 5 <= seconds <= 3600 ==> LeaseEnd(now, seconds) == now + seconds
    ensures seconds < 5 ==> LeaseEnd(now, seconds) == now + 5
    ensures seconds > 3600 ==> LeaseEnd(now, seconds) == now + 3600
  {
  }

  /** The delay asked for, within 1 to 3600 seconds; without one, five seconds doubled for every attempt after the
      first, up to an hour. */
  lemma RetryDelay(now: int, attempt: int, seconds: int)
    requires now + 3600 <= 0x7FFF_FFFF_FFFF_FFFF
    ensures 1 <= seconds <= 3600 ==> RetryAt(now, attempt, Some(seconds)) == now + seconds
    ensures seconds < 1 ==> RetryAt(now, attempt, Some(seconds)) == now + 1
    ensures seconds > 3600 ==> RetryAt(now, attempt, Some(seconds)) == now + 3600
    ensures attempt >= 1 ==> RetryAt(now, attempt, None) == now + Min(5 * Pow2(attempt - 1), 3600)
    ensures attempt < 1 ==> RetryAt(now, attempt, None) == now + 5
  {
    if attempt >= 1 {
      BackoffDoubles(attempt);
      Pow2Monotone(0, attempt - 1);
    }
  }

  /** Doubling. */
  lemma {:induction false} Doubles(n: nat)
    ensures Pow2(0) == 1 && Pow2(n + 1) == Pow2(n) + Pow2(n)
  {
  }

  /** A cleanup deletes exactly the jobs that succeeded or failed and were last updated more than thirty days ago. */
  lemma CleanupDeletes(s: Sys, now: int, s': Sys, id: JobId)
    requires Next(s, Cleanup(now), s') && id in s.jobs
    ensures id !in s'.jobs <==> (s.jobs[id].status.Succeeded? || s.jobs[id].status.Failed?) && s.jobs[id].updatedAt + 2592000 < now
    ensures id in s'.jobs ==> s'.jobs[id] == s.jobs[id]
  {
  }

  /** The job a claim takes: among the free ones of the phase none was created earlier, and none created at the same
      time has a smaller id. */
  lemma SelectionIsOldest(q: Queue, phase: string, now: int, pick: JobId, other: JobId)
    requires IsSelection(q, phase, now, Some(pick)) && Candidate(q, phase, now, other) && other != pick
    ensures q[pick].key.phase == phase
    ensures q[pick].createdAt < q[other].createdAt || (q[pick].createdAt == q[other].createdAt && Order.StrLt(pick, other))
  {
  }

  /** Who is free at a time, by status and time columns. */
  lemma CandidateIff(q: Queue, phase: string, now: int, id: JobId)
    requires id in q && JobOk(q[id])
    ensures Candidate(q, phase, now, id) <==>
            q[id].key.phase == phase
            && (|| q[id].status == Pending
                || (q[id].status == Retry && q[id].nextRetryAt.value <= now)
                || (q[id].status == Running && q[id].leaseUntil.value <= now))
  {
  }

  // ---------- the calls ----------

  /** A job is refused exactly when its identifier or a part of its key is blank. */
  lemma IdentifiedIff(id: JobId, key: WorkKey)
    ensures !Identified(id, key) <==>
            "" in [Trim(id), Trim(key.phase), Trim(key.sourceId), Trim(key.sourceRevision), Trim(key.inputDigest)]
  {
    hide Trim;
  }

  /** Near the end of time a wait ends with it. */
  lemma WaitsSaturate(now: int, attempt: int, seconds: int)
    requires now <= 0x7FFF_FFFF_FFFF_FFFF < now + 1
    ensures LeaseEnd(now, seconds) == RetryAt(now, attempt, Some(seconds)) == RetryAt(now, attempt, None) == 0x7FFF_FFFF_FFFF_FFFF
  {
  }

  /** Every call can be made at any time, and what it answers is settled by the row and the clock reading. */
  lemma EveryCallSteps(s: Sys, p: Proc, id: JobId, owner: string, output: Option<string>, now: int)
    requires now <= s.clock
    ensures exists s' :: Next(s, Complete(id, owner, output, now, HeldBy(s.jobs, id, owner)), s')
    ensures exists s' :: Next(s, Terminate(id, owner, now, HeldBy(s.jobs, id, owner)), s')
    ensures exists s' :: Next(s, Cleanup(now), s')
    ensures exists s' :: Next(s, Lose(p), s')
  {
    var held := HeldBy(s.jobs, id, owner);
    assert Next(s, Complete(id, owner, output, now, held), if held then s.(jobs := s.jobs[id := Completed(s.jobs[id], output, now)]) else s);
    assert Next(s, Terminate(id, owner, now, held), if held then s.(jobs := s.jobs[id := Abandoned(s.jobs[id], now)]) else s);
    assert Next(s, Cleanup(now), s.(jobs := CleanedUp(s.jobs, now)));
    assert Next(s, Lose(p), s.(intents := s.intents - {p}));
  }

  /** A claim can pick any row that is free and a failure can be read from any row its owner holds; the second half of either
      can follow at any time. */
  lemma EveryHalfSteps(s: Sys, p: Proc, id: JobId, owner: string, now: int, seconds: int, wait: Option<int>)
    requires now <= s.clock && id in s.jobs
    ensures (exists s' :: Next(s, Select(p, id, owner, now, seconds), s')) <==> Eligible(s.jobs[id], now)
    ensures (exists s' :: Next(s, ReadFailure(p, id, owner, now, wait), s')) <==> HeldBy(s.jobs, id, owner)
  {
    if Eligible(s.jobs[id], now) {
      assert Next(s, Select(p, id, owner, now, seconds), s.(intents := s.intents[p := ToClaim(id, owner, now, LeaseEnd(now, seconds))]));
    }
    if HeldBy(s.jobs, id, owner) {
      assert Next(s, ReadFailure(p, id, owner, now, wait),
                  s.(intents := s.intents[p := ToFail(id, owner, now, RetryAt(now, s.jobs[id].attempt, wait))]));
    }
  }

  lemma EveryIntentSteps(s: Sys, p: Proc, id: JobId, owner: string, now: int, until: int)
    requires p in s.intents
    ensures s.intents[p] == ToClaim(id, owner, now, until) ==>
              exists won, s' :: Next(s, Claim(p, id, owner, now, until, won), s')
    ensures s.intents[p] == ToFail(id, owner, now, until) ==>
              exists changed, s' :: Next(s, Fail(p, id, owner, now, until, changed), s')
  {
    var done := s.(intents := s.intents - {p});
    if s.intents[p] == ToClaim(id, owner, now, until) {
      var won := id in s.jobs && Eligible(s.jobs[id], now);
      assert Next(s, Claim(p, id, owner, now, until, won),
                  if won then done.(jobs := s.jobs[id := Claimed(s.jobs[id], owner, now, until)]) else done);
    } else if s.intents[p] == ToFail(id, owner, now, until) {
      var held := HeldBy(s.jobs, id, owner);
      assert Next(s, Fail(p, id, owner, now, until, held),
                  if held then done.(jobs := s.jobs[id := Postponed(s.jobs[id], until, now)]) else done);
    }
  }

  /** A missing time counts as the beginning of time. */
  lemma MissingTimes(j: Job, now: int)
    ensures j.status.Retry? && j.nextRetryAt.None? ==> (Eligible(j, now) <==> now >= 0)
    ensures j.status.Running? && j.leaseUntil.None? ==> (Eligible(j, now) <==> now >= 0)
  {
  }

  /** In every reachable state a running job has been claimed and has an owner and a lease of at most an hour, no other job has an
      owner, and a postponed one waits for at most an hour. */
  lemma RowsHold(states: seq<Sys>, labels: seq<Label>, n: nat, id: JobId)
    requires IsRun(states, labels) && n < |states| && id in states[n].jobs
    ensures var j := states[n].jobs[id];
            && (j.owner.Some? <==> j.status.Running?)
            && (j.status.Running? ==> j.attempt >= 1 && j.leaseUntil.Some? && j.leaseUntil.value <= j.updatedAt + 3600)
            && (j.status.Retry? ==> j.nextRetryAt.Some? && j.nextRetryAt.value <= j.updatedAt + 3600)
            && (j.status.Pending? ==> j.attempt == 0)
  {
    RunKeepsInv(states, labels, n);
    hide IsRun, Next;
  }

  /** Work is inserted exactly when no row has its key and none its identifier, and then waits for its first claim. */
  lemma EnqueueInserts(states: seq<Sys>, labels: seq<Label>, n: nat)
    requires IsRun(states, labels) && n < |labels| && labels[n].Enqueue?
    ensures labels[n].inserted <==>
            labels[n].id !in states[n].jobs && forall k :: k in states[n].jobs ==> states[n].jobs[k].key != labels[n].key
    ensures !labels[n].inserted ==> states[n + 1].jobs == states[n].jobs
    ensures labels[n].inserted ==>
              && states[n + 1].jobs.Keys == states[n].jobs.Keys + {labels[n].id}
              && states[n + 1].jobs[labels[n].id].key == labels[n].key && states[n + 1].jobs[labels[n].id].status.Pending?
  {
    assert Next(states[n], labels[n], states[n + 1]);
    hide IsRun;
  }
}
