/** Several processes over one job table.  A claim is two statements, a select and a guarded update,
    and so is a retryable failure; other processes run in between and every clock reading may be old
    by the time it is used. */
module JobRuns {
  import opened Basics
  import opened Jobs

  type Proc = nat

  /** What a process has read and is about to write. */
  datatype Intent =
    | ToClaim(id: JobId, owner: string, now: int, leaseUntil: int)
    | ToFail(id: JobId, owner: string, now: int, retryAt: int)

  datatype Sys = Sys(jobs: Queue, intents: map<Proc, Intent>, clock: int)

  /** The boolean of a guarded statement says whether it changed its row. */
  datatype Label =
    | Enqueue(id: JobId, key: WorkKey, watermark: string, createdAt: int, updatedAt: int, inserted: bool)
    | Select(proc: Proc, id: JobId, owner: string, now: int, leaseSeconds: int)
    | Claim(proc: Proc, id: JobId, owner: string, now: int, leaseUntil: int, won: bool)
    | Complete(id: JobId, owner: string, output: Option<string>, now: int, changed: bool)
    | ReadFailure(proc: Proc, id: JobId, owner: string, now: int, retryAfter: Option<int>)
    | Fail(proc: Proc, id: JobId, owner: string, now: int, retryAt: int, changed: bool)
    | Terminate(id: JobId, owner: string, now: int, changed: bool)
    | Cleanup(now: int)
    | Lose(proc: Proc)

  ghost predicate Next(s: Sys, l: Label, s': Sys) {
    && s.clock <= s'.clock
    && match l
       case Enqueue(id, key, watermark, createdAt, updatedAt, inserted) =>
         && (inserted <==> !KeyTaken(s.jobs, key) && id !in s.jobs)
         && s'.jobs == (if inserted then s.jobs[id := NewJob(key, watermark, createdAt, updatedAt)] else s.jobs)
         && s'.intents == s.intents
       case Select(p, id, owner, now, leaseSeconds) =>
         && now <= s'.clock && id in s.jobs && Eligible(s.jobs[id], now)
         && s'.jobs == s.jobs
         && s'.intents == s.intents[p := ToClaim(id, owner, now, LeaseEnd(now, leaseSeconds))]
       case Claim(p, id, owner, now, leaseUntil, won) =>
         && p in s.intents && s.intents[p] == ToClaim(id, owner, now, leaseUntil)
         && (won <==> id in s.jobs && Eligible(s.jobs[id], now))
         && s'.jobs == (if won then s.jobs[id := Claimed(s.jobs[id], owner, now, leaseUntil)] else s.jobs)
         && s'.intents == s.intents - {p}
       case Complete(id, owner, output, now, changed) =>
         && now <= s'.clock && (changed <==> HeldBy(s.jobs, id, owner))
         && s'.jobs == (if changed then s.jobs[id := Completed(s.jobs[id], output, now)] else s.jobs)
         && s'.intents == s.intents
       case ReadFailure(p, id, owner, now, retryAfter) =>
         && now <= s'.clock && HeldBy(s.jobs, id, owner)
         && s'.jobs == s.jobs
         && s'.intents == s.intents[p := ToFail(id, owner, now, RetryAt(now, s.jobs[id].attempt, retryAfter))]
       case Fail(p, id, owner, now, retryAt, changed) =>
         && p in s.intents && s.intents[p] == ToFail(id, owner, now, retryAt)
         && (changed <==> HeldBy(s.jobs, id, owner))
         && s'.jobs == (if changed then s.jobs[id := Postponed(s.jobs[id], retryAt, now)] else s.jobs)
         && s'.intents == s.intents - {p}
       case Terminate(id, owner, now, changed) =>
         && now <= s'.clock && (changed <==> HeldBy(s.jobs, id, owner))
         && s'.jobs == (if changed then s.jobs[id := Abandoned(s.jobs[id], now)] else s.jobs)
         && s'.intents == s.intents
       case Cleanup(now) =>
         now <= s'.clock && s'.jobs == CleanedUp(s.jobs, now) && s'.intents == s.intents
       case Lose(p) =>
         s'.jobs == s.jobs && s'.intents == s.intents - {p}
  }

  ghost predicate Init(s: Sys) {
    s.jobs == map[] && s.intents == map[]
  }

  ghost predicate IsRun(states: seq<Sys>, labels: seq<Label>) {
    && |states| == |labels| + 1
    && Init(states[0])
    && forall i :: 0 <= i < |labels| ==> Next(states[i], labels[i], states[i + 1])
  }

  // ---------- the invariant ----------

  ghost predicate IntentOk(intent: Intent, clock: int) {
    match intent
    case ToClaim(_, _, now, leaseUntil) => now <= clock && leaseUntil <= now + MAX_WAIT
    case ToFail(_, _, now, retryAt) => now <= clock && retryAt <= now + MAX_WAIT
  }

  ghost predicate Inv(s: Sys) {
    && (forall id :: id in s.jobs ==> JobOk(s.jobs[id]))
    && (forall a, b :: a in s.jobs && b in s.jobs && s.jobs[a].key == s.jobs[b].key ==> a == b)
    && (forall p :: p in s.intents ==> IntentOk(s.intents[p], s.clock))
  }

  lemma NextKeepsJobs(s: Sys, l: Label, s': Sys)
    requires Inv(s) && Next(s, l, s')
    ensures forall id :: id in s'.jobs ==> JobOk(s'.jobs[id])
  {
    if l.Claim? || l.Fail? {
      assert IntentOk(s.intents[l.proc], s.clock);
    }
  }

  lemma NextKeepsKeys(s: Sys, l: Label, s': Sys)
    requires Inv(s) && Next(s, l, s')
    ensures forall a, b :: a in s'.jobs && b in s'.jobs && s'.jobs[a].key == s'.jobs[b].key ==> a == b
  {
    hide JobOk, IntentOk, Eligible;
  }

  lemma NextKeepsIntents(s: Sys, l: Label, s': Sys)
    requires Inv(s) && Next(s, l, s')
    ensures forall p :: p in s'.intents ==> IntentOk(s'.intents[p], s'.clock)
  {
    hide JobOk, Eligible, KeyTaken;
  }

  lemma NextKeepsInv(s: Sys, l: Label, s': Sys)
    requires Inv(s) && Next(s, l, s')
    ensures Inv(s')
  {
    NextKeepsJobs(s, l, s');
    NextKeepsKeys(s, l, s');
    NextKeepsIntents(s, l, s');
    hide Next, JobOk, IntentOk;
  }

  lemma {:induction false} RunKeepsInv(states: seq<Sys>, labels: seq<Label>, n: nat)
    requires IsRun(states, labels) && n < |states|
    ensures Inv(states[n])
  {
    if n > 0 {
      RunKeepsInv(states, labels, n - 1);
      NextKeepsInv(states[n - 1], labels[n - 1], states[n]);
    }
  }

  // ---------- lease exclusion ----------

  predicate Wins(l: Label, id: JobId) {
    l.Claim? && l.won && l.id == id
  }

  /** The named owner itself gave the job up or finished it. */
  predicate ReleasedBy(l: Label, id: JobId, owner: string) {
    || (l.Fail? && l.changed && l.id == id && l.owner == owner)
    || (l.Complete? && l.changed && l.id == id && l.owner == owner)
    || (l.Terminate? && l.changed && l.id == id && l.owner == owner)
  }

  ghost predicate Leased(s: Sys, id: JobId, owner: string, leaseUntil: int) {
    HeldBy(s.jobs, id, owner) && s.jobs[id].leaseUntil == Some(leaseUntil)
  }

  /** A held lease is broken in one step only by its holder, or by a claim made after its end. */
  lemma LeaseStep(s: Sys, l: Label, s': Sys, id: JobId, owner: string, leaseUntil: int)
    requires Inv(s) && Next(s, l, s') && Leased(s, id, owner, leaseUntil)
    ensures Leased(s', id, owner, leaseUntil) || ReleasedBy(l, id, owner) || (Wins(l, id) && leaseUntil <= l.now <= s.clock)
  {
    if l.Claim? {
      assert IntentOk(s.intents[l.proc], s.clock);
    }
  }

  lemma StepOf(states: seq<Sys>, labels: seq<Label>, k: nat)
    requires IsRun(states, labels) && k + 1 < |states|
    ensures k < |labels| && Next(states[k], labels[k], states[k + 1]) && states[k].clock <= states[k + 1].clock
  {
  }

  lemma {:induction false} LeaseThrough(states: seq<Sys>, labels: seq<Label>, id: JobId, owner: string, leaseUntil: int, from: nat, to: nat)
    requires IsRun(states, labels) && from <= to < |states|
    requires Leased(states[from], id, owner, leaseUntil)
    requires forall k :: from <= k < to ==> !ReleasedBy(labels[k], id, owner)
    ensures Leased(states[to], id, owner, leaseUntil) || leaseUntil <= states[to].clock
  {
    hide Next, Leased, Inv, IsRun;
    if from < to {
      LeaseThrough(states, labels, id, owner, leaseUntil, from, to - 1);
      RunKeepsInv(states, labels, to - 1);
      StepOf(states, labels, to - 1);
      if Leased(states[to - 1], id, owner, leaseUntil) {
        LeaseStep(states[to - 1], labels[to - 1], states[to], id, owner, leaseUntil);
      }
    }
  }

  /** Between two successful claims of one job, either the first holder released it or the clock
      reached the end of the first lease. */
  lemma LeaseExclusion(states: seq<Sys>, labels: seq<Label>, i: nat, j: nat, id: JobId)
    requires IsRun(states, labels) && i < j < |labels| && Wins(labels[i], id) && Wins(labels[j], id)
    ensures labels[i].leaseUntil <= states[j].clock
            || exists k :: i < k < j && (labels[k].Fail? || labels[k].Complete? || labels[k].Terminate?) && labels[k].changed
                           && labels[k].id == id && labels[k].owner == labels[i].owner
  {
    assert Next(states[i], labels[i], states[i + 1]);
    assert Leased(states[i + 1], id, labels[i].owner, labels[i].leaseUntil);
    if forall k :: i + 1 <= k < j ==> !ReleasedBy(labels[k], id, labels[i].owner) {
      LeaseThrough(states, labels, id, labels[i].owner, labels[i].leaseUntil, i + 1, j);
      RunKeepsInv(states, labels, j);
      assert Next(states[j], labels[j], states[j + 1]);
      assert IntentOk(states[j].intents[labels[j].proc], states[j].clock);
    }
  }

  // ---------- fencing ----------

  /** Claim `i` is the latest successful claim of `id` before step `n`. */
  ghost predicate LatestClaim(labels: seq<Label>, n: nat, id: JobId, i: nat)
    requires n <= |labels|
  {
    i < n && Wins(labels[i], id) && forall k :: i < k < n ==> !Wins(labels[k], id)
  }

  lemma {:induction false} RunningHasClaim(states: seq<Sys>, labels: seq<Label>, n: nat, id: JobId) returns (i: nat)
    requires IsRun(states, labels) && n < |states|
    requires id in states[n].jobs && states[n].jobs[id].status.Running?
    ensures LatestClaim(labels, n, id, i)
    ensures states[n].jobs[id].owner == Some(labels[i].owner) && states[n].jobs[id].leaseUntil == Some(labels[i].leaseUntil)
    ensures forall k :: i < k < n ==> !ReleasedBy(labels[k], id, labels[i].owner)
  {
    assert n > 0;
    var s, l, s' := states[n - 1], labels[n - 1], states[n];
    assert Next(s, l, s');
    if Wins(l, id) {
      i := n - 1;
    } else {
      assert id in s.jobs && s.jobs[id] == s'.jobs[id];
      i := RunningHasClaim(states, labels, n - 1, id);
      assert !ReleasedBy(l, id, labels[i].owner);
    }
  }

  /** Completion and failure are accepted only from the owner named by the latest successful claim,
      which has not released the job since. */
  lemma Fencing(states: seq<Sys>, labels: seq<Label>, n: nat, id: JobId, owner: string)
    requires IsRun(states, labels) && n < |labels| && ReleasedBy(labels[n], id, owner)
    ensures exists i: nat :: LatestClaim(labels, n, id, i) && labels[i].owner == owner
                        && forall k :: i < k < n ==> !ReleasedBy(labels[k], id, owner)
  {
    assert Next(states[n], labels[n], states[n + 1]);
    var i := RunningHasClaim(states, labels, n, id);
    assert labels[i].owner == owner;
  }

  /** A run in which process 0 claims a job, loses it by expiry to process 1 under the same owner name, and
      the job is completed at `end`. */
  function LateLabels(id: JobId, key: WorkKey, owner: string, first: int, s1: int, second: int, s2: int, end: int): seq<Label> {
    [Enqueue(id, key, "", first, first, true),
     Select(0, id, owner, first, s1), Claim(0, id, owner, first, LeaseEnd(first, s1), true),
     Select(1, id, owner, second, s2), Claim(1, id, owner, second, LeaseEnd(second, s2), true),
     Complete(id, owner, None, end, true)]
  }

  function LateStates(id: JobId, key: WorkKey, owner: string, first: int, s1: int, second: int, s2: int, end: int): seq<Sys> {
    var job := NewJob(key, "", first, first);
    var once := Claimed(job, owner, first, LeaseEnd(first, s1));
    var twice := Claimed(once, owner, second, LeaseEnd(second, s2));
    [Sys(map[], map[], first),
     Sys(map[id := job], map[], first),
     Sys(map[id := job], map[0 := ToClaim(id, owner, first, LeaseEnd(first, s1))], first),
     Sys(map[id := once], map[], first),
     Sys(map[id := once], map[1 := ToClaim(id, owner, second, LeaseEnd(second, s2))], second),
     Sys(map[id := twice], map[], second),
     Sys(map[id := Completed(twice, None, end)], map[], end)]
  }

  /** What fencing does not check: after both leases of the code's own length have ended, a completion under
      the shared name, whichever process sends it, is accepted and finishes the job. */
  lemma LateCompletionAccepted(id: JobId, key: WorkKey, owner: string, first: int, s1: int, second: int, s2: int, end: int)
    requires first <= LeaseEnd(first, s1) <= second <= LeaseEnd(second, s2) <= end
    ensures var states := LateStates(id, key, owner, first, s1, second, s2, end);
            var labels := LateLabels(id, key, owner, first, s1, second, s2, end);
            && IsRun(states, labels) && Wins(labels[2], id) && Wins(labels[4], id)
            && labels[2].leaseUntil <= labels[4].leaseUntil <= labels[5].now
            && labels[5] == Complete(id, owner, None, end, true) && states[6].jobs[id].status.Succeeded?
  {
    var states := LateStates(id, key, owner, first, s1, second, s2, end);
    var labels := LateLabels(id, key, owner, first, s1, second, s2, end);
    hide LeaseEnd;
    var nobody: map<Proc, Intent> := map[];
    assert nobody[0 := states[2].intents[0]] - {0} == nobody && nobody[1 := states[4].intents[1]] - {1} == nobody;
    assert Next(states[0], labels[0], states[1]);
    assert Next(states[1], labels[1], states[2]);
    assert Next(states[2], labels[2], states[3]);
    assert Next(states[3], labels[3], states[4]);
    assert Next(states[4], labels[4], states[5]);
    assert Next(states[5], labels[5], states[6]);
  }

  // ---------- attempts and terminal rows ----------

  /** Successful claims of `id` among the first `n` labels, since its row was last inserted. */
  function ClaimCount(labels: seq<Label>, n: nat, id: JobId): nat
    requires n <= |labels|
  {
    if n == 0 then 0
    else if labels[n - 1].Enqueue? && labels[n - 1].inserted && labels[n - 1].id == id then 0
    else ClaimCount(labels, n - 1, id) + if Wins(labels[n - 1], id) then 1 else 0
  }

  /** `attempt` counts the claims. */
  lemma {:induction false} AttemptCountsClaims(states: seq<Sys>, labels: seq<Label>, n: nat, id: JobId)
    requires IsRun(states, labels) && n < |states| && id in states[n].jobs
    ensures states[n].jobs[id].attempt == ClaimCount(labels, n, id)
  {
    assert n > 0;
    var s, l := states[n - 1], labels[n - 1];
    assert Next(s, l, states[n]);
    if !(l.Enqueue? && l.inserted && l.id == id) {
      assert id in s.jobs;
      AttemptCountsClaims(states, labels, n - 1, id);
    }
  }

  /** A finished or abandoned job never changes again: later on it is the same row, until a cleanup
      deletes it thirty days after its last update. */
  lemma {:induction false} TerminalStays(states: seq<Sys>, labels: seq<Label>, id: JobId, i: nat, j: nat)
    requires IsRun(states, labels) && i <= j < |states|
    requires id in states[i].jobs && Terminal(states[i].jobs[id])
    ensures (id in states[j].jobs && states[j].jobs[id] == states[i].jobs[id])
            || exists k :: i <= k < j && labels[k].Cleanup? && id !in states[k + 1].jobs
                           && states[i].jobs[id].updatedAt + CLEANUP_AGE < labels[k].now
  {
    if i < j {
      TerminalStays(states, labels, id, i, j - 1);
      assert Next(states[j - 1], labels[j - 1], states[j]);
    }
  }

  /** The named owner reported a retryable failure. */
  predicate RetriedBy(l: Label, id: JobId, owner: string) {
    l.Fail? && l.changed && l.id == id && l.owner == owner
  }

  /** Row `id` exists in every state after `from` up to `to`. */
  ghost predicate PresentThrough(states: seq<Sys>, id: JobId, from: nat, to: nat)
    requires to < |states|
  {
    forall k :: from < k <= to ==> id in states[k].jobs
  }

  /** A completion or a terminal failure leaves nothing to claim while the row exists. */
  lemma FinishedNotClaimed(states: seq<Sys>, labels: seq<Label>, id: JobId, owner: string, k: nat, j: nat)
    requires IsRun(states, labels) && k < j < |labels| && PresentThrough(states, id, k, j)
    requires ReleasedBy(labels[k], id, owner) && !RetriedBy(labels[k], id, owner)
    ensures !Wins(labels[j], id)
  {
    assert Next(states[k], labels[k], states[k + 1]);
    assert Terminal(states[k + 1].jobs[id]);
    TerminalStays(states, labels, id, k + 1, j);
    assert Next(states[j], labels[j], states[j + 1]);
    hide IsRun;
  }

  /** While a job's row exists it is claimed again only if the clock reached the end of the first lease or the
      first holder itself reported a retryable failure: finished work is never handed out again. */
  lemma ReclaimedOnlyAfterRetryOrExpiry(states: seq<Sys>, labels: seq<Label>, i: nat, j: nat, id: JobId)
    requires IsRun(states, labels) && i < j < |labels| && Wins(labels[i], id) && Wins(labels[j], id)
    requires PresentThrough(states, id, i, j)
    ensures labels[i].leaseUntil <= states[j].clock
            || exists k :: i < k < j && labels[k].Fail? && labels[k].changed && labels[k].id == id && labels[k].owner == labels[i].owner
  {
    LeaseExclusion(states, labels, i, j, id);
    if labels[i].leaseUntil > states[j].clock {
      var k :| i < k < j && ReleasedBy(labels[k], id, labels[i].owner);
      if !RetriedBy(labels[k], id, labels[i].owner) {
        FinishedNotClaimed(states, labels, id, labels[i].owner, k, j);
      }
    }
  }

  /** Only terminal rows are ever deleted, and no live job of any run is stuck. */
  lemma LiveJobsProgress(states: seq<Sys>, labels: seq<Label>, n: nat, id: JobId, now: int)
    requires IsRun(states, labels) && n < |states| && id in states[n].jobs && !Terminal(states[n].jobs[id])
    ensures n < |labels| ==> id in states[n + 1].jobs
    ensures now >= states[n].jobs[id].updatedAt + MAX_WAIT ==> Eligible(states[n].jobs[id], now)
  {
    RunKeepsInv(states, labels, n);
    if n < |labels| {
      assert Next(states[n], labels[n], states[n + 1]);
    }
  }

  /** Without another process in between, the two statements are the one-step claim of `JobQueue`. */
  lemma SplitClaimIsClaim(s: Sys, p: Proc, id: JobId, owner: string, now: int, leaseSeconds: int, s1: Sys, s2: Sys, won: bool)
    requires Next(s, Select(p, id, owner, now, leaseSeconds), s1)
    requires Next(s1, Claim(p, id, owner, now, LeaseEnd(now, leaseSeconds), won), s2)
    ensures won && s2.jobs == s.jobs[id := Claimed(s.jobs[id], owner, now, LeaseEnd(now, leaseSeconds))]
  {
  }
}
