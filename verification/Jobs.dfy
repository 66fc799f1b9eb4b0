/** The leased job queue of `evidence.rs`: the table `memory_jobs` and the operations on it. */
module Jobs {
  import opened Basics
  import opened Order
  import opened Text

  type JobId = string

  const I64_MAX: int := 0x7FFF_FFFF_FFFF_FFFF
  const MAX_WAIT: int := 3600
  const CLEANUP_AGE: int := 30 * 24 * 3600

  datatype Status = Pending | Running | Retry | Succeeded | Failed

  /** What makes two jobs the same work. */
  datatype WorkKey = WorkKey(phase: string, sourceId: string, sourceRevision: string, inputDigest: string)

  datatype Job = Job(
    key: WorkKey,
    watermark: string,
    status: Status,
    owner: Option<string>,
    leaseUntil: Option<int>,
    attempt: nat,
    nextRetryAt: Option<int>,
    outputDigest: Option<string>,
    createdAt: int,
    updatedAt: int)

  type Queue = map<JobId, Job>

  function SatAdd(a: int, b: int): int {
    Min(a + b, I64_MAX)
  }

  function Coalesce(t: Option<int>): int {
    if t.Some? then t.value else 0
  }

  predicate Terminal(j: Job) {
    j.status.Succeeded? || j.status.Failed?
  }

  /** The WHERE clause shared by the select and the guarded update of a claim. */
  predicate Eligible(j: Job, now: int) {
    || j.status.Pending?
    || (j.status.Retry? && Coalesce(j.nextRetryAt) <= now)
    || (j.status.Running? && Coalesce(j.leaseUntil) <= now)
  }

  predicate HeldBy(q: Queue, id: JobId, owner: string) {
    id in q && q[id].status.Running? && q[id].owner == Some(owner)
  }

  function LeaseEnd(now: int, leaseSeconds: int): int {
    SatAdd(now, Clamp(leaseSeconds, 5, MAX_WAIT))
  }

  function Pow2(e: nat): nat {
    if e == 0 then 1 else 2 * Pow2(e - 1)
  }

  /** The default retry delay: five seconds shifted left once per attempt, at most ten times. */
  function Backoff(attempt: int): int {
    Min(5 * Pow2(Min(Clamp(attempt, 1, 31) - 1, 10)), MAX_WAIT)
  }

  function RetryAt(now: int, attempt: int, retryAfter: Option<int>): int {
    SatAdd(now, Clamp(if retryAfter.Some? then retryAfter.value else Backoff(attempt), 1, MAX_WAIT))
  }

  // ---------- the effect of each statement ----------

  function NewJob(key: WorkKey, watermark: string, createdAt: int, updatedAt: int): Job {
    Job(key, watermark, Pending, None, None, 0, None, None, createdAt, updatedAt)
  }

  function Claimed(j: Job, owner: string, now: int, leaseUntil: int): Job {
    j.(status := Running, owner := Some(owner), leaseUntil := Some(leaseUntil), attempt := j.attempt + 1, updatedAt := now)
  }

  function Completed(j: Job, output: Option<string>, now: int): Job {
    j.(status := Succeeded, owner := None, leaseUntil := None, nextRetryAt := None, outputDigest := output, updatedAt := now)
  }

  function Postponed(j: Job, retryAt: int, now: int): Job {
    j.(status := Retry, owner := None, leaseUntil := None, nextRetryAt := Some(retryAt), updatedAt := now)
  }

  function Abandoned(j: Job, now: int): Job {
    j.(status := Failed, owner := None, leaseUntil := None, nextRetryAt := None, updatedAt := now)
  }

  function CleanedUp(q: Queue, now: int): Queue {
    map id | id in q && !(Terminal(q[id]) && q[id].updatedAt < now - CLEANUP_AGE) :: q[id]
  }

  predicate KeyTaken(q: Queue, key: WorkKey) {
    exists id :: id in q && q[id].key == key
  }

  // ---------- the backoff law ----------

  lemma {:induction false} Pow2Monotone(a: nat, b: nat)
    requires a <= b
    ensures 1 <= Pow2(a) <= Pow2(b)
  {
    if a < b {
      Pow2Monotone(a, b - 1);
    } else if a > 0 {
      Pow2Monotone(a - 1, b - 1);
    }
  }

  lemma BackoffMonotone(a: int, b: int)
    requires a <= b
    ensures 5 <= Backoff(a) <= Backoff(b) <= MAX_WAIT
  {
    Pow2Monotone(Min(Clamp(a, 1, 31) - 1, 10), Min(Clamp(b, 1, 31) - 1, 10));
  }

  /** The two clamps on the exponent are never visible: from the first attempt on the delay simply
      doubles until it reaches an hour. */
  lemma BackoffDoubles(attempt: int)
    requires attempt >= 1
    ensures Backoff(attempt) == Min(5 * Pow2(attempt - 1), MAX_WAIT)
  {
    if attempt > 11 {
      Pow2Monotone(10, attempt - 1);
      assert Pow2(10) == 1024;
    }
  }

  // ---------- row invariants ----------

  /** Every wait a live job is put in ends at most an hour after its last update. */
  predicate JobOk(j: Job) {
    && (j.status.Pending? ==> j.attempt == 0)
    && (j.status.Running? ==> (j.owner.Some? && j.leaseUntil.Some? && j.leaseUntil.value <= j.updatedAt + MAX_WAIT && j.attempt > 0))
    && (!j.status.Running? ==> j.owner.None?)
    && (j.status.Retry? ==> (j.nextRetryAt.Some? && j.nextRetryAt.value <= j.updatedAt + MAX_WAIT))
  }

  /** No live job is stuck. */
  lemma LiveJobBecomesEligible(j: Job, now: int)
    requires JobOk(j) && !Terminal(j) && now >= j.updatedAt + MAX_WAIT
    ensures Eligible(j, now)
  {
  }

  // ---------- the order of claims ----------

  /** ORDER BY created_at ASC, id ASC. */
  predicate Before(q: Queue, a: JobId, b: JobId)
    requires a in q && b in q
  {
    q[a].createdAt < q[b].createdAt || (q[a].createdAt == q[b].createdAt && StrLe(a, b))
  }

  lemma BeforeTransitive(q: Queue, a: JobId, b: JobId, c: JobId)
    requires a in q && b in q && c in q && Before(q, a, b) && Before(q, b, c)
    ensures Before(q, a, c)
  {
    if q[a].createdAt == q[c].createdAt {
      StrLeTransitive(a, b, c);
    }
  }

  predicate Candidate(q: Queue, phase: string, now: int, id: JobId) {
    id in q && q[id].key.phase == phase && Eligible(q[id], now)
  }

  /** The row the select returns: the first candidate, or nothing exactly when there is none. */
  ghost predicate IsSelection(q: Queue, phase: string, now: int, pick: Option<JobId>) {
    match pick
    case None => forall id :: !Candidate(q, phase, now, id)
    case Some(first) =>
      && Candidate(q, phase, now, first)
      && forall id :: Candidate(q, phase, now, id) ==> Before(q, first, id)
  }

  lemma SelectionUnique(q: Queue, phase: string, now: int, a: Option<JobId>, b: Option<JobId>)
    requires IsSelection(q, phase, now, a) && IsSelection(q, phase, now, b)
    ensures a == b
  {
    if a.Some? {
      assert b.Some?;
      StrLeAntisymmetric(a.value, b.value);
    }
  }

  /** The scan behind `SELECT ... ORDER BY ... LIMIT 1`. */
  method SelectFirst(q: Queue, phase: string, now: int) returns (pick: Option<JobId>)
    ensures IsSelection(q, phase, now, pick)
  {
    pick := None;
    var rest := q.Keys;
    while rest != {}
      invariant rest <= q.Keys
      invariant pick.Some? ==> Candidate(q, phase, now, pick.value)
      invariant forall id :: Candidate(q, phase, now, id) && id !in rest ==> pick.Some? && Before(q, pick.value, id)
      decreases |rest|
    {
      var id :| id in rest;
      if Candidate(q, phase, now, id) {
        StrLeTotal(id, id);
        if pick.None? {
          pick := Some(id);
        } else {
          StrLeTotal(id, pick.value);
          if Before(q, id, pick.value) {
            forall other | Candidate(q, phase, now, other) && other !in rest
              ensures Before(q, id, other)
            {
              BeforeTransitive(q, id, pick.value, other);
            }
            pick := Some(id);
          }
        }
      }
      rest := rest - {id};
    }
  }

  // ---------- the table, updated in place ----------

  datatype EnqueueError = InvalidIdentity | InvalidStatus | IdTaken

  predicate IsStatus(text: string) {
    text in ["PENDING", "RUNNING", "SUCCEEDED", "FAILED", "RETRY"]
  }

  predicate Identified(id: JobId, key: WorkKey) {
    Trim(id) != [] && Trim(key.phase) != [] && Trim(key.sourceId) != [] && Trim(key.sourceRevision) != [] && Trim(key.inputDigest) != []
  }

  class JobQueue {
    var jobs: Queue

    constructor ()
      ensures jobs == map[]
    {
      jobs := map[];
    }

    /** `INSERT ... ON CONFLICT(phase, source, revision, digest) DO NOTHING`, then the row with that
        key.  A blank identity, an unknown status text or an identifier clash is an error and inserts nothing;
        the status itself is not used. */
    method Enqueue(id: JobId, key: WorkKey, watermark: string, status: string, createdAt: int, updatedAt: int)
        returns (stored: Result<JobId, EnqueueError>)
      modifies this
      ensures stored == Err(InvalidIdentity) <==> !Identified(id, key)
      ensures stored == Err(InvalidStatus) <==> Identified(id, key) && !IsStatus(status)
      ensures stored == Err(IdTaken) <==> Identified(id, key) && IsStatus(status) && !KeyTaken(old(jobs), key) && id in old(jobs)
      ensures stored.Ok? && KeyTaken(old(jobs), key) ==>
                jobs == old(jobs) && stored.value in jobs && jobs[stored.value].key == key
      ensures stored.Ok? && !KeyTaken(old(jobs), key) ==>
                stored.value == id && jobs == old(jobs)[id := NewJob(key, watermark, createdAt, updatedAt)]
      ensures stored.Err? ==> jobs == old(jobs)
    {
      if !Identified(id, key) {
        return Err(InvalidIdentity);
      }
      if !IsStatus(status) {
        return Err(InvalidStatus);
      }
      var found := FindKey(jobs, key);
      match found
      case Some(known) => return Ok(known);
      case None =>
        if id in jobs {
          return Err(IdTaken);
        }
        jobs := jobs[id := NewJob(key, watermark, createdAt, updatedAt)];
        return Ok(id);
    }

    /** A claim with no other process between its select and its guarded update: it takes the first
        eligible job, or none exactly when no job is eligible. */
    method Claim(phase: string, owner: string, leaseSeconds: int, now: int) returns (r: Result<Option<JobId>, ()>)
      modifies this
      ensures r.Err? <==> Trim(owner) == [] || Trim(phase) == []
      ensures r.Ok? ==> IsSelection(old(jobs), Trim(phase), now, r.value)
      ensures jobs == if r.Ok? && r.value.Some?
                      then old(jobs)[r.value.value := Claimed(old(jobs)[r.value.value], Trim(owner), now, LeaseEnd(now, leaseSeconds))]
                      else old(jobs)
    {
      var trimmed, wanted := Trim(owner), Trim(phase);
      if trimmed == [] || wanted == [] {
        return Err(());
      }
      var leaseUntil := LeaseEnd(now, leaseSeconds);
      var pick := SelectFirst(jobs, wanted, now);
      if pick.None? {
        return Ok(None);
      }
      var won := ClaimUpdate(pick.value, trimmed, now, leaseUntil);
      return Ok(if won then pick else None);
    }

    /** The guarded update: it re-checks eligibility and nothing else. */
    method ClaimUpdate(id: JobId, owner: string, now: int, leaseUntil: int) returns (won: bool)
      modifies this
      ensures won <==> id in old(jobs) && Eligible(old(jobs)[id], now)
      ensures jobs == if won then old(jobs)[id := Claimed(old(jobs)[id], owner, now, leaseUntil)] else old(jobs)
    {
      won := id in jobs && Eligible(jobs[id], now);
      if won {
        var row := jobs[id];
        jobs := jobs[id := row.(status := Running, owner := Some(owner), leaseUntil := Some(leaseUntil),
                                attempt := row.attempt + 1, updatedAt := now)];
      }
    }

    method Complete(id: JobId, owner: string, output: Option<string>, now: int) returns (changed: bool)
      modifies this
      ensures changed <==> HeldBy(old(jobs), id, owner)
      ensures jobs == if changed then old(jobs)[id := Completed(old(jobs)[id], output, now)] else old(jobs)
    {
      changed := id in jobs && jobs[id].status.Running? && jobs[id].owner == Some(owner);
      if changed {
        jobs := jobs[id := jobs[id].(status := Succeeded, owner := None, leaseUntil := None, nextRetryAt := None,
                                     outputDigest := output, updatedAt := now)];
      }
    }

    /** A retryable failure: the delay is computed from the attempt read first. */
    method Fail(id: JobId, owner: string, retryAfter: Option<int>, now: int) returns (changed: bool)
      modifies this
      ensures changed <==> HeldBy(old(jobs), id, owner)
      ensures jobs == if changed then old(jobs)[id := Postponed(old(jobs)[id], RetryAt(now, old(jobs)[id].attempt, retryAfter), now)]
                      else old(jobs)
    {
      if !(id in jobs && jobs[id].status.Running? && jobs[id].owner == Some(owner)) {
        return false;
      }
      var boundedAttempt := Clamp(jobs[id].attempt, 1, 31);
      var delay: int;
      match retryAfter {
        case Some(seconds) => delay := seconds;
        case None =>
          var exponent := Min(boundedAttempt - 1, 10);
          delay := Min(5 * Pow2(exponent), 3600);
      }
      var retryAt := SatAdd(now, Clamp(delay, 1, 3600));
      changed := FailUpdate(id, owner, retryAt, now);
    }

    method FailUpdate(id: JobId, owner: string, retryAt: int, now: int) returns (changed: bool)
      modifies this
      ensures changed <==> HeldBy(old(jobs), id, owner)
      ensures jobs == if changed then old(jobs)[id := Postponed(old(jobs)[id], retryAt, now)] else old(jobs)
    {
      changed := id in jobs && jobs[id].status.Running? && jobs[id].owner == Some(owner);
      if changed {
        jobs := jobs[id := jobs[id].(status := Retry, owner := None, leaseUntil := None, nextRetryAt := Some(retryAt),
                                     updatedAt := now)];
      }
    }

    method TerminalFailure(id: JobId, owner: string, now: int) returns (changed: bool)
      modifies this
      ensures changed <==> HeldBy(old(jobs), id, owner)
      ensures jobs == if changed then old(jobs)[id := Abandoned(old(jobs)[id], now)] else old(jobs)
    {
      changed := id in jobs && jobs[id].status.Running? && jobs[id].owner == Some(owner);
      if changed {
        jobs := jobs[id := jobs[id].(status := Failed, owner := None, leaseUntil := None, nextRetryAt := None,
                                     updatedAt := now)];
      }
    }

    method Cleanup(now: int)
      modifies this
      ensures jobs == CleanedUp(old(jobs), now)
    {
      var cutoff := now - CLEANUP_AGE;
      jobs := map id | id in jobs && !((jobs[id].status.Succeeded? || jobs[id].status.Failed?) && jobs[id].updatedAt < cutoff)
        :: jobs[id];
    }
  }

  method FindKey(q: Queue, key: WorkKey) returns (found: Option<JobId>)
    ensures found.Some? ==> found.value in q && q[found.value].key == key
    ensures found.None? ==> !KeyTaken(q, key)
  {
    var rest := q.Keys;
    while rest != {}
      invariant rest <= q.Keys
      invariant forall id :: id in q && q[id].key == key ==> id in rest
      decreases |rest|
    {
      var id :| id in rest;
      if q[id].key == key {
        return Some(id);
      }
      rest := rest - {id};
    }
    return None;
  }

  /** A claim trims its owner and a completion does not, so an owner who claims under a name with outer
      white space cannot complete the job under that same name. */
  lemma PaddedOwnerCannotComplete(q: Queue, id: JobId, owner: string, now: int, leaseUntil: int)
    requires id in q
    ensures HeldBy(q[id := Claimed(q[id], Trim(owner), now, leaseUntil)], id, owner) <==> Trim(owner) == owner
  {
  }
}
