# Verification of the durable memory service

A Dafny model of the memory service: the daemon's request receipts, the SQLite tables of memories,
jobs, concepts, receipts and traces with the triggers that keep derived data, and the algorithms of
the core crate (canonical text, baselines, snippets, rank fusion, duplicate resolution).
`dafny verify dfyconfig.toml` checks it.

A table is a map updated in place by the methods of a class; a transaction is one atomic step, which
the single writer connection and immediate transactions justify. Each method is tied to a function of
the old state, and the theorems are about all runs of those functions.

| file | models |
|---|---|
| Requests, RequestProtocol | receipt table; workers, crashes and evictions interleaved over it |
| Jobs, JobRuns | leased job queue; several processes with split claims and stale clocks |
| Records, MemoryTables, MemoryStores | canonical rows; triggers and derived data; the store's operations |
| Joins, Etags, EtagScope | repeated writes; revision counters and etags over histories; what an etag does not cover |
| Duplicates | the schema 9 duplicate resolution and the maintenance pass |
| Packing, Baseline | greedy packing; the baseline builder |
| Reachability, AscendingLists, Expansions, Concepts | bounded graph expansion |
| Text, Utf8, Snippets, SnippetBudgets, Pages | normalisation, token estimate, byte windows, when a snippet meets its budget, budgeted search and get |
| Fusion, Buckets | hybrid rank fusion; probed vector buckets |
| Consumption, Reinforcements | consumption receipts; their effect on the memories |
| Traces, TraceRuns | the buffered recall traces; several threads over one buffer |
| Admissions, JobClaims, RowEffects, CanonicalForms | what one step, one row or one canonical form is, in the values of its columns |
| ExpansionSeeds, BaselineOrder, WhoWins | which seed, which row and which hit comes first, and which duplicate stays |
| TextShapes, SnippetShapes, ReceiptShares | what is kept of a text, a snippet and a batch of receipts |
| Basics, Order | options and bytes; identifier order, sorting |

## Assumptions

- The clock of one machine is nondecreasing; a process may use a reading long after it was taken.
- SHA-256 is injective (`Text.ContentHash`), and a reply's JSON is the byte sequence stored.
- The Unicode tables for `is_alphanumeric` and `to_lowercase`, and the test whether a text is a JSON object, are
  a parameter (`Text.LibraryRules`). Theorems about normalisation require `Lawful`: folding is stable on the word
  characters it produces, the space stays a space, no alphanumeric is white space.
- Importance, confidence and scores are reals; integers that the source saturates at 64 bits are saturated
  only where a caller can reach the limit.
- Generated identifiers are new to their table.
- The reads of one graph expansion, which the source makes one query at a time outside a transaction, see one
  state of the concept tables.

## Where the code does less than a reader may expect

- A receipt is evicted seven days after admission, not after completion, although COMPATIBILITY.md:28-29 speaks
  of completed receipts expiring: a reply is kept exactly while nobody is admitted later than that (`RetainedIff`),
  and can vanish with the next step (`ReplyMayVanishAtOnce`).
- An admission refused for capacity rolls back the eviction it had just made (`BeginRequest`).
- A job is fenced by owner name alone: a completion after the lease ended, or by another holder of the same
  name, is accepted (`LateCompletionAccepted`), and a name with outer white space cannot complete what it
  claimed (`PaddedOwnerCannotComplete`).
- The baseline reads rows and revision separately (`WriteBetweenReadsGoesUnseen`). Its etag covers neither the
  clock, which matters exactly when a readable row begins or ends in between (`SteadyIff`, `ClockGoesUnseen`), nor
  the token limit, which matters exactly when it clamps to another budget (`TokenLimitGoesUnseen`). It names its
  reader exactly when no name of the reader holds the separator (`NamesReaderIff`).
- Closing a row that starts in the future is refused by a trigger, so a status change, a workspace archive, the
  maintenance pass and the schema 9 migration fail whole on such a row, and exactly then (`SetStatus`,
  `ArchiveWorkspace`, `SomeStopsIff`, `RolledBackIff`).
- The maintenance pass keeps the first row's own sensitivity; only the migration takes the strictest of the group.
- The character budget of the baseline can never end its loop (`PackEntries`).
- A snippet is shrunk to its budget only when a query term matches. A text short in bytes is returned whole, and a
  long one without a match as a gist of fixed length: then the budget is met exactly when that text or gist meets it
  (`BudgetMetIff`), for gists always with ASCII text or at most 21 tokens (`AsciiGistMeetsBudget`,
  `GistsMeetBudgetIff`), for short texts under no budget (`ShortTextMayMissBudget`); a miss stays within three times
  the budget (`OvershootBounded`).
- The trace queue exceeds its limit exactly when a batch is put back without room (`WithinLimitIff`), without bound
  (`QueueUnbounded`), and a flush whose transaction does not begin or commit loses its batch (`SurvivesIff`).
- Recording a batch of consumption receipts twice changes no receipt but counts the accesses twice
  (`ReplayCountsTwice`).

## Model

| member | source | states |
|---|---|---|
| RequestProtocol.AtMostOnce | COMPATIBILITY.md:24-30 | In every interleaving of workers, crashes and evictions, two entries of the mutation handler for one request ID have a deletion of its receipt between them, and that receipt was completed and admitted more than seven days before |
| RequestProtocol.ReplayTheorem | apps/kitt-memoryd/src/main.rs:1097-1124 | After a delivered reply, until the receipt is deleted, every later arrival with the same payload gets exactly that reply and every arrival with another payload a conflict |
| RequestProtocol.OrphanTheorem | apps/kitt-memoryd/src/main.rs:1103-1109 | A pending receipt without a worker stays as it is for ever: its mutation never runs again, it is never evicted, every later arrival hears outcome-unknown or a conflict |
| RequestProtocol.CrashOrphans | crates/kitt-memory-sqlite/src/lib.rs:105-149 | A crash that takes a worker from inside the handler leaves such an orphan |
| RequestProtocol.FinishHitsOneRow | crates/kitt-memory-sqlite/src/lib.rs:163-176 | In every run the guarded UPDATE of a delivered reply changes exactly one row, which then holds exactly that reply |
| RequestProtocol.EvictionCondition | crates/kitt-memory-sqlite/src/lib.rs:127-131 | A step deletes a receipt exactly when it admits another request and finds that receipt completed and admitted more than seven days before |
| RequestProtocol.RetainedIff | crates/kitt-memory-sqlite/src/lib.rs:127-149 | A stored reply is kept from the step that delivered it to a later state exactly when no request in between is admitted more than seven days after its own admission |
| RequestProtocol.CapacityTheorem | crates/kitt-memory-sqlite/src/lib.rs:132-141 | Every reachable table has at most 10000 rows and 64 MiB of reservations and replies; at most 64 receipts are pending |
| RequestProtocol.NextKeepsInv | crates/kitt-memory-sqlite/src/lib.rs:106-176 | Every worker between admission and finish owns, alone, a pending receipt with its own digest, and the limits hold, after every step |
| RequestProtocol.ReplyMayVanishAtOnce | crates/kitt-memory-sqlite/src/lib.rs:127-131 | In a run from the empty table a reply stored at one clock reading is deleted by the next step at the same reading, exactly when that reading is more than seven days after admission |
| RequestProtocol.Daemon.Arrive | apps/kitt-memoryd/src/main.rs:1093-1116 | The admission part of `handle` is one step of the protocol |
| RequestProtocol.Daemon.RunHandler | apps/kitt-memoryd/src/main.rs:1117 | The handler call is one step that leaves the table alone |
| RequestProtocol.Daemon.FinishHandler | apps/kitt-memoryd/src/main.rs:1118-1122 | The finishing part is one step; the caller hears outcome-unknown exactly when the reply is too long or the write fails |
| RequestProtocol.Daemon.Crash | COMPATIBILITY.md:27-28 | Losing workers and keeping the table is one step |
| Requests.ReceiptTable.BeginRequest | crates/kitt-memory-sqlite/src/lib.rs:106-149 | Digest check, replay, eviction, capacity test and insert; a capacity error rolls the eviction back |
| Requests.ReceiptTable.FinishRequest | crates/kitt-memory-sqlite/src/lib.rs:163-176 | A reply over the frame limit is refused; otherwise the row is updated if still pending and nothing else changes |
| Requests.ReceiptTable.RequestStatus | crates/kitt-memory-sqlite/src/lib.rs:151-161 | Absent, or the stored reply with the empty text standing for pending |
| Requests.CapacityQuery | crates/kitt-memory-sqlite/src/lib.rs:132-135 | Adding row by row in any order gives the sum of 1 MiB per pending receipt and the length of each reply |
| Requests.PendingBound | crates/kitt-memory-sqlite/src/lib.rs:136-141 | A table within 64 MiB has at most 64 pending receipts |
| JobRuns.LeaseExclusion | crates/kitt-memory-sqlite/src/evidence.rs:151-186 | With several processes, split claims and stale clocks: between two successful claims of one job either the first holder released it or the clock reached the end of the first lease |
| JobRuns.ReclaimedOnlyAfterRetryOrExpiry | crates/kitt-memory-sqlite/src/evidence.rs:151-254 | While its row exists a job is claimed again only if the clock reached the end of the first lease or the first holder itself reported a retryable failure: finished work is never handed out again |
| JobRuns.Fencing | crates/kitt-memory-sqlite/src/evidence.rs:206-268 | Completion, retry and terminal failure are accepted only from the owner named by the latest successful claim, which has not released the job since |
| JobRuns.LateCompletionAccepted | crates/kitt-memory-sqlite/src/evidence.rs:206-215 | For all times and lease lengths there is a run in which two processes of one owner name claim a job in turn, both leases end, and a completion under that name is accepted |
| JobRuns.AttemptCountsClaims | crates/kitt-memory-sqlite/src/evidence.rs:167-186 | In every run `attempt` is the number of successful claims since the row was inserted |
| JobRuns.TerminalStays | crates/kitt-memory-sqlite/src/admin.rs:181-186 | A finished or abandoned job is the same row at every later time until a cleanup deletes it thirty days after its last update |
| JobRuns.LiveJobsProgress | crates/kitt-memory-sqlite/src/evidence.rs:149-169 | A live job is never deleted, and once the clock reaches its last update plus 3600 s it is eligible |
| JobRuns.NextKeepsInv | crates/kitt-memory-sqlite/src/evidence.rs:136-268 | Every step, including the second halves of split claims and failures, keeps the row invariants and the unique work key |
| JobRuns.SplitClaimIsClaim | crates/kitt-memory-sqlite/src/evidence.rs:151-186 | Without another process in between, select and guarded update make the one-step claim |
| Jobs.JobQueue.Enqueue | crates/kitt-memory-sqlite/src/evidence.rs:97-134 | A blank identity, an unknown status text or a taken id is an error and inserts nothing; a known work key changes nothing and returns its row; a new one inserts a pending row |
| Jobs.JobQueue.Claim | crates/kitt-memory-sqlite/src/evidence.rs:136-197 | Takes the first eligible job of the phase by creation time and id, or none exactly when none is eligible; the owner is trimmed, the lease clamped to 5..3600 s |
| Jobs.JobQueue.ClaimUpdate | crates/kitt-memory-sqlite/src/evidence.rs:170-186 | The guarded UPDATE wins exactly when the job is still eligible |
| Jobs.JobQueue.Complete | crates/kitt-memory-sqlite/src/evidence.rs:199-216 | Accepted exactly from the recorded running owner; clears the lease and stores the digest |
| Jobs.JobQueue.Fail | crates/kitt-memory-sqlite/src/evidence.rs:218-254 | Accepted exactly from the recorded running owner; the next try is after the given or the backoff delay, clamped to 1..3600 s |
| Jobs.JobQueue.FailUpdate | crates/kitt-memory-sqlite/src/evidence.rs:244-253 | The guarded UPDATE of a retryable failure |
| Jobs.JobQueue.TerminalFailure | crates/kitt-memory-sqlite/src/evidence.rs:256-268 | Accepted exactly from the recorded running owner |
| Jobs.JobQueue.Cleanup | crates/kitt-memory-sqlite/src/admin.rs:172-186 | Deletes exactly the terminal jobs last updated more than thirty days ago |
| Jobs.SelectFirst | crates/kitt-memory-sqlite/src/evidence.rs:152-166 | The scan returns the least candidate of the ORDER BY, or none exactly when there is none |
| Jobs.SelectionUnique | crates/kitt-memory-sqlite/src/evidence.rs:152-166 | Only one row can be that selection |
| Jobs.BackoffMonotone | crates/kitt-memory-sqlite/src/evidence.rs:238-243 | The retry delay is nondecreasing in the attempt and within 5..3600 s |
| Jobs.BackoffDoubles | crates/kitt-memory-sqlite/src/evidence.rs:238-243 | From the first attempt on the delay doubles until it reaches an hour: the two clamps on the exponent never show |
| Jobs.LiveJobBecomesEligible | crates/kitt-memory-sqlite/src/evidence.rs:149-169 | A live row is eligible an hour after its last update |
| Jobs.PaddedOwnerCannotComplete | crates/kitt-memory-sqlite/src/evidence.rs:142-206 | A claim trims its owner and a completion does not: an owner given with outer white space cannot complete under that name |
| MemoryTables.InsertKeeps | crates/kitt-memory-sqlite/src/lib.rs:1363-1382 | An insert with its triggers keeps: one full-text entry per row with its current text, embeddings only for current content, unique active identities, canonical rows |
| MemoryTables.UpdateKeeps | crates/kitt-memory-sqlite/src/lib.rs:1366-1394 | So does an update of any set of columns, and its counters only grow |
| MemoryTables.DeleteKeeps | crates/kitt-memory-sqlite/src/lib.rs:1363-1413 | So does a delete |
| MemoryTables.UpdateCoherent | crates/kitt-memory-sqlite/src/lib.rs:1366-1417 | After an update the full-text copy and the embeddings agree with the rows again |
| MemoryTables.StepTransitive | crates/kitt-memory-sqlite/src/lib.rs:1377-1394 | What one statement promises (no counter goes back, a standing counter vouches for its rows, no sensitivity drops) holds across a transaction |
| MemoryStores.MemoryStore.InsertRow | crates/kitt-memory-sqlite/src/lib.rs:1248-1252 | A single-row INSERT succeeds exactly when triggers and unique index allow it, and then has all trigger effects |
| MemoryStores.MemoryStore.UpdateRow | crates/kitt-memory-sqlite/src/lib.rs:1248-1254 | A single-row UPDATE, likewise |
| MemoryStores.MemoryStore.DeleteRow | crates/kitt-memory-sqlite/src/lib.rs:1363-1413 | A single-row DELETE with its cascades |
| MemoryStores.MemoryStore.Remember | crates/kitt-memory-sqlite/src/lib.rs:382-429 | Invalid input and ephemeral memories store nothing; content already active under the identity is merged into its row; anything else is a new row; the write never hits the index |
| MemoryStores.MemoryStore.UpsertRecord | crates/kitt-memory-sqlite/src/lib.rs:431-448 | Refused exactly when another active row has the identity; otherwise the row is replaced, keeping creation time and the stricter sensitivity |
| MemoryStores.MemoryStore.SetStatus | crates/kitt-memory-sqlite/src/lib.rs:556-578 | Closing a row that starts in the future aborts and changes nothing; other statuses apply to active rows only |
| MemoryStores.MemoryStore.SetPinned | crates/kitt-memory-sqlite/src/admin.rs:82-91 | Changes the pin and the update time of exactly that row |
| MemoryStores.MemoryStore.Forget | crates/kitt-memory-sqlite/src/lib.rs:548-554 | Removes the row, its copy and all its embeddings |
| MemoryStores.MemoryStore.Touch | crates/kitt-memory-sqlite/src/semantic.rs:111-129 | Changes access telemetry of the first 128 ids and nothing else: no counter, no full-text entry, no embedding |
| MemoryStores.MemoryStore.ArchiveWorkspace | crates/kitt-memory-sqlite/src/admin.rs:97-114 | Archives every active row of the workspace, or none if one of them starts in the future |
| MemoryStores.MemoryStore.PruneExpired | crates/kitt-memory-sqlite/src/lib.rs:580-587 | Deletes exactly the expired active rows |
| MemoryStores.MemoryStore.CommitDream | crates/kitt-memory-sqlite/src/admin.rs:137-167 | A batch of upserts with its sources lands whole or leaves the table as it was |
| MemoryStores.MemoryStore.UpsertEmbedding | crates/kitt-memory-sqlite/src/vector.rs:73-110 | Refuses a bad model name or dimension; stores exactly when the memory is active, not ephemeral and still has the expected content hash, so a vector of an older read is never attached |
| MemoryStores.MemoryStore.ClearEmbeddings | crates/kitt-memory-sqlite/src/vector.rs:155-162 | Refuses an empty or long model name; otherwise drops the vectors of that model and nothing else, and counts them |
| Records.CanonicalRowOk | crates/kitt-memory-core/src/lib.rs:252-299 | Canonical form satisfies every trigger and ties the row to the counter its readers sum |
| Records.CanonicalIdempotent | crates/kitt-memory-core/src/lib.rs:252-299 | Canonicalising again changes nothing |
| Records.ClosingNeedsPastStart | crates/kitt-memory-sqlite/src/lib.rs:1253 | Ending a validity now keeps the interval valid exactly when it has already begun |
| Joins.OrderOfWritesIrrelevant | crates/kitt-memory-sqlite/src/lib.rs:410-418 | For repeated `remember` of one identity the stored sensitivity, pin, importance, confidence and end depend on the set of writes alone: not on order, repetition or times |
| Joins.BoundsEveryWrite | crates/kitt-memory-sqlite/src/lib.rs:410-418 | The stored row demands at least what each write did |
| Joins.LeastBound | crates/kitt-memory-sqlite/src/lib.rs:410-418 | And no more than any row that does |
| Joins.StoredRowIsJoin | crates/kitt-memory-sqlite/src/lib.rs:410-418 | Along any history of the table, whatever other operations run in between, the active row of an identity is the join of everything remembered under it |
| Joins.HistoriesAgree | crates/kitt-memory-sqlite/src/lib.rs:410-418 | Two histories that remember the same contents, in any order and among any other operations, store the same five columns |
| Joins.RememberIsWrite | crates/kitt-memory-sqlite/src/lib.rs:382-429 | Every successful `remember` is such a write |
| Etags.EtagSoundness | crates/kitt-memory-sqlite/src/lib.rs:462-488 | For one query and evaluation time, at most 512 readable rows and no counted write between the two reads of either answer, equal etags come with equal baselines, over every history |
| Etags.RevisionVouches | crates/kitt-memory-sqlite/src/lib.rs:274-289 | Equal revision sums at two points of a history mean the same selected rows up to access telemetry |
| Etags.StandingCounters | crates/kitt-memory-sqlite/src/lib.rs:274-289 | An equal sum of counters that never go back means each of them stood still, and so did the rows it counts |
| Etags.HistoryTracks | crates/kitt-memory-sqlite/src/lib.rs:1377-1399 | Along any history counters never go back, and one that stands still has the same rows up to telemetry |
| Etags.SensitivityNeverDrops | crates/kitt-memory-sqlite/src/lib.rs:1002-1003 | While a row exists its sensitivity rank never decreases and its creation time never changes |
| Etags.SelectedIsAllowed | crates/kitt-memory-sqlite/src/lib.rs:465-470 | On stored rows the SQL filter and the in-memory filter select the same |
| Etags.SelectedIsCounted | crates/kitt-memory-sqlite/src/lib.rs:274-281 | Every row a query can read is tied to a counter it sums |
| Etags.BaselineRevision | crates/kitt-memory-sqlite/src/lib.rs:274-289 | The SUM over matching rows is the sum over the query's four possible counters |
| Etags.EtagIffRevision | crates/kitt-memory-sqlite/src/lib.rs:479-487 | For one query an etag names exactly one revision |
| Etags.NamesReaderIff | crates/kitt-memory-sqlite/src/lib.rs:479-487 | An etag names namespace, workspace, key, permissions and revision against all other queries exactly when none of the query's own names holds the separator |
| Etags.ReadersMayShareEtag | crates/kitt-memory-sqlite/src/lib.rs:479-487 | Two readers that share an etag can read through disjoint counters |
| Etags.WriteBetweenReadsGoesUnseen | crates/kitt-memory-sqlite/src/lib.rs:465-477 | A row inserted between the two reads is missing from a baseline whose etag already counts it |
| EtagScope.SteadyIff | crates/kitt-memory-sqlite/src/lib.rs:463-470 | Two evaluation times read the same rows exactly when no row readable but for its interval has a bound between them that matters |
| EtagScope.EtagSoundnessAcross | crates/kitt-memory-sqlite/src/lib.rs:462-488 | Then equal etags come with equal baselines across the two times as well |
| EtagScope.ClockGoesUnseen | crates/kitt-memory-sqlite/src/lib.rs:463-487 | On a table of one readable row, answers at two times carry one etag and their baselines differ exactly when the interval begins or ends between the times |
| EtagScope.TokenLimitGoesUnseen | crates/kitt-memory-sqlite/src/lib.rs:476-487 | Answers to one query under two token limits carry one etag, and agree exactly when the limits clamp to the same budget |
| Etags.SameBaseline | crates/kitt-memory-core/src/baseline.rs:116-194 | Equal selections give equal baselines whatever order the rows are read in |
| Baseline.BuildMemoryBaseline | crates/kitt-memory-core/src/baseline.rs:116-194 | The loops compute the greedy selection of the ranked eligible rows under the token budget |
| Baseline.PackEntries | crates/kitt-memory-core/src/baseline.rs:146-173 | The packing loop is the greedy selection, and its character-budget exit is never taken |
| Baseline.BaselineAccounts | crates/kitt-memory-core/src/baseline.rs:175-190 | Reported tokens are within the budget; entries plus dropped are exactly the eligible rows |
| Baseline.LeftOutDidNotFit | crates/kitt-memory-core/src/baseline.rs:156-158 | A candidate is dropped exactly when it did not fit in what remained at its turn |
| Baseline.OrderIrrelevant | crates/kitt-memory-core/src/baseline.rs:125-144 | The baseline is the same for every order in which the rows are read |
| Baseline.AccessIrrelevant | crates/kitt-memory-core/src/baseline.rs:101-114 | It is the same for every change of access count and last access |
| Baseline.SteadyBaseline | crates/kitt-memory-core/src/baseline.rs:119-133 | A baseline of rows allowed at two times is the same at both |
| Baseline.LimitIff | crates/kitt-memory-core/src/baseline.rs:120-123 | Two token limits give the same rows the same baseline exactly when they clamp to the same budget |
| Baseline.LimitDecidesEntry | crates/kitt-memory-core/src/baseline.rs:151-160 | A single eligible row is an entry exactly when its cost under the limit fits it |
| Baseline.EntryCharsPaid | crates/kitt-memory-core/src/baseline.rs:152-173 | Characters of an entry plus eight are at most four per token charged |
| Packing.GreedyFits | crates/kitt-memory-core/src/baseline.rs:151-160 | A first-fit pass admits an item exactly when it fits what is left, and stays within the budget at every prefix |
| Packing.GreedyIsPreferred | crates/kitt-memory-core/src/baseline.rs:151-173 | Among all selections within the budget the greedy one is first in order of preference |
| Concepts.ConceptStore.ExpandConcepts | crates/kitt-memory-sqlite/src/lib.rs:884-977 | The level loops with visited set and limit return a prefix of the full expansion |
| Expansions.ExpansionMembers | crates/kitt-memory-sqlite/src/lib.rs:884-977 | Exactly the in-scope concepts within the hop bound of the first sixteen non-blank seeds, over undirected links |
| Expansions.ExpansionOrdered | crates/kitt-memory-sqlite/src/lib.rs:921-965 | Each once, in nondecreasing distance, and in ascending id within every layer after the seeds |
| Reachability.ReachIsReachability | crates/kitt-memory-sqlite/src/lib.rs:921-965 | Level-by-level sets are reachability by a walk of that length |
| Concepts.ConceptStore.LinkConcepts | crates/kitt-memory-sqlite/src/lib.rs:804-854 | Links join two different existing concepts of the scope; the weight is clamped; a known pair keeps its row |
| Concepts.ConceptStore.UpsertConcept | crates/kitt-memory-sqlite/src/lib.rs:703-767 | A name known in its scope keeps its row and id and is revised; a new name gets the incoming row; names stay unique in their scope |
| Concepts.RevisedAccumulates | crates/kitt-memory-sqlite/src/lib.rs:719-729 | A revision keeps identity and creation time; confidence and sensitivity never drop; labels and sources are exactly the non-blank ones of both |
| Concepts.MergedStrings | crates/kitt-memory-sqlite/src/lib.rs:990-997 | Both lists into one ascending list without duplicates or blanks |
| Concepts.NextFrontier | crates/kitt-memory-sqlite/src/lib.rs:921-945 | One query over the links of a frontier gives the neighbours in ascending order |
| Text.Normalize | crates/kitt-memory-core/src/lib.rs:436-453 | The one-pass loop equals folding, splitting into maximal word runs and joining with single spaces |
| Text.NormalizedStable | crates/kitt-memory-core/src/lib.rs:436-453 | Normalising is idempotent and splitting its output recovers the words |
| Text.HashIffWords | crates/kitt-memory-core/src/lib.rs:294-295 | Two contents share a content hash exactly when their word sequences agree |
| Text.EstimateTokens | crates/kitt-memory-core/src/lib.rs:460-481 | The counting loop computes the estimate |
| Text.TokensBoundChars | crates/kitt-memory-core/src/lib.rs:460-481 | A text has at most four characters per estimated token |
| Text.TrimTrims | crates/kitt-memory-core/src/lib.rs:252-262 | Trimming leaves no outer white space and changes nothing exactly when there is none |
| Utf8.BoundaryIffOffset | apps/kitt-memoryd/src/main.rs:197-204 | The one-byte boundary test of RFC 3629 text finds exactly the places between characters |
| Utf8.TruncateKeepsPrefix | crates/kitt-memory-core/src/lib.rs:484-503 | A text that does not fit becomes a prefix of itself, cut at a sentence end in its second half if there is one, and an ellipsis |
| Snippets.CenteredSnippet | apps/kitt-memoryd/src/main.rs:180-219 | The whole text, a gist, or the shrunk window around the earliest match of any query term |
| Snippets.SnippetIsCentered | apps/kitt-memoryd/src/main.rs:187-218 | With a match in a long text the snippet comes from the window around the earliest match |
| Snippets.CenteredMeetsBudget | apps/kitt-memoryd/src/main.rs:197-218 | That window holds the whole matched character, and the result meets the budget or has at most 32 characters |
| Snippets.WindowBytes | apps/kitt-memoryd/src/main.rs:197-204 | The two boundary loops stop at character boundaries with start before end, nearest to the allowance |
| Snippets.WindowUnique | apps/kitt-memoryd/src/main.rs:197-204 | Only one window satisfies that description |
| Snippets.ShrinkToBudget | apps/kitt-memoryd/src/main.rs:214-217 | The shrink loop ends, within the budget or with at most 32 characters |
| Snippets.MatchPosition | apps/kitt-memoryd/src/main.rs:187-193 | The least of the per-term searches is the earliest match of any term |
| SnippetBudgets.BudgetMetIff | apps/kitt-memoryd/src/main.rs:180-219 | A short text is returned within its budget, or with at most 32 characters, exactly when it is itself; a long one without a match exactly when its gist is; a long one with a match always |
| SnippetBudgets.GistsMeetBudgetIff | apps/kitt-memoryd/src/main.rs:194-196 | All long texts without a match meet the budget exactly for budgets of at most 21 tokens |
| SnippetBudgets.AsciiGistMeetsBudget | apps/kitt-memoryd/src/main.rs:194-196 | The gist of an ASCII text meets every budget |
| SnippetBudgets.ShortTextMayMissBudget | apps/kitt-memoryd/src/main.rs:181-186 | Every budget has a short text, returned whole, that misses it |
| SnippetBudgets.OvershootBounded | apps/kitt-memoryd/src/main.rs:180-219 | On every path a snippet costs at most three times its budget and one token, or 64 tokens |
| SnippetBudgets.RoundsDropSixteen | apps/kitt-memoryd/src/main.rs:214-217 | Each round of the shrink loop drops at least sixteen characters, and none runs on a text that meets the budget |
| Duplicates.ResolveDuplicates | crates/kitt-memory-sqlite/src/lib.rs:1320-1349 | Grouping and the two UPDATEs give every row its resolved form, or roll back exactly when a trigger refuses one |
| Duplicates.GroupResolved | crates/kitt-memory-sqlite/src/lib.rs:1324-1349 | Every active identity keeps exactly its first row by pin, importance, recency and id, with the strictest sensitivity of its group; every other is superseded and names it |
| Duplicates.NothingLost | COMPATIBILITY.md:35-35 | No row is lost, no sensitivity drops, inactive rows are untouched |
| Duplicates.ResolutionUnique | crates/kitt-memory-sqlite/src/lib.rs:1350 | Afterwards the unique index can be created |
| Duplicates.RolledBackIff | crates/kitt-memory-sqlite/src/lib.rs:1345-1349 | On rows satisfying the constraints the migration fails exactly when some loser starts in the future |
| Duplicates.GroupingUnique | crates/kitt-memory-sqlite/src/lib.rs:1324-1343 | Leaders and strictest sensitivities are determined by the table, so the migration has one result |
| Duplicates.NoDuplicatesNoChange | crates/kitt-memory-sqlite/src/lib.rs:1320-1349 | A table without duplicates passes unchanged |
| Duplicates.ConsolidateExactDuplicates | crates/kitt-memory-sqlite/src/lib.rs:589-628 | The keeper map finds every repeat; all are superseded by the first of their identity, or none when a trigger refuses one |
| Duplicates.ConsolidatedUnique | crates/kitt-memory-sqlite/src/lib.rs:589-628 | From any table, afterwards no active row of the workspace has an active twin |
| Duplicates.ConsolidatedKeepsOne | crates/kitt-memory-sqlite/src/lib.rs:589-628 | Every identity keeps its first row unchanged, none of its twins precedes it, and each twin names it |
| Duplicates.SomeStopsIff | crates/kitt-memory-sqlite/src/lib.rs:611-626 | On rows satisfying the constraints the pass is rolled back exactly when some repeat starts in the future |
| Duplicates.NothingToConsolidate | crates/kitt-memory-sqlite/src/lib.rs:571-626 | In a table with unique active identities, which every step of the store keeps, there is no repeat: the pass commits and changes nothing |
| Fusion.SearchHybrid | crates/kitt-memory-sqlite/src/vector.rs:255-282 | No repeated id, at most the limit, the best of the fused ranking; without semantic hits the lexical list |
| Fusion.FuseRanks | crates/kitt-memory-sqlite/src/vector.rs:263-274 | The rank map holds for every record of either list the sum of its reciprocal ranks |
| Fusion.RankingUnique | crates/kitt-memory-sqlite/src/vector.rs:275-276 | The ranking is the same whatever order the hash map yields |
| Fusion.DominantScore | crates/kitt-memory-sqlite/src/vector.rs:263-274 | A record at least as high in both lists and higher in one scores more |
| Fusion.DominanceKept | crates/kitt-memory-sqlite/src/vector.rs:263-276 | A record at least as high in both lists and higher in one is never after the other |
| Buckets.Bucket | crates/kitt-memory-sqlite/src/vector.rs:28-47 | Bit i is set exactly when hyperplane sum i is not negative |
| Buckets.ProbesAreNear | crates/kitt-memory-sqlite/src/vector.rs:173-183 | The nine probed buckets are exactly those differing from the query's in at most one sign |
| Pages.ProgressiveSearch | apps/kitt-memoryd/src/main.rs:476-520 | The hits present the first records in order, each within what the earlier ones left; the loop stops only at a record that cannot be presented; the total is within the budget; more is reported exactly when a record is left or ids were excluded |
| Pages.FullPageUnique | apps/kitt-memoryd/src/main.rs:476-520 | Only one page satisfies that description, so the answer is a function of the question |
| Pages.ProgressiveGet | apps/kitt-memoryd/src/main.rs:621-648 | The records chosen are the greedy selection under the budget, the others are reported as truncated, in order |
| Pages.SelectedOrTruncated | apps/kitt-memoryd/src/main.rs:621-648 | Every record fetched is either selected or reported truncated |
| Traces.TraceBuffer.RecordRecallTrace | crates/kitt-memory-sqlite/src/semantic.rs:451-461 | Recording is one step; a full queue forgets its oldest trace |
| Traces.TraceBuffer.BeginFlush | crates/kitt-memory-sqlite/src/semantic.rs:241-250 | Draining is one step under the lock; an empty queue ends the flush |
| Traces.TraceBuffer.FinishFlush | crates/kitt-memory-sqlite/src/semantic.rs:251-286 | The transaction ends in one of three steps: the batch is stored in order, put back in front, or lost when the transaction does not begin or commit |
| Traces.TraceBuffer.FlushRecallTraces | crates/kitt-memory-sqlite/src/semantic.rs:240-286 | A flush no other thread overlaps stores the queue in order, puts it back as it was, or loses it |
| Traces.PushedAllKeepsNewest | crates/kitt-memory-sqlite/src/semantic.rs:451-461 | The queue always holds the newest traces in order |
| TraceRuns.WithinLimitIff | crates/kitt-memory-sqlite/src/semantic.rs:240-286 | With any number of threads recording and flushing at once, the queue keeps its limit of 4096 throughout a run exactly when every batch put back found room |
| TraceRuns.QueueBounded | crates/kitt-memory-sqlite/src/semantic.rs:240-286 | Each batch put back raises the bound by at most 4096 and nothing else raises it |
| TraceRuns.QueueUnbounded | crates/kitt-memory-sqlite/src/semantic.rs:273-282 | And it does: runs exist whose queue exceeds every bound |
| TraceRuns.SurvivesIff | crates/kitt-memory-sqlite/src/semantic.rs:240-286 | A recorded trace is still queued, drained or stored exactly when no step since dropped it: neither a full queue forgot it nor was its batch in a transaction that did not begin or commit |
| TraceRuns.KeptIff | crates/kitt-memory-sqlite/src/semantic.rs:240-286 | The same for one step |
| TraceRuns.RunKeepsOnce | crates/kitt-memory-sqlite/src/semantic.rs:240-286 | In every run each trace is in one place only |
| Traces.StoredIsLast | crates/kitt-memory-sqlite/src/semantic.rs:255-273 | A stored id has the last trace of the batch that carries it |
| Traces.StoredElsewhere | crates/kitt-memory-sqlite/src/semantic.rs:255-273 | And ids the batch does not carry keep what they had |
| Consumption.ConsumptionLog.RecordConsumptionReceipts | crates/kitt-memory-sqlite/src/evidence.rs:11-62 | Accepted exactly when 1..128 receipts are complete, consistent and of known traces; then each is merged into its row; otherwise none is |
| Consumption.ConsumptionLog.DeleteTraces | crates/kitt-memory-sqlite/src/lib.rs:1194 | Deleting traces deletes exactly their receipts |
| Reinforcements.RecordReceipts | crates/kitt-memory-sqlite/src/evidence.rs:11-62 | The receipts and the access columns of the memories they report as used change together or not at all; no revision counter, full-text entry or embedding moves |
| Reinforcements.ReinforceAll | crates/kitt-memory-sqlite/src/evidence.rs:50-58 | One access update per receipt, at the later of its time and the clock |
| Reinforcements.CountsRise | crates/kitt-memory-sqlite/src/evidence.rs:50-58 | Access counts rise by the number of updates that name the memory and nothing but telemetry changes |
| Consumption.RecordedByShare | crates/kitt-memory-sqlite/src/evidence.rs:23-49 | A batch acts on each row through the merge of its own receipts alone |
| Consumption.ReplayChangesNothing | crates/kitt-memory-sqlite/src/evidence.rs:23-49 | Recording a batch again leaves every receipt as it is |
| Consumption.ShareIsUnion | crates/kitt-memory-sqlite/src/evidence.rs:30-33 | The flags of a row are the union of what its receipts said |
| Consumption.ShareIsLatest | crates/kitt-memory-sqlite/src/evidence.rs:35 | Its time is the latest of them |
| Reinforcements.ReplayCountsTwice | crates/kitt-memory-sqlite/src/evidence.rs:50-58 | The stored access count rises by the receipts reporting an action, and by as many again when the batch is recorded again |
| Consumption.RecordedKeeps | crates/kitt-memory-sqlite/src/evidence.rs:17-49 | Used-for-action implies presented, and every receipt has its trace, after every batch |
| Admissions.UnknownRequestAdmitted | crates/kitt-memory-sqlite/src/lib.rs:127-142 | In every run an arrival without a row is admitted or refused for capacity, and refused exactly when the surviving rows (pending, or admitted at most 604800 s before) number 10000, or their 1048576 per pending one and their reply lengths leave less than 1048576 of 67108864 |
| Admissions.AdmissionWrites | crates/kitt-memory-sqlite/src/lib.rs:127-148 | An admission keeps exactly the surviving rows unchanged and adds one pending row stamped with its own time |
| Admissions.KnownRequestAnswered | crates/kitt-memory-sqlite/src/lib.rs:111-126 | An arrival with a row hears conflict, pending or the stored reply by that row, and no refusal changes anything |
| Admissions.DeliveredFits | apps/kitt-memoryd/src/main.rs:1118-1122 | A delivered reply has at most 1048064 bytes |
| Admissions.RowsFit | crates/kitt-memory-sqlite/src/lib.rs:140-176 | In every reachable state stored replies fit a frame and no row is stamped in the future |
| Admissions.StoreReports | crates/kitt-memory-sqlite/src/lib.rs:163-176 | Storing a reply changes the named row if it is pending and nothing else, and reports how many rows it changed |
| JobClaims.ClaimWinsIff | crates/kitt-memory-sqlite/src/evidence.rs:170-186 | In every run a guarded claim wins exactly when the last write to its row was its insertion, a retryable failure whose retry time the reading has reached, or a claim whose lease it has reached |
| JobClaims.SelectedIsFree | crates/kitt-memory-sqlite/src/evidence.rs:152-166 | Likewise every row a claim selects |
| JobClaims.NoClaimBeforeRetry | crates/kitt-memory-sqlite/src/evidence.rs:157-158 | After an accepted retryable failure the next winning claim of the row reads a time no earlier than the retry time, while the row exists |
| JobClaims.RowIsLastWrite | crates/kitt-memory-sqlite/src/evidence.rs:97-268 | In every run each row is exactly what the last accepted statement on it wrote |
| JobClaims.EnqueueInserts | crates/kitt-memory-sqlite/src/evidence.rs:97-134 | In every run work is inserted exactly when no row has its key and none its id, and is then pending |
| JobClaims.LeaseLength | crates/kitt-memory-sqlite/src/evidence.rs:149-150 | A lease lasts the requested seconds within 5..3600 |
| JobClaims.RetryDelay | crates/kitt-memory-sqlite/src/evidence.rs:234-243 | The next try is the requested seconds within 1..3600 away, or by default five seconds doubled once per attempt after the first, up to an hour |
| JobClaims.SelectionIsOldest | crates/kitt-memory-sqlite/src/evidence.rs:152-166 | The row selected was created before every other candidate, or at the same time with a smaller id |
| JobClaims.CleanupDeletes | crates/kitt-memory-sqlite/src/admin.rs:181-186 | A cleanup deletes exactly the succeeded and failed rows last updated more than 2592000 s ago |
| JobClaims.RowsHold | crates/kitt-memory-sqlite/src/evidence.rs:136-268 | In every reachable state exactly the running rows have an owner; a lease or a postponement ends within an hour of the last update |
| JobClaims.EveryCallSteps | crates/kitt-memory-sqlite/src/evidence.rs:199-268 | A completion, a terminal failure or a cleanup is possible at any time, answered by whether the named owner holds the row |
| JobClaims.EveryHalfSteps | crates/kitt-memory-sqlite/src/evidence.rs:152-236 | A claim can select exactly the free rows and a failure can be read exactly from a row its owner holds |
| RowEffects.StatusEndsValidity | crates/kitt-memory-sqlite/src/lib.rs:556-578 | Superseding or archiving ends the validity: the row is valid at exactly the times before now at which it was; other statuses leave the interval alone; nothing else but status, link and update time changes |
| RowEffects.ArchiveEndsValidity | crates/kitt-memory-sqlite/src/admin.rs:97-114 | Archiving a workspace ends each validity likewise |
| RowEffects.ConsolidationEndsValidity | crates/kitt-memory-sqlite/src/lib.rs:611-626 | So does the maintenance pass for a repeat |
| RowEffects.ResolutionEndsValidity | crates/kitt-memory-sqlite/src/lib.rs:1345-1349 | So does the migration for a loser, and it leaves the interval of a leader alone |
| RowEffects.TimeToLive | crates/kitt-memory-core/src/lib.rs:338-341 | A new memory is valid from now on for exactly its time to live |
| RowEffects.MergeLeaves | crates/kitt-memory-sqlite/src/lib.rs:410-418 | A repeated `remember` changes sensitivity, pin, the two scores, the end and the update time only |
| RowEffects.PruneRemoves | crates/kitt-memory-sqlite/src/lib.rs:580-587 | Pruning removes exactly the active rows whose end has come |
| RowEffects.ArchiveTakes | crates/kitt-memory-sqlite/src/admin.rs:97-114 | Archiving touches exactly the active rows of that namespace and workspace |
| RowEffects.TouchTakes | crates/kitt-memory-sqlite/src/semantic.rs:111-129 | A touch counts one access at its time for exactly the first 128 ids |
| RowEffects.IndexSaysContent | crates/kitt-memory-sqlite/src/lib.rs:1363-1417 | In every reachable state the full-text entry of a memory holds the normalised form of its content, and every embedding the hash of that form |
| RowEffects.CountersMove | crates/kitt-memory-sqlite/src/lib.rs:1377-1399 | Which revision counters an insert and an update move, and by how much |
| RowEffects.BatchLands | crates/kitt-memory-sqlite/src/admin.rs:137-167 | After a batch its records are there, and no other row has changed |
| RowEffects.DreamLands | crates/kitt-memory-sqlite/src/admin.rs:137-167 | A committed batch had only canonical records and sources that are stored |
| RowEffects.UpdateKeepsVectors | crates/kitt-memory-sqlite/src/lib.rs:1400-1417 | An update keeps a memory's vectors exactly when it leaves the content hash alone, and touches no other memory's |
| RowEffects.EmbeddableIff | crates/kitt-memory-sqlite/src/vector.rs:97-110 | A vector is stored exactly for an active row that is not ephemeral and whose normalised content is still that of the vector |
| RowEffects.ClearTakes | crates/kitt-memory-sqlite/src/vector.rs:155-162 | Clearing takes exactly the vectors of the model, counted |
| CanonicalForms.CanonicalOkIff | crates/kitt-memory-core/src/lib.rs:252-299 | A record has a canonical form exactly when names and content are not blank, a conversation has a key, scores are in 0..1, the metadata is an object, the interval is not reversed and the count fits 63 bits |
| CanonicalForms.CanonicalIs | crates/kitt-memory-core/src/lib.rs:252-299 | Column by column what the canonical form is |
| CanonicalForms.ConstraintsIff | crates/kitt-memory-sqlite/src/lib.rs:1252-1253 | What the validation triggers refuse |
| ExpansionSeeds.FirstSeedsAre | crates/kitt-memory-sqlite/src/lib.rs:899-904 | The seeds used are exactly those not blank with fewer than the limit of non-blank ones before them |
| ExpansionSeeds.ExpansionIsNear | crates/kitt-memory-sqlite/src/lib.rs:884-977 | A concept is in the expansion exactly when it is in scope and within the hop bound of one seed that is not blank and has fewer than sixteen such before it |
| ExpansionSeeds.SeedsInOrder | crates/kitt-memory-sqlite/src/lib.rs:899-913 | The seeds are answered first and in the order of their first occurrence in the request |
| ExpansionSeeds.NearestFirst | crates/kitt-memory-sqlite/src/lib.rs:907-971 | An earlier answer is within every distance of the seeds in which a later one is |
| ExpansionSeeds.AnswerIs | crates/kitt-memory-sqlite/src/lib.rs:895-971 | The answer is a prefix, of at most 100, of the concepts within at most four links, and all of them if the limit is not reached |
| Concepts.PairsAre | crates/kitt-memory-sqlite/src/lib.rs:950-971 | Links are followed in both directions and only within the scope |
| Concepts.StoreKeeps | crates/kitt-memory-sqlite/src/lib.rs:804-854 | In every valid store links join different concepts of their own scope with weights in 0..1, and names are unique in a scope |
| BaselineOrder.RankedInOrder | crates/kitt-memory-core/src/baseline.rs:135-144 | For two candidates the earlier is pinned if the later is; with equal pins its section is not later; with equal sections its score not lower; with equal scores its update not older; with all equal its id is smaller |
| BaselineOrder.EntriesInOrder | crates/kitt-memory-core/src/baseline.rs:135-173 | The entries of a baseline show rows in that order |
| BaselineOrder.EntriesEligible | crates/kitt-memory-core/src/baseline.rs:40-63 | Each shows an active, valid row of the namespace that scope and permissions let the reader see |
| BaselineOrder.CandidatesAre | crates/kitt-memory-core/src/baseline.rs:125-133 | And every such row is a candidate |
| BaselineOrder.BooksAreHonest | crates/kitt-memory-core/src/baseline.rs:146-191 | Reported tokens are the sum of the prices of the entries shown, entries and dropped are the candidates, the pressure is their ratio to the budget |
| BaselineOrder.ScoreWeights | crates/kitt-memory-core/src/baseline.rs:101-114 | How much the score moves with importance, confidence, pin, kind and update time |
| EtagScope.RevisionIs | crates/kitt-memory-sqlite/src/lib.rs:274-289 | The revision of a reader is the sum of the four counters of its namespace: global or own workspace, without or with its key |
| EtagScope.DecimalIs | crates/kitt-memory-sqlite/src/lib.rs:479-487 | The revision is written in decimal: reading the digits back gives it, without leading zeros |
| EtagScope.EtagTextIs | crates/kitt-memory-sqlite/src/lib.rs:479-487 | The hashed text is the three names, the revision and the two permissions between separators |
| EtagScope.ReadingHolds | crates/kitt-memory-sqlite/src/lib.rs:465-474 | At most 512 rows are read, each once, and all there are if there are no more |
| EtagScope.NamedReader | crates/kitt-memory-sqlite/src/lib.rs:479-487 | Two queries under an etag that names its reader agree on all names, both permissions and the revision |
| Joins.JoinIsAny | crates/kitt-memory-sqlite/src/lib.rs:410-418 | The joined row is pinned, or open-ended, exactly if some write was |
| Joins.JoinIsSome | crates/kitt-memory-sqlite/src/lib.rs:410-418 | Each other joined column is that of some write |
| Joins.JoinIsGreatest | crates/kitt-memory-sqlite/src/lib.rs:410-418 | And no write exceeds it |
| WhoWins.OneListWins | crates/kitt-memory-sqlite/src/vector.rs:263-276 | Of a record in lexical place i alone and one in semantic place j alone the latter ranks first exactly when 6(61+i) > 5(61+j), or on a tie its id is smaller |
| WhoWins.ScoreIs | crates/kitt-memory-sqlite/src/vector.rs:263-274 | The score of a record by its places: 1/(61+i), 1.2/(61+j), or their sum |
| WhoWins.RankedBy | crates/kitt-memory-sqlite/src/vector.rs:275-276 | The ranking goes by falling score and then by ascending id |
| WhoWins.LexicalCopy | crates/kitt-memory-sqlite/src/vector.rs:268-274 | A record in both lists is returned as the lexical list holds it |
| WhoWins.MigrationKeeps | crates/kitt-memory-sqlite/src/lib.rs:1324-1349 | Of active rows with one identity the one kept is pinned if any is, then the most important, then the newest, then the smallest id; every other is superseded and names it |
| WhoWins.ConsolidationKeeps | crates/kitt-memory-sqlite/src/lib.rs:589-628 | The maintenance pass keeps by pin, importance and recency likewise |
| WhoWins.CommitsIff | crates/kitt-memory-sqlite/src/lib.rs:1320-1349 | On rows satisfying the constraints the migration is rolled back exactly when a row that would be superseded starts in the future |
| WhoWins.ScanReads | crates/kitt-memory-sqlite/src/lib.rs:589-610 | It scans exactly the active rows of its namespace and workspace, each once, in that order |
| SnippetShapes.SnippetHoldsMatch | apps/kitt-memoryd/src/main.rs:187-218 | An unshrunk snippet around a match holds every matched character that lies in the window, the first of them always |
| SnippetShapes.ShortMatchInside | apps/kitt-memoryd/src/main.rs:197-204 | A match of at most a twelfth of the window's bytes in characters lies in it whole |
| SnippetShapes.ShrunkHolds | apps/kitt-memoryd/src/main.rs:214-217 | A shrunk snippet still holds the match as long as it is cut behind it |
| SnippetShapes.ShrinkKeepsStart | apps/kitt-memoryd/src/main.rs:214-217 | Shrinking keeps a beginning of the text and ends it with an ellipsis |
| SnippetShapes.QueryTermsAre | apps/kitt-memoryd/src/main.rs:188-191 | The terms are the white-space separated pieces without outer punctuation, of two characters or more, in lower case |
| SnippetShapes.TrimToWordIs | apps/kitt-memoryd/src/main.rs:190 | A piece loses exactly the characters outside its first and last word character |
| TextShapes.WordsFillFold | crates/kitt-memory-core/src/lib.rs:436-453 | The words with their gaps are the folded text: words hold only letters, digits, underscores and hyphens, gaps none, and no inner gap is empty |
| TextShapes.JoinIsSpread | crates/kitt-memory-core/src/lib.rs:436-453 | Joining puts one space between neighbours and nothing elsewhere |
| TextShapes.TrimIsMiddle | crates/kitt-memory-core/src/lib.rs:252-262 | A trimmed text is the middle of the text, and white space is all that is dropped |
| TextShapes.EstimateIs | crates/kitt-memory-core/src/lib.rs:460-481 | The estimate in twelfths: three per ASCII character, 24 per other, one per punctuation mark, the fractions rounded up |
| TextShapes.CutPointIs | crates/kitt-memory-core/src/lib.rs:489-501 | A text is cut after its last sentence end if that lies in the second half of its bytes, and not at all otherwise |
| TextShapes.GistIs | crates/kitt-memory-core/src/lib.rs:484-503 | A gist is the trimmed text if it fits, or else its first characters up to that point without white space at the end, and an ellipsis |
| TextShapes.CharBytesStandFor | apps/kitt-memoryd/src/main.rs:197-204 | The bytes of RFC 3629, read back, give the character |
| ReceiptShares.AcceptableIff | crates/kitt-memory-sqlite/src/evidence.rs:12-19 | Which batches are taken |
| ReceiptShares.RowFlags | crates/kitt-memory-sqlite/src/evidence.rs:30-33 | A row reports whatever it or a receipt for it reported |
| ReceiptShares.RowOutcome | crates/kitt-memory-sqlite/src/evidence.rs:34 | Its outcome is that of the last receipt to name one, or its own |
| ReceiptShares.RowTime | crates/kitt-memory-sqlite/src/evidence.rs:35 | Its time is the latest of all |
| ReceiptShares.TouchSays | crates/kitt-memory-sqlite/src/evidence.rs:50-56 | The updates of the memory table are those of the receipts that refer to or act on their memory, in order |
| ReceiptShares.LastTouchStands | crates/kitt-memory-sqlite/src/evidence.rs:51-56 | The access time of a memory is that of the last update to name it, the receipt's or the clock's, whichever is later |
| ReceiptShares.ActionsAre | crates/kitt-memory-sqlite/src/evidence.rs:50-56 | A memory is counted once for each such receipt that names it |
| Pages.HitSays | apps/kitt-memoryd/src/main.rs:476-520 | What a hit shows and costs: the gist when nothing was asked, or an excerpt of at most 56 tokens of what is left, with its provenance |
| TraceRuns.Possible | crates/kitt-memory-sqlite/src/semantic.rs:240-286 | Which steps are possible in which state |

## Left out

- RequestProtocol.Daemon.RunHandler: the mutation itself is opaque; its reply is any byte sequence. Whether two admitted mutations commute is not modelled.
- JobRuns.SplitClaimIsClaim: the interleaved select may pick any eligible job of any phase, not only the first, so the run theorems cover more runs than the source has.
- MemoryStores.MemoryStore.ArchiveWorkspace: returns the ids archived; the source returns at most 2048 rows read before the update, and those reads are not part of the transaction.
- MemoryStores.MemoryStore.CommitDream: the provenance rows and the run record are reduced to the check that each source names a stored memory.
- MemoryStores.MemoryStore.Remember: a repeat returns the merged row as written; the source reads it again on another connection.
- MemoryStores.MemoryStore.UpsertEmbedding: the checks of the digest's format and of the vector's norm are left out; a hash is its text and the vector is bytes.
- Etags.EtagSoundness: with more than 512 readable rows the source takes the first 512 by pin, importance and recency; nothing is claimed there beyond what any 512 of them give.
- Duplicates.ResolveDuplicates: rows are those the backfill of normalised text, hash, gist and estimate has left; the other migrations (columns, indexes, FTS rebuild) are not modelled.
- Duplicates.ConsolidateExactDuplicates: the scan and the updates are one step; the source reads on another connection and guards each update by `status='ACTIVE'`. Where identities are unique the scan finds no repeat and no update follows.
- Concepts.ConceptStore.ExpandConcepts: the queries of one expansion see one state of the tables; writes between them are left out.
- Concepts.ConceptStore.UpsertConcept: the checks made when a concept is built are left out.
- Concepts.ConceptStore.LinkConcepts: weights are reals, so the check for a non-finite weight is left out.
- Consumption.ConsumptionLog.RecordConsumptionReceipts: the thirty-day deletion of receipts is left out.
- Traces.TraceBuffer.FinishFlush: a poisoned lock, and the cascade of REPLACE on an id already stored, are left out; the theorem on survival takes trace ids to be new.
- Pages.ProgressiveSearch: record fields of a hit other than id, snippet and cost are left out.
- Fusion.SearchHybrid: scores are exact; 32-bit rounding may tie records that differ here.
- Baseline.BuildMemoryBaseline: scores are exact reals; the pressure's cap at 1.5 is kept although it cannot be reached.
- FTS5 matching, bm25, `ranked_recall` weights, retention score, rerankers, cosine similarity and the hyperplane sums: floating point feeding orders that are taken as given.
- `pending_embeddings`, `get_many_scoped`, `timeline_memories`, context nodes, corrections, change sets, schemas, sources, merge-candidate assessment: reads and single-branch writes.
- Sockets, framing, authentication, worker pool, JSON field extraction and the operation dispatch of the daemon.
- SQLite itself: WAL, busy handling, reader pool, partial writes. Row ids are modelled by memory ids.
