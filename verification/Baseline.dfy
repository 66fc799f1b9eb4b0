/** `build_memory_baseline`: filter, sort and pack the memories a session starts with. */
module Baseline {
  import opened Basics
  import opened Order
  import opened Text
  import opened Utf8
  import opened Records
  import opened Packing

  datatype Query = Query(
    namespace: string, workspace: string, scopeKey: Option<string>, maxTokens: nat,
    allowPrivate: bool, allowSecret: bool)

  datatype Entry = Entry(memoryId: MemoryId, section: string, content: string, pinned: bool, score: real)

  datatype Snapshot = Snapshot(entries: seq<Entry>, estimatedTokens: nat, maxTokens: nat, dropped: nat, pressure: real)

  // ---------- which rows ----------

  predicate ScopeAllows(a: Address, q: Query) {
    match a.scope
    case Global => true
    case Workspace => a.workspace == q.workspace
    case Conversation => q.scopeKey.Some? && a.workspace == q.workspace && a.scopeKey == q.scopeKey
  }

  predicate SensitivityAllows(s: Sensitivity, q: Query) {
    match s
    case Secret => q.allowSecret
    case Private => q.allowPrivate
    case Ephemeral => false
    case _ => true
  }

  predicate Allowed(r: Record, q: Query, now: int) {
    r.status.Active? && r.address.namespace == q.namespace && ScopeAllows(r.address, q) && IsValidAt(r, now)
    && SensitivityAllows(r.sensitivity, q)
  }

  // ---------- in which order ----------

  function Section(kind: Kind): (string, nat) {
    match kind
    case UserPreference | PersonalFact | Routine => ("User baseline", 0)
    case ProjectRule | WorkingPattern => ("Project guardrails", 1)
    case ArchitectureDecision | TechnicalFact => ("Architecture knowledge", 2)
    case OpenIssue | ProjectState | FailedApproach => ("Current project state", 3)
    case Episodic => ("Recent durable context", 4)
  }

  function KindBonus(kind: Kind): real {
    match kind
    case ProjectRule | ArchitectureDecision => 0.20
    case UserPreference => 0.15
    case TechnicalFact | WorkingPattern => 0.08
    case _ => 0.0
  }

  function Unit(x: real): real {
    if x < 0.0 then 0.0 else if x > 1.0 then 1.0 else x
  }

  function StableScore(r: Record): real {
    var day := Min(Max(r.updatedAt / 86400, 0), 100000) as real;
    Unit(r.importance) * 0.52 + Unit(r.confidence) * 0.28 + (if r.pinned then 0.45 else 0.0) + KindBonus(r.kind)
    + day / 100000.0 * 0.01
  }

  /** Pinned first, then by section, score, update time and identifier. */
  predicate Precedes(a: Record, b: Record) {
    if a.pinned != b.pinned then a.pinned
    else if Section(a.kind).1 != Section(b.kind).1 then Section(a.kind).1 < Section(b.kind).1
    else if StableScore(a) != StableScore(b) then StableScore(a) > StableScore(b)
    else if a.updatedAt != b.updatedAt then a.updatedAt > b.updatedAt
    else StrLe(a.id, b.id)
  }

  lemma PrecedesIsOrder()
    ensures TotalPreorder(Precedes)
  {
    hide StableScore, Section;
    forall a, b
      ensures Precedes(a, b) || Precedes(b, a)
    {
      StrLeTotal(a.id, b.id);
    }
    forall a, b, c | Precedes(a, b) && Precedes(b, c)
      ensures Precedes(a, c)
    {
      if StrLe(a.id, b.id) && StrLe(b.id, c.id) {
        StrLeTransitive(a.id, b.id, c.id);
      }
    }
  }

  ghost predicate IdsIdentify(s: seq<Record>) {
    forall x, y :: x in s && y in s && x.id == y.id ==> x == y
  }

  /** Records with distinct identifiers never tie. */
  lemma DistinctTieFree(s: seq<Record>)
    requires IdsIdentify(s)
    ensures TieFree(Precedes, s)
  {
    hide StableScore, Section;
    forall x, y | x in s && y in s && Precedes(x, y) && Precedes(y, x)
      ensures x == y
    {
      StrLeAntisymmetric(x.id, y.id);
    }
  }

  function Filtered(s: seq<Record>, q: Query, now: int): (r: seq<Record>)
    ensures forall x :: x in r ==> x in s
  {
    if s == [] then []
    else
      var rest := Filtered(s[1..], q, now);
      if Allowed(s[0], q, now) then [s[0]] + rest else rest
  }

  // ---------- how many ----------

  function Budget(q: Query): nat {
    Clamp(q.maxTokens, 32, 16384)
  }

  function EntryChars(q: Query): nat {
    Clamp(Budget(q) * 4 / 3, 120, 1200)
  }

  function EntryContent(r: Record, q: Query): string {
    TruncateAtBoundary(r.content, EntryChars(q))
  }

  function EntryCost(r: Record, q: Query): nat {
    Tokens(EntryContent(r, q)) + Tokens(Section(r.kind).0) + 2
  }

  function EntryOf(r: Record, q: Query): Entry {
    Entry(r.id, Section(r.kind).0, EntryContent(r, q), r.pinned, StableScore(r))
  }

  function Costs(s: seq<Record>, q: Query): (c: seq<nat>)
    ensures |c| == |s|
  {
    if s == [] then [] else [EntryCost(s[0], q)] + Costs(s[1..], q)
  }

  function Chosen(s: seq<Record>, mask: seq<bool>, q: Query): (e: seq<Entry>)
    requires |mask| == |s|
    ensures |e| == Admitted(mask)
  {
    if s == [] then []
    else (if mask[0] then [EntryOf(s[0], q)] else []) + Chosen(s[1..], mask[1..], q)
  }

  /** The candidates in packing order. */
  function Ranked(s: seq<Record>, q: Query, now: int): seq<Record> {
    Sort(Precedes, Filtered(s, q, now))
  }

  /** What a baseline is: the greedy selection of the ranked candidates under the token budget. */
  function BaselineOf(s: seq<Record>, q: Query, now: int): Snapshot {
    var ranked := Ranked(s, q, now);
    var costs := Costs(ranked, q);
    var mask := Greedy(costs, Budget(q));
    var spent := Spent(costs, mask);
    AdmittedBound(mask);
    Snapshot(Chosen(ranked, mask, q), spent, Budget(q), |ranked| - Admitted(mask), Pressure(spent, Budget(q)))
  }

  lemma {:induction false} AdmittedBound(mask: seq<bool>)
    ensures Admitted(mask) <= |mask|
  {
    if mask != [] {
      AdmittedBound(mask[1..]);
    }
  }

  function Pressure(spent: nat, budget: nat): real {
    if budget == 0 then 1.0
    else if spent as real / budget as real > 1.5 then 1.5
    else spent as real / budget as real
  }

  // ---------- the laws ----------

  /** The books balance: the reported tokens are within the budget, and entries plus dropped are exactly
      the eligible candidates. */
  lemma BaselineAccounts(s: seq<Record>, q: Query, now: int)
    ensures var b := BaselineOf(s, q, now);
            b.estimatedTokens <= b.maxTokens && |b.entries| + b.dropped == |Filtered(s, q, now)|
  {
    var costs := Costs(Ranked(s, q, now), q);
    GreedyWithinBudget(costs, Budget(q));
    AdmittedBound(Greedy(costs, Budget(q)));
  }

  lemma {:induction false} FilteredMultiset(s: seq<Record>, q: Query, now: int, x: Record)
    ensures multiset(Filtered(s, q, now))[x] == if Allowed(x, q, now) then multiset(s)[x] else 0
  {
    hide Allowed;
    if s != [] {
      assert s == [s[0]] + s[1..];
      FilteredMultiset(s[1..], q, now, x);
    }
  }

  /** The baseline depends on the set of records, not on the order they were read in. */
  lemma OrderIrrelevant(a: seq<Record>, b: seq<Record>, q: Query, now: int)
    requires multiset(a) == multiset(b) && IdsIdentify(a)
    ensures BaselineOf(a, q, now) == BaselineOf(b, q, now)
  {
    hide *;
    RankedUnique(a, b, q, now);
    SameRanking(a, b, q, now);
  }

  lemma SameRanking(a: seq<Record>, b: seq<Record>, q: Query, now: int)
    requires Ranked(a, q, now) == Ranked(b, q, now)
    ensures BaselineOf(a, q, now) == BaselineOf(b, q, now)
  {
  }

  lemma RankedUnique(a: seq<Record>, b: seq<Record>, q: Query, now: int)
    requires multiset(a) == multiset(b) && IdsIdentify(a)
    ensures Ranked(a, q, now) == Ranked(b, q, now)
  {
    var fa, fb := Filtered(a, q, now), Filtered(b, q, now);
    forall x
      ensures multiset(fa)[x] == multiset(fb)[x]
    {
      FilteredMultiset(a, q, now, x);
      FilteredMultiset(b, q, now, x);
    }
    assert multiset(fa) == multiset(fb);
    var ra, rb := Sort(Precedes, fa), Sort(Precedes, fb);
    PrecedesIsOrder();
    SortSorts(Precedes, fa);
    SortSorts(Precedes, fb);
    assert TieFree(Precedes, ra) by {
      assert forall x :: x in ra ==> x in multiset(ra) && x in fa;
      DistinctTieFree(fa);
    }
    SortedUnique(Precedes, ra, rb);
  }

  /** Records that differ only in access telemetry. */
  predicate SameButAccess(x: Record, y: Record) {
    y == x.(access := y.access)
  }

  predicate AllSameButAccess(a: seq<Record>, b: seq<Record>) {
    |a| == |b| && forall i :: 0 <= i < |a| ==> SameButAccess(a[i], b[i])
  }

  lemma SameCompare(a: Record, b: Record, a': Record, b': Record)
    requires SameButAccess(a, a') && SameButAccess(b, b')
    ensures Precedes(a, b) == Precedes(a', b')
  {
  }

  lemma {:induction false} FilteredSame(a: seq<Record>, b: seq<Record>, q: Query, now: int)
    requires AllSameButAccess(a, b)
    ensures AllSameButAccess(Filtered(a, q, now), Filtered(b, q, now))
  {
    if a != [] {
      FilteredSame(a[1..], b[1..], q, now);
      assert SameButAccess(a[0], b[0]);
      assert Allowed(a[0], q, now) == Allowed(b[0], q, now);
    }
  }

  lemma ConsSame(x: Record, a: seq<Record>, y: Record, b: seq<Record>)
    requires SameButAccess(x, y) && AllSameButAccess(a, b)
    ensures AllSameButAccess([x] + a, [y] + b)
  {
    hide SameButAccess;
  }

  lemma TailSame(a: seq<Record>, b: seq<Record>)
    requires AllSameButAccess(a, b) && a != []
    ensures SameButAccess(a[0], b[0]) && AllSameButAccess(a[1..], b[1..])
  {
    hide SameButAccess;
  }

  lemma {:induction false} InsertSame(x: Record, a: seq<Record>, y: Record, b: seq<Record>)
    requires SameButAccess(x, y) && AllSameButAccess(a, b)
    ensures AllSameButAccess(Insert(Precedes, x, a), Insert(Precedes, y, b))
  {
    assert |a| == |b|;
    hide Precedes, SameButAccess, AllSameButAccess;
    ConsSame(x, a, y, b);
    if a != [] {
      TailSame(a, b);
      SameCompare(x, a[0], y, b[0]);
      InsertSame(x, a[1..], y, b[1..]);
      ConsSame(a[0], Insert(Precedes, x, a[1..]), b[0], Insert(Precedes, y, b[1..]));
    }
  }

  lemma {:induction false} SortSame(a: seq<Record>, b: seq<Record>)
    requires AllSameButAccess(a, b)
    ensures AllSameButAccess(Sort(Precedes, a), Sort(Precedes, b))
  {
    hide Precedes;
    if a != [] {
      SortSame(a[1..], b[1..]);
      InsertSame(a[0], Sort(Precedes, a[1..]), b[0], Sort(Precedes, b[1..]));
    }
  }

  lemma EntrySame(x: Record, y: Record, q: Query)
    requires SameButAccess(x, y)
    ensures EntryCost(x, q) == EntryCost(y, q) && EntryOf(x, q) == EntryOf(y, q)
  {
    assert x.content == y.content && x.kind == y.kind && StableScore(x) == StableScore(y);
  }

  lemma {:induction false} CostsSame(a: seq<Record>, b: seq<Record>, q: Query)
    requires AllSameButAccess(a, b)
    ensures Costs(a, q) == Costs(b, q)
  {
    hide EntryCost;
    if a != [] {
      EntrySame(a[0], b[0], q);
      CostsSame(a[1..], b[1..], q);
    }
  }

  lemma {:induction false} ChosenSame(a: seq<Record>, b: seq<Record>, mask: seq<bool>, q: Query)
    requires AllSameButAccess(a, b) && |mask| == |a|
    ensures Chosen(a, mask, q) == Chosen(b, mask, q)
  {
    hide EntryOf;
    if a != [] {
      EntrySame(a[0], b[0], q);
      ChosenSame(a[1..], b[1..], mask[1..], q);
    }
  }

  /** Reading memories does not move the baseline. */
  lemma AccessIrrelevant(a: seq<Record>, b: seq<Record>, q: Query, now: int)
    requires AllSameButAccess(a, b)
    ensures BaselineOf(a, q, now) == BaselineOf(b, q, now)
  {
    hide EntryCost, EntryOf, Precedes, Allowed, Costs, Chosen, Greedy, Spent, Filtered, Sort, Admitted;
    FilteredSame(a, b, q, now);
    SortSame(Filtered(a, q, now), Filtered(b, q, now));
    var ra, rb := Ranked(a, q, now), Ranked(b, q, now);
    CostsSame(ra, rb, q);
    ChosenSame(ra, rb, Greedy(Costs(ra, q), Budget(q)), q);
  }

  /** A candidate is left out only when it did not fit in what remained when its turn came, and no other
      selection within the budget is preferred: where one first differs from the baseline's, it lacks
      the better-ranked candidate. */
  lemma LeftOutDidNotFit(s: seq<Record>, q: Query, now: int, i: nat)
    requires i < |Ranked(s, q, now)|
    ensures var costs := Costs(Ranked(s, q, now), q);
            var mask := Greedy(costs, Budget(q));
            !mask[i] <==> Spent(costs[..i], mask[..i]) + costs[i] > Budget(q)
  {
    GreedyFits(Costs(Ranked(s, q, now), q), Budget(q), i);
  }

  // ---------- other times and limits ----------

  /** A baseline of rows allowed at two times is the same at both. */
  lemma SteadyBaseline(s: seq<Record>, q: Query, at: int, at': int)
    requires forall r :: r in s ==> Allowed(r, q, at) && Allowed(r, q, at')
    ensures BaselineOf(s, q, at) == BaselineOf(s, q, at')
  {
    hide Allowed;
    AllAllowed(s, q, at);
    AllAllowed(s, q, at');
    hide Filtered;
    assert Ranked(s, q, at) == Ranked(s, q, at');
    hide Ranked;
  }

  lemma {:induction false} AllAllowed(s: seq<Record>, q: Query, at: int)
    requires forall r :: r in s ==> Allowed(r, q, at)
    ensures Filtered(s, q, at) == s
  {
    hide Allowed;
    if s != [] {
      assert s[0] in s && forall r :: r in s[1..] ==> r in s;
      AllAllowed(s[1..], q, at);
    }
  }

  lemma {:induction false} LimitedCosts(s: seq<Record>, q: Query, limit: nat)
    requires Budget(q) == Budget(q.(maxTokens := limit))
    ensures Costs(s, q.(maxTokens := limit)) == Costs(s, q)
  {
    hide Tokens, TruncateAtBoundary, Section;
    if s != [] {
      LimitedCosts(s[1..], q, limit);
    }
  }

  lemma {:induction false} LimitedChoice(s: seq<Record>, mask: seq<bool>, q: Query, limit: nat)
    requires Budget(q) == Budget(q.(maxTokens := limit)) && |mask| == |s|
    ensures Chosen(s, mask, q.(maxTokens := limit)) == Chosen(s, mask, q)
  {
    hide Tokens, TruncateAtBoundary, Section, StableScore;
    if s != [] {
      LimitedChoice(s[1..], mask[1..], q, limit);
    }
  }

  lemma {:induction false} LimitedFilter(s: seq<Record>, q: Query, limit: nat, at: int)
    ensures Filtered(s, q.(maxTokens := limit), at) == Filtered(s, q, at)
  {
    if s != [] {
      LimitedFilter(s[1..], q, limit, at);
    }
  }

  /** Two limits give one reading the same baseline exactly when they clamp to the same budget. */
  lemma LimitIff(s: seq<Record>, q: Query, limit: nat, at: int)
    ensures BaselineOf(s, q, at) == BaselineOf(s, q.(maxTokens := limit), at) <==> Budget(q) == Budget(q.(maxTokens := limit))
  {
    hide Greedy, Spent, Sort, Chosen, Costs, Filtered;
    if Budget(q) == Budget(q.(maxTokens := limit)) {
      LimitedFilter(s, q, limit, at);
      var ranked := Ranked(s, q, at);
      LimitedCosts(ranked, q, limit);
      LimitedChoice(ranked, Greedy(Costs(ranked, q), Budget(q)), q, limit);
    }
  }

  lemma OnlyCost(r: Record, q: Query, at: int)
    requires Allowed(r, q, at)
    ensures Ranked([r], q, at) == [r] && Costs([r], q) == [EntryCost(r, q)]
  {
    hide Allowed, EntryCost, Precedes;
    assert [r][1..] == [];
    assert Filtered([r], q, at) == [r];
    assert Sort(Precedes, [r]) == Insert(Precedes, r, Sort(Precedes, [])) == [r];
  }

  /** And a limit decides what is in the baseline, not only how it is labelled: a single row is an entry exactly
      when its cost under the limit fits it. */
  lemma LimitDecidesEntry(r: Record, q: Query, at: int)
    requires Allowed(r, q, at)
    ensures BaselineOf([r], q, at).entries == (if EntryCost(r, q) <= Budget(q) then [EntryOf(r, q)] else [])
  {
    OnlyCost(r, q, at);
    hide Allowed, EntryCost, EntryOf, Ranked, Costs, Budget;
    var costs := [EntryCost(r, q)];
    assert costs[1..] == [] && [r][1..] == [];
    var mask := Greedy(costs, Budget(q));
    assert mask == [EntryCost(r, q) <= Budget(q)] && mask[1..] == [];
    assert Chosen([r], mask, q) == (if mask[0] then [EntryOf(r, q)] else []) + Chosen([], [], q);
  }

  // ---------- the loops ----------

  lemma {:induction false} FilteredSnoc(s: seq<Record>, x: Record, q: Query, now: int)
    ensures Filtered(s + [x], q, now) == Filtered(s, q, now) + if Allowed(x, q, now) then [x] else []
  {
    hide Allowed;
    if s == [] {
      assert s + [x] == [x] && [x][1..] == [];
    } else {
      assert (s + [x])[1..] == s[1..] + [x];
      FilteredSnoc(s[1..], x, q, now);
    }
  }

  lemma {:induction false} CostsSnoc(s: seq<Record>, x: Record, q: Query)
    ensures Costs(s + [x], q) == Costs(s, q) + [EntryCost(x, q)]
  {
    hide EntryCost;
    if s == [] {
      assert s + [x] == [x] && [x][1..] == [];
    } else {
      assert (s + [x])[1..] == s[1..] + [x];
      CostsSnoc(s[1..], x, q);
    }
  }

  lemma {:induction false} ChosenSnoc(s: seq<Record>, mask: seq<bool>, x: Record, kept: bool, q: Query)
    requires |mask| == |s|
    ensures Chosen(s + [x], mask + [kept], q) == Chosen(s, mask, q) + if kept then [EntryOf(x, q)] else []
  {
    hide EntryOf;
    if s == [] {
      assert s + [x] == [x] && mask + [kept] == [kept] && [x][1..] == [] && [kept][1..] == [];
    } else {
      assert (s + [x])[1..] == s[1..] + [x] && (mask + [kept])[1..] == mask[1..] + [kept];
      ChosenSnoc(s[1..], mask[1..], x, kept, q);
    }
  }

  /** Characters plus eight per entry never exceed four per token: each entry pays for its own text and
      label, and two tokens more. */
  lemma EntryCharsPaid(r: Record, q: Query)
    ensures |EntryContent(r, q)| + |Encode(Section(r.kind).0)| + 8 <= 4 * EntryCost(r, q)
  {
    hide EntryContent, Section;
    TokensBoundChars(EntryContent(r, q));
    TokensBoundBytes(Section(r.kind).0);
  }

  lemma {:induction false} TokensBoundBytes(s: string)
    ensures |Encode(s)| <= 4 * Tokens(s)
  {
    BytesByKind(s);
  }

  lemma {:induction false} BytesByKind(s: string)
    ensures |Encode(s)| <= Count(IsAscii, s) + 4 * Count(IsNonAscii, s)
  {
    if s != [] {
      BytesByKind(s[1..]);
    }
  }

  /** What the packing loop has after the candidates `seen`. */
  ghost predicate Packed(seen: seq<Record>, q: Query, entries: seq<Entry>, usedTokens: nat, usedChars: nat) {
    var costs := Costs(seen, q);
    && entries == Chosen(seen, Greedy(costs, Budget(q)), q)
    && usedTokens == Spent(costs, Greedy(costs, Budget(q)))
    && usedChars + 8 * |entries| <= 4 * usedTokens
  }

  lemma PackedSnoc(seen: seq<Record>, x: Record, q: Query, entries: seq<Entry>, usedTokens: nat, usedChars: nat)
    requires Packed(seen, q, entries, usedTokens, usedChars)
    ensures usedTokens <= Budget(q)
    ensures usedTokens + EntryCost(x, q) > Budget(q) ==> Packed(seen + [x], q, entries, usedTokens, usedChars)
    ensures usedTokens + EntryCost(x, q) <= Budget(q) ==>
              Packed(seen + [x], q, entries + [EntryOf(x, q)], usedTokens + EntryCost(x, q),
                     usedChars + |EntryContent(x, q)| + |Encode(Section(x.kind).0)|)
  {
    hide EntryCost, EntryOf, EntryContent, Section, Budget, Costs, Chosen, Greedy, Spent, Encode;
    var costs := Costs(seen, q);
    GreedyWithinBudget(costs, Budget(q));
    CostsSnoc(seen, x, q);
    GreedySnoc(costs, Budget(q), EntryCost(x, q));
    ChosenSnoc(seen, Greedy(costs, Budget(q)), x, usedTokens + EntryCost(x, q) <= Budget(q), q);
    EntryCharsPaid(x, q);
  }

  lemma PackedStart(q: Query)
    ensures Packed([], q, [], 0, 0)
  {
  }

  lemma PackedMeans(seen: seq<Record>, q: Query, entries: seq<Entry>, usedTokens: nat, usedChars: nat)
    requires Packed(seen, q, entries, usedTokens, usedChars)
    ensures entries == Chosen(seen, Greedy(Costs(seen, q), Budget(q)), q)
    ensures usedTokens == Spent(Costs(seen, q), Greedy(Costs(seen, q), Budget(q))) <= Budget(q)
    ensures entries != [] ==> usedChars < 4 * Budget(q)
  {
    hide Costs, Chosen, Greedy, Spent;
    GreedyWithinBudget(Costs(seen, q), Budget(q));
  }

  lemma EntryParts(r: Record, q: Query)
    ensures EntryContent(r, q) == TruncateAtBoundary(r.content, EntryChars(q))
    ensures EntryCost(r, q) == Tokens(EntryContent(r, q)) + Tokens(Section(r.kind).0) + 2
    ensures EntryOf(r, q) == Entry(r.id, Section(r.kind).0, EntryContent(r, q), r.pinned, StableScore(r))
  {
  }

  method PackEntries(candidates: seq<Record>, q: Query, maxTokens: nat) returns (entries: seq<Entry>, usedTokens: nat)
    requires maxTokens == Budget(q)
    ensures entries == Chosen(candidates, Greedy(Costs(candidates, q), Budget(q)), q)
    ensures usedTokens == Spent(Costs(candidates, q), Greedy(Costs(candidates, q), Budget(q)))
  {
    hide *;
    var maxChars := maxTokens * 4;
    var perEntryChars := EntryChars(q);
    entries, usedTokens := [], 0;
    var usedChars: nat := 0;
    PackedStart(q);
    assert candidates[..0] == [];
    for i := 0 to |candidates|
      invariant Packed(candidates[..i], q, entries, usedTokens, usedChars)
    {
      var memory := candidates[i];
      PackedSnoc(candidates[..i], memory, q, entries, usedTokens, usedChars);
      EntryParts(memory, q);
      assert candidates[..i] + [memory] == candidates[..i + 1];
      var heading := Section(memory.kind).0;
      var content := TruncateAtBoundary(memory.content, perEntryChars);
      var cost := Tokens(content) + Tokens(heading) + 2;
      if usedTokens + cost > maxTokens {
        continue;
      }
      usedTokens := usedTokens + cost;
      usedChars := usedChars + |content| + |Encode(heading)|;
      entries := entries + [Entry(memory.id, heading, content, memory.pinned, StableScore(memory))];
      // The character budget can never be reached, so the early exit below is dead.
      PackedMeans(candidates[..i + 1], q, entries, usedTokens, usedChars);
      assert usedChars < maxChars;
      if usedChars >= maxChars {
        break;
      }
    }
    assert candidates[..|candidates|] == candidates;
    PackedMeans(candidates, q, entries, usedTokens, usedChars);
  }

  method BuildMemoryBaseline(memories: seq<Record>, q: Query, now: int) returns (b: Snapshot)
    ensures b == BaselineOf(memories, q, now)
  {
    var maxTokens := Clamp(q.maxTokens, 32, 16384);
    var candidates: seq<Record> := [];
    for i := 0 to |memories|
      invariant candidates == Filtered(memories[..i], q, now)
    {
      FilteredSnoc(memories[..i], memories[i], q, now);
      assert memories[..i] + [memories[i]] == memories[..i + 1];
      if Allowed(memories[i], q, now) {
        candidates := candidates + [memories[i]];
      }
    }
    assert memories[..|memories|] == memories;
    candidates := Sort(Precedes, candidates);
    var entries, usedTokens := PackEntries(candidates, q, maxTokens);
    AdmittedBound(Greedy(Costs(candidates, q), Budget(q)));
    b := Snapshot(entries, usedTokens, maxTokens, |candidates| - |entries|, Pressure(usedTokens, maxTokens));
  }
}
