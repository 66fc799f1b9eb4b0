/** Who gets into a baseline, in which order, with what text and at what price, told from the record fields. */
module BaselineOrder {
  import opened Basics
  import opened Order
  import opened Text
  import opened Utf8
  import opened Records
  import opened Packing
  import opened Baseline

  // ---------- the order ----------

  /** `x` may come before `y`: pinned records first, then by section, then by score, then the most recently updated,
      then by identifier. */
  predicate ComesFirst(x: Record, y: Record) {
    && (y.pinned ==> x.pinned)
    && (x.pinned == y.pinned ==> Section(x.kind).1 <= Section(y.kind).1)
    && (x.pinned == y.pinned && Section(x.kind).1 == Section(y.kind).1 ==> StableScore(x) >= StableScore(y))
    && (x.pinned == y.pinned && Section(x.kind).1 == Section(y.kind).1 && StableScore(x) == StableScore(y) ==> x.updatedAt >= y.updatedAt)
    && (x.pinned == y.pinned && Section(x.kind).1 == Section(y.kind).1 && StableScore(x) == StableScore(y) && x.updatedAt == y.updatedAt ==>
          StrLe(x.id, y.id))
  }

  /** The packing order of the candidates. */
  lemma RankedInOrder(s: seq<Record>, q: Query, now: int, i: nat, j: nat)
    requires i < j < |Ranked(s, q, now)|
    ensures ComesFirst(Ranked(s, q, now)[i], Ranked(s, q, now)[j])
  {
    PrecedesIsOrder();
    SortSorts(Precedes, Filtered(s, q, now));
    hide Section, StableScore, Filtered, Sort;
    assert Precedes(Ranked(s, q, now)[i], Ranked(s, q, now)[j]);
  }

  // ---------- who is eligible ----------

  /** Active, valid at the time, in the namespace, global or of the query's workspace or conversation, not ephemeral,
      and private or secret only with leave. */
  predicate Eligible(r: Record, q: Query, now: int) {
    && r.status == Active
    && (r.validFrom.Some? ==> r.validFrom.value <= now) && (r.validUntil.Some? ==> now < r.validUntil.value)
    && r.address.namespace == q.namespace
    && (r.address.scope != Global ==> r.address.workspace == q.workspace)
    && (r.address.scope == Conversation ==> q.scopeKey.Some? && r.address.scopeKey == q.scopeKey)
    && r.sensitivity != Ephemeral
    && (r.sensitivity == Private ==> q.allowPrivate)
    && (r.sensitivity == Secret ==> q.allowSecret)
  }

  lemma {:induction false} CandidatesAre(s: seq<Record>, q: Query, now: int, r: Record)
    ensures r in Filtered(s, q, now) <==> r in s && Eligible(r, q, now)
  {
    if s != [] {
      CandidatesAre(s[1..], q, now, r);
      assert s == [s[0]] + s[1..];
      assert Allowed(s[0], q, now) <==> Eligible(s[0], q, now);
      hide Allowed, Eligible;
    }
  }

  lemma RankedAre(s: seq<Record>, q: Query, now: int, i: nat)
    requires i < |Ranked(s, q, now)|
    ensures var r := Ranked(s, q, now)[i]; r in s && Eligible(r, q, now)
  {
    var r := Ranked(s, q, now)[i];
    assert r in multiset(Ranked(s, q, now));
    assert r in multiset(Filtered(s, q, now));
    CandidatesAre(s, q, now, r);
  }

  // ---------- the entries ----------

  /** The record as an entry: its text cut to a third of the characters the budget pays for, between 120 and 1200. */
  predicate Shows(e: Entry, r: Record, q: Query) {
    && e.memoryId == r.id && e.section == Section(r.kind).0 && e.pinned == r.pinned && e.score == StableScore(r)
    && e.content == TruncateAtBoundary(r.content, Clamp(4 * Clamp(q.maxTokens, 32, 16384) / 3, 120, 1200))
  }

  lemma EntryShows(r: Record, q: Query)
    ensures Shows(EntryOf(r, q), r, q)
  {
    hide Section, StableScore, TruncateAtBoundary;
  }

  lemma {:induction false} ChosenFollow(s: seq<Record>, mask: seq<bool>, q: Query, i: nat, j: nat) returns (p: nat, r: nat)
    requires |mask| == |s| && i < j < |Chosen(s, mask, q)|
    ensures p < r < |s| && Chosen(s, mask, q)[i] == EntryOf(s[p], q) && Chosen(s, mask, q)[j] == EntryOf(s[r], q)
  {
    hide EntryOf;
    if !mask[0] {
      p, r := ChosenFollow(s[1..], mask[1..], q, i, j);
      p, r := p + 1, r + 1;
    } else if i > 0 {
      p, r := ChosenFollow(s[1..], mask[1..], q, i - 1, j - 1);
      p, r := p + 1, r + 1;
    } else {
      r := ChosenFrom(s[1..], mask[1..], q, j - 1);
      p, r := 0, r + 1;
    }
  }

  lemma {:induction false} ChosenFrom(s: seq<Record>, mask: seq<bool>, q: Query, i: nat) returns (p: nat)
    requires |mask| == |s| && i < |Chosen(s, mask, q)|
    ensures p < |s| && Chosen(s, mask, q)[i] == EntryOf(s[p], q)
  {
    hide EntryOf;
    if !mask[0] {
      p := ChosenFrom(s[1..], mask[1..], q, i);
      p := p + 1;
    } else if i > 0 {
      p := ChosenFrom(s[1..], mask[1..], q, i - 1);
      p := p + 1;
    } else {
      p := 0;
    }
  }

  lemma EntriesFromRanked(s: seq<Record>, q: Query, now: int)
    ensures exists mask :: |mask| == |Ranked(s, q, now)| && BaselineOf(s, q, now).entries == Chosen(Ranked(s, q, now), mask, q)
  {
    var ranked := Ranked(s, q, now);
    var mask := Greedy(Costs(ranked, q), Budget(q));
    assert |mask| == |ranked| && BaselineOf(s, q, now).entries == Chosen(ranked, mask, q);
  }

  /** Any two entries show eligible records in packing order. */
  lemma EntriesInOrder(s: seq<Record>, q: Query, now: int, i: nat, j: nat)
    requires i < j < |BaselineOf(s, q, now).entries|
    ensures exists x, y :: x in s && y in s && Eligible(x, q, now) && Eligible(y, q, now) && ComesFirst(x, y)
                           && Shows(BaselineOf(s, q, now).entries[i], x, q) && Shows(BaselineOf(s, q, now).entries[j], y, q)
  {
    EntriesFromRanked(s, q, now);
    var ranked := Ranked(s, q, now);
    var mask :| |mask| == |ranked| && BaselineOf(s, q, now).entries == Chosen(ranked, mask, q);
    hide BaselineOf, Ranked, Chosen, Eligible, ComesFirst, Shows, EntryOf;
    var p, r := ChosenFollow(ranked, mask, q, i, j);
    RankedAre(s, q, now, p);
    RankedAre(s, q, now, r);
    RankedInOrder(s, q, now, p, r);
    EntryShows(ranked[p], q);
    EntryShows(ranked[r], q);
  }

  /** Every entry shows an eligible record. */
  lemma EntriesEligible(s: seq<Record>, q: Query, now: int, i: nat)
    requires i < |BaselineOf(s, q, now).entries|
    ensures exists x :: x in s && Eligible(x, q, now) && Shows(BaselineOf(s, q, now).entries[i], x, q)
  {
    EntriesFromRanked(s, q, now);
    var ranked := Ranked(s, q, now);
    var mask :| |mask| == |ranked| && BaselineOf(s, q, now).entries == Chosen(ranked, mask, q);
    hide BaselineOf, Ranked, Chosen, Eligible, Shows, EntryOf;
    var p := ChosenFrom(ranked, mask, q, i);
    RankedAre(s, q, now, p);
    EntryShows(ranked[p], q);
  }

  // ---------- the price ----------

  /** Each entry is charged for its text and its label, and two tokens more. */
  function Price(e: Entry): nat {
    Tokens(e.content) + Tokens(e.section) + 2
  }

  function Prices(entries: seq<Entry>): nat {
    if entries == [] then 0 else Price(entries[0]) + Prices(entries[1..])
  }

  lemma EntryPrice(r: Record, q: Query)
    ensures EntryCost(r, q) == Price(EntryOf(r, q))
  {
    hide Section, StableScore, Tokens, TruncateAtBoundary;
  }

  lemma PricesCons(e: Entry, rest: seq<Entry>)
    ensures Prices([e] + rest) == Price(e) + Prices(rest)
  {
    assert ([e] + rest)[1..] == rest;
  }

  lemma {:induction false} SpentIsPrices(s: seq<Record>, mask: seq<bool>, q: Query)
    requires |mask| == |s|
    ensures Spent(Costs(s, q), mask) == Prices(Chosen(s, mask, q))
  {
    hide EntryCost, EntryOf, Price;
    if s != [] {
      var rest, costs := Chosen(s[1..], mask[1..], q), Costs(s, q);
      SpentIsPrices(s[1..], mask[1..], q);
      EntryPrice(s[0], q);
      PricesCons(EntryOf(s[0], q), rest);
      hide Prices;
      assert costs[0] == EntryCost(s[0], q) && costs[1..] == Costs(s[1..], q);
      assert mask[0] ==> Chosen(s, mask, q) == [EntryOf(s[0], q)] + rest;
      assert !mask[0] ==> Chosen(s, mask, q) == rest;
    }
  }

  lemma Ratio(spent: nat, budget: nat)
    requires 0 < budget && spent <= budget
    ensures Pressure(spent, budget) == spent as real / budget as real <= 1.0
  {
    assert spent as real <= budget as real;
  }

  /** The reported tokens are the prices of the entries, the limit is the one asked for within 32 and 16384, and the
      pressure is their ratio. */
  lemma BooksAreHonest(s: seq<Record>, q: Query, now: int)
    ensures var b := BaselineOf(s, q, now);
            && b.estimatedTokens == Prices(b.entries)
            && b.maxTokens == Clamp(q.maxTokens, 32, 16384)
            && b.pressure == b.estimatedTokens as real / b.maxTokens as real <= 1.0
  {
    hide Ranked, Costs, Chosen, Greedy, Spent, Prices, Pressure;
    var ranked := Ranked(s, q, now);
    var costs := Costs(ranked, q);
    SpentIsPrices(ranked, Greedy(costs, Budget(q)), q);
    GreedyWithinBudget(costs, Budget(q));
    Ratio(Spent(costs, Greedy(costs, Budget(q))), Budget(q));
  }

  // ---------- labels and scores ----------

  /** The five sections and what is in them. */
  lemma Sections(kind: Kind)
    ensures Section(kind) ==
            if kind in {UserPreference, PersonalFact, Routine} then ("User baseline", 0)
            else if kind in {ProjectRule, WorkingPattern} then ("Project guardrails", 1)
            else if kind in {ArchitectureDecision, TechnicalFact} then ("Architecture knowledge", 2)
            else if kind in {OpenIssue, ProjectState, FailedApproach} then ("Current project state", 3)
            else ("Recent durable context", 4)
  {
  }

  /** What a record's score is worth: more for importance and confidence, pinning and some kinds, and a little for
      recency, which never makes up for a hundredth. */
  lemma ScoreWeights(r: Record, x: real, y: real, t: int)
    requires ScoresOk(r) && 0.0 <= x <= 1.0 && 0.0 <= y <= 1.0
    ensures StableScore(r.(importance := x)) - StableScore(r) == (x - r.importance) * 0.52
    ensures StableScore(r.(confidence := y)) - StableScore(r) == (y - r.confidence) * 0.28
    ensures StableScore(r.(pinned := true)) - StableScore(r.(pinned := false)) == 0.45
    ensures t >= r.updatedAt ==> 0.0 <= StableScore(r.(updatedAt := t)) - StableScore(r) <= 0.01
    ensures StableScore(r.(kind := ProjectRule)) - StableScore(r.(kind := Episodic)) == 0.20
    ensures StableScore(r.(kind := ArchitectureDecision)) - StableScore(r.(kind := Episodic)) == 0.20
    ensures StableScore(r.(kind := UserPreference)) - StableScore(r.(kind := Episodic)) == 0.15
    ensures StableScore(r.(kind := TechnicalFact)) - StableScore(r.(kind := Episodic)) == 0.08
    ensures StableScore(r.(kind := WorkingPattern)) - StableScore(r.(kind := Episodic)) == 0.08
    ensures forall k :: k in {FailedApproach, OpenIssue, ProjectState, PersonalFact, Routine} ==>
                          StableScore(r.(kind := k)) == StableScore(r.(kind := Episodic))
  {
  }

  /** One day of recency is worth a ten-millionth, for the first hundred thousand days. */
  lemma DayWeighs(r: Record, day: nat)
    requires day < 100000
    ensures StableScore(r.(updatedAt := (day + 1) * 86400)) - StableScore(r.(updatedAt := day * 86400)) == 0.0000001
  {
  }

  /** A score outside 0..1 counts as the nearer end. */
  lemma ScoresClamp(r: Record, x: real)
    ensures x > 1.0 ==> StableScore(r.(importance := x)) == StableScore(r.(importance := 1.0))
    ensures x < 0.0 ==> StableScore(r.(importance := x)) == StableScore(r.(importance := 0.0))
    ensures x > 1.0 ==> StableScore(r.(confidence := x)) == StableScore(r.(confidence := 1.0))
    ensures x < 0.0 ==> StableScore(r.(confidence := x)) == StableScore(r.(confidence := 0.0))
  {
  }
}
