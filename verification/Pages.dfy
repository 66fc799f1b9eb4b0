/** The two reading loops under a token budget: search stops at the first hit that does not fit, get
    skips it and goes on. */
module Pages {
  import opened Basics
  import opened Packing
  import opened Records
  import opened Snippets
  import opened Text
  import opened TextShapes
  import opened Utf8

  const SNIPPET_TOKENS: nat := 56

  // ---------- progressive_search ----------

  datatype Question = Question(rules: LibraryRules, text: string, budget: nat)

  /** A recalled record and the tokens its provenance takes. */
  datatype Source = Source(record: Record, provenance: nat)

  datatype Hit = Hit(id: MemoryId, snippet: string, cost: nat)

  function Total(hits: seq<Hit>): nat {
    if hits == [] then 0 else Total(hits[..|hits| - 1]) + hits[|hits| - 1].cost
  }

  /** A gist when nothing was asked, a centred snippet otherwise. */
  ghost predicate IsExcerpt(q: Question, r: Record, maxTokens: nat, out: string) {
    if Trim(q.text) == [] && r.derived.gist != [] then out == r.derived.gist
    else IsSnippet(r.content, QueryTerms(q.rules, q.text), maxTokens, out)
  }

  /** `hit` presents the record when `left` tokens remain. */
  ghost predicate Presents(q: Question, s: Source, left: int, hit: Hit) {
    && s.provenance < left
    && hit.id == s.record.id
    && IsExcerpt(q, s.record, Min(left - s.provenance, SNIPPET_TOKENS), hit.snippet)
    && hit.cost == Tokens(hit.snippet) + s.provenance
    && 0 < hit.cost <= left
  }

  /** Hit `i` presents record `i` within what the hits before it left. */
  ghost predicate PresentsAt(q: Question, sources: seq<Source>, hits: seq<Hit>, i: nat)
    requires i < |hits| <= |sources|
  {
    Presents(q, sources[i], q.budget - Total(hits[..i]), hits[i])
  }

  ghost predicate IsPage(q: Question, sources: seq<Source>, hits: seq<Hit>) {
    |hits| <= |sources| && forall i: nat :: i < |hits| ==> PresentsAt(q, sources, hits, i)
  }

  /** The next record, if any, cannot be presented. */
  ghost predicate IsFull(q: Question, sources: seq<Source>, hits: seq<Hit>) {
    |hits| < |sources| ==> Unpresentable(q, sources[|hits|], q.budget - Total(hits))
  }

  ghost predicate Unpresentable(q: Question, s: Source, left: int) {
    forall hit :: !Presents(q, s, left, hit)
  }

  lemma EarliestUnique(terms: seq<string>, haystack: string, j: nat, k: nat)
    requires EarliestMatch(terms, haystack, j) && EarliestMatch(terms, haystack, k)
    ensures j == k
  {
  }

  lemma CenteredUnique(value: string, k: nat, maxTokens: nat, a: string, b: string)
    requires IsCentered(value, k, maxTokens, a) && IsCentered(value, k, maxTokens, b)
    ensures a == b
  {
    hide Decorated, Shrink;
    var i, j :| IsWindow(value, k, Allowance(maxTokens), i, j) && a == Shrink(Decorated(value, i, j), maxTokens);
    var i', j' :| IsWindow(value, k, Allowance(maxTokens), i', j') && b == Shrink(Decorated(value, i', j'), maxTokens);
    WindowUnique(value, k, Allowance(maxTokens), i, j, i', j');
  }

  lemma SnippetUnique(value: string, terms: seq<string>, maxTokens: nat, a: string, b: string)
    requires IsSnippet(value, terms, maxTokens, a) && IsSnippet(value, terms, maxTokens, b)
    ensures a == b
  {
    hide EarliestMatch, IsCentered, Matches;
    var haystack := AsciiLowerAll(value);
    if |Encode(value)| > Allowance(maxTokens) && !(forall k: nat :: !Matches(terms, haystack, k)) {
      var j: nat :| EarliestMatch(terms, haystack, j) && IsCentered(value, j, maxTokens, a);
      var k: nat :| EarliestMatch(terms, haystack, k) && IsCentered(value, k, maxTokens, b);
      EarliestUnique(terms, haystack, j, k);
      CenteredUnique(value, j, maxTokens, a, b);
    }
  }

  lemma ExcerptUnique(q: Question, r: Record, maxTokens: nat, a: string, b: string)
    requires IsExcerpt(q, r, maxTokens, a) && IsExcerpt(q, r, maxTokens, b)
    ensures a == b
  {
    hide IsSnippet, Trim, QueryTerms;
    if !(Trim(q.text) == [] && r.derived.gist != []) {
      SnippetUnique(r.content, QueryTerms(q.rules, q.text), maxTokens, a, b);
    }
  }

  /** If its one excerpt does not fit, the record cannot be presented at all. */
  lemma ExcerptDecides(q: Question, s: Source, left: int, excerpt: string)
    requires s.provenance < left ==>
               && IsExcerpt(q, s.record, Min(left - s.provenance, SNIPPET_TOKENS), excerpt)
               && (Tokens(excerpt) + s.provenance == 0 || Tokens(excerpt) + s.provenance > left)
    ensures Unpresentable(q, s, left)
  {
    hide IsExcerpt, Tokens;
    forall hit | Presents(q, s, left, hit)
      ensures false
    {
      ExcerptUnique(q, s.record, Min(left - s.provenance, SNIPPET_TOKENS), hit.snippet, excerpt);
    }
  }

  lemma PresentsUnique(q: Question, s: Source, left: int, a: Hit, b: Hit)
    requires Presents(q, s, left, a) && Presents(q, s, left, b)
    ensures a == b
  {
    hide IsExcerpt, Tokens;
    ExcerptUnique(q, s.record, Min(left - s.provenance, SNIPPET_TOKENS), a.snippet, b.snippet);
  }

  lemma TotalSnoc(hits: seq<Hit>, hit: Hit)
    ensures Total(hits + [hit]) == Total(hits) + hit.cost
  {
    assert (hits + [hit])[..|hits|] == hits;
  }

  lemma PresentsAtSnoc(q: Question, sources: seq<Source>, hits: seq<Hit>, hit: Hit, i: nat)
    requires i <= |hits| < |sources|
    requires if i < |hits| then PresentsAt(q, sources, hits, i) else Presents(q, sources[i], q.budget - Total(hits), hit)
    ensures PresentsAt(q, sources, hits + [hit], i)
  {
    hide Presents, Total;
    assert (hits + [hit])[..i] == hits[..i] && hits[..|hits|] == hits;
  }

  lemma PageSnoc(q: Question, sources: seq<Source>, hits: seq<Hit>, hit: Hit)
    requires IsPage(q, sources, hits) && |hits| < |sources|
    requires Presents(q, sources[|hits|], q.budget - Total(hits), hit)
    ensures IsPage(q, sources, hits + [hit])
    ensures Total(hits + [hit]) == Total(hits) + hit.cost
  {
    hide Presents, PresentsAt, Total;
    TotalSnoc(hits, hit);
    forall i: nat | i < |hits + [hit]|
      ensures PresentsAt(q, sources, hits + [hit], i)
    {
      PresentsAtSnoc(q, sources, hits, hit, i);
    }
  }

  method Excerpt(q: Question, r: Record, maxTokens: nat) returns (out: string)
    ensures IsExcerpt(q, r, maxTokens, out)
  {
    hide IsSnippet;
    if Trim(q.text) == [] && r.derived.gist != [] {
      return r.derived.gist;
    }
    out := CenteredSnippet(q.rules, r.content, q.text, maxTokens);
  }

  /** One round of the loop: the hit, or none if the loop stops here. */
  method Present(q: Question, s: Source, consumed: nat) returns (hit: Option<Hit>)
    ensures hit.Some? ==> Presents(q, s, q.budget - consumed, hit.value)
    ensures hit.None? ==> Unpresentable(q, s, q.budget - consumed)
  {
    hide IsExcerpt, Unpresentable, Tokens;
    if consumed >= q.budget {
      ExcerptDecides(q, s, q.budget - consumed, "");
      return None;
    }
    var remaining := Max(q.budget - (consumed + s.provenance), 0);
    if remaining == 0 {
      ExcerptDecides(q, s, q.budget - consumed, "");
      return None;
    }
    var snippet := Excerpt(q, s.record, Min(remaining, SNIPPET_TOKENS));
    var cost := Tokens(snippet) + s.provenance;
    if cost == 0 || consumed + cost > q.budget {
      ExcerptDecides(q, s, q.budget - consumed, snippet);
      return None;
    }
    hit := Some(Hit(s.record.id, snippet, cost));
  }

  ghost predicate Shown(q: Question, sources: seq<Source>, hits: seq<Hit>, consumed: nat) {
    IsPage(q, sources, hits) && consumed == Total(hits) <= q.budget
  }

  lemma CostBounded(q: Question, s: Source, left: int, hit: Hit)
    requires Presents(q, s, left, hit)
    ensures hit.cost <= left
  {
  }

  lemma ShownSnoc(q: Question, sources: seq<Source>, hits: seq<Hit>, consumed: nat, hit: Hit)
    requires Shown(q, sources, hits, consumed) && |hits| < |sources|
    requires Presents(q, sources[|hits|], q.budget - consumed, hit)
    ensures Shown(q, sources, hits + [hit], consumed + hit.cost)
  {
    hide Presents, PresentsAt, IsPage, IsExcerpt, Tokens, Total;
    PageSnoc(q, sources, hits, hit);
    CostBounded(q, sources[|hits|], q.budget - consumed, hit);
  }

  lemma ShownIsFull(q: Question, sources: seq<Source>, hits: seq<Hit>, consumed: nat)
    requires Shown(q, sources, hits, consumed)
    requires |hits| < |sources| ==> Unpresentable(q, sources[|hits|], q.budget - consumed)
    ensures IsPage(q, sources, hits) && IsFull(q, sources, hits) && consumed == Total(hits) <= q.budget
  {
    hide IsPage, Unpresentable, Total;
  }

  /** `excluding`: the caller excluded some ids from the recall. */
  method ProgressiveSearch(q: Question, sources: seq<Source>, excluding: bool) returns (hits: seq<Hit>, consumed: nat, more: bool)
    ensures IsPage(q, sources, hits) && IsFull(q, sources, hits)
    ensures consumed == Total(hits) <= q.budget
    ensures more <==> |hits| < |sources| || excluding
  {
    hits, consumed := [], 0;
    assert Shown(q, sources, hits, consumed);
    hide *;
    for i := 0 to |sources|
      invariant |hits| == i && Shown(q, sources, hits, consumed)
    {
      var hit := Present(q, sources[i], consumed);
      if hit.None? {
        ShownIsFull(q, sources, hits, consumed);
        return hits, consumed, true;
      }
      ShownSnoc(q, sources, hits, consumed, hit.value);
      consumed := consumed + hit.value.cost;
      hits := hits + [hit.value];
    }
    ShownIsFull(q, sources, hits, consumed);
    return hits, consumed, excluding;
  }

  lemma {:induction false} PagesAgree(q: Question, sources: seq<Source>, a: seq<Hit>, b: seq<Hit>, n: nat)
    requires n <= |a| && n <= |b| && IsPage(q, sources, a) && IsPage(q, sources, b)
    ensures a[..n] == b[..n]
  {
    hide Presents, Total;
    if n > 0 {
      var i: nat := n - 1;
      PagesAgree(q, sources, a, b, i);
      assert PresentsAt(q, sources, a, i) && PresentsAt(q, sources, b, i);
      PresentsUnique(q, sources[i], q.budget - Total(a[..i]), a[i], b[i]);
      assert a[..n] == a[..i] + [a[i]] && b[..n] == b[..i] + [b[i]];
    }
  }

  lemma NextPresented(q: Question, sources: seq<Source>, a: seq<Hit>, b: seq<Hit>)
    requires IsPage(q, sources, b) && |a| < |b| && b[..|a|] == a
    ensures !Unpresentable(q, sources[|a|], q.budget - Total(a))
  {
    hide Presents, Total;
    assert PresentsAt(q, sources, b, |a|);
  }

  /** The answer is a function of the question: full pages agree hit by hit. */
  lemma FullPageUnique(q: Question, sources: seq<Source>, a: seq<Hit>, b: seq<Hit>)
    requires IsPage(q, sources, a) && IsFull(q, sources, a) && IsPage(q, sources, b) && IsFull(q, sources, b)
    requires |a| <= |b|
    ensures a == b
  {
    PagesAgree(q, sources, a, b, |a|);
    hide Presents, PresentsAt, Unpresentable, Total;
    assert a[..|a|] == a;
    if |a| < |b| {
      NextPresented(q, sources, a, b);
    } else {
      assert b[..|b|] == b;
    }
  }

  // ---------- progressive_get ----------

  /** The stored estimate, or a fresh one where the column is empty, plus the provenance. */
  function GetCost(r: Record, provenance: nat): nat {
    (if r.derived.tokensEst > 0 then r.derived.tokensEst else Tokens(r.content)) + provenance
  }

  function GetCosts(rows: seq<Record>, provenance: seq<nat>): (costs: seq<nat>)
    requires |provenance| == |rows|
    ensures |costs| == |rows| && forall i :: 0 <= i < |rows| ==> costs[i] == GetCost(rows[i], provenance[i])
  {
    seq(|rows|, i requires 0 <= i < |rows| => GetCost(rows[i], provenance[i]))
  }

  /** The ids whose mark is `kept`, in order. */
  function Picked(rows: seq<Record>, mask: seq<bool>, kept: bool): seq<MemoryId>
    requires |mask| == |rows|
  {
    if rows == [] then []
    else
      var last := |rows| - 1;
      Picked(rows[..last], mask[..last], kept) + if mask[last] == kept then [rows[last].id] else []
  }

  lemma PickedSnoc(rows: seq<Record>, mask: seq<bool>, r: Record, mark: bool, kept: bool)
    requires |mask| == |rows|
    ensures Picked(rows + [r], mask + [mark], kept) == Picked(rows, mask, kept) + if mark == kept then [r.id] else []
  {
    assert (rows + [r])[..|rows|] == rows && (mask + [mark])[..|rows|] == mask;
  }

  /** What the loop has done with the first rows. */
  ghost predicate Packed(rows: seq<Record>, costs: seq<nat>, budget: nat, selected: seq<MemoryId>, truncated: seq<MemoryId>, consumed: nat)
    requires |costs| == |rows|
  {
    && selected == Picked(rows, Greedy(costs, budget), true)
    && truncated == Picked(rows, Greedy(costs, budget), false)
    && consumed == Spent(costs, Greedy(costs, budget)) <= budget
  }

  lemma PackedSnoc(rows: seq<Record>, costs: seq<nat>, budget: nat, selected: seq<MemoryId>, truncated: seq<MemoryId>, consumed: nat,
                   r: Record, cost: nat)
    requires |costs| == |rows| && Packed(rows, costs, budget, selected, truncated, consumed)
    ensures if consumed + cost > budget then Packed(rows + [r], costs + [cost], budget, selected, truncated + [r.id], consumed)
            else Packed(rows + [r], costs + [cost], budget, selected + [r.id], truncated, consumed + cost)
  {
    var mask, fits := Greedy(costs, budget), consumed + cost <= budget;
    GreedySnoc(costs, budget, cost);
    PickedSnoc(rows, mask, r, fits, true);
    PickedSnoc(rows, mask, r, fits, false);
    hide Greedy, Spent, Picked;
  }

  method ProgressiveGet(rows: seq<Record>, provenance: seq<nat>, budget: nat)
      returns (selected: seq<MemoryId>, truncated: seq<MemoryId>, consumed: nat)
    requires |provenance| == |rows|
    ensures var mask := Greedy(GetCosts(rows, provenance), budget);
            && selected == Picked(rows, mask, true) && truncated == Picked(rows, mask, false)
            && consumed == Spent(GetCosts(rows, provenance), mask) <= budget
  {
    selected, truncated, consumed := [], [], 0;
    ghost var costs := GetCosts(rows, provenance);
    for i := 0 to |rows|
      invariant Packed(rows[..i], costs[..i], budget, selected, truncated, consumed)
    {
      hide Packed, GetCosts;
      var record := rows[i];
      var contentCost := if record.derived.tokensEst > 0 then record.derived.tokensEst else Tokens(record.content);
      var cost := contentCost + provenance[i];
      PackedSnoc(rows[..i], costs[..i], budget, selected, truncated, consumed, record, cost);
      assert rows[..i] + [record] == rows[..i + 1] && costs[..i] + [cost] == costs[..i + 1];
      if consumed + cost > budget {
        truncated := truncated + [record.id];
        continue;
      }
      consumed := consumed + cost;
      selected := selected + [record.id];
    }
    assert rows[..|rows|] == rows && costs[..|rows|] == costs;
  }

  /** Nothing asked for goes unreported. */
  lemma {:induction false} SelectedOrTruncated(rows: seq<Record>, mask: seq<bool>, i: nat)
    requires |mask| == |rows| && i < |rows|
    ensures rows[i].id in Picked(rows, mask, mask[i])
    ensures |Picked(rows, mask, true)| + |Picked(rows, mask, false)| == |rows|
  {
    var last := |rows| - 1;
    assert rows[..last] + [rows[last]] == rows && mask[..last] + [mask[last]] == mask;
    if i < last {
      SelectedOrTruncated(rows[..last], mask[..last], i);
    } else if last > 0 {
      SelectedOrTruncated(rows[..last], mask[..last], 0);
    }
  }

  /** What a record costs: what its row says, or a fresh estimate where the row says nothing, plus its provenance. */
  lemma CostIs(r: Record, provenance: nat)
    ensures r.derived.tokensEst > 0 ==> GetCost(r, provenance) == r.derived.tokensEst + provenance
    ensures r.derived.tokensEst == 0 ==> GetCost(r, provenance) == Tokens(r.content) + provenance
  {
  }

  lemma {:induction false} PickedAre(rows: seq<Record>, mask: seq<bool>, kept: bool, id: MemoryId)
    requires |mask| == |rows|
    ensures id in Picked(rows, mask, kept) <==> exists i :: 0 <= i < |rows| && rows[i].id == id && mask[i] == kept
  {
    if rows != [] {
      var last := |rows| - 1;
      PickedAre(rows[..last], mask[..last], kept, id);
      assert forall i :: 0 <= i < last ==> rows[..last][i] == rows[i] && mask[..last][i] == mask[i];
    }
  }

  /** A hit shows the stored gist when nothing was asked, or else an excerpt of at most 56 tokens of what is left, and is charged for
      what it shows and its provenance, which must fit. */
  lemma HitSays(q: Question, s: Source, left: int, hit: Hit)
    ensures Presents(q, s, left, hit) <==>
            && hit.id == s.record.id && hit.cost == s.provenance + Tokens(hit.snippet)
            && s.provenance < left && 1 <= hit.cost && hit.cost <= left
            && if (forall i :: 0 <= i < |q.text| ==> IsWhitespace(q.text[i])) && s.record.derived.gist != ""
               then hit.snippet == s.record.derived.gist
               else IsSnippet(s.record.content, QueryTerms(q.rules, q.text),
                              if left - s.provenance < 56 then left - s.provenance else 56, hit.snippet)
  {
    BlankIff(q.text);
    hide IsSnippet, Trim, QueryTerms, Tokens, IsWhitespace;
  }

  lemma TotalIs(hits: seq<Hit>, next: Hit)
    ensures Total([]) == 0 && Total(hits + [next]) == Total(hits) + next.cost
  {
    assert (hits + [next])[..|hits|] == hits;
  }
}
