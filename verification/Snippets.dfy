/** `centered_snippet`: a window of bytes around the earliest query term, cut at character
    boundaries and shrunk to a token budget. */
module Snippets {
  import opened Basics
  import opened Text
  import opened Utf8

  function AsciiLower(c: char): char {
    if 'A' <= c <= 'Z' then c + 32 as char else c
  }

  function AsciiLowerAll(s: string): (r: string)
    ensures |r| == |s| && forall i :: 0 <= i < |s| ==> r[i] == AsciiLower(s[i])
  {
    if s == [] then [] else [AsciiLower(s[0])] + AsciiLowerAll(s[1..])
  }

  function TrimToWord(rules: LibraryRules, term: string): string
    decreases |term|
  {
    if term == [] then term
    else if !IsWord(rules, term[0]) then TrimToWord(rules, term[1..])
    else if !IsWord(rules, term[|term| - 1]) then TrimToWord(rules, term[..|term| - 1])
    else term
  }

  /** The search terms of a query: its white-space separated pieces without outer punctuation, of two
      characters or more, in lower case. */
  function Terms(rules: LibraryRules, pieces: seq<string>): (terms: seq<string>)
    ensures forall i :: 0 <= i < |terms| ==> |terms[i]| >= 2
    ensures |terms| <= |pieces|
  {
    if pieces == [] then []
    else
      var t := TrimToWord(rules, pieces[0]);
      (if |t| >= 2 then [AsciiLowerAll(t)] else []) + Terms(rules, pieces[1..])
  }

  function QueryTerms(rules: LibraryRules, query: string): seq<string> {
    Terms(rules, Runs(c => !IsWhitespace(c), query))
  }

  predicate OccursAt(needle: string, haystack: string, k: nat) {
    k + |needle| <= |haystack| && haystack[k..k + |needle|] == needle
  }

  /** `str::find`, counted in characters: the earliest occurrence. */
  function Find(needle: string, haystack: string, from: nat): (r: Option<nat>)
    requires from <= |haystack|
    ensures r.Some? ==> from <= r.value && OccursAt(needle, haystack, r.value)
    ensures r.Some? ==> forall k :: from <= k < r.value ==> !OccursAt(needle, haystack, k)
    ensures r.None? ==> forall k :: from <= k ==> !OccursAt(needle, haystack, k)
    decreases |haystack| - from
  {
    if OccursAt(needle, haystack, from) then Some(from)
    else if from < |haystack| then Find(needle, haystack, from + 1)
    else None
  }

  /** Some term matches at character `k`. */
  ghost predicate Matches(terms: seq<string>, haystack: string, k: nat) {
    exists i :: 0 <= i < |terms| && OccursAt(terms[i], haystack, k)
  }

  ghost predicate EarliestMatch(terms: seq<string>, haystack: string, k: nat) {
    Matches(terms, haystack, k) && forall j :: 0 <= j < k ==> !Matches(terms, haystack, j)
  }

  /** Lower-casing ASCII letters moves no byte. */
  lemma {:induction false} LowerKeepsOffsets(s: string, k: nat)
    requires k <= |s|
    ensures Offset(AsciiLowerAll(s), k) == Offset(s, k)
  {
    if k > 0 {
      LowerKeepsOffsets(s, k - 1);
      OffsetStep(s, k - 1);
      OffsetStep(AsciiLowerAll(s), k - 1);
    }
  }

  /** `best` is the earliest match of any term, or there is none. */
  ghost predicate IsBest(terms: seq<string>, haystack: string, best: Option<nat>) {
    match best
    case Some(k) => EarliestMatch(terms, haystack, k)
    case None => forall k: nat :: !Matches(terms, haystack, k)
  }

  /** The earliest position of any term, as the minimum of the per-term searches. */
  method MatchPosition(terms: seq<string>, haystack: string) returns (best: Option<nat>)
    ensures IsBest(terms, haystack, best)
  {
    best := None;
    for i := 0 to |terms|
      invariant IsBest(terms[..i], haystack, best)
    {
      var found := Find(terms[i], haystack, 0);
      BestSnoc(terms[..i], terms[i], terms[..i + 1], haystack, best);
      if found.Some? && (best.None? || found.value < best.value) {
        best := found;
      }
    }
    assert terms[..|terms|] == terms;
  }

  lemma BestSnoc(init: seq<string>, term: string, all: seq<string>, haystack: string, best: Option<nat>)
    requires all == init + [term] && IsBest(init, haystack, best)
    ensures var found := Find(term, haystack, 0);
            IsBest(all, haystack, if found.Some? && (best.None? || found.value < best.value) then found else best)
  {
    var found := Find(term, haystack, 0);
    forall k: nat
      ensures Matches(all, haystack, k) <==> Matches(init, haystack, k) || OccursAt(term, haystack, k)
    {
      assert all[|init|] == term;
      assert forall j :: 0 <= j < |init| ==> all[j] == init[j];
    }
  }

  lemma MatchInside(terms: seq<string>, haystack: string, k: nat)
    requires (forall i :: 0 <= i < |terms| ==> |terms[i]| >= 2) && Matches(terms, haystack, k)
    ensures k < |haystack|
  {
  }

  // ---------- the window ----------

  /** Characters `a..b` are the window around character `k`: from the first character starting no
      more than half the allowance before `k`, as many characters as fit. */
  ghost predicate IsWindow(value: string, k: nat, maxBytes: nat, a: nat, b: nat) {
    && k <= |value| && a <= b <= |value|
    && Offset(value, a) >= Offset(value, k) - maxBytes / 2
    && (a > 0 ==> Offset(value, a - 1) < Offset(value, k) - maxBytes / 2)
    && Offset(value, b) <= Offset(value, a) + maxBytes
    && (b < |value| ==> Offset(value, b + 1) > Offset(value, a) + maxBytes)
  }

  /** The window contains the whole matched character. */
  lemma WindowContainsMatch(value: string, k: nat, maxBytes: nat, a: nat, b: nat)
    requires IsWindow(value, k, maxBytes, a, b) && k < |value| && maxBytes >= 48
    ensures a <= k < b
  {
    OffsetMonotone(value, Min(a, k), Max(a, k));
    if k < a {
      OffsetOrder(value, k, a - 1);
    }
    if b <= k {
      OffsetOrder(value, b + 1, k + 1);
      OffsetStep(value, k);
    }
  }

  lemma WindowUnique(value: string, k: nat, maxBytes: nat, a: nat, b: nat, a': nat, b': nat)
    requires IsWindow(value, k, maxBytes, a, b) && IsWindow(value, k, maxBytes, a', b')
    ensures a == a' && b == b'
  {
    if a < a' {
      OffsetOrder(value, a, a' - 1);
    } else if a' < a {
      OffsetOrder(value, a', a - 1);
    }
    if b < b' {
      OffsetOrder(value, b + 1, b');
    } else if b' < b {
      OffsetOrder(value, b' + 1, b);
    }
  }

  function Decorated(value: string, a: nat, b: nat): string
    requires a <= b <= |value|
  {
    (if a > 0 then [ELLIPSIS] else []) + Trim(value[a..b]) + (if b < |value| then [ELLIPSIS] else [])
  }

  /** The shrink loop.  Every round drops at least sixteen characters, so it ends: within the budget or
      with at most 32 characters. */
  function Shrink(out: string, maxTokens: nat): (r: string)
    ensures Tokens(r) <= maxTokens || |r| <= 32
    ensures |r| <= |out|
    decreases |out|
  {
    if Tokens(out) > maxTokens && |out| > 32 then Shrink(Gist(out, |out| - 16), maxTokens) else out
  }

  function Allowance(maxTokens: nat): nat {
    Max(maxTokens * 3, 48)
  }

  ghost predicate IsCentered(value: string, k: nat, maxTokens: nat, out: string) {
    exists a, b :: IsWindow(value, k, Allowance(maxTokens), a, b) && out == Shrink(Decorated(value, a, b), maxTokens)
  }

  /** The whole text, a gist, or the shrunk window around the earliest match. */
  ghost predicate IsSnippet(value: string, terms: seq<string>, maxTokens: nat, out: string) {
    if |Encode(value)| <= Allowance(maxTokens) then out == value
    else if forall k: nat :: !Matches(terms, AsciiLowerAll(value), k) then out == Gist(value, Allowance(maxTokens) / 2)
    else exists k: nat :: EarliestMatch(terms, AsciiLowerAll(value), k) && IsCentered(value, k, maxTokens, out)
  }

  method CenteredSnippet(rules: LibraryRules, value: string, query: string, maxTokens: nat) returns (out: string)
    ensures IsSnippet(value, QueryTerms(rules, query), maxTokens, out)
  {
    var maxBytes := Allowance(maxTokens);
    if |Encode(value)| <= maxBytes {
      return value;
    }
    var haystack := AsciiLowerAll(value);
    var terms := QueryTerms(rules, query);
    var matchAt := MatchPosition(terms, haystack);
    if matchAt.None? {
      return Gist(value, maxBytes / 2);
    }
    MatchInside(terms, haystack, matchAt.value);
    out := CenteredAt(value, matchAt.value, maxTokens);
  }

  method CenteredAt(value: string, k: nat, maxTokens: nat) returns (out: string)
    requires k < |value|
    ensures IsCentered(value, k, maxTokens, out)
  {
    var maxBytes := Allowance(maxTokens);
    LowerKeepsOffsets(value, k);
    CharAtOffset(value, k);
    var start, end := WindowBytes(value, Offset(AsciiLowerAll(value), k), maxBytes);
    WindowIsWindow(value, k, maxBytes, start, end);
    var text := WithEllipses(value, start, end);
    out := ShrinkToBudget(text, maxTokens);
  }

  method WithEllipses(value: string, start: nat, end: nat) returns (out: string)
    requires start <= end && IsCharBoundary(Encode(value), start) && IsCharBoundary(Encode(value), end)
    ensures CharAt(value, start) <= CharAt(value, end)
    ensures out == Decorated(value, CharAt(value, start), CharAt(value, end))
  {
    AtEnds(value, start, end);
    OffsetOrder(value, CharAt(value, start), CharAt(value, end));
    var body := Trim(Slice(value, start, end));
    out := [];
    if start > 0 {
      out := out + [ELLIPSIS];
    }
    out := out + body;
    if end < |Encode(value)| {
      out := out + [ELLIPSIS];
    }
  }

  method ShrinkToBudget(text: string, maxTokens: nat) returns (out: string)
    ensures out == Shrink(text, maxTokens)
    ensures (Tokens(out) <= maxTokens || |out| <= 32) && |out| <= |text|
  {
    out := text;
    while Tokens(out) > maxTokens && |out| > 32
      invariant Shrink(out, maxTokens) == Shrink(text, maxTokens)
      decreases |out|
    {
      var target := |out| - 16;
      out := Gist(out, target);
    }
  }

  lemma AtEnds(value: string, start: nat, end: nat)
    requires IsCharBoundary(Encode(value), start) && IsCharBoundary(Encode(value), end)
    ensures start > 0 <==> CharAt(value, start) > 0
    ensures end < |Encode(value)| <==> CharAt(value, end) < |value|
  {
    assert value[..0] == [] && value[..|value|] == value;
    OffsetOrder(value, CharAt(value, start), 0);
    OffsetOrder(value, |value|, CharAt(value, end));
  }

  /** The two boundary loops, on bytes. */
  method WindowBytes(value: string, center: nat, maxBytes: nat) returns (start: nat, end: nat)
    requires IsCharBoundary(Encode(value), center) && maxBytes >= 48
    ensures start <= center && start <= end <= |Encode(value)|
    ensures IsCharBoundary(Encode(value), start) && IsCharBoundary(Encode(value), end)
    ensures start >= center - maxBytes / 2
    ensures forall i :: center - maxBytes / 2 <= i < start && 0 <= i ==> !IsCharBoundary(Encode(value), i)
    ensures end <= start + maxBytes
    ensures forall i :: end < i <= start + maxBytes && i <= |Encode(value)| ==> !IsCharBoundary(Encode(value), i)
  {
    var bytes := Encode(value);
    var from := Max(center - maxBytes / 2, 0);
    start := from;
    while start < |bytes| && !IsCharBoundary(bytes, start)
      invariant from <= start <= center
      invariant forall i :: from <= i < start ==> !IsCharBoundary(bytes, i)
    {
      start := start + 1;
    }
    var limit := Min(start + maxBytes, |bytes|);
    end := limit;
    while end > start && !IsCharBoundary(bytes, end)
      invariant start <= end <= limit
      invariant forall i :: end < i <= limit ==> !IsCharBoundary(bytes, i)
    {
      end := end - 1;
    }
  }

  lemma WindowIsWindow(value: string, k: nat, maxBytes: nat, start: nat, end: nat)
    requires k <= |value| && maxBytes >= 48
    requires start <= Offset(value, k) && start <= end
    requires IsCharBoundary(Encode(value), start) && IsCharBoundary(Encode(value), end)
    requires start >= Offset(value, k) - maxBytes / 2
    requires forall i :: Offset(value, k) - maxBytes / 2 <= i < start && 0 <= i ==> !IsCharBoundary(Encode(value), i)
    requires end <= start + maxBytes
    requires forall i :: end < i <= start + maxBytes && i <= |Encode(value)| ==> !IsCharBoundary(Encode(value), i)
    ensures IsWindow(value, k, maxBytes, CharAt(value, start), CharAt(value, end))
  {
    hide IsCharBoundary, Offset, CharBytes, Encode;
    WindowStart(value, k, maxBytes, start);
    WindowEnd(value, start, end, maxBytes);
    OffsetOrder(value, CharAt(value, start), CharAt(value, end));
    hide CharAt;
  }

  lemma WindowStart(value: string, k: nat, maxBytes: nat, start: nat)
    requires k <= |value| && start <= Offset(value, k) && IsCharBoundary(Encode(value), start)
    requires forall i :: Offset(value, k) - maxBytes / 2 <= i < start && 0 <= i ==> !IsCharBoundary(Encode(value), i)
    ensures var a := CharAt(value, start);
            a <= |value| && Offset(value, a) == start && (a > 0 ==> Offset(value, a - 1) < Offset(value, k) - maxBytes / 2)
  {
    hide IsCharBoundary, Offset, Encode;
    var a := CharAt(value, start);
    if a > 0 {
      CharAtOffset(value, a - 1);
      OffsetStep(value, a - 1);
    }
  }

  lemma WindowEnd(value: string, start: nat, end: nat, maxBytes: nat)
    requires IsCharBoundary(Encode(value), end)
    requires forall i :: end < i <= start + maxBytes && i <= |Encode(value)| ==> !IsCharBoundary(Encode(value), i)
    ensures var b := CharAt(value, end);
            b <= |value| && Offset(value, b) == end && (b < |value| ==> Offset(value, b + 1) > start + maxBytes)
  {
    hide IsCharBoundary, Offset, Encode;
    var b := CharAt(value, end);
    if b < |value| {
      CharAtOffset(value, b + 1);
      OffsetStep(value, b);
    }
  }

  /** With a match in a text over the allowance, the snippet is cut from the window around the earliest
      match. */
  lemma SnippetIsCentered(value: string, terms: seq<string>, k: nat, maxTokens: nat, out: string)
    requires IsSnippet(value, terms, maxTokens, out) && |Encode(value)| > Allowance(maxTokens)
    requires EarliestMatch(terms, AsciiLowerAll(value), k)
    ensures IsCentered(value, k, maxTokens, out)
  {
    var haystack := AsciiLowerAll(value);
    assert Matches(terms, haystack, k);
    var j: nat :| EarliestMatch(terms, haystack, j) && IsCentered(value, j, maxTokens, out);
    assert j == k;
  }

  /** Such a window holds the matched character, and what is cut from it meets the token budget or has
      at most 32 characters. */
  lemma CenteredMeetsBudget(value: string, k: nat, maxTokens: nat, out: string)
    requires IsCentered(value, k, maxTokens, out) && k < |value|
    ensures Tokens(out) <= maxTokens || |out| <= 32
    ensures exists a: nat, b: nat :: a <= k < b && IsWindow(value, k, Allowance(maxTokens), a, b)
                           && out == Shrink(Decorated(value, a, b), maxTokens)
  {
    var a, b :| IsWindow(value, k, Allowance(maxTokens), a, b) && out == Shrink(Decorated(value, a, b), maxTokens);
    WindowContainsMatch(value, k, Allowance(maxTokens), a, b);
  }
}
