/** When a snippet meets its token budget: always on the path that shrinks, and exactly when on the two
    that do not. */
module SnippetBudgets {
  import opened Basics
  import opened Text
  import opened Utf8
  import opened Snippets

  const FLOOR_CHARS: nat := 32

  /** The greatest budget whose gist has no more than 32 characters. */
  const SAFE_TOKENS: nat := 21

  predicate MeetsBudget(out: string, maxTokens: nat) {
    Tokens(out) <= maxTokens || |out| <= FLOOR_CHARS
  }

  predicate Short(value: string, maxTokens: nat) {
    |Encode(value)| <= Allowance(maxTokens)
  }

  ghost predicate Unmatched(value: string, terms: seq<string>) {
    forall k: nat :: !Matches(terms, AsciiLowerAll(value), k)
  }

  function GistChars(maxTokens: nat): nat {
    Allowance(maxTokens) / 2
  }

  // ---------- the three paths ----------

  lemma ShrunkMeetsBudget(value: string, k: nat, maxTokens: nat, out: string)
    requires IsCentered(value, k, maxTokens, out)
    ensures MeetsBudget(out, maxTokens)
  {
    hide Decorated;
    var a, b :| IsWindow(value, k, Allowance(maxTokens), a, b) && out == Shrink(Decorated(value, a, b), maxTokens);
  }

  /** A short text meets the budget exactly when the whole text does, a long one without a match exactly when
      its gist does, and a long one with a match always. */
  lemma BudgetMetIff(value: string, terms: seq<string>, maxTokens: nat, out: string)
    requires IsSnippet(value, terms, maxTokens, out)
    ensures MeetsBudget(out, maxTokens) <==>
            if Short(value, maxTokens) then MeetsBudget(value, maxTokens)
            else Unmatched(value, terms) ==> MeetsBudget(Gist(value, GistChars(maxTokens)), maxTokens)
  {
    hide EarliestMatch, IsCentered, Matches, MeetsBudget;
    if !Short(value, maxTokens) && !Unmatched(value, terms) {
      var k: nat :| EarliestMatch(terms, AsciiLowerAll(value), k) && IsCentered(value, k, maxTokens, out);
      ShrunkMeetsBudget(value, k, maxTokens, out);
    }
  }

  // ---------- how far the budget can be missed ----------

  lemma {:induction false} CountsByKind(s: string)
    ensures Count(IsAscii, s) + Count(IsNonAscii, s) == |s|
    ensures Count(IsPunctuation, s) <= Count(IsAscii, s)
    ensures Count(IsAscii, s) + 2 * Count(IsNonAscii, s) <= |Encode(s)|
  {
    if s != [] {
      CountsByKind(s[1..]);
    }
  }

  lemma TokensBounded(s: string)
    ensures Tokens(s) <= 2 * |s|
    ensures Tokens(s) <= |Encode(s)| + 1
  {
    CountsByKind(s);
  }

  /** On every path a snippet costs at most three times its budget and one token, or 64 tokens. */
  lemma OvershootBounded(value: string, terms: seq<string>, maxTokens: nat, out: string)
    requires IsSnippet(value, terms, maxTokens, out)
    ensures Tokens(out) <= Max(3 * maxTokens + 1, 2 * FLOOR_CHARS)
  {
    TokensBounded(out);
    hide EarliestMatch, IsCentered, Matches, Tokens, Encode, CutPoint;
    if !Short(value, maxTokens) && !Unmatched(value, terms) {
      var k: nat :| EarliestMatch(terms, AsciiLowerAll(value), k) && IsCentered(value, k, maxTokens, out);
      ShrunkMeetsBudget(value, k, maxTokens, out);
    }
  }

  // ---------- texts without a match ----------

  predicate AllAscii(s: string) {
    forall i :: 0 <= i < |s| ==> IsAscii(s[i])
  }

  lemma {:induction false} AsciiCounts(s: string)
    requires AllAscii(s)
    ensures Count(IsAscii, s) == |s| && Count(IsNonAscii, s) == 0
  {
    if s != [] {
      AsciiCounts(s[1..]);
    }
  }

  /** At most one character of a gist of ASCII text is not ASCII. */
  lemma AsciiGist(value: string, maxChars: nat)
    requires AllAscii(value)
    ensures var out := Gist(value, maxChars);
            AllAscii(out) || (out != [] && AllAscii(out[..|out| - 1]) && out[|out| - 1] == ELLIPSIS)
  {
    TrimStartShape(value);
    TrimEndShape(TrimStart(value));
    var trimmed := Trim(value);
    assert AllAscii(trimmed);
    if |trimmed| > maxChars {
      TruncateKeepsPrefix(trimmed, maxChars);
      hide Trim, TruncateAtBoundary, FairlyCut;
      var out := Gist(value, maxChars);
      assert out[..|out| - 1] == trimmed[..|out| - 1];
    }
  }

  lemma AsciiTokens(out: string)
    requires AllAscii(out) || (out != [] && AllAscii(out[..|out| - 1]) && out[|out| - 1] == ELLIPSIS)
    ensures Tokens(out) <= CeilDiv(|out|, 4) + CeilDiv(|out|, 12) + 2
  {
    CountsByKind(out);
    AtMostOneForeign(out);
    hide Count;
  }

  lemma AtMostOneForeign(out: string)
    requires AllAscii(out) || (out != [] && AllAscii(out[..|out| - 1]) && out[|out| - 1] == ELLIPSIS)
    ensures Count(IsNonAscii, out) <= 1
  {
    if AllAscii(out) {
      AsciiCounts(out);
    } else {
      var n := |out| - 1;
      assert out == out[..n] + [ELLIPSIS];
      AsciiCounts(out[..n]);
      CountConcat(IsNonAscii, out[..n], [ELLIPSIS]);
      assert [ELLIPSIS][1..] == [];
    }
  }

  lemma GistLength(value: string, maxTokens: nat)
    ensures |Gist(value, GistChars(maxTokens))| <= GistChars(maxTokens)
  {
  }

  /** The gist of an ASCII text always meets the budget. */
  lemma AsciiGistMeetsBudget(value: string, maxTokens: nat)
    requires AllAscii(value)
    ensures MeetsBudget(Gist(value, GistChars(maxTokens)), maxTokens)
  {
    AsciiGist(value, GistChars(maxTokens));
    AsciiTokens(Gist(value, GistChars(maxTokens)));
    GistLength(value, maxTokens);
    hide Gist, Tokens;
  }

  const IDEOGRAPH: char := '\U{4E00}'
  const ACCENTED: char := '\U{E9}'

  function Repeated(c: char, n: nat): (s: string)
    ensures |s| == n && forall i :: 0 <= i < n ==> s[i] == c
  {
    seq(n, _ => c)
  }

  lemma {:induction false} ForeignCounts(s: string)
    requires forall i :: 0 <= i < |s| ==> IsNonAscii(s[i])
    ensures Count(IsNonAscii, s) == |s| && Tokens(s) == 2 * |s|
  {
    if s != [] {
      ForeignCounts(s[1..]);
    }
    CountsByKind(s);
  }

  lemma CutMeans(prefix: string, kept: nat, cut: nat)
    requires kept <= cut <= |prefix| && FairCut(prefix, kept, cut)
    ensures kept < cut ==> IsWhitespace(prefix[kept])
    ensures cut < |prefix| ==> cut > 0 && IsStop(prefix[cut - 1])
  {
  }

  lemma NothingToCut(prefix: string, kept: nat)
    requires FairlyCut(prefix, kept) && forall i :: 0 <= i < |prefix| ==> prefix[i] == IDEOGRAPH
    ensures kept == |prefix|
  {
    var cut: nat :| kept <= cut <= |prefix| && FairCut(prefix, kept, cut);
    CutMeans(prefix, kept, cut);
  }

  lemma ForeignGist(n: nat, maxChars: nat)
    requires n > maxChars >= 1
    ensures var out := Gist(Repeated(IDEOGRAPH, n), maxChars);
            |out| == maxChars && Tokens(out) == 2 * maxChars
  {
    var value := Repeated(IDEOGRAPH, n);
    TrimTrims(value);
    TruncateKeepsPrefix(value, maxChars);
    var out, prefix := Gist(value, maxChars), value[..maxChars - 1];
    var kept := |out| - 1;
    hide Trim, TruncateAtBoundary, Tokens;
    NothingToCut(prefix, kept);
    ForeignCounts(out);
  }

  /** Every long text without a match gets a snippet that meets the budget. */
  ghost predicate GistsMeetBudget(maxTokens: nat) {
    forall value, terms, out ::
      IsSnippet(value, terms, maxTokens, out) && !Short(value, maxTokens) && Unmatched(value, terms) ==> MeetsBudget(out, maxTokens)
  }

  lemma SafeGists(maxTokens: nat)
    requires maxTokens <= SAFE_TOKENS
    ensures GistsMeetBudget(maxTokens)
  {
    forall value, terms, out | IsSnippet(value, terms, maxTokens, out) && !Short(value, maxTokens) && Unmatched(value, terms)
      ensures MeetsBudget(out, maxTokens)
    {
      GistLength(value, maxTokens);
      hide Matches, Gist;
    }
  }

  lemma UnsafeGist(maxTokens: nat, terms: seq<string>)
    requires maxTokens > SAFE_TOKENS && terms == []
    ensures exists value, out ::
              IsSnippet(value, terms, maxTokens, out) && !Short(value, maxTokens) && Unmatched(value, terms) && !MeetsBudget(out, maxTokens)
  {
    var n := Allowance(maxTokens) + 1;
    var value := Repeated(IDEOGRAPH, n);
    ForeignGist(n, GistChars(maxTokens));
    ForeignCounts(value);
    CountsByKind(value);
    var out := Gist(value, GistChars(maxTokens));
    hide Gist, Tokens, Encode, Count;
    assert Unmatched(value, terms);
    assert IsSnippet(value, terms, maxTokens, out) && !Short(value, maxTokens) && !MeetsBudget(out, maxTokens);
  }

  /** Texts without a match meet the budget, whatever they are, exactly for budgets of at most 21 tokens. */
  lemma GistsMeetBudgetIff(maxTokens: nat)
    ensures GistsMeetBudget(maxTokens) <==> maxTokens <= SAFE_TOKENS
  {
    if maxTokens <= SAFE_TOKENS {
      SafeGists(maxTokens);
    } else {
      UnsafeGist(maxTokens, []);
      hide IsSnippet, Short, Unmatched, MeetsBudget;
    }
  }

  // ---------- short texts ----------

  lemma {:induction false} AccentBytes(s: string)
    requires forall i :: 0 <= i < |s| ==> s[i] == ACCENTED
    ensures |Encode(s)| == 2 * |s|
  {
    if s != [] {
      AccentBytes(s[1..]);
    }
  }

  /** Eighteen letters and fifteen accented ones: 33 characters, 48 bytes, 35 tokens. */
  lemma MixedText() returns (s: string)
    ensures |s| == 33 && |Encode(s)| == 48 && Tokens(s) >= 35
  {
    var letters, accents := Repeated('a', 18), Repeated(ACCENTED, 15);
    s := letters + accents;
    AsciiCounts(letters);
    ForeignCounts(accents);
    AccentBytes(accents);
    LetterBytes(letters);
    EncodeConcat(letters, accents);
    CountConcat(IsAscii, letters, accents);
    CountConcat(IsNonAscii, letters, accents);
    CountsByKind(accents);
    hide Encode, Count;
  }

  lemma {:induction false} LetterBytes(s: string)
    requires AllAscii(s)
    ensures |Encode(s)| == |s|
  {
    if s != [] {
      LetterBytes(s[1..]);
    }
  }

  /** No budget is safe for short texts: each has one, returned whole, that misses it. */
  lemma ShortTextMayMissBudget(maxTokens: nat, terms: seq<string>)
    ensures exists value :: IsSnippet(value, terms, maxTokens, value) && Short(value, maxTokens) && !MeetsBudget(value, maxTokens)
  {
    var value;
    if maxTokens <= SAFE_TOKENS {
      value := MixedText();
    } else {
      value := Repeated(ACCENTED, GistChars(maxTokens));
      ForeignCounts(value);
      AccentBytes(value);
    }
    hide Tokens, Encode, Count;
    assert IsSnippet(value, terms, maxTokens, value) && Short(value, maxTokens) && !MeetsBudget(value, maxTokens);
  }

  // ---------- the shrink loop ----------

  /** How often the loop runs. */
  function Rounds(out: string, maxTokens: nat): nat
    decreases |out|
  {
    if Tokens(out) > maxTokens && |out| > FLOOR_CHARS then 1 + Rounds(Gist(out, |out| - 16), maxTokens) else 0
  }

  /** Each round drops at least sixteen characters, and no round runs on a text that meets the budget. */
  lemma {:induction false} RoundsDropSixteen(out: string, maxTokens: nat)
    ensures |Shrink(out, maxTokens)| + 16 * Rounds(out, maxTokens) <= |out|
    ensures Rounds(out, maxTokens) == 0 <==> MeetsBudget(out, maxTokens)
    ensures Rounds(out, maxTokens) == 0 ==> Shrink(out, maxTokens) == out
    decreases |out|
  {
    if !MeetsBudget(out, maxTokens) {
      RoundsDropSixteen(Gist(out, |out| - 16), maxTokens);
    }
  }
}
