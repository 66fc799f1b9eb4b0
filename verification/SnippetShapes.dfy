/** What a snippet shows: the terms it looks for, and the characters they matched. */
module SnippetShapes {
  import opened Basics
  import opened Text
  import opened Utf8
  import opened TextShapes
  import opened Snippets

  // ---------- the terms ----------

  lemma LowerTable(c: char)
    ensures AsciiLower(c) ==
            if c as int >= 65 && (c as int) < 91 then "abcdefghijklmnopqrstuvwxyz"[c as int - 65] else c
  {
  }

  /** A piece of the query loses the punctuation around it, and nothing else. */
  lemma {:induction false} TrimToWordIs(rules: LibraryRules, s: string) returns (i: nat, j: nat)
    ensures i <= j <= |s| && TrimToWord(rules, s) == s[i..j]
    ensures i < j ==> IsWord(rules, s[i]) && IsWord(rules, s[j - 1])
    ensures forall k :: 0 <= k < |s| && !(i <= k < j) ==> !IsWord(rules, s[k])
    decreases |s|
  {
    if s == [] {
      return 0, 0;
    } else if !IsWord(rules, s[0]) {
      i, j := TrimToWordIs(rules, s[1..]);
      i, j := i + 1, j + 1;
    } else if !IsWord(rules, s[|s| - 1]) {
      i, j := TrimToWordIs(rules, s[..|s| - 1]);
    } else {
      return 0, |s|;
    }
  }

  ghost predicate IsTerm(rules: LibraryRules, piece: string, t: string) {
    |t| >= 2 && t == AsciiLowerAll(TrimToWord(rules, piece))
  }

  lemma {:induction false} TermsAre(rules: LibraryRules, pieces: seq<string>, t: string)
    ensures t in Terms(rules, pieces) <==> exists piece :: piece in pieces && IsTerm(rules, piece, t)
  {
    if pieces != [] {
      TermsAre(rules, pieces[1..], t);
      assert pieces == [pieces[0]] + pieces[1..];
      assert IsTerm(rules, pieces[0], t) ==> pieces[0] in pieces;
    }
  }

  /** The terms are the pieces between white space, without outer punctuation and in lower case, that
      have two characters or more. */
  lemma QueryTermsAre(rules: LibraryRules, query: string, t: string)
    ensures t in QueryTerms(rules, query) <==>
            exists piece :: piece in Runs(c => !IsWhitespace(c), query) && IsTerm(rules, piece, t)
  {
    TermsAre(rules, Runs(c => !IsWhitespace(c), query), t);
  }

  /** So no term holds white space. */
  lemma TermsAreSolid(rules: LibraryRules, query: string, t: string, n: nat)
    requires t in QueryTerms(rules, query) && n < |t|
    ensures !IsWhitespace(t[n])
  {
    QueryTermsAre(rules, query, t);
    var piece :| piece in Runs(c => !IsWhitespace(c), query) && IsTerm(rules, piece, t);
    TermsOfPiece(rules, query, piece);
    var i, j := TrimToWordIs(rules, piece);
    assert t[n] == AsciiLower(piece[i + n]);
  }

  lemma TermsOfPiece(rules: LibraryRules, query: string, piece: string)
    requires piece in Runs(c => !IsWhitespace(c), query)
    ensures forall i :: 0 <= i < |piece| ==> !IsWhitespace(piece[i])
  {
    assert IsRunOf(c => !IsWhitespace(c), piece);
  }

  // ---------- the match ----------

  lemma SliceOfSlice(s: string, i: nat, j: nat, from: nat, to: nat)
    requires i <= from <= to <= j <= |s|
    ensures s[i..j][from - i..to - i] == s[from..to]
  {
    var inner, outer := s[i..j][from - i..to - i], s[from..to];
    assert |inner| == |outer| && forall k :: 0 <= k < |outer| ==> inner[k] == outer[k];
  }

  /** Trimming a text leaves a solid part of it where it is. */
  lemma TrimKeepsSolid(s: string, from: nat, to: nat) returns (m: nat)
    requires from < to <= |s| && forall i :: from <= i < to ==> !IsWhitespace(s[i])
    ensures OccursAt(s[from..to], Trim(s), m)
  {
    var i, j := TrimIsMiddle(s);
    assert !IsWhitespace(s[from]) && !IsWhitespace(s[to - 1]);
    hide *;
    assert i <= from && to <= j;
    m := from - i;
    SliceOfSlice(s, i, j, from, to);
    SliceOccurs(s[from..to], Trim(s), m);
  }

  lemma SliceOccurs(needle: string, s: string, m: nat)
    requires m + |needle| <= |s| && s[m..m + |needle|] == needle
    ensures OccursAt(needle, s, m)
  {
  }

  lemma OccursInside(needle: string, pre: string, s: string, post: string, m: nat)
    requires OccursAt(needle, s, m)
    ensures OccursAt(needle, pre + s + post, |pre| + m)
  {
    assert (pre + s + post)[|pre| + m..|pre| + m + |needle|] == s[m..m + |needle|];
  }

  lemma DecoratedHolds(value: string, a: nat, b: nat, from: nat, to: nat) returns (m: nat)
    requires a <= from < to <= b <= |value| && forall i :: from <= i < to ==> !IsWhitespace(value[i])
    ensures OccursAt(value[from..to], Decorated(value, a, b), m)
  {
    var body := value[a..b];
    SliceOfSlice(value, a, b, from, to);
    forall i | from - a <= i < to - a
      ensures !IsWhitespace(body[i])
    {
      assert body[i] == value[a + i];
    }
    hide IsWhitespace, Trim, OccursAt;
    m := TrimKeepsSolid(body, from - a, to - a);
    OccursInside(value[from..to], if a > 0 then [ELLIPSIS] else [], Trim(body), if b < |value| then [ELLIPSIS] else [], m);
    m := m + if a > 0 then 1 else 0;
  }

  /** Whatever case a term was matched in, its characters are no white space. */
  lemma MatchIsSolid(rules: LibraryRules, value: string, query: string, t: string, k: nat)
    requires t in QueryTerms(rules, query) && OccursAt(t, AsciiLowerAll(value), k)
    ensures k + |t| <= |value| && forall i :: k <= i < k + |t| ==> !IsWhitespace(value[i])
  {
    hide *;
    var lower := AsciiLowerAll(value);
    TermHasTwo(rules, query, t);
    OccursMeans(t, lower, k, |t| - 1);
    forall i | k <= i < k + |t|
      ensures !IsWhitespace(value[i])
    {
      TermsAreSolid(rules, query, t, i - k);
      OccursMeans(t, lower, k, i - k);
      LowerSolid(value[i]);
    }
  }

  lemma LowerSolid(c: char)
    ensures IsWhitespace(AsciiLower(c)) <==> IsWhitespace(c)
  {
  }

  lemma OccursMeans(needle: string, s: string, k: nat, n: nat)
    requires OccursAt(needle, s, k) && n < |needle|
    ensures k + n < |s| && needle[n] == s[k + n]
  {
    assert s[k..k + |needle|][n] == s[k + n];
  }

  lemma TermHasTwo(rules: LibraryRules, query: string, t: string)
    requires t in QueryTerms(rules, query)
    ensures |t| >= 2
  {
    QueryTermsAre(rules, query, t);
  }

  /** The snippet of a long text around its earliest match, when it needed no shrinking: it holds every
      character the term matched that lies in the window, and the first of them always does. */
  lemma SnippetHoldsMatch(rules: LibraryRules, value: string, query: string, t: string, k: nat, a: nat, b: nat, maxTokens: nat)
      returns (m: nat)
    requires t in QueryTerms(rules, query) && OccursAt(t, AsciiLowerAll(value), k)
    requires IsWindow(value, k, Allowance(maxTokens), a, b)
    requires Tokens(Decorated(value, a, b)) <= maxTokens || |Decorated(value, a, b)| <= 32
    ensures a <= k < b && k < Min(k + |t|, b) <= |value|
    ensures OccursAt(value[k..Min(k + |t|, b)], Shrink(Decorated(value, a, b), maxTokens), m)
  {
    TermHasTwo(rules, query, t);
    MatchIsSolid(rules, value, query, t, k);
    hide QueryTerms, Decorated, OccursAt, AsciiLowerAll, Tokens, Trim, Offset;
    MatchInWindow(value, k, maxTokens, a, b);
    m := DecoratedHolds(value, a, b, k, Min(k + |t|, b));
  }

  lemma MatchInWindow(value: string, k: nat, maxTokens: nat, a: nat, b: nat)
    requires IsWindow(value, k, Allowance(maxTokens), a, b) && k < |value|
    ensures a <= k < b <= |value|
  {
    WindowContainsMatch(value, k, Allowance(maxTokens), a, b);
  }

  /** A match of up to one character for every twelve bytes of the window lies in it whole. */
  lemma ShortMatchInside(value: string, k: nat, n: nat, a: nat, b: nat, maxBytes: nat)
    requires IsWindow(value, k, maxBytes, a, b) && maxBytes >= 48 && k + n <= |value| && 12 * n <= maxBytes
    ensures k + n <= b
  {
    if b < k + n {
      OffsetOrder(value, b + 1, k + n);
      OffsetMonotone(value, k, k + n);
      WindowStartsNear(value, k, maxBytes, a, b);
    }
  }

  lemma WindowStartsNear(value: string, k: nat, maxBytes: nat, a: nat, b: nat)
    requires IsWindow(value, k, maxBytes, a, b) && k < |value| && maxBytes >= 48
    ensures Offset(value, a) >= Offset(value, k) - maxBytes / 2
  {
  }

  // ---------- shrinking ----------

  /** `next` is a beginning of the text and an ellipsis. */
  predicate IsStart(out: string, next: string) {
    0 < |next| <= |out| && next == out[..|next| - 1] + [ELLIPSIS]
  }

  lemma StartOfStart(out: string, next: string, last: string)
    requires IsStart(out, next) && IsStart(next, last)
    ensures IsStart(out, last)
  {
    assert next[..|last| - 1] == out[..|last| - 1];
  }

  lemma GistIsStart(out: string)
    requires Trimmed(out) && |out| > 32
    ensures IsStart(out, Gist(out, |out| - 16)) && Trimmed(Gist(out, |out| - 16)) && |Gist(out, |out| - 16)| < |out|
  {
    TrimTrims(out);
    TruncateKeepsPrefix(out, |out| - 16);
    hide Trim, TruncateAtBoundary, FairlyCut;
    StartTrimmed(out, Gist(out, |out| - 16));
  }

  lemma StartTrimmed(out: string, next: string)
    requires Trimmed(out) && IsStart(out, next)
    ensures Trimmed(next)
  {
    assert next[0] == if |next| == 1 then ELLIPSIS else out[0];
  }

  /** Shrinking keeps a beginning of the text and ends it with an ellipsis. */
  lemma {:induction false} ShrinkKeepsStart(out: string, maxTokens: nat)
    requires Trimmed(out)
    ensures Shrink(out, maxTokens) == out || IsStart(out, Shrink(out, maxTokens))
    decreases |out|
  {
    hide Tokens, Gist, Trimmed, IsStart;
    if Tokens(out) > maxTokens && |out| > 32 {
      var next := Gist(out, |out| - 16);
      GistIsStart(out);
      ShrinkKeepsStart(next, maxTokens);
      if Shrink(next, maxTokens) != next {
        StartOfStart(out, next, Shrink(next, maxTokens));
      }
    }
  }

  lemma DecoratedTrimmed(value: string, a: nat, b: nat)
    requires a <= b <= |value|
    ensures Trimmed(Decorated(value, a, b))
  {
    TrimTrims(value[a..b]);
  }

  /** A shrunk snippet holds the match as long as it is cut behind it. */
  lemma ShrunkHolds(needle: string, out: string, m: nat, maxTokens: nat)
    requires Trimmed(out) && OccursAt(needle, out, m)
    requires m + |needle| < |Shrink(out, maxTokens)|
    ensures OccursAt(needle, Shrink(out, maxTokens), m)
  {
    ShrinkKeepsStart(out, maxTokens);
    hide Shrink, Trimmed;
    StartHolds(needle, out, m, Shrink(out, maxTokens));
  }

  lemma StartHolds(needle: string, out: string, m: nat, next: string)
    requires OccursAt(needle, out, m) && m + |needle| < |next|
    ensures IsStart(out, next) ==> OccursAt(needle, next, m)
  {
    assert IsStart(out, next) ==> next[m..m + |needle|] == out[m..m + |needle|];
  }

  /** An ellipsis marks each side on which text is left out. */
  lemma DecoratedMarks(value: string, a: nat, b: nat)
    requires a <= b <= |value|
    ensures var d, body := Decorated(value, a, b), Trim(value[a..b]);
            && (a == 0 && b == |value| ==> d == body)
            && (a > 0 && b == |value| ==> d == "\U{2026}" + body)
            && (a == 0 && b < |value| ==> d == body + "\U{2026}")
            && (a > 0 && b < |value| ==> d == "\U{2026}" + body + "\U{2026}")
  {
    hide Trim;
  }

  /** Three bytes per token of the budget, and 48 at least. */
  lemma AllowanceIs(maxTokens: nat)
    ensures maxTokens < 16 ==> Allowance(maxTokens) == 48
    ensures maxTokens >= 16 ==> Allowance(maxTokens) == 3 * maxTokens
  {
  }
}
