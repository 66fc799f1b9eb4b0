/** Text canonicalisation and the token estimator of the core crate. */
module Text {
  import opened Basics

  // ---------- characters ----------

  /** The Unicode White_Space property, which `str::trim` and `split_whitespace` use. */
  predicate IsWhitespace(c: char) {
    var n := c as int;
    || 0x09 <= n <= 0x0D || n == 0x20 || n == 0x85 || n == 0xA0 || n == 0x1680
    || 0x2000 <= n <= 0x200A || n == 0x2028 || n == 0x2029 || n == 0x202F || n == 0x205F || n == 0x3000
  }

  /** What the code takes from libraries: two Unicode tables, and whether a text is a JSON object. */
  datatype LibraryRules = LibraryRules(alphanumeric: char -> bool, lower: char -> string, jsonObject: string -> bool)

  predicate IsWord(rules: LibraryRules, c: char) {
    rules.alphanumeric(c) || c == '_' || c == '-'
  }

  function WordChar(rules: LibraryRules): char -> bool {
    c => IsWord(rules, c)
  }

  function FoldDiacritic(c: char): char {
    var n := c as int;
    if 0xE0 <= n <= 0xE5 then 'a'
    else if 0xE8 <= n <= 0xEB then 'e'
    else if 0xEC <= n <= 0xEF then 'i'
    else if 0xF2 <= n <= 0xF6 then 'o'
    else if 0xF9 <= n <= 0xFC then 'u'
    else if n == 0xE7 then 'c'
    else if n == 0xF1 then 'n'
    else if n == 0xFD || n == 0xFF then 'y'
    else c
  }

  function FoldAll(s: string): string {
    if s == [] then [] else [FoldDiacritic(s[0])] + FoldAll(s[1..])
  }

  /** One input character after lower-casing and folding: usually one character, at most three. */
  function FoldChar(rules: LibraryRules, c: char): string {
    FoldAll(rules.lower(c))
  }

  function Fold(rules: LibraryRules, s: string): string {
    if s == [] then [] else FoldChar(rules, s[0]) + Fold(rules, s[1..])
  }

  /** What the Unicode tables satisfy: folding is stable on the word characters it produces, and
      a space is neither a word character nor changed; no alphanumeric is white space. */
  ghost predicate Lawful(rules: LibraryRules) {
    && (forall c, d :: d in FoldChar(rules, c) && IsWord(rules, d) ==> FoldChar(rules, d) == [d])
    && FoldChar(rules, ' ') == " "
    && (forall c :: rules.alphanumeric(c) ==> !IsWhitespace(c))
  }

  // ---------- trimming ----------

  function TrimStart(s: string): (r: string)
    ensures |r| <= |s|
  {
    if s != [] && IsWhitespace(s[0]) then TrimStart(s[1..]) else s
  }

  function TrimEnd(s: string): (r: string)
    ensures |r| <= |s|
  {
    if s != [] && IsWhitespace(s[|s| - 1]) then TrimEnd(s[..|s| - 1]) else s
  }

  function Trim(s: string): (r: string)
    ensures |r| <= |s|
  {
    TrimEnd(TrimStart(s))
  }

  predicate Trimmed(s: string) {
    s != [] ==> !IsWhitespace(s[0]) && !IsWhitespace(s[|s| - 1])
  }

  lemma {:induction false} TrimStartShape(s: string)
    ensures TrimStart(s) == s[|s| - |TrimStart(s)|..]
    ensures TrimStart(s) != [] ==> !IsWhitespace(TrimStart(s)[0])
  {
    if s != [] && IsWhitespace(s[0]) {
      TrimStartShape(s[1..]);
    }
  }

  lemma {:induction false} TrimEndShape(s: string)
    ensures TrimEnd(s) == s[..|TrimEnd(s)|]
    ensures TrimEnd(s) != [] ==> !IsWhitespace(TrimEnd(s)[|TrimEnd(s)| - 1])
    ensures forall i :: |TrimEnd(s)| <= i < |s| ==> IsWhitespace(s[i])
  {
    if s != [] && IsWhitespace(s[|s| - 1]) {
      TrimEndShape(s[..|s| - 1]);
    }
  }

  /** Trimming leaves no outer white space, and changes exactly the texts that have some. */
  lemma TrimTrims(s: string)
    ensures Trimmed(Trim(s)) && (Trimmed(s) <==> Trim(s) == s)
  {
    TrimStartShape(s);
    TrimEndShape(TrimStart(s));
  }

  // ---------- maximal runs ----------

  /** Each element is non-empty and made of characters satisfying `p`. */
  ghost predicate AreRuns(p: char -> bool, ws: seq<string>) {
    forall k :: 0 <= k < |ws| ==> IsRunOf(p, ws[k])
  }

  predicate IsRunOf(p: char -> bool, w: string) {
    w != [] && forall i :: 0 <= i < |w| ==> p(w[i])
  }

  function RunLength(p: char -> bool, s: string): (n: nat)
    ensures n <= |s|
    ensures forall i :: 0 <= i < n ==> p(s[i])
    ensures n < |s| ==> !p(s[n])
  {
    if s == [] || !p(s[0]) then 0 else 1 + RunLength(p, s[1..])
  }

  /** The maximal runs of characters satisfying `p`, left to right. */
  function Runs(p: char -> bool, s: string): (ws: seq<string>)
    ensures AreRuns(p, ws)
    decreases |s|
  {
    if s == [] then []
    else if !p(s[0]) then Runs(p, s[1..])
    else
      var n := RunLength(p, s);
      [s[..n]] + Runs(p, s[n..])
  }

  function Join(ws: seq<string>): string {
    if ws == [] then ""
    else if |ws| == 1 then ws[0]
    else ws[0] + " " + Join(ws[1..])
  }

  lemma RunLengthIs(p: char -> bool, s: string, n: nat)
    requires n <= |s| && (forall i :: 0 <= i < n ==> p(s[i])) && (n < |s| ==> !p(s[n]))
    ensures RunLength(p, s) == n
  {
    assert !(RunLength(p, s) < n) && !(n < RunLength(p, s));
  }

  lemma RunsOfRun(p: char -> bool, s: string)
    requires IsRunOf(p, s)
    ensures Runs(p, s) == [s]
  {
    RunLengthIs(p, s, |s|);
    assert s[..|s|] == s && s[|s|..] == [];
  }

  lemma RunsFirst(p: char -> bool, w: string, rest: string)
    requires IsRunOf(p, w) && (rest == [] || !p(rest[0]))
    ensures Runs(p, w + rest) == [w] + Runs(p, rest)
  {
    var s := w + rest;
    RunLengthIs(p, s, |w|);
    assert s[..|w|] == w && s[|w|..] == rest;
    assert p(s[0]) by {
      assert s[0] == w[0];
    }
  }

  ghost predicate EndsInRun(p: char -> bool, s: string) {
    s != [] && p(s[|s| - 1])
  }

  /** How one more character changes the runs. */
  ghost predicate Extends(p: char -> bool, s: string, c: char, before: seq<string>, after: seq<string>) {
    if !p(c) then after == before
    else if EndsInRun(p, s) then before != [] && after == before[..|before| - 1] + [before[|before| - 1] + [c]]
    else after == before + [[c]]
  }

  lemma {:induction false} RunsSnoc(p: char -> bool, s: string, c: char)
    ensures Extends(p, s, c, Runs(p, s), Runs(p, s + [c]))
    decreases |s|
  {
    if s == [] {
      RunsOfOne(p, c);
      assert s + [c] == [c];
    } else if !p(s[0]) {
      assert (s + [c])[1..] == s[1..] + [c];
      RunsSnoc(p, s[1..], c);
    } else {
      var n := RunLength(p, s);
      assert s == s[..n] + s[n..];
      if n == |s| {
        RunsSnocWhole(p, s, c);
      } else {
        RunsSnoc(p, s[n..], c);
        RunsSnocAfter(p, s[..n], s[n..], c);
      }
    }
  }

  lemma RunsOfOne(p: char -> bool, c: char)
    ensures Runs(p, [c]) == if p(c) then [[c]] else []
  {
    if p(c) {
      RunsOfRun(p, [c]);
    } else {
      assert [c][1..] == [];
    }
  }

  lemma RunsSnocWhole(p: char -> bool, s: string, c: char)
    requires IsRunOf(p, s)
    ensures Extends(p, s, c, Runs(p, s), Runs(p, s + [c]))
  {
    RunsOfRun(p, s);
    if p(c) {
      RunsOfRun(p, s + [c]);
    } else {
      RunsOfOne(p, c);
      RunsFirst(p, s, [c]);
    }
  }

  lemma RunsSnocAfter(p: char -> bool, w: string, rest: string, c: char)
    requires IsRunOf(p, w) && rest != [] && !p(rest[0])
    requires Extends(p, rest, c, Runs(p, rest), Runs(p, rest + [c]))
    ensures Extends(p, w + rest, c, Runs(p, w + rest), Runs(p, w + rest + [c]))
  {
    RunsFirst(p, w, rest);
    RunsFirst(p, w, rest + [c]);
    assert w + rest + [c] == w + (rest + [c]);
    assert (w + rest)[|w + rest| - 1] == rest[|rest| - 1];
  }

  lemma {:induction false} JoinSnoc(ws: seq<string>, w: string)
    ensures Join(ws + [w]) == if ws == [] then w else Join(ws) + " " + w
  {
    var all := ws + [w];
    if |ws| == 1 {
      assert all[1..] == [w];
    } else if ws != [] {
      assert all[1..] == ws[1..] + [w];
      JoinSnoc(ws[1..], w);
      assert ws[0] + " " + (Join(ws[1..]) + " " + w) == ws[0] + " " + Join(ws[1..]) + " " + w;
    }
  }

  lemma JoinExtendLast(front: seq<string>, last: string, c: char)
    ensures Join(front + [last + [c]]) == Join(front + [last]) + [c]
  {
    JoinSnoc(front, last);
    JoinSnoc(front, last + [c]);
    if front != [] {
      assert Join(front) + " " + (last + [c]) == Join(front) + " " + last + [c];
    }
  }

  /** Splitting a joined text at its separators recovers the words. */
  lemma {:induction false} RunsOfJoin(p: char -> bool, ws: seq<string>)
    requires !p(' ') && AreRuns(p, ws)
    ensures Runs(p, Join(ws)) == ws
  {
    if |ws| == 1 {
      RunsOfRun(p, ws[0]);
    } else if ws != [] {
      var w, rest := ws[0], Join(ws[1..]);
      RunsFirst(p, w, " " + rest);
      assert w + " " + rest == w + (" " + rest) && (" " + rest)[1..] == rest;
      RunsOfJoin(p, ws[1..]);
    }
  }

  // ---------- normalisation ----------

  function Words(rules: LibraryRules, value: string): seq<string> {
    Runs(WordChar(rules), Fold(rules, value))
  }

  function Normalized(rules: LibraryRules, value: string): string {
    Join(Words(rules, value))
  }

  /** SHA-256 taken as injective: a hash is the text it was computed from. */
  datatype ContentHash = Sha256(text: string)

  lemma {:induction false} FoldStable(rules: LibraryRules, s: string)
    requires forall i :: 0 <= i < |s| ==> FoldChar(rules, s[i]) == [s[i]]
    ensures Fold(rules, s) == s
  {
    if s != [] {
      FoldStable(rules, s[1..]);
      assert s == [s[0]] + s[1..];
    }
  }

  lemma {:induction false} JoinChars(ws: seq<string>, i: nat)
    requires i < |Join(ws)|
    ensures Join(ws)[i] == ' ' || exists w :: w in ws && Join(ws)[i] in w
  {
    if |ws| == 1 {
      assert ws[0] in ws && Join(ws)[i] in ws[0];
    } else if i < |ws[0]| {
      assert ws[0] in ws && ws[0][i] in ws[0] && Join(ws)[i] == ws[0][i];
    } else if i > |ws[0]| {
      var k := i - |ws[0]| - 1;
      assert Join(ws)[i] == Join(ws[1..])[k];
      JoinChars(ws[1..], k);
      if Join(ws[1..])[k] != ' ' {
        var w :| w in ws[1..] && Join(ws[1..])[k] in w;
        assert w in ws;
      }
    }
  }

  lemma {:induction false} FoldedChars(rules: LibraryRules, s: string, i: nat)
    requires i < |Fold(rules, s)|
    ensures exists c :: c in s && Fold(rules, s)[i] in FoldChar(rules, c)
  {
    var n := |FoldChar(rules, s[0])|;
    if i >= n {
      FoldedChars(rules, s[1..], i - n);
      var c :| c in s[1..] && Fold(rules, s[1..])[i - n] in FoldChar(rules, c);
      assert c in s;
    }
  }

  lemma {:induction false} RunsChars(p: char -> bool, s: string, w: string, i: nat)
    requires w in Runs(p, s) && i < |w|
    ensures w[i] in s
    decreases |s|
  {
    if !p(s[0]) {
      RunsChars(p, s[1..], w, i);
    } else {
      var n := RunLength(p, s);
      if w != s[..n] {
        RunsChars(p, s[n..], w, i);
      }
    }
  }

  lemma WordCharsStable(rules: LibraryRules, value: string, w: string, i: nat)
    requires Lawful(rules) && w in Words(rules, value) && i < |w|
    ensures FoldChar(rules, w[i]) == [w[i]]
  {
    var p := WordChar(rules);
    RunsChars(p, Fold(rules, value), w, i);
    var k :| 0 <= k < |Fold(rules, value)| && Fold(rules, value)[k] == w[i];
    FoldedChars(rules, value, k);
    assert p(w[i]);
  }

  /** Normalised text is a fixed point and its words are those of the original. */
  lemma NormalizedStable(rules: LibraryRules, value: string)
    requires Lawful(rules)
    ensures Words(rules, Normalized(rules, value)) == Words(rules, value)
    ensures Normalized(rules, Normalized(rules, value)) == Normalized(rules, value)
  {
    var p := WordChar(rules);
    var ws, n := Words(rules, value), Normalized(rules, value);
    forall i | 0 <= i < |n|
      ensures FoldChar(rules, n[i]) == [n[i]]
    {
      JoinChars(ws, i);
      if n[i] != ' ' {
        var w :| w in ws && n[i] in w;
        var k :| 0 <= k < |w| && w[k] == n[i];
        WordCharsStable(rules, value, w, k);
      }
    }
    FoldStable(rules, n);
    assert !p(' ');
    RunsOfJoin(p, ws);
  }

  /** Two contents share a content hash exactly when their word sequences agree. */
  lemma HashIffWords(rules: LibraryRules, a: string, b: string)
    requires Lawful(rules)
    ensures Sha256(Normalized(rules, a)) == Sha256(Normalized(rules, b)) <==> Words(rules, a) == Words(rules, b)
  {
    NormalizedStable(rules, a);
    NormalizedStable(rules, b);
  }

  lemma {:induction false} FoldSnoc(rules: LibraryRules, s: string, c: char)
    ensures Fold(rules, s + [c]) == Fold(rules, s) + FoldChar(rules, c)
  {
    var t := s + [c];
    if s == [] {
      assert t[1..] == [];
    } else {
      assert t[1..] == s[1..] + [c];
      FoldSnoc(rules, s[1..], c);
      assert FoldChar(rules, s[0]) + (Fold(rules, s[1..]) + FoldChar(rules, c))
          == FoldChar(rules, s[0]) + Fold(rules, s[1..]) + FoldChar(rules, c);
    }
  }

  /** What the loop of `normalize` has written after folding `seen`. */
  ghost predicate Written(rules: LibraryRules, seen: string, out: string, separator: bool) {
    var p := WordChar(rules);
    && out == Join(Runs(p, seen)) + (if separator then " " else "")
    && (separator <==> Runs(p, seen) != [] && !p(seen[|seen| - 1]))
    && (out == [] <==> Runs(p, seen) == [])
  }

  lemma WrittenSnoc(rules: LibraryRules, seen: string, out: string, separator: bool, c: char)
    requires Written(rules, seen, out, separator)
    ensures IsWord(rules, c) ==> Written(rules, seen + [c], out + [c], false)
    ensures !IsWord(rules, c) && out != [] && !separator ==> Written(rules, seen + [c], out + [' '], true)
    ensures !IsWord(rules, c) && !(out != [] && !separator) ==> Written(rules, seen + [c], out, separator)
  {
    var p := WordChar(rules);
    var ws := Runs(p, seen);
    RunsSnoc(p, seen, c);
    if IsWord(rules, c) {
      if EndsInRun(p, seen) {
        var front, last := ws[..|ws| - 1], ws[|ws| - 1];
        assert ws == front + [last];
        JoinExtendLast(front, last, c);
      } else {
        JoinSnoc(ws, [c]);
        if ws != [] {
          assert Join(ws) + " " + [c] == out + [c];
        }
      }
    }
  }

  /** The one-pass loop computes the words of the folded text, joined by single spaces. */
  method Normalize(rules: LibraryRules, value: string) returns (r: string)
    requires Lawful(rules)
    ensures r == Normalized(rules, value)
  {
    var out: string, separator := "", false;
    for i := 0 to |value|
      invariant Written(rules, Fold(rules, value[..i]), out, separator)
    {
      FoldNext(rules, value, i);
      out, separator := WriteFolded(rules, FoldChar(rules, value[i]), Fold(rules, value[..i]), out, separator);
    }
    assert value[..|value|] == value;
    TrimJoined(rules, Words(rules, value), separator);
    r := Trim(out);
  }

  /** The loop body, once for each character one input character folds to. */
  method WriteFolded(rules: LibraryRules, folded: string, ghost seen: string, before: string, wasSeparator: bool)
      returns (out: string, separator: bool)
    requires Written(rules, seen, before, wasSeparator)
    ensures Written(rules, seen + folded, out, separator)
  {
    out, separator := before, wasSeparator;
    assert seen + folded[..0] == seen;
    for j := 0 to |folded|
      invariant Written(rules, seen + folded[..j], out, separator)
    {
      var ch := folded[j];
      WrittenSnoc(rules, seen + folded[..j], out, separator, ch);
      assert seen + folded[..j] + [ch] == seen + folded[..j + 1];
      if IsWord(rules, ch) {
        out := out + [ch];
        separator := false;
      } else if out != [] && !separator {
        out := out + [' '];
        separator := true;
      }
    }
    assert folded[..|folded|] == folded;
  }

  lemma FoldNext(rules: LibraryRules, value: string, i: nat)
    requires i < |value|
    ensures Fold(rules, value[..i + 1]) == Fold(rules, value[..i]) + FoldChar(rules, value[i])
  {
    FoldSnoc(rules, value[..i], value[i]);
    assert value[..i] + [value[i]] == value[..i + 1];
  }

  lemma TrimTrailingSpace(s: string)
    requires s != [] && !IsWhitespace(s[0]) && !IsWhitespace(s[|s| - 1])
    ensures Trim(s) == s && Trim(s + " ") == s
  {
    var t := s + " ";
    assert t[0] == s[0] && t[..|t| - 1] == s;
    assert TrimEnd(t) == TrimEnd(s);
  }

  lemma TrimJoined(rules: LibraryRules, ws: seq<string>, separator: bool)
    requires Lawful(rules) && (separator ==> ws != []) && AreRuns(WordChar(rules), ws)
    ensures Trim(Join(ws) + (if separator then " " else "")) == Join(ws)
  {
    if ws != [] {
      JoinEnds(WordChar(rules), ws);
      TrimTrailingSpace(Join(ws));
    }
    assert Join(ws) + "" == Join(ws);
  }

  lemma {:induction false} JoinEnds(p: char -> bool, ws: seq<string>)
    requires ws != [] && AreRuns(p, ws)
    ensures Join(ws) != [] && p(Join(ws)[0]) && p(Join(ws)[|Join(ws)| - 1])
  {
    assert IsRunOf(p, ws[0]);
    if |ws| > 1 {
      JoinEnds(p, ws[1..]);
    }
  }

  // ---------- the token estimate ----------

  predicate IsAscii(c: char) {
    c as int < 0x80
  }

  predicate IsNonAscii(c: char) {
    !IsAscii(c)
  }

  predicate IsPunctuation(c: char) {
    var n := c as int;
    0x21 <= n <= 0x2F || 0x3A <= n <= 0x40 || 0x5B <= n <= 0x60 || 0x7B <= n <= 0x7E
  }

  function Count(p: char -> bool, s: string): nat {
    if s == [] then 0 else (if p(s[0]) then 1 else 0) + Count(p, s[1..])
  }

  function CeilDiv(n: nat, d: nat): nat
    requires d > 0
  {
    (n + d - 1) / d
  }

  function Tokens(value: string): nat {
    CeilDiv(Count(IsAscii, value), 4) + 2 * Count(IsNonAscii, value) + CeilDiv(Count(IsPunctuation, value), 12)
  }

  lemma {:induction false} CountConcat(p: char -> bool, a: string, b: string)
    ensures Count(p, a + b) == Count(p, a) + Count(p, b)
  {
    if a == [] {
      assert a + b == b;
    } else {
      assert (a + b)[1..] == a[1..] + b;
      CountConcat(p, a[1..], b);
    }
  }

  lemma {:induction false} CountPartition(s: string)
    ensures Count(IsAscii, s) + Count(IsNonAscii, s) == |s|
  {
    if s != [] {
      CountPartition(s[1..]);
    }
  }

  /** A text never has more than four characters per estimated token. */
  lemma TokensBoundChars(value: string)
    ensures |value| <= 4 * Tokens(value)
  {
    CountPartition(value);
  }

  method EstimateTokens(value: string) returns (tokens: nat)
    ensures tokens == Tokens(value)
  {
    if value == [] {
      return 0;
    }
    var ascii, nonAscii, punctuation := 0, 0, 0;
    for i := 0 to |value|
      invariant ascii == Count(IsAscii, value[..i])
      invariant nonAscii == Count(IsNonAscii, value[..i])
      invariant punctuation == Count(IsPunctuation, value[..i])
    {
      assert value[..i + 1] == value[..i] + [value[i]];
      CountConcat(IsAscii, value[..i], [value[i]]);
      CountConcat(IsNonAscii, value[..i], [value[i]]);
      CountConcat(IsPunctuation, value[..i], [value[i]]);
      if IsAscii(value[i]) {
        ascii := ascii + 1;
        if IsPunctuation(value[i]) {
          punctuation := punctuation + 1;
        }
      } else {
        nonAscii := nonAscii + 1;
      }
    }
    assert value[..|value|] == value;
    tokens := CeilDiv(ascii, 4) + nonAscii * 2 + CeilDiv(punctuation, 12);
  }
}
