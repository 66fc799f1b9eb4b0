/** What trimming, splitting, counting, encoding and cutting keep of a text, stated on its characters. */
module TextShapes {
  import opened Basics
  import opened Text
  import opened Utf8

  // ---------- trimming ----------

  lemma {:induction false} TrimStartDrops(s: string, i: nat)
    requires i < |s| - |TrimStart(s)|
    ensures IsWhitespace(s[i])
  {
    if i > 0 {
      TrimStartDrops(s[1..], i - 1);
    }
  }

  /** A trimmed text is the middle of the text, and white space is all that is dropped. */
  lemma TrimIsMiddle(s: string) returns (i: nat, j: nat)
    ensures i <= j <= |s| && Trim(s) == s[i..j] && Trimmed(Trim(s))
    ensures forall k :: 0 <= k < |s| && !(i <= k < j) ==> IsWhitespace(s[k])
  {
    var t := TrimStart(s);
    TrimTrims(s);
    TrimStartShape(s);
    TrimEndShape(t);
    i := |s| - |t|;
    j := i + |Trim(s)|;
    forall k | 0 <= k < |s| && !(i <= k < j)
      ensures IsWhitespace(s[k])
    {
      if k < i {
        TrimStartDrops(s, k);
      } else {
        assert s[k] == t[k - i];
      }
    }
  }

  // ---------- splitting ----------

  /** Gaps and words in turn, a gap at either end. */
  function Spread(gaps: seq<string>, ws: seq<string>): string
    requires |gaps| == |ws| + 1
  {
    if ws == [] then gaps[0] else gaps[0] + ws[0] + Spread(gaps[1..], ws[1..])
  }

  predicate IsGap(p: char -> bool, g: string) {
    forall i :: 0 <= i < |g| ==> !p(g[i])
  }

  /** The gaps hold no word character, and only the outer ones may be empty. */
  ghost predicate AreGaps(p: char -> bool, gaps: seq<string>) {
    && (forall k :: 0 <= k < |gaps| ==> IsGap(p, gaps[k]))
    && forall k :: 0 < k < |gaps| - 1 ==> gaps[k] != ""
  }

  /** Splitting loses nothing: the text is its runs with gaps between them. */
  lemma {:induction false} RunsFillText(p: char -> bool, s: string) returns (gaps: seq<string>)
    ensures |gaps| == |Runs(p, s)| + 1 && AreGaps(p, gaps) && Spread(gaps, Runs(p, s)) == s
    decreases |s|
  {
    if s == [] {
      gaps := [""];
    } else if !p(s[0]) {
      var rest := RunsFillText(p, s[1..]);
      gaps := rest[0 := [s[0]] + rest[0]];
      assert gaps[1..] == rest[1..];
      SpreadGrows(rest, Runs(p, s[1..]), s[0]);
    } else {
      var n := RunLength(p, s);
      var rest := RunsFillText(p, s[n..]);
      gaps := [""] + rest;
      assert gaps[1..] == rest;
      assert s == s[..n] + s[n..];
      assert Runs(p, s)[1..] == Runs(p, s[n..]);
      if Runs(p, s[n..]) != [] && rest[0] == "" {
        FirstGapEmpty(p, s[n..], rest);
      }
    }
  }

  lemma SpreadGrows(gaps: seq<string>, ws: seq<string>, c: char)
    requires |gaps| == |ws| + 1
    ensures Spread(gaps[0 := [c] + gaps[0]], ws) == [c] + Spread(gaps, ws)
  {
    assert gaps[0 := [c] + gaps[0]][1..] == gaps[1..];
  }

  lemma FirstGapEmpty(p: char -> bool, s: string, gaps: seq<string>)
    requires |gaps| == |Runs(p, s)| + 1 && Spread(gaps, Runs(p, s)) == s && Runs(p, s) != [] && gaps[0] == ""
    ensures s != "" && p(s[0])
  {
    var w := Runs(p, s)[0];
    assert IsRunOf(p, w);
    assert s == w + Spread(gaps[1..], Runs(p, s)[1..]);
    assert s[0] == w[0];
  }

  /** The words of a text are the letters, digits, underscores and hyphens of its folded form, split where anything
      else stands. */
  lemma WordsFillFold(rules: LibraryRules, value: string) returns (gaps: seq<string>)
    ensures |gaps| == |Words(rules, value)| + 1 && Spread(gaps, Words(rules, value)) == Fold(rules, value)
    ensures forall w, i :: w in Words(rules, value) && 0 <= i < |w| ==> rules.alphanumeric(w[i]) || w[i] == '_' || w[i] == '-'
    ensures forall w :: w in Words(rules, value) ==> w != ""
    ensures forall g, i :: g in gaps && 0 <= i < |g| ==> !rules.alphanumeric(g[i]) && g[i] != '_' && g[i] != '-'
    ensures forall k :: 0 < k < |gaps| - 1 ==> gaps[k] != ""
  {
    var p := WordChar(rules);
    gaps := RunsFillText(p, Fold(rules, value));
    forall w, i | w in Words(rules, value) && 0 <= i < |w|
      ensures rules.alphanumeric(w[i]) || w[i] == '_' || w[i] == '-'
    {
      assert IsRunOf(p, w) && p(w[i]);
    }
    forall w | w in Words(rules, value)
      ensures w != ""
    {
      assert IsRunOf(p, w);
    }
    forall g, i | g in gaps && 0 <= i < |g|
      ensures !rules.alphanumeric(g[i]) && g[i] != '_' && g[i] != '-'
    {
      assert IsGap(p, g) && !p(g[i]);
    }
  }

  function Spaces(n: nat): (gaps: seq<string>)
    ensures |gaps| == n + 2 && gaps[0] == "" && gaps[n + 1] == "" && forall k :: 0 < k <= n ==> gaps[k] == " "
  {
    [""] + seq(n, _ => " ") + [""]
  }

  /** Joining puts one space between neighbours and nothing elsewhere. */
  lemma {:induction false} JoinIsSpread(ws: seq<string>)
    requires ws != []
    ensures Join(ws) == Spread(Spaces(|ws| - 1), ws)
  {
    if |ws| == 1 {
      SpreadOne(ws[0]);
      assert ws == [ws[0]];
    } else {
      JoinIsSpread(ws[1..]);
      SpreadMore(ws);
      hide Spread, Spaces;
      assert ws[0] + " " + Join(ws[1..]) == ws[0] + (" " + Join(ws[1..]));
    }
  }

  lemma SpreadOne(w: string)
    ensures Spread(Spaces(0), [w]) == w
  {
    var gaps := Spaces(0);
    assert [w][1..] == [] && gaps[1..] == [""];
    assert Spread(gaps[1..], [w][1..]) == "";
  }

  lemma SpreadMore(ws: seq<string>)
    requires |ws| > 1
    ensures Spread(Spaces(|ws| - 1), ws) == ws[0] + (" " + Spread(Spaces(|ws| - 2), ws[1..]))
  {
    var gaps, fewer := Spaces(|ws| - 1), Spaces(|ws| - 2);
    SpacesTail(|ws| - 2);
    SpreadGrows(fewer, ws[1..], ' ');
    SpreadFirst(gaps, ws);
  }

  lemma SpreadFirst(gaps: seq<string>, ws: seq<string>)
    requires |gaps| == |ws| + 1 && ws != [] && gaps[0] == ""
    ensures Spread(gaps, ws) == ws[0] + Spread(gaps[1..], ws[1..])
  {
  }

  lemma SpacesTail(n: nat)
    ensures Spaces(n + 1)[1..] == Spaces(n)[0 := [' '] + Spaces(n)[0]]
  {
    assert [' '] + "" == " ";
    var tail, grown := Spaces(n + 1)[1..], Spaces(n)[0 := " "];
    assert forall i :: 0 <= i < n + 2 ==> tail[i] == grown[i];
  }

  // ---------- folding ----------

  /** Folding turns the accented Latin letters into their base letters and leaves everything else. */
  lemma FoldTable(c: char)
    ensures FoldDiacritic(c) ==
            if c in "\U{E0}\U{E1}\U{E2}\U{E3}\U{E4}\U{E5}" then 'a'
            else if c in "\U{E8}\U{E9}\U{EA}\U{EB}" then 'e'
            else if c in "\U{EC}\U{ED}\U{EE}\U{EF}" then 'i'
            else if c in "\U{F2}\U{F3}\U{F4}\U{F5}\U{F6}" then 'o'
            else if c in "\U{F9}\U{FA}\U{FB}\U{FC}" then 'u'
            else if c == '\U{E7}' then 'c'
            else if c == '\U{F1}' then 'n'
            else if c in "\U{FD}\U{FF}" then 'y'
            else c
  {
  }

  /** Folding a text folds each character's lower case in turn. */
  lemma {:induction false} FoldConcat(rules: LibraryRules, a: string, b: string)
    ensures Fold(rules, a + b) == Fold(rules, a) + Fold(rules, b)
  {
    if a == [] {
      assert a + b == b;
    } else {
      assert (a + b)[1..] == a[1..] + b;
      FoldConcat(rules, a[1..], b);
    }
  }

  lemma {:induction false} FoldAllPointwise(s: string)
    ensures |FoldAll(s)| == |s| && forall i :: 0 <= i < |s| ==> FoldAll(s)[i] == FoldDiacritic(s[i])
  {
    if s != [] {
      FoldAllPointwise(s[1..]);
    }
  }

  lemma FoldOne(rules: LibraryRules, c: char)
    ensures Fold(rules, [c]) == FoldAll(rules.lower(c))
  {
    assert [c][1..] == [];
  }

  // ---------- counting ----------

  lemma {:induction false} CountIs(p: char -> bool, s: string)
    ensures Count(p, s) == |set i | 0 <= i < |s| && p(s[i])|
  {
    if s != [] {
      var n := |s| - 1;
      assert s == s[..n] + [s[n]];
      CountConcat(p, s[..n], [s[n]]);
      CountIs(p, s[..n]);
      assert [s[n]][1..] == [];
      assert (set i | 0 <= i < |s| && p(s[i])) == (set i | 0 <= i < n && p(s[..n][i])) + if p(s[n]) then {n} else {};
    }
  }

  /** Punctuation is every printable ASCII character but letters, digits and the space. */
  lemma PunctuationIs(c: char)
    ensures IsPunctuation(c) <==>
            '!' <= c <= '~' && !('0' <= c <= '9') && !('A' <= c <= 'Z') && !('a' <= c <= 'z')
  {
  }

  /** The estimate: a quarter token per ASCII character and two per other, a twelfth more per punctuation mark, the
      two fractions rounded up. */
  lemma EstimateIs(s: string)
    ensures var ascii, other, marks := Count(c => c as int < 128, s), Count(c => c as int >= 128, s), Count(IsPunctuation, s);
            3 * ascii + 24 * other + marks <= 12 * Tokens(s) <= 3 * ascii + 24 * other + marks + 20
    ensures s == "" ==> Tokens(s) == 0
  {
    SameCount(IsAscii, c => c as int < 128, s);
    SameCount(IsNonAscii, c => c as int >= 128, s);
  }

  lemma {:induction false} SameCount(p: char -> bool, q: char -> bool, s: string)
    requires forall c :: p(c) == q(c)
    ensures Count(p, s) == Count(q, s)
  {
    if s != [] {
      SameCount(p, q, s[1..]);
    }
  }

  // ---------- encoding ----------

  function Low(b: int): int {
    b - 128
  }

  /** The code point the bytes of one character stand for. */
  function CodePoint(b: Bytes): int
    requires 1 <= |b| <= 4
  {
    var lead: int := b[0];
    if |b| == 1 then lead
    else if |b| == 2 then (lead - 192) * 64 + Low(b[1])
    else if |b| == 3 then (lead - 224) * 4096 + Low(b[1]) * 64 + Low(b[2])
    else (lead - 240) * 262144 + Low(b[1]) * 4096 + Low(b[2]) * 64 + Low(b[3])
  }

  lemma Digits(n: nat)
    ensures n == n / 64 * 64 + n % 64
    ensures n / 64 == n / 4096 * 64 + n / 64 % 64
    ensures n / 4096 == n / 262144 * 64 + n / 4096 % 64
  {
  }

  /** The bytes of a character stand for it. */
  lemma CharBytesStandFor(c: char)
    ensures CodePoint(CharBytes(c)) == c as int
  {
    var n := c as int;
    Digits(n);
  }

  /** Their number is the shortest possible, and the first byte tells it. */
  lemma CharBytesShape(c: char)
    ensures var b, n := CharBytes(c), c as int;
            && |b| == (if n < 128 then 1 else if n < 2048 then 2 else if n < 65536 then 3 else 4)
            && (|b| == 1 ==> b[0] < 128) && (|b| == 2 ==> 192 <= b[0] < 224)
            && (|b| == 3 ==> 224 <= b[0] < 240) && (|b| == 4 ==> 240 <= b[0] < 248)
            && forall i :: 0 < i < |b| ==> 128 <= b[i] < 192
  {
  }

  // ---------- cutting ----------

  predicate EndsSentence(c: char) {
    c in ".!?\n"
  }

  /** The last sentence end of the text is its character `i`. */
  predicate IsLastEnd(s: string, i: nat) {
    i < |s| && EndsSentence(s[i]) && forall k :: i < k < |s| ==> !EndsSentence(s[k])
  }

  /** A text is cut after its last sentence end, if that lies in the second half of its bytes, and not at all
      otherwise. */
  lemma CutPointIs(prefix: string)
    ensures forall i: nat :: IsLastEnd(prefix, i) ==>
              CutPoint(prefix) == if 2 * Offset(prefix, i + 1) + 1 >= |Encode(prefix)| then i + 1 else |prefix|
    ensures (forall i: nat :: !IsLastEnd(prefix, i)) ==> CutPoint(prefix) == |prefix|
  {
    var stop := LastStop(prefix);
    hide Offset, Encode;
    assert forall c :: EndsSentence(c) <==> IsStop(c);
    assert stop.Some? ==> IsLastEnd(prefix, stop.value - 1);
    forall i: nat | IsLastEnd(prefix, i)
      ensures stop == Some(i + 1)
    {
      assert IsStop(prefix[i]);
    }
  }

  /** A gist is the trimmed text if it has no more characters than allowed; otherwise its first characters, one fewer
      than allowed, cut at that point, without white space at the end, and an ellipsis. */
  lemma GistIs(value: string, maxChars: nat)
    ensures |Trim(value)| <= maxChars ==> Gist(value, maxChars) == Trim(value)
    ensures |Trim(value)| > maxChars ==>
              var prefix := Trim(value)[..if maxChars == 0 then 0 else maxChars - 1];
              exists kept: nat :: kept <= CutPoint(prefix)
                                  && Gist(value, maxChars) == prefix[..kept] + "\U{2026}"
                                  && (kept > 0 ==> !IsWhitespace(prefix[kept - 1]))
                                  && forall i :: kept <= i < CutPoint(prefix) ==> IsWhitespace(prefix[i])
  {
    if |Trim(value)| > maxChars {
      var prefix := Trim(value)[..if maxChars == 0 then 0 else maxChars - 1];
      var cut := CutPoint(prefix);
      hide Trim, CutPoint, Offset, Encode;
      TrimEndShape(prefix[..cut]);
      var kept := |TrimEnd(prefix[..cut])|;
      assert prefix[..kept] == TrimEnd(prefix[..cut]);
      assert forall i :: kept <= i < cut ==> prefix[i] == prefix[..cut][i];
      assert Gist(value, maxChars) == prefix[..kept] + "\U{2026}";
    }
  }

  /** A text is trimmed to nothing exactly when it holds nothing but white space. */
  lemma BlankIff(s: string)
    ensures Trim(s) == "" <==> forall i :: 0 <= i < |s| ==> IsWhitespace(s[i])
  {
    var i, j := TrimIsMiddle(s);
    if i < j {
      assert Trim(s)[0] == s[i];
    }
  }
}
