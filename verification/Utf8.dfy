/** UTF-8 (section 3 of RFC 3629), byte offsets into text, and cutting text at sentence ends. */
module Utf8 {
  import opened Basics
  import opened Text

  function CharBytes(c: char): (r: Bytes)
    ensures 1 <= |r| <= 4
    ensures !IsContinuation(r[0]) && forall i :: 0 < i < |r| ==> IsContinuation(r[i])
  {
    var n := c as int;
    if n < 0x80 then [n]
    else if n < 0x800 then [0xC0 + n / 0x40, 0x80 + n % 0x40]
    else if n < 0x10000 then [0xE0 + n / 0x1000, 0x80 + n / 0x40 % 0x40, 0x80 + n % 0x40]
    else [0xF0 + n / 0x40000, 0x80 + n / 0x1000 % 0x40, 0x80 + n / 0x40 % 0x40, 0x80 + n % 0x40]
  }

  predicate IsContinuation(b: Byte) {
    0x80 <= b < 0xC0
  }

  function Encode(s: string): Bytes {
    if s == [] then [] else CharBytes(s[0]) + Encode(s[1..])
  }

  /** `str::is_char_boundary`, which looks at one byte only. */
  predicate IsCharBoundary(bytes: Bytes, i: int) {
    0 <= i <= |bytes| && (i == |bytes| || !IsContinuation(bytes[i]))
  }

  /** The byte offset at which character `k` starts. */
  function Offset(s: string, k: nat): nat
    requires k <= |s|
  {
    |Encode(s[..k])|
  }

  lemma {:induction false} EncodeConcat(a: string, b: string)
    ensures Encode(a + b) == Encode(a) + Encode(b)
  {
    if a == [] {
      assert a + b == b;
    } else {
      assert (a + b)[1..] == a[1..] + b;
      EncodeConcat(a[1..], b);
      assert CharBytes(a[0]) + (Encode(a[1..]) + Encode(b)) == CharBytes(a[0]) + Encode(a[1..]) + Encode(b);
    }
  }

  lemma OffsetSplit(s: string, k: nat)
    requires k <= |s|
    ensures Encode(s) == Encode(s[..k]) + Encode(s[k..])
    ensures Offset(s, k) <= |Encode(s)|
  {
    assert s == s[..k] + s[k..];
    EncodeConcat(s[..k], s[k..]);
  }

  lemma OffsetStep(s: string, k: nat)
    requires k < |s|
    ensures Offset(s, k + 1) == Offset(s, k) + |CharBytes(s[k])|
  {
    assert s[..k + 1] == s[..k] + [s[k]];
    EncodeConcat(s[..k], [s[k]]);
    assert [s[k]][1..] == [];
  }

  lemma {:induction false} OffsetMonotone(s: string, j: nat, k: nat)
    requires j <= k <= |s|
    ensures k - j <= Offset(s, k) - Offset(s, j) <= 4 * (k - j)
  {
    if j < k {
      OffsetMonotone(s, j, k - 1);
      OffsetStep(s, k - 1);
    }
  }

  lemma EncodedByte(s: string, k: nat, i: nat)
    requires k < |s| && i < |CharBytes(s[k])|
    ensures Offset(s, k) + i < |Encode(s)|
    ensures Encode(s)[Offset(s, k) + i] == CharBytes(s[k])[i]
  {
    OffsetSplit(s, k);
    assert s[k..][0] == s[k];
    assert Encode(s[k..]) == CharBytes(s[k]) + Encode(s[k..][1..]);
  }

  /** Every byte of an encoding belongs to exactly one character. */
  lemma {:induction false} LocateByte(s: string, i: nat, n: nat) returns (k: nat)
    requires n <= |s| && i < Offset(s, n)
    ensures k < n && Offset(s, k) <= i < Offset(s, k) + |CharBytes(s[k])|
  {
    assert n > 0;
    OffsetStep(s, n - 1);
    if i >= Offset(s, n - 1) {
      k := n - 1;
    } else {
      k := LocateByte(s, i, n - 1);
    }
  }

  /** The one-byte test finds exactly the places between characters. */
  lemma BoundaryIffOffset(s: string, i: nat)
    ensures IsCharBoundary(Encode(s), i) <==> exists k :: 0 <= k <= |s| && Offset(s, k) == i
  {
    assert s[..|s|] == s;
    if i < |Encode(s)| {
      var k := LocateByte(s, i, |s|);
      EncodedByte(s, k, i - Offset(s, k));
      forall j | 0 <= j <= |s| && Offset(s, j) == i
        ensures j == k && i == Offset(s, k)
      {
        if j < k {
          OffsetMonotone(s, j, k);
        } else if k < j {
          OffsetMonotone(s, k + 1, j);
          OffsetStep(s, k);
        }
      }
    } else {
      forall j | 0 <= j <= |s|
        ensures Offset(s, j) <= |Encode(s)|
      {
        OffsetSplit(s, j);
      }
      if i == |Encode(s)| {
        assert Offset(s, |s|) == i;
      }
    }
  }

  lemma OffsetInjective(s: string, j: nat, k: nat)
    requires j <= |s| && k <= |s| && Offset(s, j) == Offset(s, k)
    ensures j == k
  {
    OffsetMonotone(s, Min(j, k), Max(j, k));
  }

  /** The character at which a byte offset falls. */
  function CharAt(s: string, i: nat): (k: nat)
    requires IsCharBoundary(Encode(s), i)
    ensures k <= |s| && Offset(s, k) == i
  {
    BoundaryIffOffset(s, i);
    OffsetsDiffer(s);
    var k :| 0 <= k <= |s| && Offset(s, k) == i;
    k
  }

  lemma OffsetsDiffer(s: string)
    ensures forall j, k :: 0 <= j <= |s| && 0 <= k <= |s| && Offset(s, j) == Offset(s, k) ==> j == k
  {
    forall j, k | 0 <= j <= |s| && 0 <= k <= |s| && Offset(s, j) == Offset(s, k)
      ensures j == k
    {
      OffsetInjective(s, j, k);
    }
  }

  lemma CharAtOffset(s: string, k: nat)
    requires k <= |s|
    ensures IsCharBoundary(Encode(s), Offset(s, k)) && CharAt(s, Offset(s, k)) == k
  {
    BoundaryIffOffset(s, Offset(s, k));
    OffsetInjective(s, k, CharAt(s, Offset(s, k)));
  }

  /** Rust's `&s[start..end]`, which panics unless both ends are character boundaries. */
  function Slice(s: string, start: nat, end: nat): string
    requires start <= end && IsCharBoundary(Encode(s), start) && IsCharBoundary(Encode(s), end)
  {
    OffsetOrder(s, CharAt(s, start), CharAt(s, end));
    s[CharAt(s, start)..CharAt(s, end)]
  }

  lemma OffsetOrder(s: string, j: nat, k: nat)
    requires j <= |s| && k <= |s|
    ensures Offset(s, j) <= Offset(s, k) <==> j <= k
  {
    OffsetMonotone(s, Min(j, k), Max(j, k));
  }

  // ---------- cutting at a sentence or line end ----------

  const ELLIPSIS: char := '\U{2026}'

  predicate IsStop(c: char) {
    c == '.' || c == '!' || c == '?' || c == '\n'
  }

  /** One past the last sentence end of `s`, or nothing. */
  function LastStop(s: string): (r: Option<nat>)
    ensures r.Some? ==> 0 < r.value <= |s| && IsStop(s[r.value - 1])
    ensures r.Some? ==> forall i :: r.value <= i < |s| ==> !IsStop(s[i])
    ensures r.None? ==> forall i :: 0 <= i < |s| ==> !IsStop(s[i])
  {
    if s == [] then None
    else if IsStop(s[|s| - 1]) then Some(|s|)
    else LastStop(s[..|s| - 1])
  }

  /** Where a text of too many characters is cut: after its last sentence end, unless that lies in the
      first half of its bytes. */
  function CutPoint(prefix: string): (cut: nat)
    ensures cut <= |prefix|
    ensures cut < |prefix| ==> (cut > 0 && IsStop(prefix[cut - 1]) && 2 * Offset(prefix, cut) + 1 >= |Encode(prefix)|)
  {
    var stop := LastStop(prefix);
    if stop.Some? && Offset(prefix, stop.value) >= |Encode(prefix)| / 2 then stop.value else |prefix|
  }

  /** `truncate_at_boundary`: keep the text if it fits, else its first `maxChars - 1` characters up to
      their cut point, without trailing white space, and an ellipsis. */
  function TruncateAtBoundary(value: string, maxChars: nat): (r: string)
    ensures |r| <= Max(maxChars, 1)
  {
    if |value| <= maxChars then value
    else
      var prefix := value[..Max(maxChars - 1, 0)];
      TrimEnd(prefix[..CutPoint(prefix)]) + [ELLIPSIS]
  }

  function Gist(value: string, maxChars: nat): string {
    TruncateAtBoundary(Trim(value), maxChars)
  }

  /** `kept` characters of `prefix` remain: what is dropped is white space up to a place that is the
      end of `prefix` or follows a sentence end in the second half of its bytes. */
  ghost predicate FairlyCut(prefix: string, kept: nat) {
    exists cut :: kept <= cut <= |prefix| && FairCut(prefix, kept, cut)
  }

  ghost predicate FairCut(prefix: string, kept: nat, cut: nat)
    requires kept <= cut <= |prefix|
  {
    && (forall i :: kept <= i < cut ==> IsWhitespace(prefix[i]))
    && (cut < |prefix| ==> (cut > 0 && IsStop(prefix[cut - 1]) && 2 * Offset(prefix, cut) + 1 >= |Encode(prefix)|))
  }

  /** A text that does not fit becomes a fairly cut prefix of itself and an ellipsis. */
  lemma TruncateKeepsPrefix(value: string, maxChars: nat)
    requires |value| > maxChars
    ensures var r := TruncateAtBoundary(value, maxChars);
            var kept := |r| - 1;
            && r == value[..kept] + [ELLIPSIS]
            && (kept > 0 ==> !IsWhitespace(value[kept - 1]))
            && FairlyCut(value[..Max(maxChars - 1, 0)], kept)
  {
    var prefix := value[..Max(maxChars - 1, 0)];
    var cut := CutPoint(prefix);
    var kept := TrimEnd(prefix[..cut]);
    TrimEndShape(prefix[..cut]);
    assert kept == value[..|kept|];
    assert FairCut(prefix, |kept|, cut) by {
      assert forall i :: |kept| <= i < cut ==> prefix[i] == prefix[..cut][i];
    }
  }
}
