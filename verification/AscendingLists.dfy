/** Ordered sets of identifiers, listed in ascending order. */
module AscendingLists {
  import opened Order

  ghost predicate Ascending(s: seq<string>) {
    forall i, j :: 0 <= i < j < |s| ==> StrLt(s[i], s[j])
  }

  function Elements(s: seq<string>): set<string> {
    set id | id in s
  }

  lemma ElementsCons(s: seq<string>)
    requires s != []
    ensures Elements(s) == {s[0]} + Elements(s[1..])
  {
    assert s == [s[0]] + s[1..];
  }

  /** Insertion into the ordered set `next`, listed in order. */
  function InsertAscending(s: seq<string>, x: string): (r: seq<string>)
    ensures Elements(r) == Elements(s) + {x}
  {
    if s == [] then [x]
    else if s[0] == x then s
    else if StrLe(x, s[0]) then [x] + s
    else
      ElementsCons(s);
      var rest := InsertAscending(s[1..], x);
      ElementsCons([s[0]] + rest);
      [s[0]] + rest
  }

  lemma {:induction false} InsertKeepsAscending(s: seq<string>, x: string)
    requires Ascending(s)
    ensures Ascending(InsertAscending(s, x))
  {
    if s != [] && s[0] != x {
      StrLeTotal(x, s[0]);
      if StrLe(x, s[0]) {
        forall k | 0 <= k < |s|
          ensures StrLt(x, s[k])
        {
          if k > 0 {
            assert StrLt(s[0], s[k]);
            StrLeTransitive(x, s[0], s[k]);
            if x == s[k] {
              StrLeAntisymmetric(s[0], s[k]);
            }
          }
        }
      } else {
        var rest := InsertAscending(s[1..], x);
        InsertKeepsAscending(s[1..], x);
        forall k | 0 <= k < |rest|
          ensures StrLt(s[0], rest[k])
        {
          assert rest[k] in Elements(rest);
          if rest[k] != x {
            assert rest[k] in s[1..];
          }
        }
      }
    }
  }

  /** Only one ascending list has given elements, so no query order can show through. */
  lemma {:induction false} AscendingUnique(a: seq<string>, b: seq<string>)
    requires Ascending(a) && Ascending(b) && Elements(a) == Elements(b)
    ensures a == b
  {
    assert b != [] ==> b[0] in Elements(a);
    if a != [] {
      assert a[0] in Elements(b) && b != [];
      assert b[0] in Elements(a);
      HeadLeast(a, b[0]);
      HeadLeast(b, a[0]);
      StrLeAntisymmetric(a[0], b[0]);
      TailElements(a);
      TailElements(b);
      AscendingUnique(a[1..], b[1..]);
    }
  }

  lemma HeadLeast(s: seq<string>, x: string)
    requires Ascending(s) && x in s
    ensures StrLe(s[0], x)
  {
    StrLeTotal(x, x);
    var k :| 0 <= k < |s| && s[k] == x;
  }

  lemma TailElements(s: seq<string>)
    requires Ascending(s) && s != []
    ensures Ascending(s[1..]) && Elements(s[1..]) == Elements(s) - {s[0]}
  {
    assert s == [s[0]] + s[1..];
    forall x | x in s[1..]
      ensures x != s[0]
    {
      var k :| 0 <= k < |s[1..]| && s[1..][k] == x;
      assert StrLt(s[0], s[k + 1]);
    }
    forall i, j | 0 <= i < j < |s[1..]|
      ensures StrLt(s[1..][i], s[1..][j])
    {
      assert StrLt(s[i + 1], s[j + 1]);
    }
  }

  lemma {:induction false} AscendingExists(s: set<string>) returns (r: seq<string>)
    ensures Ascending(r) && Elements(r) == s
    decreases |s|
  {
    if s == {} {
      r := [];
    } else {
      var x :| x in s;
      var rest := AscendingExists(s - {x});
      r := InsertAscending(rest, x);
      InsertKeepsAscending(rest, x);
    }
  }

  /** The elements of a set in ascending order. */
  ghost function InOrder(s: set<string>): (r: seq<string>)
    ensures Ascending(r) && Elements(r) == s
  {
    assert exists r :: Ascending(r) && Elements(r) == s by {
      var r := AscendingExists(s);
    }
    var r :| Ascending(r) && Elements(r) == s;
    r
  }
}
