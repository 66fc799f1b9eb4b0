/** Baseline revisions and etags over histories of the memory table: when a client may keep the baseline
    it has. */
module Etags {
  import opened Basics
  import opened Order
  import opened Text
  import opened Records
  import opened MemoryTables
  import opened Baseline

  const READ_LIMIT: nat := 512

  /** States of the table after each committed transaction; every operation of the store makes one `Step`. */
  ghost predicate IsHistory(rules: LibraryRules, h: seq<Db>) {
    && (forall i :: 0 <= i < |h| ==> Inv(rules, h[i]))
    && (forall i :: 0 <= i < |h| - 1 ==> Step(h[i], h[i + 1]))
  }

  lemma {:induction false} HistoryTracks(rules: LibraryRules, h: seq<Db>, i: nat, j: nat)
    requires IsHistory(rules, h) && i <= j < |h|
    ensures Tracks(h[i], h[j])
  {
    hide Inv, Tracks, Keeps;
    if i == j {
      TracksReflexive(h[i]);
    } else {
      HistoryTracks(rules, h, i, j - 1);
      assert Step(h[j - 1], h[j - 1 + 1]);
      TracksTransitive(h[i], h[j - 1], h[j]);
    }
  }

  lemma TracksReflexive(a: Db)
    ensures Tracks(a, a)
  {
  }

  /** While a row exists its sensitivity never drops and its creation time never changes. */
  lemma {:induction false} SensitivityNeverDrops(rules: LibraryRules, h: seq<Db>, i: nat, j: nat, id: MemoryId)
    requires IsHistory(rules, h) && i <= j < |h|
    requires forall k :: i <= k <= j ==> id in h[k].rows
    ensures h[i].rows[id].sensitivity.Rank() <= h[j].rows[id].sensitivity.Rank()
    ensures h[i].rows[id].createdAt == h[j].rows[id].createdAt
  {
    hide Inv, Tracks;
    if i < j {
      SensitivityNeverDrops(rules, h, i, j - 1, id);
      assert Step(h[j - 1], h[j - 1 + 1]);
    }
  }

  // ---------- what a baseline query reads ----------

  /** The WHERE clause of `baseline`. */
  predicate Selected(r: Record, q: Query, at: int) {
    && r.address.namespace == q.namespace
    && (|| r.address.scope.Global?
        || (r.address.workspace == q.workspace && r.address.scope.Workspace?)
        || (r.address.workspace == q.workspace && r.address.scope.Conversation? && r.address.scopeKey == Some(Coalesce(q.scopeKey))))
    && r.status.Active? && IsValidAt(r, at)
    && !r.sensitivity.Ephemeral? && (r.sensitivity.Private? ==> q.allowPrivate) && (r.sensitivity.Secret? ==> q.allowSecret)
  }

  /** On stored rows the SQL filter and the in-memory filter agree. */
  lemma SelectedIsAllowed(r: Record, q: Query, at: int)
    requires AddressOk(r.address)
    ensures Selected(r, q, at) <==> Allowed(r, q, at)
  {
  }

  ghost function SelectedIds(rows: Rows, q: Query, at: int): set<MemoryId> {
    set id | id in rows && Selected(rows[id], q, at)
  }

  /** The rows read, in any order; beyond the limit, any of them. */
  ghost predicate IsReading(rows: Rows, q: Query, at: int, s: seq<Record>) {
    && NoDuplicates(s) && |s| <= READ_LIMIT
    && (forall r :: r in s ==> r.id in SelectedIds(rows, q, at) && rows[r.id] == r)
    && (|SelectedIds(rows, q, at)| <= READ_LIMIT ==> forall id :: id in SelectedIds(rows, q, at) ==> rows[id] in s)
  }

  /** The counters a query sums: its namespace, the global and its own workspace, no key and its own key. */
  function CountersOf(q: Query): set<CounterKey> {
    var key := Coalesce(q.scopeKey);
    {CounterKey(q.namespace, GLOBAL, ""), CounterKey(q.namespace, GLOBAL, key),
     CounterKey(q.namespace, q.workspace, ""), CounterKey(q.namespace, q.workspace, key)}
  }

  /** Canonical addresses tie every row a query can read to a counter it sums. */
  lemma SelectedIsCounted(r: Record, q: Query, at: int)
    requires AddressOk(r.address) && Selected(r, q, at)
    ensures CounterOf(r) in CountersOf(q)
  {
  }

  ghost function SumOf(revisions: Revisions, ks: set<CounterKey>): nat {
    if ks == {} then 0
    else
      var k :| k in ks;
      Revision(revisions, k) + SumOf(revisions, ks - {k})
  }

  lemma {:induction false} SumRemove(revisions: Revisions, ks: set<CounterKey>, k: CounterKey)
    requires k in ks
    ensures SumOf(revisions, ks) == Revision(revisions, k) + SumOf(revisions, ks - {k})
    decreases |ks|
  {
    var pick :| pick in ks && SumOf(revisions, ks) == Revision(revisions, pick) + SumOf(revisions, ks - {pick});
    if pick != k {
      SumRemove(revisions, ks - {pick}, k);
      SumRemove(revisions, ks - {k}, pick);
      assert ks - {pick} - {k} == ks - {k} - {pick};
    }
  }

  predicate Counted(k: CounterKey, q: Query) {
    k.namespace == q.namespace && k.workspace in {GLOBAL, q.workspace} && k.scopeKey in {"", Coalesce(q.scopeKey)}
  }

  lemma CountedIs(k: CounterKey, q: Query)
    ensures Counted(k, q) <==> k in CountersOf(q)
  {
  }

  lemma SumStep(revisions: Revisions, ks: set<CounterKey>, done: set<CounterKey>, k: CounterKey)
    requires k !in done
    ensures SumOf(revisions, ks * (done + {k})) == SumOf(revisions, ks * done) + if k in ks then Revision(revisions, k) else 0
  {
    if k in ks {
      assert ks * (done + {k}) - {k} == ks * done;
      SumRemove(revisions, ks * (done + {k}), k);
    } else {
      assert ks * (done + {k}) == ks * done;
    }
  }

  /** The SUM over the rows of `baseline_revisions` that match. */
  method BaselineRevision(revisions: Revisions, q: Query) returns (sum: nat)
    ensures sum == SumOf(revisions, CountersOf(q))
  {
    ghost var ks := CountersOf(q);
    SumPresent(revisions, ks);
    var rest := revisions.Keys;
    ghost var done: set<CounterKey> := {};
    sum := 0;
    assert ks * done == {} && SumOf(revisions, ks * done) == 0;
    hide *;
    while rest != {}
      invariant rest + done == revisions.Keys && rest !! done
      invariant sum == SumOf(revisions, ks * done)
      decreases |rest|
    {
      var k :| k in rest;
      CountedIs(k, q);
      SumStep(revisions, ks, done, k);
      rest := rest - {k};
      if Counted(k, q) {
        sum := sum + revisions[k];
      }
      done := done + {k};
    }
    assert done == revisions.Keys;
  }

  lemma {:induction false} SumPresent(revisions: Revisions, ks: set<CounterKey>)
    ensures SumOf(revisions, ks) == SumOf(revisions, ks * revisions.Keys)
    decreases |ks|
  {
    if ks != {} {
      var k :| k in ks;
      SumRemove(revisions, ks, k);
      SumPresent(revisions, ks - {k});
      if k in revisions {
        SumRemove(revisions, ks * revisions.Keys, k);
        assert ks * revisions.Keys - {k} == (ks - {k}) * revisions.Keys;
      } else {
        assert ks * revisions.Keys == (ks - {k}) * revisions.Keys;
      }
    }
  }

  /** Counters that never go back and have the same sum are the same, one by one. */
  lemma {:induction false} EqualSums(a: Revisions, b: Revisions, ks: set<CounterKey>)
    requires forall k :: k in ks ==> Revision(a, k) <= Revision(b, k)
    ensures SumOf(a, ks) <= SumOf(b, ks)
    ensures SumOf(a, ks) == SumOf(b, ks) ==> forall k :: k in ks ==> Revision(a, k) == Revision(b, k)
    decreases |ks|
  {
    if ks != {} {
      var k :| k in ks;
      SumRemove(a, ks, k);
      SumRemove(b, ks, k);
      EqualSums(a, b, ks - {k});
      assert forall j :: j in ks ==> j == k || j in ks - {k};
    }
  }

  // ---------- equal revisions, equal rows ----------

  /** What `Quiet` keeps is all the query looks at. */
  lemma QuietSelected(a: Record, b: Record, q: Query, at: int)
    requires Quiet(a) == Quiet(b)
    ensures Selected(a, q, at) == Selected(b, q, at) && SameButAccess(a, b) && CounterOf(a) == CounterOf(b)
  {
  }

  lemma ViewsAgree(rules: LibraryRules, a: Db, b: Db, q: Query, at: int, id: MemoryId)
    requires Inv(rules, a) && id in SelectedIds(a.rows, q, at)
    requires forall k :: k in CountersOf(q) ==> View(a.rows, k) == View(b.rows, k)
    ensures id in SelectedIds(b.rows, q, at) && SameButAccess(a.rows[id], b.rows[id]) && b.rows[id].id == id
  {
    var k := CounterOf(a.rows[id]);
    AddressOkIs(rules, a, id);
    SelectedIsCounted(a.rows[id], q, at);
    hide Inv, Selected;
    assert id in View(a.rows, k);
    assert View(b.rows, k)[id] == Quiet(a.rows[id]);
    QuietSelected(a.rows[id], b.rows[id], q, at);
  }

  lemma AddressOkIs(rules: LibraryRules, a: Db, id: MemoryId)
    requires Inv(rules, a) && id in a.rows
    ensures AddressOk(a.rows[id].address) && a.rows[id].id == id
  {
  }

  ghost predicate SameSelection(a: Rows, b: Rows, q: Query, at: int) {
    && SelectedIds(a, q, at) == SelectedIds(b, q, at)
    && forall id :: id in SelectedIds(a, q, at) ==> SameButAccess(a[id], b[id])
  }

  lemma StandingCounters(rules: LibraryRules, h: seq<Db>, i: nat, j: nat, q: Query)
    requires IsHistory(rules, h) && i <= j < |h|
    requires SumOf(h[i].revisions, CountersOf(q)) == SumOf(h[j].revisions, CountersOf(q))
    ensures forall k :: k in CountersOf(q) ==> View(h[i].rows, k) == View(h[j].rows, k)
  {
    HistoryTracks(rules, h, i, j);
    var a, b := h[i], h[j];
    hide Inv, Step, CountersOf, View;
    forall k
      ensures Revision(a.revisions, k) <= Revision(b.revisions, k)
      ensures Revision(a.revisions, k) == Revision(b.revisions, k) ==> View(a.rows, k) == View(b.rows, k)
    {
      assert TracksAt(a, b, k);
    }
    EqualSums(a.revisions, b.revisions, CountersOf(q));
  }

  /** Equal revision sums at two points of a history mean the same selected rows, up to telemetry. */
  lemma RevisionVouches(rules: LibraryRules, h: seq<Db>, i: nat, j: nat, q: Query, at: int)
    requires IsHistory(rules, h) && i <= j < |h|
    requires SumOf(h[i].revisions, CountersOf(q)) == SumOf(h[j].revisions, CountersOf(q))
    ensures SameSelection(h[i].rows, h[j].rows, q, at)
  {
    StandingCounters(rules, h, i, j, q);
    var a, b := h[i], h[j];
    assert Inv(rules, a) && Inv(rules, b);
    hide Inv, Step, Tracks, Selected, CountersOf, View, SameButAccess;
    forall id
      ensures id in SelectedIds(a.rows, q, at) ==> id in SelectedIds(b.rows, q, at) && SameButAccess(a.rows[id], b.rows[id])
      ensures id in SelectedIds(b.rows, q, at) ==> id in SelectedIds(a.rows, q, at)
    {
      if id in SelectedIds(a.rows, q, at) {
        ViewsAgree(rules, a, b, q, at, id);
      }
      if id in SelectedIds(b.rows, q, at) {
        ViewsAgree(rules, b, a, q, at, id);
      }
    }
  }

  // ---------- equal rows, equal baselines ----------

  lemma {:induction false} CountOne<T>(s: seq<T>, x: T)
    requires NoDuplicates(s)
    ensures multiset(s)[x] == if x in s then 1 else 0
  {
    if s != [] {
      assert s == [s[0]] + s[1..];
      CountOne(s[1..], x);
      assert s[0] !in s[1..];
    }
  }

  lemma SameElements<T>(a: seq<T>, b: seq<T>)
    requires NoDuplicates(a) && NoDuplicates(b) && forall x :: x in a <==> x in b
    ensures multiset(a) == multiset(b)
  {
    forall x
      ensures multiset(a)[x] == multiset(b)[x]
    {
      CountOne(a, x);
      CountOne(b, x);
    }
  }

  /** Any two complete readings of the same selection build the same baseline. */
  lemma SameBaseline(a: Rows, b: Rows, q: Query, at: int, s: seq<Record>, t: seq<Record>)
    requires SameSelection(a, b, q, at) && RowsKeyed(a) && RowsKeyed(b) && |SelectedIds(a, q, at)| <= READ_LIMIT
    requires IsReading(a, q, at, s) && IsReading(b, q, at, t)
    ensures BaselineOf(s, q, at) == BaselineOf(t, q, at)
  {
    hide Selected, SelectedIds, BaselineOf, SameButAccess;
    assert forall i :: 0 <= i < |s| ==> s[i] in s && s[i].id in SelectedIds(a, q, at);
    InRows(a, q, at);
    InRows(b, q, at);
    var u := seq(|s|, i requires 0 <= i < |s| => b[s[i].id]);
    assert AllSameButAccess(s, u) by {
      forall i | 0 <= i < |s|
        ensures SameButAccess(s[i], u[i])
      {
        assert a[s[i].id] == s[i];
      }
    }
    Rekeyed(a, b, q, at, s, u);
    SameElements(u, t);
    AccessIrrelevant(s, u, q, at);
    OrderIrrelevant(u, t, q, at);
  }

  lemma InRows(rows: Rows, q: Query, at: int)
    ensures forall id :: id in SelectedIds(rows, q, at) ==> id in rows
  {
  }

  lemma Rekeyed(a: Rows, b: Rows, q: Query, at: int, s: seq<Record>, u: seq<Record>)
    requires SameSelection(a, b, q, at) && RowsKeyed(a) && RowsKeyed(b) && |SelectedIds(a, q, at)| <= READ_LIMIT
    requires IsReading(a, q, at, s) && |u| == |s|
    requires forall i :: 0 <= i < |s| ==> s[i].id in b && u[i] == b[s[i].id]
    ensures NoDuplicates(u) && IdsIdentify(u)
    ensures forall x :: x in u <==> x.id in SelectedIds(b, q, at) && b[x.id] == x
  {
    InRows(b, q, at);
    InRows(a, q, at);
    hide Selected, SelectedIds, SameButAccess;
    forall i, j | 0 <= i < j < |u|
      ensures u[i] != u[j]
    {
      assert s[i] in s && s[j] in s && s[i] != s[j];
    }
    forall x
      ensures x in u <==> x.id in SelectedIds(b, q, at) && b[x.id] == x
    {
      if x in u {
        var i :| 0 <= i < |u| && u[i] == x;
        assert s[i] in s;
      }
      if x.id in SelectedIds(b, q, at) && b[x.id] == x {
        assert a[x.id] in s;
        var i :| 0 <= i < |s| && s[i] == a[x.id];
        assert u[i] == x;
      }
    }
  }

  // ---------- the etag ----------

  function Digit(d: nat): char
    requires d < 10
  {
    '0' + d as char
  }

  function Decimal(n: nat): string {
    if n < 10 then [Digit(n)] else Decimal(n / 10) + [Digit(n % 10)]
  }

  function Flag(b: bool): string {
    if b then "true" else "false"
  }

  function EtagTail(q: Query, revision: nat): string {
    Decimal(revision) + ("|" + (Flag(q.allowPrivate) + ("|" + Flag(q.allowSecret))))
  }

  function EtagText(q: Query, revision: nat): string {
    q.namespace + ("|" + (q.workspace + ("|" + (Coalesce(q.scopeKey) + ("|" + EtagTail(q, revision))))))
  }

  function Etag(q: Query, revision: nat): ContentHash {
    Sha256(EtagText(q, revision))
  }

  lemma {:induction false} DecimalInjective(m: nat, n: nat)
    requires Decimal(m) == Decimal(n)
    ensures m == n
  {
    var a, b := Decimal(m), Decimal(n);
    assert a[|a| - 1] == Digit(m % 10) && b[|b| - 1] == Digit(n % 10);
    if m >= 10 && n >= 10 {
      assert a[..|a| - 1] == Decimal(m / 10) && b[..|b| - 1] == Decimal(n / 10);
      DecimalInjective(m / 10, n / 10);
    } else {
      DecimalLength(m);
      DecimalLength(n);
    }
  }

  lemma {:induction false} DecimalLength(n: nat)
    ensures |Decimal(n)| >= 1 && (n >= 10 ==> |Decimal(n)| >= 2)
  {
    if n >= 10 {
      DecimalLength(n / 10);
    }
  }

  lemma CancelLeft(p: string, x: string, y: string)
    requires p + x == p + y
    ensures x == y
  {
    assert x == (p + x)[|p|..] && y == (p + y)[|p|..];
  }

  predicate Plain(s: string) {
    '|' !in s
  }

  lemma NoLonger(a: string, x: string, b: string, y: string)
    requires Plain(b) && a + ("|" + x) == b + ("|" + y)
    ensures |b| <= |a|
  {
    var t := b + ("|" + y);
    assert forall k :: 0 <= k < |b| ==> t[k] == b[k] && b[k] in b;
    assert (a + ("|" + x))[|a|] == '|';
  }

  lemma SplitAtBar(a: string, x: string, b: string, y: string)
    requires Plain(a) && Plain(b) && a + ("|" + x) == b + ("|" + y)
    ensures a == b && x == y
  {
    var s, t := a + ("|" + x), b + ("|" + y);
    assert s[|a|] == '|' && t[|b|] == '|';
    NoLonger(a, x, b, y);
    NoLonger(b, y, a, x);
    assert a == s[..|a|] && b == t[..|b|] && x == s[|a| + 1..] && y == t[|b| + 1..];
  }

  lemma {:induction false} DecimalPlain(n: nat)
    ensures Plain(Decimal(n))
  {
    if n >= 10 {
      DecimalPlain(n / 10);
    }
  }

  lemma FlagPlain(b: bool)
    ensures Plain(Flag(b)) && Flag(b)[0] == if b then 't' else 'f'
  {
  }

  lemma TailInjective(q: Query, r: Query, m: nat, n: nat)
    requires EtagTail(q, m) == EtagTail(r, n)
    ensures m == n && q.allowPrivate == r.allowPrivate && q.allowSecret == r.allowSecret
  {
    hide Plain, Decimal, Flag;
    DecimalPlain(m);
    DecimalPlain(n);
    FlagPlain(q.allowPrivate);
    FlagPlain(r.allowPrivate);
    FlagPlain(q.allowSecret);
    FlagPlain(r.allowSecret);
    SplitAtBar(Decimal(m), Flag(q.allowPrivate) + ("|" + Flag(q.allowSecret)),
               Decimal(n), Flag(r.allowPrivate) + ("|" + Flag(r.allowSecret)));
    DecimalInjective(m, n);
    SplitAtBar(Flag(q.allowPrivate), Flag(q.allowSecret), Flag(r.allowPrivate), Flag(r.allowSecret));
  }

  /** For one query an etag names one revision ... */
  lemma EtagIffRevision(q: Query, m: nat, n: nat)
    ensures Etag(q, m) == Etag(q, n) <==> m == n
  {
    hide EtagTail;
    if Etag(q, m) == Etag(q, n) {
      var x, y := EtagTail(q, m), EtagTail(q, n);
      var key := Coalesce(q.scopeKey);
      CancelLeft(q.namespace, "|" + (q.workspace + ("|" + (key + ("|" + x)))), "|" + (q.workspace + ("|" + (key + ("|" + y)))));
      CancelLeft("|", q.workspace + ("|" + (key + ("|" + x))), q.workspace + ("|" + (key + ("|" + y))));
      CancelLeft(q.workspace, "|" + (key + ("|" + x)), "|" + (key + ("|" + y)));
      CancelLeft("|", key + ("|" + x), key + ("|" + y));
      CancelLeft(key, "|" + x, "|" + y);
      CancelLeft("|", x, y);
      TailInjective(q, q, m, n);
    }
  }

  predicate PlainQuery(q: Query) {
    Plain(q.namespace) && Plain(q.workspace) && Plain(Coalesce(q.scopeKey))
  }

  predicate SameReader(q: Query, r: Query) {
    && q.namespace == r.namespace && q.workspace == r.workspace && Coalesce(q.scopeKey) == Coalesce(r.scopeKey)
    && q.allowPrivate == r.allowPrivate && q.allowSecret == r.allowSecret
  }

  lemma PlainEtagsNameReader(q: Query, r: Query, m: nat, n: nat)
    requires PlainQuery(q) && PlainQuery(r) && Etag(q, m) == Etag(r, n)
    ensures SameReader(q, r) && m == n
  {
    hide EtagTail, Plain;
    var x, y, k, l := EtagTail(q, m), EtagTail(r, n), Coalesce(q.scopeKey), Coalesce(r.scopeKey);
    SplitAtBar(q.namespace, q.workspace + ("|" + (k + ("|" + x))), r.namespace, r.workspace + ("|" + (l + ("|" + y))));
    SplitAtBar(q.workspace, k + ("|" + x), r.workspace, l + ("|" + y));
    SplitAtBar(k, x, l, y);
    TailInjective(q, r, m, n);
  }

  // ----- counting separators: a plain query's text has five, and no other query's as few -----

  predicate IsBar(c: char) {
    c == '|'
  }

  function Bars(s: string): nat {
    Count(IsBar, s)
  }

  lemma BarsConcat(a: string, b: string)
    ensures Bars(a + b) == Bars(a) + Bars(b)
  {
    CountConcat(IsBar, a, b);
  }

  lemma {:induction false} PlainIffNoBars(s: string)
    ensures Plain(s) <==> Bars(s) == 0
  {
    if s != [] {
      PlainIffNoBars(s[1..]);
      assert s == [s[0]] + s[1..];
    }
  }

  lemma BarsBetween(a: string, b: string)
    ensures Bars(a + ("|" + b)) == Bars(a) + 1 + Bars(b)
  {
    BarsConcat("|", b);
    BarsConcat(a, "|" + b);
    assert "|"[1..] == [];
    assert Bars("|") == 1;
  }

  lemma EtagBars(q: Query, m: nat)
    ensures Bars(EtagText(q, m)) == Bars(q.namespace) + Bars(q.workspace) + Bars(Coalesce(q.scopeKey)) + 5
  {
    hide Bars, Plain, Decimal, Flag;
    var key, x := Coalesce(q.scopeKey), EtagTail(q, m);
    BarsBetween(q.namespace, q.workspace + ("|" + (key + ("|" + x))));
    BarsBetween(q.workspace, key + ("|" + x));
    BarsBetween(key, x);
    BarsBetween(Decimal(m), Flag(q.allowPrivate) + ("|" + Flag(q.allowSecret)));
    BarsBetween(Flag(q.allowPrivate), Flag(q.allowSecret));
    DecimalPlain(m);
    FlagPlain(q.allowPrivate);
    FlagPlain(q.allowSecret);
    PlainIffNoBars(Decimal(m));
    PlainIffNoBars(Flag(q.allowPrivate));
    PlainIffNoBars(Flag(q.allowSecret));
  }

  lemma PlainQueryIff(q: Query)
    ensures PlainQuery(q) <==> Bars(q.namespace) + Bars(q.workspace) + Bars(Coalesce(q.scopeKey)) == 0
  {
    hide Bars, Plain;
    PlainIffNoBars(q.namespace);
    PlainIffNoBars(q.workspace);
    PlainIffNoBars(Coalesce(q.scopeKey));
  }

  /** The etag at revision `m` names the reader: only the same reader at the same revision has it. */
  ghost predicate NamesReader(q: Query, m: nat) {
    forall r, n :: Etag(q, m) == Etag(r, n) ==> SameReader(q, r) && m == n
  }

  lemma PlainNames(q: Query, m: nat)
    requires PlainQuery(q)
    ensures NamesReader(q, m)
  {
    forall r, n | Etag(q, m) == Etag(r, n)
      ensures SameReader(q, r) && m == n
    {
      EtagBars(q, m);
      EtagBars(r, n);
      PlainQueryIff(q);
      PlainQueryIff(r);
      hide Bars, PlainQuery, SameReader, EtagText;
      PlainEtagsNameReader(q, r, m, n);
    }
  }

  lemma CutAtBar(s: string) returns (a: string, b: string)
    requires !Plain(s)
    ensures s == a + ("|" + b) && |a| < |s|
  {
    var i :| 0 <= i < |s| && s[i] == '|';
    a, b := s[..i], s[i + 1..];
  }

  lemma Reassociate(a: string, b: string, c: string)
    ensures a + ("|" + b) + ("|" + c) == a + ("|" + (b + ("|" + c)))
  {
  }

  /** Moving the separator's side of a name into its neighbour gives another reader the same text. */
  lemma BarMoves(q: Query, m: nat) returns (r: Query)
    requires !PlainQuery(q)
    ensures EtagText(q, m) == EtagText(r, m) && !SameReader(q, r)
  {
    var key, x := Coalesce(q.scopeKey), EtagTail(q, m);
    if !Plain(q.namespace) {
      var a, b := CutAtBar(q.namespace);
      r := q.(namespace := a, workspace := b + ("|" + q.workspace));
      var rest := key + ("|" + x);
      hide EtagTail, Plain;
      Reassociate(a, b, q.workspace + ("|" + rest));
      Reassociate(b, q.workspace, rest);
      SameTail(q, r, m);
    } else if !Plain(q.workspace) {
      var a, b := CutAtBar(q.workspace);
      r := q.(workspace := a, scopeKey := Some(b + ("|" + key)));
      hide EtagTail, Plain;
      Reassociate(a, b, key + ("|" + x));
      Reassociate(b, key, x);
      SameTail(q, r, m);
    } else {
      var a, b := CutAtBar(key);
      r := q.(workspace := q.workspace + ("|" + a), scopeKey := Some(b));
      hide EtagTail, Plain;
      Reassociate(a, b, x);
      Reassociate(q.workspace, a, b + ("|" + x));
      SameTail(q, r, m);
    }
  }

  lemma SameTail(q: Query, r: Query, m: nat)
    requires q.allowPrivate == r.allowPrivate && q.allowSecret == r.allowSecret
    ensures EtagTail(q, m) == EtagTail(r, m)
  {
  }

  /** ... and across queries it names the reader exactly when none of the query's own names holds the
      separator. */
  lemma NamesReaderIff(q: Query, m: nat)
    ensures NamesReader(q, m) <==> PlainQuery(q)
  {
    if PlainQuery(q) {
      PlainNames(q, m);
    } else {
      var r := BarMoves(q, m);
      hide EtagText, SameReader, PlainQuery;
      assert Etag(q, m) == Etag(r, m);
    }
  }

  /** Readers that share an etag can read through disjoint counters. */
  lemma ReadersMayShareEtag(q: Query, revision: nat)
    ensures var a, b := q.(namespace := "a|b", workspace := "c"), q.(namespace := "a", workspace := "b|c");
            Etag(a, revision) == Etag(b, revision) && CountersOf(a) !! CountersOf(b)
  {
    var a, b := q.(namespace := "a|b", workspace := "c"), q.(namespace := "a", workspace := "b|c");
    var rest := "|" + (Coalesce(q.scopeKey) + ("|" + EtagTail(q, revision)));
    assert EtagTail(a, revision) == EtagTail(q, revision) == EtagTail(b, revision);
    assert EtagText(a, revision) == "a|b" + ("|" + ("c" + rest)) && EtagText(b, revision) == "a" + ("|" + ("b|c" + rest));
    assert "a|b" + ("|" + ("c" + rest)) == "a|b|c" + rest && "a" + ("|" + ("b|c" + rest)) == "a|b|c" + rest;
    assert "a|b" != "a" by {
      assert |"a|b"| == 3;
    }
  }

  /** What a client is handed: the baseline of the rows read in one state and the etag of the revision
      read in a later one. */
  ghost predicate Served(h: seq<Db>, rowsAt: nat, revisionAt: nat, q: Query, at: int, snapshot: Snapshot, etag: ContentHash)
  {
    && rowsAt <= revisionAt < |h|
    && etag == Etag(q, SumOf(h[revisionAt].revisions, CountersOf(q)))
    && exists s :: IsReading(h[rowsAt].rows, q, at, s) && snapshot == BaselineOf(s, q, at)
  }

  /** No write the query counts happened between the two reads of an answer. */
  ghost predicate Undisturbed(h: seq<Db>, rowsAt: nat, revisionAt: nat, q: Query)
    requires rowsAt <= revisionAt < |h|
  {
    SumOf(h[rowsAt].revisions, CountersOf(q)) == SumOf(h[revisionAt].revisions, CountersOf(q))
  }

  /** `not_modified` is honest: for one query at one evaluation time, with at most 512 rows to read and
      neither answer disturbed between its two reads, equal etags come with equal baselines. */
  lemma EtagSoundness(rules: LibraryRules, h: seq<Db>, i: nat, i': nat, j: nat, j': nat, q: Query, at: int,
                      first: Snapshot, second: Snapshot, etag: ContentHash)
    requires IsHistory(rules, h) && i <= j < |h| && |SelectedIds(h[i].rows, q, at)| <= 512
    requires Served(h, i, i', q, at, first, etag) && Served(h, j, j', q, at, second, etag)
    requires Undisturbed(h, i, i', q) && Undisturbed(h, j, j', q)
    ensures first == second
  {
    EtagIffRevision(q, SumOf(h[i'].revisions, CountersOf(q)), SumOf(h[j'].revisions, CountersOf(q)));
    RevisionVouches(rules, h, i, j, q, at);
    var s :| IsReading(h[i].rows, q, at, s) && first == BaselineOf(s, q, at);
    var t :| IsReading(h[j].rows, q, at, t) && second == BaselineOf(t, q, at);
    KeyedIs(rules, h[i]);
    KeyedIs(rules, h[j]);
    SameBaseline(h[i].rows, h[j].rows, q, at, s, t);
  }

  lemma KeyedIs(rules: LibraryRules, a: Db)
    requires Inv(rules, a)
    ensures RowsKeyed(a.rows)
  {
  }

  const EMPTY: Db := Db(map[], [], map[], map[])

  lemma FirstInsert(rules: LibraryRules, r: Record)
    requires RowOk(rules, r)
    ensures IsHistory(rules, [EMPTY, Inserted(EMPTY, r)])
  {
    InsertKeeps(rules, EMPTY, r);
    hide Inv, Step, Inserted;
    var h := [EMPTY, Inserted(EMPTY, r)];
    assert h[0] == EMPTY && h[1] == Inserted(EMPTY, r);
    assert forall i :: 0 <= i < |h| - 1 ==> Step(h[i], h[i + 1]);
  }

  lemma FirstReadings(r: Record, q: Query, at: int)
    requires Selected(r, q, at)
    ensures IsReading(EMPTY.rows, q, at, []) && IsReading(Inserted(EMPTY, r).rows, q, at, [r])
  {
    var rows := Inserted(EMPTY, r).rows;
    assert rows == map[r.id := r];
    hide Selected;
    assert SelectedIds(EMPTY.rows, q, at) == {};
    assert SelectedIds(rows, q, at) == {r.id};
  }

  lemma OneMore(rules: LibraryRules, r: Record, q: Query, at: int, at': int)
    requires RowOk(rules, r) && Selected(r, q, at')
    ensures BaselineOf([], q, at) != BaselineOf([r], q, at')
  {
    SelectedIsAllowed(r, q, at');
    BaselineAccounts([], q, at);
    BaselineAccounts([r], q, at');
    hide BaselineOf, Selected, RowOk;
    assert [r][1..] == [];
    assert Filtered([r], q, at') == [r];
  }

  /** With a write between the two reads the answer is stale and its etag is not: a row inserted between
      them is missing from a baseline whose etag already counts it. */
  lemma WriteBetweenReadsGoesUnseen(rules: LibraryRules, r: Record, q: Query, at: int)
    requires RowOk(rules, r) && Selected(r, q, at)
    ensures var h := [EMPTY, Inserted(EMPTY, r)];
            var etag := Etag(q, SumOf(h[1].revisions, CountersOf(q)));
            && IsHistory(rules, h)
            && Served(h, 0, 1, q, at, BaselineOf([], q, at), etag)
            && Served(h, 1, 1, q, at, BaselineOf([r], q, at), etag)
            && BaselineOf([], q, at) != BaselineOf([r], q, at)
  {
    OneMore(rules, r, q, at, at);
    FirstInsert(rules, r);
    FirstReadings(r, q, at);
    hide Inserted, IsReading, BaselineOf, IsHistory, Etag, SumOf, CountersOf, RowOk, Selected;
    var h := [EMPTY, Inserted(EMPTY, r)];
    assert h[0] == EMPTY && h[1] == Inserted(EMPTY, r);
  }
}
