/** What an etag does not cover: the evaluation time and the token limit, and when they do not matter. */
module EtagScope {
  import opened Basics
  import opened Records
  import opened MemoryTables
  import opened Baseline
  import opened Text
  import opened Etags

  // ---------- two evaluation times ----------

  /** What a query may read, the interval apart. */
  predicate Readable(r: Record, q: Query) {
    && r.address.namespace == q.namespace
    && (|| r.address.scope.Global?
        || (r.address.workspace == q.workspace && r.address.scope.Workspace?)
        || (r.address.workspace == q.workspace && r.address.scope.Conversation? && r.address.scopeKey == Some(Coalesce(q.scopeKey))))
    && r.status.Active?
    && !r.sensitivity.Ephemeral? && (r.sensitivity.Private? ==> q.allowPrivate) && (r.sensitivity.Secret? ==> q.allowSecret)
  }

  /** A bound of the row's interval lies after `lo` and no later than `hi`, and passing it matters: the row has
      begun and not ended, or it ends and had begun. */
  predicate Flips(r: Record, lo: int, hi: int) {
    || (r.validFrom.Some? && lo < r.validFrom.value <= hi && (r.validUntil.Some? ==> r.validUntil.value > hi))
    || (r.validUntil.Some? && lo < r.validUntil.value <= hi && (r.validFrom.Some? ==> r.validFrom.value <= lo))
  }

  lemma FlipsIff(r: Record, q: Query, lo: int, hi: int)
    requires lo <= hi
    ensures Readable(r, q) && Flips(r, lo, hi) <==> Selected(r, q, lo) != Selected(r, q, hi)
    ensures Selected(r, q, lo) ==> Readable(r, q)
  {
  }

  /** No row the query may read passes a bound that matters. */
  ghost predicate Steady(rows: Rows, q: Query, lo: int, hi: int) {
    forall id :: id in rows && Readable(rows[id], q) ==> !Flips(rows[id], lo, hi)
  }

  /** Two evaluation times read the same rows exactly when nothing flips between them. */
  lemma SteadyIff(rows: Rows, q: Query, lo: int, hi: int)
    requires lo <= hi
    ensures SelectedIds(rows, q, lo) == SelectedIds(rows, q, hi) <==> Steady(rows, q, lo, hi)
  {
    forall id | id in rows
      ensures Readable(rows[id], q) && Flips(rows[id], lo, hi) <==>
              (id in SelectedIds(rows, q, lo)) != (id in SelectedIds(rows, q, hi))
    {
      FlipsIff(rows[id], q, lo, hi);
    }
    hide Selected, Readable, Flips, SelectedIds;
    if SelectedIds(rows, q, lo) != SelectedIds(rows, q, hi) {
      InRows(rows, q, lo);
      InRows(rows, q, hi);
    }
  }

  lemma ReadingAllowed(rules: LibraryRules, db: Db, q: Query, at: int, s: seq<Record>)
    requires Inv(rules, db) && IsReading(db.rows, q, at, s)
    ensures forall r :: r in s ==> Allowed(r, q, at)
  {
    forall r | r in s
      ensures Allowed(r, q, at)
    {
      assert r.id in SelectedIds(db.rows, q, at) && db.rows[r.id] == r;
      AddressOkIs(rules, db, r.id);
      SelectedIsAllowed(r, q, at);
    }
  }

  /** An answer given at one time is also the answer at another, if the times read the same rows. */
  lemma ServedLater(rules: LibraryRules, h: seq<Db>, i: nat, i': nat, q: Query, at: int, at': int, snapshot: Snapshot, etag: ContentHash)
    requires IsHistory(rules, h) && Served(h, i, i', q, at, snapshot, etag)
    requires SelectedIds(h[i].rows, q, at) == SelectedIds(h[i].rows, q, at')
    ensures Served(h, i, i', q, at', snapshot, etag)
  {
    var s :| IsReading(h[i].rows, q, at, s) && snapshot == BaselineOf(s, q, at);
    assert IsReading(h[i].rows, q, at', s);
    ReadingAllowed(rules, h[i], q, at, s);
    ReadingAllowed(rules, h[i], q, at', s);
    hide Inv, IsReading, BaselineOf, Allowed, SelectedIds;
    SteadyBaseline(s, q, at, at');
  }

  /** `not_modified` is honest across evaluation times too, as long as nothing flips between them. */
  lemma EtagSoundnessAcross(rules: LibraryRules, h: seq<Db>, i: nat, i': nat, j: nat, j': nat, q: Query, at: int, at': int,
                            first: Snapshot, second: Snapshot, etag: ContentHash)
    requires IsHistory(rules, h) && i <= j < |h| && |SelectedIds(h[i].rows, q, at)| <= 512
    requires Served(h, i, i', q, at, first, etag) && Served(h, j, j', q, at', second, etag)
    requires Undisturbed(h, i, i', q) && Undisturbed(h, j, j', q)
    requires Steady(h[i].rows, q, Min(at, at'), Max(at, at'))
    ensures first == second
  {
    SteadyIff(h[i].rows, q, Min(at, at'), Max(at, at'));
    hide IsHistory, Served, Undisturbed, Steady, SelectedIds;
    ServedLater(rules, h, i, i', q, at, at', first, etag);
    EtagSoundness(rules, h, i, i', j, j', q, at', first, second, etag);
  }

  /** The rows a query reads from a table of one row. */
  function OnlyReading(r: Record, q: Query, at: int): seq<Record> {
    if Selected(r, q, at) then [r] else []
  }

  lemma OnlyReadingIs(r: Record, q: Query, at: int)
    ensures IsReading(Inserted(EMPTY, r).rows, q, at, OnlyReading(r, q, at))
  {
    var rows := Inserted(EMPTY, r).rows;
    assert rows == map[r.id := r];
    hide Selected;
    assert SelectedIds(rows, q, at) == if Selected(r, q, at) then {r.id} else {};
  }

  lemma OnlyBaselineIff(rules: LibraryRules, r: Record, q: Query, at: int, at': int)
    requires RowOk(rules, r)
    ensures BaselineOf(OnlyReading(r, q, at), q, at) == BaselineOf(OnlyReading(r, q, at'), q, at') <==>
            Selected(r, q, at) == Selected(r, q, at')
  {
    SelectedIsAllowed(r, q, at);
    SelectedIsAllowed(r, q, at');
    hide BaselineOf, Selected, RowOk, Allowed;
    if Selected(r, q, at) == Selected(r, q, at') {
      SteadyBaseline(OnlyReading(r, q, at), q, at, at');
    } else if Selected(r, q, at) {
      OneMore(rules, r, q, at', at);
    } else {
      OneMore(rules, r, q, at, at');
    }
  }

  ghost function OneRowHistory(r: Record): seq<Db> {
    [EMPTY, Inserted(EMPTY, r)]
  }

  ghost function OneRowEtag(r: Record, q: Query): ContentHash {
    Etag(q, SumOf(Inserted(EMPTY, r).revisions, CountersOf(q)))
  }

  lemma OneRowServed(r: Record, q: Query, at: int)
    ensures Served(OneRowHistory(r), 1, 1, q, at, BaselineOf(OnlyReading(r, q, at), q, at), OneRowEtag(r, q))
  {
    OnlyReadingIs(r, q, at);
    hide Inserted, IsReading, BaselineOf, Etag, SumOf, CountersOf, OnlyReading;
    assert OneRowHistory(r)[1] == Inserted(EMPTY, r);
  }

  /** The etag does not look at the clock: on a table of one readable row, answers at two times carry one etag,
      and their baselines differ exactly when the row's interval begins or ends between the times. */
  lemma ClockGoesUnseen(rules: LibraryRules, r: Record, q: Query, at: int, at': int)
    requires RowOk(rules, r) && Readable(r, q) && at <= at'
    ensures var h, etag := OneRowHistory(r), OneRowEtag(r, q);
            var first, second := BaselineOf(OnlyReading(r, q, at), q, at), BaselineOf(OnlyReading(r, q, at'), q, at');
            && IsHistory(rules, h)
            && Served(h, 1, 1, q, at, first, etag) && Served(h, 1, 1, q, at', second, etag)
            && (first != second <==> Flips(r, at, at'))
  {
    FirstInsert(rules, r);
    OneRowServed(r, q, at);
    OneRowServed(r, q, at');
    OnlyBaselineIff(rules, r, q, at, at');
    FlipsIff(r, q, at, at');
    hide Served, BaselineOf, IsHistory, OneRowEtag, RowOk, Selected, Readable, Flips, OnlyReading;
  }

  // ---------- two token limits ----------

  /** The etag does not look at the token limit: answers to one query under two limits carry one etag, and they
      agree exactly when the limits clamp to the same budget. */
  lemma TokenLimitGoesUnseen(rules: LibraryRules, h: seq<Db>, i: nat, i': nat, q: Query, limit: nat, at: int,
                             first: Snapshot, second: Snapshot, etag: ContentHash, etag': ContentHash)
    requires IsHistory(rules, h) && i < |h| && |SelectedIds(h[i].rows, q, at)| <= 512
    requires Served(h, i, i', q, at, first, etag) && Served(h, i, i', q.(maxTokens := limit), at, second, etag')
    ensures etag == etag'
    ensures first == second <==> Budget(q) == Budget(q.(maxTokens := limit))
  {
    var other := q.(maxTokens := limit);
    KeyedIs(rules, h[i]);
    hide IsReading, BaselineOf, SelectedIds, Inv, Budget, IsHistory, Served, SameSelection;
    var s := ReadingServed(h, i, i', q, at, first, etag);
    var t := ReadingServed(h, i, i', other, at, second, etag');
    SameUnderLimit(h[i].rows, h[i'].revisions, q, limit, at, t);
    SameSelectionReflexive(h[i].rows, q, at);
    SameBaseline(h[i].rows, h[i].rows, q, at, s, t);
    LimitIff(t, q, limit, at);
  }

  lemma ReadingServed(h: seq<Db>, i: nat, i': nat, q: Query, at: int, snapshot: Snapshot, etag: ContentHash) returns (s: seq<Record>)
    requires Served(h, i, i', q, at, snapshot, etag)
    ensures i <= i' < |h| && IsReading(h[i].rows, q, at, s) && snapshot == BaselineOf(s, q, at)
    ensures etag == Etag(q, SumOf(h[i'].revisions, CountersOf(q)))
  {
    hide IsReading, BaselineOf;
    s :| IsReading(h[i].rows, q, at, s) && snapshot == BaselineOf(s, q, at);
  }

  lemma SameUnderLimit(rows: Rows, revisions: Revisions, q: Query, limit: nat, at: int, t: seq<Record>)
    ensures var other := q.(maxTokens := limit);
            && (IsReading(rows, other, at, t) <==> IsReading(rows, q, at, t))
            && Etag(other, SumOf(revisions, CountersOf(other))) == Etag(q, SumOf(revisions, CountersOf(q)))
  {
    var other := q.(maxTokens := limit);
    assert SelectedIds(rows, other, at) == SelectedIds(rows, q, at);
    assert CountersOf(other) == CountersOf(q);
    hide SelectedIds, SumOf, CountersOf;
  }

  lemma SameSelectionReflexive(rows: Rows, q: Query, at: int)
    ensures SameSelection(rows, rows, q, at)
  {
  }

  // ---------- what is summed, read and named ----------

  /** The revision of a reader with a key of its own and a workspace of its own is the sum of four counters. */
  lemma RevisionIs(revisions: Revisions, q: Query)
    requires q.workspace != "global" && Coalesce(q.scopeKey) != ""
    ensures var n, w, k := q.namespace, q.workspace, Coalesce(q.scopeKey);
            SumOf(revisions, CountersOf(q)) ==
            Revision(revisions, CounterKey(n, "global", "")) + Revision(revisions, CounterKey(n, "global", k))
            + Revision(revisions, CounterKey(n, w, "")) + Revision(revisions, CounterKey(n, w, k))
  {
    var n, w, k := q.namespace, q.workspace, Coalesce(q.scopeKey);
    var a, b, c, d := CounterKey(n, "global", ""), CounterKey(n, "global", k), CounterKey(n, w, ""), CounterKey(n, w, k);
    hide SumOf, Revision;
    assert CountersOf(q) == {a, b, c, d};
    SumOfFour(revisions, a, b, c, d);
  }

  lemma SumOfFour(revisions: Revisions, a: CounterKey, b: CounterKey, c: CounterKey, d: CounterKey)
    requires a != b && a != c && a != d && b != c && b != d && c != d
    ensures SumOf(revisions, {a, b, c, d}) == Revision(revisions, a) + Revision(revisions, b) + Revision(revisions, c) + Revision(revisions, d)
  {
    SumRemove(revisions, {a, b, c, d}, a);
    SumRemove(revisions, {b, c, d}, b);
    SumRemove(revisions, {c, d}, c);
    SumRemove(revisions, {d}, d);
    assert {a, b, c, d} - {a} == {b, c, d} && {b, c, d} - {b} == {c, d} && {c, d} - {c} == {d} && {d} - {d} == {};
    SumOfNone(revisions);
    hide SumOf, Revision;
  }

  lemma SumOfNone(revisions: Revisions)
    ensures SumOf(revisions, {}) == 0
  {
  }

  /** At most 512 rows are read, each once, and all that there are to read if there are no more. */
  lemma ReadingHolds(rows: Rows, q: Query, at: int, s: seq<Record>)
    requires IsReading(rows, q, at, s)
    ensures |s| <= 512 && forall i, j :: 0 <= i < j < |s| ==> s[i] != s[j]
    ensures forall r :: r in s ==> r.id in rows && rows[r.id] == r && Selected(r, q, at)
    ensures |SelectedIds(rows, q, at)| <= 512 ==> forall id :: id in rows && Selected(rows[id], q, at) ==> rows[id] in s
  {
    hide Selected;
  }

  /** Two queries with one etag that names its reader agree on every name and both permissions. */
  lemma NamedReader(q: Query, r: Query, m: nat, n: nat)
    requires NamesReader(q, m) && Etag(q, m) == Etag(r, n)
    ensures q.namespace == r.namespace && q.workspace == r.workspace && Coalesce(q.scopeKey) == Coalesce(r.scopeKey)
    ensures q.allowPrivate == r.allowPrivate && q.allowSecret == r.allowSecret && m == n
  {
    hide Etag;
    assert SameReader(q, r);
  }

  /** The number a text of decimal digits stands for. */
  function Value(digits: string): int {
    if digits == [] then 0 else 10 * Value(digits[..|digits| - 1]) + (digits[|digits| - 1] as int - 48)
  }

  /** The revision is written in decimal, without leading zeros. */
  lemma {:induction false} DecimalIs(n: nat)
    ensures Value(Decimal(n)) == n && Decimal(n) != "" && (Decimal(n)[0] == '0' <==> n == 0)
    ensures forall i :: 0 <= i < |Decimal(n)| ==> '0' <= Decimal(n)[i] <= '9'
  {
    if n >= 10 {
      DecimalIs(n / 10);
      var init, last := Decimal(n / 10), Digit(n % 10);
      assert (init + [last])[..|init|] == init;
    }
  }

  /** The hashed text: the reader's names, the revision and the two permissions. */
  lemma EtagTextIs(q: Query, m: nat)
    ensures EtagText(q, m) ==
            q.namespace + "|" + q.workspace + "|" + (if q.scopeKey.Some? then q.scopeKey.value else "") + "|" + Decimal(m)
            + "|" + (if q.allowPrivate then "true" else "false") + "|" + (if q.allowSecret then "true" else "false")
  {
    hide Decimal;
  }

  /** With no more than 512 rows to read, every arrangement of them is a reading. */
  lemma ReadingIff(rows: Rows, q: Query, at: int, s: seq<Record>)
    requires RowsKeyed(rows) && |SelectedIds(rows, q, at)| <= 512
    ensures IsReading(rows, q, at, s) <==>
            && |s| <= 512 && (forall i, j :: 0 <= i < j < |s| ==> s[i] != s[j])
            && forall r :: r in s <==> r.id in rows && rows[r.id] == r && Selected(r, q, at)
  {
    hide Selected;
  }
}
