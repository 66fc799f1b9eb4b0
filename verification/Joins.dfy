/** Repeated writes of one content: `remember` computes a join, in whatever order the writes arrive. */
module Joins {
  import opened Basics
  import opened Baseline
  import opened MemoryStores
  import opened MemoryTables
  import opened Records
  import Text

  /** The row after the first write stored it and each later one was merged into it. */
  function AfterWrites(writes: seq<Record>, times: seq<int>): Record
    requires writes != [] && |times| == |writes|
  {
    if |writes| == 1 then writes[0]
    else Merged(AfterWrites(writes[..|writes| - 1], times[..|writes| - 1]), writes[|writes| - 1], times[|writes| - 1])
  }

  /** `b` demands at least what `a` does, in the five joined columns. */
  predicate Below(a: Record, b: Record) {
    && a.sensitivity.Rank() <= b.sensitivity.Rank()
    && (a.pinned ==> b.pinned)
    && a.importance <= b.importance
    && a.confidence <= b.confidence
    && (b.validUntil.None? || (a.validUntil.Some? && a.validUntil.value <= b.validUntil.value))
  }

  predicate SameJoin(a: Record, b: Record) {
    a.sensitivity == b.sensitivity && a.pinned == b.pinned && a.importance == b.importance && a.confidence == b.confidence
    && a.validUntil == b.validUntil
  }

  lemma BelowTransitive(a: Record, b: Record, c: Record)
    requires Below(a, b) && Below(b, c)
    ensures Below(a, c)
  {
  }

  lemma BelowAntisymmetric(a: Record, b: Record)
    requires Below(a, b) && Below(b, a)
    ensures SameJoin(a, b)
  {
  }

  lemma MergedIsJoin(a: Record, b: Record, now: int, bound: Record)
    ensures Below(a, Merged(a, b, now)) && Below(b, Merged(a, b, now))
    ensures Below(a, bound) && Below(b, bound) ==> Below(Merged(a, b, now), bound)
  {
  }

  /** The stored row is an upper bound of every write ... */
  lemma {:induction false} BoundsEveryWrite(writes: seq<Record>, times: seq<int>, i: nat)
    requires writes != [] && |times| == |writes| && i < |writes|
    ensures Below(writes[i], AfterWrites(writes, times))
  {
    hide Below, Merged;
    var n := |writes| - 1;
    var before := if n == 0 then writes[0] else AfterWrites(writes[..n], times[..n]);
    if n == 0 {
      BelowReflexive(writes[0]);
    } else {
      MergedIsJoin(before, writes[n], times[n], writes[n]);
      if i < n {
        BoundsEveryWrite(writes[..n], times[..n], i);
        BelowTransitive(writes[i], before, AfterWrites(writes, times));
      }
    }
  }

  lemma BelowReflexive(a: Record)
    ensures Below(a, a)
  {
  }

  /** ... and the least one. */
  lemma {:induction false} LeastBound(writes: seq<Record>, times: seq<int>, bound: Record)
    requires writes != [] && |times| == |writes| && forall i :: 0 <= i < |writes| ==> Below(writes[i], bound)
    ensures Below(AfterWrites(writes, times), bound)
  {
    hide Below, Merged;
    var n := |writes| - 1;
    if n > 0 {
      LeastBound(writes[..n], times[..n], bound);
      MergedIsJoin(AfterWrites(writes[..n], times[..n]), writes[n], times[n], bound);
    }
  }

  /** So the joined columns depend on the set of writes alone: not on their order, repetition or times. */
  lemma OrderOfWritesIrrelevant(a: seq<Record>, b: seq<Record>, s: seq<int>, t: seq<int>)
    requires a != [] && b != [] && |s| == |a| && |t| == |b|
    requires forall w :: w in a <==> w in b
    ensures SameJoin(AfterWrites(a, s), AfterWrites(b, t))
  {
    hide Below, AfterWrites;
    var x, y := AfterWrites(a, s), AfterWrites(b, t);
    forall i | 0 <= i < |a|
      ensures Below(a[i], y)
    {
      assert a[i] in b;
      var k :| 0 <= k < |b| && b[k] == a[i];
      BoundsEveryWrite(b, t, k);
    }
    forall i | 0 <= i < |b|
      ensures Below(b[i], x)
    {
      assert b[i] in a;
      var k :| 0 <= k < |a| && a[k] == b[i];
      BoundsEveryWrite(a, s, k);
    }
    LeastBound(a, s, y);
    LeastBound(b, t, x);
    BelowAntisymmetric(x, y);
  }

  // ---------- the same over histories of the table ----------

  /** The row is the join of the writes: it demands what each of them does, and no more. */
  ghost predicate IsJoin(r: Record, writes: seq<Record>) {
    && (forall w :: w in writes ==> Below(w, r))
    && forall bound :: BoundsAll(writes, bound) ==> Below(r, bound)
  }

  ghost predicate BoundsAll(writes: seq<Record>, bound: Record) {
    forall w :: w in writes ==> Below(w, bound)
  }

  lemma JoinUnique(a: Record, b: Record, writes: seq<Record>, same: seq<Record>)
    requires IsJoin(a, writes) && IsJoin(b, same) && forall w :: w in writes <==> w in same
    ensures SameJoin(a, b)
  {
    hide Below;
    assert BoundsAll(writes, b) && BoundsAll(same, a);
    BelowAntisymmetric(a, b);
  }

  lemma JoinSnoc(row: Record, writes: seq<Record>, w: Record, now: int)
    requires IsJoin(row, writes)
    ensures IsJoin(Merged(row, w, now), writes + [w])
  {
    hide Below, Merged;
    var merged, all := Merged(row, w, now), writes + [w];
    forall v | v in all
      ensures Below(v, merged)
    {
      MergedIsJoin(row, w, now, w);
      if v in writes {
        BelowTransitive(v, row, merged);
      }
    }
    forall bound | BoundsAll(all, bound)
      ensures Below(merged, bound)
    {
      assert all[|writes|] == w;
      assert forall v :: v in writes ==> v in all;
      assert BoundsAll(writes, bound);
      MergedIsJoin(row, w, now, bound);
    }
  }

  lemma JoinOne(w: Record)
    ensures IsJoin(w, [w])
  {
    hide Below;
    BelowReflexive(w);
    assert w in [w];
  }

  predicate Holds(rows: Rows, id: MemoryId, i: Identity) {
    id in rows && rows[id].status.Active? && IdentityOf(rows[id]) == i
  }

  /** A `remember` of the record: merged into an active row of its identity, or a row of its own. */
  ghost predicate WriteStep(a: Rows, b: Rows, w: Record, now: int) {
    if exists id :: Holds(a, id, IdentityOf(w)) then
      exists id :: Holds(a, id, IdentityOf(w)) && b == a[id := Merged(a[id], w, now)]
    else b == a[w.id := w]
  }

  /** Any other operation that leaves the active row of the identity in place, access telemetry apart. */
  ghost predicate OtherStep(a: Rows, b: Rows, i: Identity) {
    forall id :: (Holds(a, id, i) <==> Holds(b, id, i)) && (Holds(a, id, i) ==> SameButAccess(a[id], b[id]))
  }

  datatype Act = Write(record: Record, now: int) | Other

  ghost predicate IsAct(a: Rows, act: Act, b: Rows, i: Identity) {
    match act
    case Write(w, now) => w.status.Active? && IdentityOf(w) == i && WriteStep(a, b, w, now)
    case Other => OtherStep(a, b, i)
  }

  /** Tables with unique active identities, in which nobody held the identity at first. */
  ghost predicate IsWriting(tables: seq<Rows>, acts: seq<Act>, i: Identity) {
    && |tables| == |acts| + 1
    && (forall id :: !Holds(tables[0], id, i))
    && (forall k :: 0 <= k < |tables| ==> ActiveUnique(tables[k]))
    && forall k :: 0 <= k < |acts| ==> IsAct(tables[k], acts[k], tables[k + 1], i)
  }

  function Writes(acts: seq<Act>, n: nat): seq<Record>
    requires n <= |acts|
  {
    if n == 0 then []
    else Writes(acts, n - 1) + if acts[n - 1].Write? then [acts[n - 1].record] else []
  }

  /** Nobody holds the identity before the first write; afterwards one row does, and it is the join. */
  ghost predicate HoldsJoin(rows: Rows, i: Identity, writes: seq<Record>) {
    if writes == [] then forall id :: !Holds(rows, id, i)
    else exists id :: Holds(rows, id, i) && IsJoin(rows[id], writes)
  }

  lemma OnlyHolder(rows: Rows, i: Identity, a: MemoryId, b: MemoryId)
    requires ActiveUnique(rows) && Holds(rows, a, i) && Holds(rows, b, i)
    ensures a == b
  {
    assert Twins(rows[a], rows[b]);
  }

  lemma WriteJoins(a: Rows, b: Rows, i: Identity, writes: seq<Record>, w: Record, now: int)
    requires ActiveUnique(a) && HoldsJoin(a, i, writes) && w.status.Active? && IdentityOf(w) == i && WriteStep(a, b, w, now)
    ensures HoldsJoin(b, i, writes + [w])
  {
    hide IsJoin, ActiveUnique, IdentityOf;
    if writes == [] {
      JoinOne(w);
      assert writes + [w] == [w];
      assert Holds(b, w.id, i) && IsJoin(b[w.id], writes + [w]);
    } else {
      var holder :| Holds(a, holder, i) && IsJoin(a[holder], writes);
      var id :| Holds(a, id, i) && b == a[id := Merged(a[id], w, now)];
      OnlyHolder(a, i, holder, id);
      JoinSnoc(a[id], writes, w, now);
      MergedIdentity(a[id], w, now);
      assert Holds(b, id, i) && IsJoin(b[id], writes + [w]);
    }
  }

  lemma MergedIdentity(row: Record, w: Record, now: int)
    ensures IdentityOf(Merged(row, w, now)) == IdentityOf(row) && Merged(row, w, now).status == row.status
  {
  }

  lemma TelemetryKeepsJoin(a: Record, b: Record, writes: seq<Record>)
    requires IsJoin(a, writes) && SameButAccess(a, b)
    ensures IsJoin(b, writes)
  {
    assert forall x :: (Below(x, a) <==> Below(x, b)) && (Below(a, x) <==> Below(b, x));
    hide Below;
  }

  lemma OtherKeepsJoin(a: Rows, b: Rows, i: Identity, writes: seq<Record>)
    requires HoldsJoin(a, i, writes) && OtherStep(a, b, i)
    ensures HoldsJoin(b, i, writes)
  {
    hide IsJoin, SameButAccess, IdentityOf;
    if writes != [] {
      var id :| Holds(a, id, i) && IsJoin(a[id], writes);
      TelemetryKeepsJoin(a[id], b[id], writes);
      assert Holds(b, id, i);
    }
  }

  /** Along any history, whatever runs between the writes, the active row of the identity is the join of all
      that was remembered under it. */
  lemma {:induction false} StoredRowIsJoin(tables: seq<Rows>, acts: seq<Act>, i: Identity, n: nat)
    requires IsWriting(tables, acts, i) && n < |tables|
    ensures HoldsJoin(tables[n], i, Writes(acts, n))
  {
    hide HoldsJoin, WriteStep, OtherStep, ActiveUnique, IdentityOf;
    if n == 0 {
      NobodyHolds(tables[0], i);
    } else {
      StoredRowIsJoin(tables, acts, i, n - 1);
      assert IsAct(tables[n - 1], acts[n - 1], tables[n], i);
      match acts[n - 1]
      case Write(w, now) => WriteJoins(tables[n - 1], tables[n], i, Writes(acts, n - 1), w, now);
      case Other =>
        OtherKeepsJoin(tables[n - 1], tables[n], i, Writes(acts, n - 1));
        assert Writes(acts, n - 1) + [] == Writes(acts, n - 1);
    }
  }

  lemma NobodyHolds(rows: Rows, i: Identity)
    requires forall id :: !Holds(rows, id, i)
    ensures HoldsJoin(rows, i, [])
  {
  }

  /** So two histories that remember the same contents, in any order and among any other operations, store the
      same sensitivity, pin, importance, confidence and end. */
  lemma HistoriesAgree(tables: seq<Rows>, acts: seq<Act>, tables': seq<Rows>, acts': seq<Act>, i: Identity, a: MemoryId, b: MemoryId)
    requires IsWriting(tables, acts, i) && IsWriting(tables', acts', i)
    requires forall w :: w in Writes(acts, |acts|) <==> w in Writes(acts', |acts'|)
    requires Holds(tables[|acts|], a, i) && Holds(tables'[|acts'|], b, i)
    ensures SameJoin(tables[|acts|][a], tables'[|acts'|][b])
  {
    StoredRowIsJoin(tables, acts, i, |acts|);
    StoredRowIsJoin(tables', acts', i, |acts'|);
    var x, y := tables[|acts|], tables'[|acts'|];
    assert ActiveUnique(x) && ActiveUnique(y);
    hide IsJoin, ActiveUnique, IdentityOf, IsWriting, Writes, SameJoin;
    var p :| Holds(x, p, i) && IsJoin(x[p], Writes(acts, |acts|));
    var q :| Holds(y, q, i) && IsJoin(y[q], Writes(acts', |acts'|));
    OnlyHolder(x, i, p, a);
    OnlyHolder(y, i, q, b);
    JoinUnique(x[a], y[b], Writes(acts, |acts|), Writes(acts', |acts'|));
  }

  lemma RememberedIsAct(a: Rows, b: Rows, w: Record, now: int, r: Record)
    requires w.status.Active?
    requires if exists twin :: twin in a && Twins(a[twin], w)
             then r.id in a && Twins(a[r.id], w) && r == Merged(a[r.id], w, now) && b == a[r.id := r]
             else b == a[w.id := w]
    ensures IsAct(a, Write(w, now), b, IdentityOf(w))
  {
    HoldsIsTwin(a, w);
    hide Twins, Merged, IdentityOf, Holds;
    if exists twin :: twin in a && Twins(a[twin], w) {
      assert Holds(a, r.id, IdentityOf(w)) && b == a[r.id := Merged(a[r.id], w, now)];
    }
  }

  lemma HoldsIsTwin(rows: Rows, w: Record)
    requires w.status.Active?
    ensures forall id :: Holds(rows, id, IdentityOf(w)) <==> id in rows && Twins(rows[id], w)
  {
  }

  lemma CanonicalFresh(rules: Text.LibraryRules, memory: NewMemory, id: MemoryId, madeAt: int)
    requires Canonicalized(rules, RawRecord(memory, id, madeAt)).Ok?
    ensures var w := Canonicalized(rules, RawRecord(memory, id, madeAt)).value;
            w.status.Active? && w.id == id
  {
    CanonicalKeeps(rules, RawRecord(memory, id, madeAt));
  }

  /** A successful `remember` is such a write. */
  method RememberIsWrite(store: MemoryStore, memory: NewMemory, id: MemoryId, madeAt: int, now: int) returns (r: Result<Record, Error>)
    requires store.Valid() && id !in store.rows && !memory.sensitivity.Ephemeral?
    modifies store
    ensures store.Valid()
    ensures var c := Canonicalized(store.rules, RawRecord(memory, id, madeAt));
            if c.Ok? then r.Ok? && c.value.status.Active? && IsAct(old(store.rows), Write(c.value, now), store.rows, IdentityOf(c.value))
            else r.Err? && store.State() == old(store.State())
  {
    ghost var c := Canonicalized(store.rules, RawRecord(memory, id, madeAt));
    hide *;
    r := store.Remember(memory, id, madeAt, now);
    if c.Ok? {
      CanonicalFresh(store.rules, memory, id, madeAt);
      RememberedIsAct(old(store.rows), store.rows, c.value, now, r.value);
    }
  }

  /** What the join is, column by column: pinned if some write was, open-ended if some write was ... */
  lemma {:induction false} JoinIsAny(writes: seq<Record>, times: seq<int>)
    requires writes != [] && |times| == |writes|
    ensures var row := AfterWrites(writes, times);
            && (row.pinned <==> exists i :: 0 <= i < |writes| && writes[i].pinned)
            && (row.validUntil.None? <==> exists i :: 0 <= i < |writes| && writes[i].validUntil.None?)
  {
    var n := |writes| - 1;
    var init := writes[..n];
    assert forall i :: 0 <= i < n ==> init[i] == writes[i];
    if n > 0 {
      JoinIsAny(init, times[..n]);
    }
  }

  /** ... and in every other column the greatest of the writes ... */
  lemma {:induction false} JoinIsSome(writes: seq<Record>, times: seq<int>)
    requires writes != [] && |times| == |writes|
    ensures var row := AfterWrites(writes, times);
            && (exists w :: w in writes && w.importance == row.importance)
            && (exists w :: w in writes && w.confidence == row.confidence)
            && (exists w :: w in writes && w.sensitivity == row.sensitivity)
            && (exists w :: w in writes && w.validUntil == row.validUntil)
  {
    var n := |writes| - 1;
    var init := writes[..n];
    assert writes == init + [writes[n]];
    assert writes[n] in writes;
    if n > 0 {
      JoinIsSome(init, times[..n]);
      MergedPicks(AfterWrites(init, times[..n]), writes[n], times[n]);
      hide Merged;
      assert AfterWrites(writes, times) == Merged(AfterWrites(init, times[..n]), writes[n], times[n]);
    }
  }

  lemma MergedPicks(a: Record, b: Record, now: int)
    ensures var m := Merged(a, b, now);
            && m.importance in {a.importance, b.importance} && m.confidence in {a.confidence, b.confidence}
            && m.sensitivity in {a.sensitivity, b.sensitivity} && m.validUntil in {a.validUntil, b.validUntil}
  {
  }

  /** ... no write being above it. */
  lemma JoinIsGreatest(writes: seq<Record>, times: seq<int>, i: nat)
    requires writes != [] && |times| == |writes| && i < |writes|
    ensures var row, w := AfterWrites(writes, times), writes[i];
            && w.importance <= row.importance && w.confidence <= row.confidence && w.sensitivity.Rank() <= row.sensitivity.Rank()
            && (row.validUntil.Some? ==> w.validUntil.Some? && w.validUntil.value <= row.validUntil.value)
  {
    BoundsEveryWrite(writes, times, i);
  }

  lemma JoinColumns(a: Record, b: Record)
    requires SameJoin(a, b)
    ensures a.sensitivity == b.sensitivity && a.pinned == b.pinned && a.importance == b.importance
    ensures a.confidence == b.confidence && a.validUntil == b.validUntil
  {
  }
}
