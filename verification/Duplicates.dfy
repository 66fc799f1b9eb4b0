/** Tables with duplicate active identities: the schema 9 migration, which resolves them, and the
    maintenance pass, which finds none in a table the store kept. */
module Duplicates {
  import opened Basics
  import opened Order
  import opened Records

  datatype Outcome<T> = Committed(value: T) | RolledBack

  // ---------- the migration ----------

  /** ORDER BY pinned DESC, importance DESC, updated_at DESC, id ASC. */
  predicate Leads(a: Record, b: Record) {
    if a.pinned != b.pinned then a.pinned
    else if a.importance != b.importance then a.importance > b.importance
    else if a.updatedAt != b.updatedAt then a.updatedAt > b.updatedAt
    else StrLe(a.id, b.id)
  }

  lemma LeadsTotal(a: Record, b: Record)
    ensures Leads(a, b) || Leads(b, a)
  {
    StrLeTotal(a.id, b.id);
  }

  lemma LeadsTransitive(a: Record, b: Record, c: Record)
    requires Leads(a, b) && Leads(b, c)
    ensures Leads(a, c)
  {
    if StrLe(a.id, b.id) && StrLe(b.id, c.id) {
      StrLeTransitive(a.id, b.id, c.id);
    }
  }

  lemma LeadsAntisymmetric(a: Record, b: Record)
    requires Leads(a, b) && Leads(b, a)
    ensures a.id == b.id
  {
    StrLeAntisymmetric(a.id, b.id);
  }

  predicate IsMember(rows: Rows, done: set<MemoryId>, i: Identity, id: MemoryId) {
    id in done && id in rows && rows[id].status.Active? && IdentityOf(rows[id]) == i
  }

  /** FIRST_VALUE(id) of a partition. */
  ghost predicate IsLeader(rows: Rows, done: set<MemoryId>, i: Identity, id: MemoryId) {
    IsMember(rows, done, i, id) && forall other :: IsMember(rows, done, i, other) ==> Leads(rows[id], rows[other])
  }

  /** MAX(rank) of a partition. */
  ghost predicate IsTop(rows: Rows, done: set<MemoryId>, i: Identity, s: Sensitivity) {
    && (exists id :: IsMember(rows, done, i, id) && rows[id].sensitivity == s)
    && forall id :: IsMember(rows, done, i, id) ==> rows[id].sensitivity.Rank() <= s.Rank()
  }

  datatype Group = Group(leader: MemoryId, top: Sensitivity)

  type Groups = map<Identity, Group>

  /** The window functions evaluated over the rows of `done`. */
  ghost predicate IsGrouping(rows: Rows, done: set<MemoryId>, g: Groups) {
    && (forall id :: id in done && id in rows && rows[id].status.Active? ==> IdentityOf(rows[id]) in g)
    && forall i :: i in g ==> IsLeader(rows, done, i, g[i].leader) && IsTop(rows, done, i, g[i].top)
  }

  lemma MemberSnoc(rows: Rows, done: set<MemoryId>, i: Identity, id: MemoryId, other: MemoryId)
    ensures IsMember(rows, done + {id}, i, other) <==> IsMember(rows, done, i, other) || (other == id && IsMember(rows, {id}, i, id))
  {
  }

  lemma GroupingSkips(rows: Rows, done: set<MemoryId>, g: Groups, id: MemoryId)
    requires RowsKeyed(rows) && IsGrouping(rows, done, g) && id in rows && !rows[id].status.Active?
    ensures IsGrouping(rows, done + {id}, g)
  {
    forall i, other
      ensures IsMember(rows, done + {id}, i, other) <==> IsMember(rows, done, i, other)
    {
      MemberSnoc(rows, done, i, id, other);
    }
  }

  lemma GroupStarts(rows: Rows, done: set<MemoryId>, g: Groups, id: MemoryId)
    requires RowsKeyed(rows) && IsGrouping(rows, done, g) && id in rows && rows[id].status.Active? && IdentityOf(rows[id]) !in g
    ensures var i := IdentityOf(rows[id]);
            IsLeader(rows, done + {id}, i, id) && IsTop(rows, done + {id}, i, rows[id].sensitivity)
  {
    var i := IdentityOf(rows[id]);
    LeadsTotal(rows[id], rows[id]);
    forall other | IsMember(rows, done + {id}, i, other)
      ensures other == id
    {
      MemberSnoc(rows, done, i, id, other);
    }
    assert IsMember(rows, done + {id}, i, id);
  }

  lemma GroupGrows(rows: Rows, done: set<MemoryId>, i: Identity, group: Group, id: MemoryId)
    requires RowsKeyed(rows) && id in rows && rows[id].status.Active? && IdentityOf(rows[id]) == i
    requires IsLeader(rows, done, i, group.leader) && IsTop(rows, done, i, group.top)
    ensures IsTop(rows, done + {id}, i, group.top.MostRestrictive(rows[id].sensitivity))
    ensures IsLeader(rows, done + {id}, i, if Leads(rows[group.leader], rows[id]) then group.leader else id)
  {
    forall other
      ensures IsMember(rows, done + {id}, i, other) <==> IsMember(rows, done, i, other) || other == id
    {
      MemberSnoc(rows, done, i, id, other);
    }
    LeadsTotal(rows[group.leader], rows[id]);
    LeadsTotal(rows[id], rows[id]);
    if !Leads(rows[group.leader], rows[id]) {
      forall other | IsMember(rows, done, i, other)
        ensures Leads(rows[id], rows[other])
      {
        LeadsTransitive(rows[id], rows[group.leader], rows[other]);
      }
    }
    var top := group.top.MostRestrictive(rows[id].sensitivity);
    if top == group.top {
      var w :| IsMember(rows, done, i, w) && rows[w].sensitivity == group.top;
      assert IsMember(rows, done + {id}, i, w);
    } else {
      assert IsMember(rows, done + {id}, i, id);
    }
  }

  lemma OtherGroups(rows: Rows, done: set<MemoryId>, i: Identity, group: Group, id: MemoryId)
    requires id in rows && IdentityOf(rows[id]) != i
    requires IsLeader(rows, done, i, group.leader) && IsTop(rows, done, i, group.top)
    ensures IsLeader(rows, done + {id}, i, group.leader) && IsTop(rows, done + {id}, i, group.top)
  {
    forall other
      ensures IsMember(rows, done + {id}, i, other) <==> IsMember(rows, done, i, other)
    {
      MemberSnoc(rows, done, i, id, other);
    }
  }

  method GroupActive(rows: Rows) returns (g: Groups)
    requires RowsKeyed(rows)
    ensures IsGrouping(rows, rows.Keys, g)
  {
    g := map[];
    var rest := rows.Keys;
    ghost var done: set<MemoryId> := {};
    assert IsGrouping(rows, done, g);
    hide *;
    while rest != {}
      invariant rest + done == rows.Keys && rest !! done
      invariant IsGrouping(rows, done, g)
      decreases |rest|
    {
      var id :| id in rest;
      g := GroupOne(rows, done, g, id);
      rest, done := rest - {id}, done + {id};
    }
    assert done == rows.Keys;
  }

  lemma GroupIs(rows: Rows, done: set<MemoryId>, g: Groups, i: Identity)
    requires IsGrouping(rows, done, g) && i in g
    ensures IsLeader(rows, done, i, g[i].leader) && IsTop(rows, done, i, g[i].top) && g[i].leader in rows
  {
  }

  /** One more active row: its group is joined, the others stand. */
  lemma GroupingGrows(rows: Rows, done: set<MemoryId>, g: Groups, id: MemoryId, group: Group)
    requires RowsKeyed(rows) && IsGrouping(rows, done, g) && id in rows
    requires IsLeader(rows, done + {id}, IdentityOf(rows[id]), group.leader) && IsTop(rows, done + {id}, IdentityOf(rows[id]), group.top)
    ensures IsGrouping(rows, done + {id}, g[IdentityOf(rows[id]) := group])
  {
    hide IsLeader, IsTop;
    forall j | j in g && j != IdentityOf(rows[id])
      ensures IsLeader(rows, done + {id}, j, g[j].leader) && IsTop(rows, done + {id}, j, g[j].top)
    {
      OtherGroups(rows, done, j, g[j], id);
    }
  }

  method GroupOne(rows: Rows, ghost done: set<MemoryId>, g: Groups, id: MemoryId) returns (g': Groups)
    requires RowsKeyed(rows) && IsGrouping(rows, done, g) && id in rows
    ensures IsGrouping(rows, done + {id}, g')
  {
    hide *;
    if !rows[id].status.Active? {
      GroupingSkips(rows, done, g, id);
      return g;
    }
    var i := IdentityOf(rows[id]);
    var group: Group;
    if i in g {
      GroupIs(rows, done, g, i);
      GroupGrows(rows, done, i, g[i], id);
      var leader := if Leads(rows[g[i].leader], rows[id]) then g[i].leader else id;
      group := Group(leader, g[i].top.MostRestrictive(rows[id].sensitivity));
    } else {
      GroupStarts(rows, done, g, id);
      group := Group(id, rows[id].sensitivity);
    }
    GroupingGrows(rows, done, g, id, group);
    g' := g[i := group];
  }

  /** What the two UPDATE statements make of a row. */
  function ResolvedRow(g: Groups, r: Record, now: int): Record {
    var i := IdentityOf(r);
    if !r.status.Active? || i !in g then r
    else if g[i].leader == r.id then r.(sensitivity := g[i].top)
    else r.(status := Superseded, supersedesId := Some(g[i].leader), validUntil := ClosedAt(r.validUntil, now))
  }

  function ResolvedRows(rows: Rows, g: Groups, now: int): Rows {
    map id | id in rows :: ResolvedRow(g, rows[id], now)
  }

  predicate HasTwin(rows: Rows, id: MemoryId) {
    id in rows && exists other :: other in rows && other != id && Twins(rows[other], rows[id])
  }

  /** The UPDATEs touch the rows of every group of two or more; a trigger refuses this one. */
  predicate Refused(rows: Rows, g: Groups, now: int, id: MemoryId) {
    HasTwin(rows, id) && !ConstraintsOk(ResolvedRow(g, rows[id], now))
  }

  method ResolveDuplicates(rows: Rows, now: int) returns (r: Outcome<Rows>)
    requires RowsKeyed(rows)
    ensures exists g :: IsGrouping(rows, rows.Keys, g) && IsResolution(rows, g, now, r)
  {
    var groups := GroupActive(rows);
    ResolutionIs(rows, groups, now);
    hide *;
    if exists id :: id in rows && Refused(rows, groups, now, id) {
      r := RolledBack;
    } else {
      r := Committed(ResolvedRows(rows, groups, now));
    }
    assert IsGrouping(rows, rows.Keys, groups) && IsResolution(rows, groups, now, r);
  }

  lemma ResolutionIs(rows: Rows, g: Groups, now: int)
    ensures IsResolution(rows, g, now,
                         if exists id :: id in rows && Refused(rows, g, now, id) then RolledBack
                         else Committed(ResolvedRows(rows, g, now)))
  {
    assert forall id :: Refused(rows, g, now, id) ==> id in rows;
    hide Refused, ResolvedRows;
  }

  /** Every row resolved, or none because some update is refused. */
  ghost predicate IsResolution(rows: Rows, g: Groups, now: int, r: Outcome<Rows>) {
    match r
    case RolledBack => exists id :: Refused(rows, g, now, id)
    case Committed(after) => after == ResolvedRows(rows, g, now) && forall id :: !Refused(rows, g, now, id)
  }

  // ---------- what the migration guarantees ----------

  lemma LeaderUnique(rows: Rows, done: set<MemoryId>, i: Identity, a: MemoryId, b: MemoryId)
    requires RowsKeyed(rows) && IsLeader(rows, done, i, a) && IsLeader(rows, done, i, b)
    ensures a == b
  {
    LeadsAntisymmetric(rows[a], rows[b]);
  }

  lemma TopUnique(rows: Rows, done: set<MemoryId>, i: Identity, s: Sensitivity, t: Sensitivity)
    requires IsTop(rows, done, i, s) && IsTop(rows, done, i, t)
    ensures s == t
  {
    var a :| IsMember(rows, done, i, a) && rows[a].sensitivity == s;
    var b :| IsMember(rows, done, i, b) && rows[b].sensitivity == t;
    assert s.Rank() == t.Rank();
  }

  lemma GroupsCover(rows: Rows, done: set<MemoryId>, g: Groups, h: Groups, i: Identity)
    requires IsGrouping(rows, done, g) && IsGrouping(rows, done, h) && i in g
    ensures i in h
  {
    assert IsLeader(rows, done, i, g[i].leader);
    assert IsMember(rows, done, i, g[i].leader);
  }

  lemma SameGroup(rows: Rows, done: set<MemoryId>, g: Groups, h: Groups, i: Identity)
    requires RowsKeyed(rows) && IsGrouping(rows, done, g) && IsGrouping(rows, done, h) && i in g
    ensures i in h && g[i] == h[i]
  {
    GroupsCover(rows, done, g, h, i);
    hide IsLeader, IsTop, RowsKeyed;
    LeaderUnique(rows, done, i, g[i].leader, h[i].leader);
    TopUnique(rows, done, i, g[i].top, h[i].top);
  }

  /** Only one grouping exists, so the migration has one result. */
  lemma GroupingUnique(rows: Rows, done: set<MemoryId>, g: Groups, h: Groups)
    requires RowsKeyed(rows) && IsGrouping(rows, done, g) && IsGrouping(rows, done, h)
    ensures g == h
  {
    hide IsGrouping, RowsKeyed;
    forall i
      ensures i in g ==> i in h && g[i] == h[i]
      ensures i in h ==> i in g
    {
      if i in g {
        SameGroup(rows, done, g, h, i);
      }
      if i in h {
        SameGroup(rows, done, h, g, i);
      }
    }
  }

  /** No row is lost and no sensitivity drops; inactive rows are untouched. */
  lemma NothingLost(rows: Rows, g: Groups, now: int, id: MemoryId)
    requires RowsKeyed(rows) && IsGrouping(rows, rows.Keys, g) && id in rows
    ensures ResolvedRows(rows, g, now).Keys == rows.Keys
    ensures rows[id].sensitivity.Rank() <= ResolvedRows(rows, g, now)[id].sensitivity.Rank()
    ensures !rows[id].status.Active? ==> ResolvedRows(rows, g, now)[id] == rows[id]
  {
    if rows[id].status.Active? {
      var i := IdentityOf(rows[id]);
      assert IsMember(rows, rows.Keys, i, id);
    }
  }

  /** Every active identity keeps exactly its leader, which carries the most restrictive sensitivity of its
      group; every other member is superseded and points to it. */
  lemma GroupResolved(rows: Rows, g: Groups, now: int, id: MemoryId)
    requires RowsKeyed(rows) && IsGrouping(rows, rows.Keys, g) && id in rows && rows[id].status.Active?
    ensures IdentityOf(rows[id]) in g
    ensures var i := IdentityOf(rows[id]);
            var leader, after := g[i].leader, ResolvedRows(rows, g, now);
            && leader in rows && after[leader].status.Active? && IdentityOf(after[leader]) == i
            && Leads(rows[leader], rows[id])
            && rows[id].sensitivity.Rank() <= after[leader].sensitivity.Rank()
            && (exists w :: IsMember(rows, rows.Keys, i, w) && rows[w].sensitivity == after[leader].sensitivity)
            && (id != leader ==> after[id].status.Superseded? && after[id].supersedesId == Some(leader))
  {
    var i := IdentityOf(rows[id]);
    assert IsLeader(rows, rows.Keys, i, g[i].leader) && IsTop(rows, rows.Keys, i, g[i].top);
    assert IsMember(rows, rows.Keys, i, id) && IsMember(rows, rows.Keys, i, g[i].leader);
  }

  /** Hence the unique index can be created. */
  lemma ResolutionUnique(rows: Rows, g: Groups, now: int)
    requires RowsKeyed(rows) && IsGrouping(rows, rows.Keys, g)
    ensures ActiveUnique(ResolvedRows(rows, g, now)) && RowsKeyed(ResolvedRows(rows, g, now))
  {
    var after := ResolvedRows(rows, g, now);
    forall a, b | a in after && b in after && Twins(after[a], after[b])
      ensures a == b
    {
      assert rows[a].status.Active? && rows[b].status.Active?;
      GroupResolved(rows, g, now, a);
      GroupResolved(rows, g, now, b);
    }
  }

  /** A loser that starts in the future. */
  predicate LosesEarly(rows: Rows, g: Groups, now: int, id: MemoryId) {
    && id in rows && rows[id].status.Active? && IdentityOf(rows[id]) in g && g[IdentityOf(rows[id])].leader != id
    && rows[id].validFrom.Some? && rows[id].validFrom.value > now
  }

  lemma RefusedIff(rows: Rows, g: Groups, now: int, id: MemoryId)
    requires RowsKeyed(rows) && IsGrouping(rows, rows.Keys, g) && id in rows && ConstraintsOk(rows[id])
    ensures Refused(rows, g, now, id) <==> LosesEarly(rows, g, now, id)
  {
    ClosingNeedsPastStart(rows[id], now);
    if rows[id].status.Active? {
      LoserHasTwin(rows, g, id);
      hide HasTwin, IsGrouping, IdentityOf, RowsKeyed;
    } else {
      hide IsGrouping, IdentityOf;
    }
  }

  /** On rows that satisfy the constraints the migration is rolled back exactly when some loser starts in
      the future. */
  lemma RolledBackIff(rows: Rows, g: Groups, now: int)
    requires RowsKeyed(rows) && IsGrouping(rows, rows.Keys, g) && forall id :: id in rows ==> ConstraintsOk(rows[id])
    ensures (exists id :: Refused(rows, g, now, id)) <==> exists id :: LosesEarly(rows, g, now, id)
  {
    forall id
      ensures Refused(rows, g, now, id) <==> LosesEarly(rows, g, now, id)
    {
      if id in rows {
        RefusedIff(rows, g, now, id);
      }
    }
    hide Refused, LosesEarly;
  }

  lemma LoserHasTwin(rows: Rows, g: Groups, id: MemoryId)
    requires RowsKeyed(rows) && IsGrouping(rows, rows.Keys, g) && id in rows && rows[id].status.Active?
    ensures IdentityOf(rows[id]) in g
    ensures g[IdentityOf(rows[id])].leader != id ==> HasTwin(rows, id)
  {
    var i := IdentityOf(rows[id]);
    assert IsMember(rows, rows.Keys, i, g[i].leader);
    assert Twins(rows[g[i].leader], rows[id]);
  }

  /** A table without duplicates passes through unchanged. */
  lemma NoDuplicatesNoChange(rows: Rows, g: Groups, now: int)
    requires RowsKeyed(rows) && IsGrouping(rows, rows.Keys, g) && ActiveUnique(rows)
    ensures ResolvedRows(rows, g, now) == rows
  {
    forall id | id in rows
      ensures ResolvedRow(g, rows[id], now) == rows[id]
    {
      if rows[id].status.Active? {
        var i := IdentityOf(rows[id]);
        assert IsLeader(rows, rows.Keys, i, g[i].leader) && IsTop(rows, rows.Keys, i, g[i].top);
        assert Twins(rows[g[i].leader], rows[id]);
        var w :| IsMember(rows, rows.Keys, i, w) && rows[w].sensitivity == g[i].top;
        assert Twins(rows[w], rows[id]);
      }
    }
  }

  // ---------- the maintenance pass ----------

  ghost predicate InRows(rows: Rows, order: seq<MemoryId>) {
    forall k :: 0 <= k < |order| ==> order[k] in rows
  }

  /** ORDER BY pinned DESC, importance DESC, updated_at DESC, with ties in any order. */
  predicate Precedes(a: Record, b: Record) {
    if a.pinned != b.pinned then a.pinned
    else if a.importance != b.importance then a.importance > b.importance
    else a.updatedAt >= b.updatedAt
  }

  /** The rows `consolidate_exact_duplicates` reads: the active rows of one workspace, each once. */
  ghost predicate IsScan(rows: Rows, namespace: string, workspace: string, order: seq<MemoryId>) {
    && NoDuplicates(order) && InRows(rows, order)
    && (forall id :: id in rows ==>
          (id in order <==> rows[id].status.Active? && rows[id].address.namespace == namespace && rows[id].address.workspace == workspace))
    && forall j, k :: 0 <= j < k < |order| ==> Precedes(rows[order[j]], rows[order[k]])
  }

  /** The position of the first row with the identity of row `k`. */
  function FirstTwin(rows: Rows, order: seq<MemoryId>, k: nat, from: nat): (j: nat)
    requires from <= k < |order| && InRows(rows, order)
    ensures from <= j <= k && IdentityOf(rows[order[j]]) == IdentityOf(rows[order[k]])
    ensures forall m :: from <= m < j ==> IdentityOf(rows[order[m]]) != IdentityOf(rows[order[k]])
    decreases k - from
  {
    if IdentityOf(rows[order[from]]) == IdentityOf(rows[order[k]]) then from else FirstTwin(rows, order, k, from + 1)
  }

  function SupersededRow(r: Record, keep: MemoryId, now: int): Record {
    r.(status := Superseded, supersedesId := Some(keep), updatedAt := now, validUntil := ClosedAt(r.validUntil, now))
  }

  /** The first of its identity in scan order stays, a later one is superseded by it. */
  ghost predicate IsConsolidated(rows: Rows, order: seq<MemoryId>, n: nat, now: int, after: Rows)
    requires n <= |order| && InRows(rows, order)
  {
    && after.Keys == rows.Keys
    && (forall id :: id in rows && id !in order[..n] ==> after[id] == rows[id])
    && forall k :: 0 <= k < n ==>
         after[order[k]] == ConsolidatedAt(rows, order, k, now)
  }

  function ConsolidatedAt(rows: Rows, order: seq<MemoryId>, k: nat, now: int): Record
    requires k < |order| && InRows(rows, order)
  {
    var j := FirstTwin(rows, order, k, 0);
    if j == k then rows[order[k]] else SupersededRow(rows[order[k]], order[j], now)
  }

  /** The keeper map after `n` rows: each identity seen has the id of its first row. */
  function Keepers(rows: Rows, order: seq<MemoryId>, n: nat): map<Identity, MemoryId>
    requires n <= |order| && InRows(rows, order)
  {
    if n == 0 then map[]
    else
      var before, i := Keepers(rows, order, n - 1), IdentityOf(rows[order[n - 1]]);
      if i in before then before else before[i := order[n - 1]]
  }

  lemma {:induction false} KeeperIsFirst(rows: Rows, order: seq<MemoryId>, n: nat, k: nat)
    requires n <= k < |order| && InRows(rows, order)
    ensures var i, j := IdentityOf(rows[order[k]]), FirstTwin(rows, order, k, 0);
            (i in Keepers(rows, order, n) <==> j < n) && (j < n ==> Keepers(rows, order, n)[i] == order[j])
  {
    hide FirstTwin, IdentityOf;
    if n > 0 {
      KeeperIsFirst(rows, order, n - 1, k);
    }
  }

  /** Row `k` repeats an earlier identity and the triggers refuse to close it. */
  ghost predicate StopsAt(rows: Rows, order: seq<MemoryId>, now: int, k: nat)
    requires InRows(rows, order)
  {
    k < |order| && FirstTwin(rows, order, k, 0) < k && !ConstraintsOk(ConsolidatedAt(rows, order, k, now))
  }

  ghost predicate SomeStops(rows: Rows, order: seq<MemoryId>, now: int)
    requires InRows(rows, order)
  {
    exists k: nat :: StopsAt(rows, order, now, k)
  }

  /** Which of the first `n` rows are not the first of their identity. */
  ghost function Repeats(rows: Rows, order: seq<MemoryId>, n: nat): set<nat>
    requires n <= |order| && InRows(rows, order)
  {
    set k: nat | k < n && FirstTwin(rows, order, k, 0) < k
  }

  /** One scanned row: a repeat is closed and superseded, the first of its identity is remembered. */
  method VisitRow(rows: Rows, order: seq<MemoryId>, n: nat, now: int, keeper: map<Identity, MemoryId>, after: Rows, changed: nat)
      returns (refused: bool, keeper': map<Identity, MemoryId>, after': Rows, changed': nat)
    requires n < |order| && NoDuplicates(order) && InRows(rows, order)
    requires keeper == Keepers(rows, order, n) && IsConsolidated(rows, order, n, now, after) && changed == |Repeats(rows, order, n)|
    ensures keeper' == Keepers(rows, order, n + 1) && IsConsolidated(rows, order, n + 1, now, after')
    ensures changed' == |Repeats(rows, order, n + 1)|
    ensures refused ==> SomeStops(rows, order, now)
    ensures !refused && NoneStops(rows, order, now, n) ==> NoneStops(rows, order, now, n + 1)
  {
    TwinStep(rows, order, n, now);
    NoneStopsStep(rows, order, now, n);
    ConsolidatedGrows(rows, order, n, now, after);
    hide *;
    var i := IdentityOf(rows[order[n]]);
    if i in keeper {
      var row := SupersededRow(rows[order[n]], keeper[i], now);
      refused, keeper', after', changed' := !ConstraintsOk(row), keeper, after[order[n] := row], changed + 1;
    } else {
      refused, keeper', after', changed' := false, keeper[i := order[n]], after, changed;
    }
  }

  method ConsolidateExactDuplicates(rows: Rows, namespace: string, workspace: string, order: seq<MemoryId>, now: int)
      returns (r: Outcome<Rows>, changed: nat)
    requires RowsKeyed(rows) && IsScan(rows, namespace, workspace, order)
    ensures InRows(rows, order)
    ensures r.RolledBack? <==> SomeStops(rows, order, now)
    ensures r.Committed? ==> IsConsolidated(rows, order, |order|, now, r.value) && changed == |Repeats(rows, order, |order|)|
  {
    ScanInRows(rows, namespace, workspace, order);
    var keeper: map<Identity, MemoryId> := map[];
    var after := rows;
    changed := 0;
    ConsolidationStarts(rows, order, now);
    hide *;
    for n := 0 to |order|
      invariant keeper == Keepers(rows, order, n)
      invariant IsConsolidated(rows, order, n, now, after)
      invariant changed == |Repeats(rows, order, n)|
      invariant NoneStops(rows, order, now, n)
    {
      var refused;
      refused, keeper, after, changed := VisitRow(rows, order, n, now, keeper, after, changed);
      if refused {
        return RolledBack, changed;
      }
    }
    NoneStopsAtAll(rows, order, now);
    return Committed(after), changed;
  }

  ghost predicate NoneStops(rows: Rows, order: seq<MemoryId>, now: int, n: nat)
    requires InRows(rows, order)
  {
    forall k: nat :: k < n ==> !StopsAt(rows, order, now, k)
  }

  lemma NoneStopsStep(rows: Rows, order: seq<MemoryId>, now: int, n: nat)
    requires InRows(rows, order)
    ensures NoneStops(rows, order, now, n) && !StopsAt(rows, order, now, n) ==> NoneStops(rows, order, now, n + 1)
    ensures StopsAt(rows, order, now, n) ==> SomeStops(rows, order, now)
  {
    hide StopsAt;
    forall k: nat | k < n + 1 && NoneStops(rows, order, now, n) && !StopsAt(rows, order, now, n)
      ensures !StopsAt(rows, order, now, k)
    {
      assert k < n || k == n;
    }
  }

  lemma NoneStopsAtAll(rows: Rows, order: seq<MemoryId>, now: int)
    requires InRows(rows, order) && NoneStops(rows, order, now, |order|)
    ensures !SomeStops(rows, order, now)
  {
  }

  lemma ScanInRows(rows: Rows, namespace: string, workspace: string, order: seq<MemoryId>)
    requires IsScan(rows, namespace, workspace, order)
    ensures NoDuplicates(order) && InRows(rows, order)
  {
  }

  lemma ConsolidationStarts(rows: Rows, order: seq<MemoryId>, now: int)
    requires InRows(rows, order)
    ensures IsConsolidated(rows, order, 0, now, rows) && Keepers(rows, order, 0) == map[]
    ensures Repeats(rows, order, 0) == {}
    ensures NoneStops(rows, order, now, 0)
  {
  }

  lemma ConsolidatedGrows(rows: Rows, order: seq<MemoryId>, n: nat, now: int, after: Rows)
    requires n < |order| && NoDuplicates(order) && InRows(rows, order)
    requires IsConsolidated(rows, order, n, now, after)
    ensures order[n] in after && after[order[n] := rows[order[n]]] == after
    ensures IsConsolidated(rows, order, n + 1, now, after[order[n] := ConsolidatedAt(rows, order, n, now)])
  {
    hide ConsolidatedAt;
    assert order[..n + 1] == order[..n] + [order[n]];
    assert order[n] !in order[..n];
  }

  lemma RepeatsStep(rows: Rows, order: seq<MemoryId>, n: nat)
    requires n < |order| && InRows(rows, order)
    ensures |Repeats(rows, order, n + 1)| == |Repeats(rows, order, n)| + if FirstTwin(rows, order, n, 0) < n then 1 else 0
  {
    assert Repeats(rows, order, n + 1) == Repeats(rows, order, n) + if FirstTwin(rows, order, n, 0) < n then {n} else {};
  }

  /** What the keeper map says about row `n`. */
  lemma TwinStep(rows: Rows, order: seq<MemoryId>, n: nat, now: int)
    requires n < |order| && InRows(rows, order)
    ensures var i, keeper := IdentityOf(rows[order[n]]), Keepers(rows, order, n);
            && Keepers(rows, order, n + 1) == (if i in keeper then keeper else keeper[i := order[n]])
            && |Repeats(rows, order, n + 1)| == |Repeats(rows, order, n)| + (if i in keeper then 1 else 0)
            && ConsolidatedAt(rows, order, n, now) ==
               (if i in keeper then SupersededRow(rows[order[n]], keeper[i], now) else rows[order[n]])
            && (StopsAt(rows, order, now, n) <==> i in keeper && !ConstraintsOk(SupersededRow(rows[order[n]], keeper[i], now)))
  {
    KeeperIsFirst(rows, order, n, n);
    RepeatsStep(rows, order, n);
    hide Repeats, FirstTwin, SupersededRow, ConstraintsOk, IdentityOf;
  }

  lemma ActiveAfter(rows: Rows, order: seq<MemoryId>, now: int, after: Rows, k: nat)
    requires InRows(rows, order) && IsConsolidated(rows, order, |order|, now, after)
    requires k < |order| && after[order[k]].status.Active?
    ensures FirstTwin(rows, order, k, 0) == k && after[order[k]] == rows[order[k]]
  {
    assert after[order[k]] == ConsolidatedAt(rows, order, k, now);
  }

  lemma OnlyScannedChange(rows: Rows, order: seq<MemoryId>, now: int, after: Rows, id: MemoryId)
    requires InRows(rows, order) && IsConsolidated(rows, order, |order|, now, after) && id in after
    ensures id in rows && (id !in order ==> after[id] == rows[id])
  {
    assert order[..|order|] == order;
  }

  /** An active twin of a scanned row is scanned too. */
  lemma TwinScanned(rows: Rows, namespace: string, workspace: string, order: seq<MemoryId>, a: MemoryId, b: MemoryId)
    requires IsScan(rows, namespace, workspace, order) && a in order && b in rows && Twins(rows[a], rows[b])
    ensures b in order
  {
  }

  /** Whatever the table held, afterwards no row of the workspace has an active twin ... */
  lemma ConsolidatedUnique(rows: Rows, namespace: string, workspace: string, order: seq<MemoryId>, now: int, after: Rows, a: MemoryId, b: MemoryId)
    requires IsScan(rows, namespace, workspace, order) && IsConsolidated(rows, order, |order|, now, after)
    requires a in order && b in after && Twins(after[a], after[b])
    ensures a == b
  {
    ScanInRows(rows, namespace, workspace, order);
    OnlyScannedChange(rows, order, now, after, b);
    var m: nat :| m < |order| && order[m] == a;
    ActiveAfter(rows, order, now, after, m);
    if b !in order {
      TwinScanned(rows, namespace, workspace, order, a, b);
    } else {
      var n: nat :| n < |order| && order[n] == b;
      ActiveAfter(rows, order, now, after, n);
      hide IsConsolidated, IsScan;
    }
  }

  /** ... every identity that was active still is, in a row none of its twins precedes, and each twin
      superseded names that row. */
  lemma ConsolidatedKeepsOne(rows: Rows, namespace: string, workspace: string, order: seq<MemoryId>, now: int, after: Rows, k: nat)
    requires IsScan(rows, namespace, workspace, order) && k < |order|
    requires InRows(rows, order) && IsConsolidated(rows, order, |order|, now, after)
    ensures var keep := order[FirstTwin(rows, order, k, 0)];
            && Twins(after[keep], rows[order[k]]) && after[keep] == rows[keep] && Precedes(rows[keep], rows[order[k]])
            && (order[k] != keep ==> after[order[k]].status.Superseded? && after[order[k]].supersedesId == Some(keep))
  {
    var j := FirstTwin(rows, order, k, 0);
    assert FirstTwin(rows, order, j, 0) == j;
    assert after[order[j]] == ConsolidatedAt(rows, order, j, now) && after[order[k]] == ConsolidatedAt(rows, order, k, now);
    assert order[j] in order && order[k] in order;
    hide IsConsolidated;
  }

  /** A repeat that starts in the future. */
  ghost predicate RepeatsEarly(rows: Rows, order: seq<MemoryId>, now: int, k: nat)
    requires InRows(rows, order)
  {
    && k < |order| && FirstTwin(rows, order, k, 0) < k
    && rows[order[k]].validFrom.Some? && rows[order[k]].validFrom.value > now
  }

  lemma StopsAtIff(rows: Rows, order: seq<MemoryId>, now: int, k: nat)
    requires InRows(rows, order) && forall id :: id in rows ==> ConstraintsOk(rows[id])
    ensures StopsAt(rows, order, now, k) <==> RepeatsEarly(rows, order, now, k)
  {
    hide FirstTwin;
    if k < |order| {
      ClosingNeedsPastStart(rows[order[k]], now);
    }
  }

  /** On rows that satisfy the constraints the pass is rolled back exactly when some repeat starts in the
      future. */
  lemma SomeStopsIff(rows: Rows, order: seq<MemoryId>, now: int)
    requires InRows(rows, order) && forall id :: id in rows ==> ConstraintsOk(rows[id])
    ensures SomeStops(rows, order, now) <==> exists k: nat :: RepeatsEarly(rows, order, now, k)
  {
    forall k: nat
      ensures StopsAt(rows, order, now, k) <==> RepeatsEarly(rows, order, now, k)
    {
      StopsAtIff(rows, order, now, k);
    }
    hide StopsAt, RepeatsEarly;
  }

  lemma NoRepeat(rows: Rows, namespace: string, workspace: string, order: seq<MemoryId>, k: nat)
    requires IsScan(rows, namespace, workspace, order) && ActiveUnique(rows) && k < |order|
    ensures FirstTwin(rows, order, k, 0) == k
  {
    var j := FirstTwin(rows, order, k, 0);
    assert order[j] in order && order[k] in order;
    assert Twins(rows[order[j]], rows[order[k]]);
  }

  /** In a table the store kept the pass finds no repeat, so it commits and changes nothing. */
  lemma NothingToConsolidate(rows: Rows, namespace: string, workspace: string, order: seq<MemoryId>, now: int)
    requires IsScan(rows, namespace, workspace, order) && ActiveUnique(rows)
    ensures Repeats(rows, order, |order|) == {} && !SomeStops(rows, order, now)
    ensures forall after :: IsConsolidated(rows, order, |order|, now, after) ==> after == rows
  {
    forall k: nat | k < |order|
      ensures FirstTwin(rows, order, k, 0) == k
    {
      NoRepeat(rows, namespace, workspace, order, k);
    }
    forall after | IsConsolidated(rows, order, |order|, now, after)
      ensures after == rows
    {
      UnchangedWithoutRepeats(rows, order, now, after);
    }
    hide IsScan, ActiveUnique, FirstTwin, IsConsolidated;
  }

  lemma UnchangedWithoutRepeats(rows: Rows, order: seq<MemoryId>, now: int, after: Rows)
    requires InRows(rows, order) && IsConsolidated(rows, order, |order|, now, after)
    requires forall k: nat :: k < |order| ==> FirstTwin(rows, order, k, 0) == k
    ensures after == rows
  {
    assert order[..|order|] == order;
    forall id | id in rows
      ensures after[id] == rows[id]
    {
      if id in order {
        var k: nat :| k < |order| && order[k] == id;
        assert after[order[k]] == ConsolidatedAt(rows, order, k, now);
      }
    }
  }
}
