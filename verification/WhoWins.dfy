/** Who wins: the rank of a fused result and the row that stays of several duplicates, by their own numbers. */
module WhoWins {
  import opened Basics
  import opened Order
  import opened Records
  import F = Fusion
  import D = Duplicates

  // ---------- fused results ----------

  /** The lists the two searches give: as many identifiers as records. */
  lemma {:induction false} DistinctIff(list: seq<Record>)
    ensures F.DistinctIds(list) <==> |set r | r in list :: r.id| == |list|
  {
    if list != [] {
      var n := |list| - 1;
      DistinctIff(list[..n]);
      IdsAtMost(list[..n]);
      DistinctSnoc(list);
      assert (set r | r in list :: r.id) == (set r | r in list[..n] :: r.id) + {list[n].id};
    }
  }

  lemma DistinctSnoc(list: seq<Record>)
    requires list != []
    ensures var n := |list| - 1;
            F.DistinctIds(list) <==> F.DistinctIds(list[..n]) && list[n].id !in set r | r in list[..n] :: r.id
  {
    var n := |list| - 1;
    var init := list[..n];
    assert forall i :: 0 <= i < n ==> init[i] == list[i] && init[i] in init;
    if r :| r in init && r.id == list[n].id {
      var i: nat :| i < n && init[i] == r;
      assert list[i].id == list[n].id;
    }
  }

  lemma {:induction false} IdsAtMost(list: seq<Record>)
    ensures |set r | r in list :: r.id| <= |list|
  {
    if list != [] {
      var n := |list| - 1;
      IdsAtMost(list[..n]);
      assert (set r | r in list :: r.id) == (set r | r in list[..n] :: r.id) + {list[n].id};
    }
  }

  lemma {:induction false} RankAt(list: seq<Record>, i: nat)
    requires F.DistinctIds(list) && i < |list|
    ensures F.Rank(list, list[i].id) == i
  {
  }

  /** A record listed once scores 1 / (61 + i) in lexical place i or 1.2 / (61 + j) in semantic place j, and the sum of both if
      it is listed twice. */
  lemma ScoreIs(lexical: seq<Record>, semantic: seq<Record>, i: nat, j: nat)
    requires F.DistinctIds(lexical) && F.DistinctIds(semantic)
    ensures i < |lexical| && !F.Lists(semantic, lexical[i].id) ==>
              F.FusedScore(lexical, semantic, lexical[i].id) == 1.0 / (61 + i) as real
    ensures j < |semantic| && !F.Lists(lexical, semantic[j].id) ==>
              F.FusedScore(lexical, semantic, semantic[j].id) == 1.2 / (61 + j) as real
    ensures i < |lexical| && j < |semantic| && lexical[i].id == semantic[j].id ==>
              F.FusedScore(lexical, semantic, lexical[i].id) == 1.0 / (61 + i) as real + 1.2 / (61 + j) as real
  {
    if i < |lexical| {
      RankAt(lexical, i);
      F.ListsIff(semantic, lexical[i].id);
    }
    if j < |semantic| {
      RankAt(semantic, j);
      F.ListsIff(lexical, semantic[j].id);
    }
    hide F.Rank, F.Lists;
  }

  lemma FractionOrder(i: nat, j: nat)
    ensures 1.2 / (61 + j) as real > 1.0 / (61 + i) as real <==> 6 * (61 + i) > 5 * (61 + j)
    ensures 1.2 / (61 + j) as real == 1.0 / (61 + i) as real <==> 6 * (61 + i) == 5 * (61 + j)
  {
    var a, b := (61 + i) as real, (61 + j) as real;
    assert 1.2 / b - 1.0 / a == (1.2 * a - b) / (a * b);
    assert a * b > 0.0;
    assert (1.2 * a - b) / (a * b) > 0.0 <==> 1.2 * a - b > 0.0;
    assert (1.2 * a - b) / (a * b) == 0.0 <==> 1.2 * a - b == 0.0;
  }

  /** Between a record of the lexical list alone and one of the semantic list alone, the semantic one comes first
      exactly when six times its opponent's place, counted from 61, exceeds five times its own, or on a tie its id
      is smaller.  So two list leaders go to the semantic list. */
  lemma OneListWins(lexical: seq<Record>, semantic: seq<Record>, ranks: F.Ranks, ranking: seq<F.Entry>, i: nat, j: nat, p: nat, q: nat)
    requires F.DistinctIds(lexical) && F.DistinctIds(semantic) && i < |lexical| && j < |semantic|
    requires !F.Lists(semantic, lexical[i].id) && !F.Lists(lexical, semantic[j].id)
    requires F.IsFused(lexical, semantic, ranks) && F.IsRanking(ranks, ranking) && p < |ranking| && q < |ranking|
    requires ranking[p].record.id == lexical[i].id && ranking[q].record.id == semantic[j].id
    ensures q < p <==> 6 * (61 + i) > 5 * (61 + j) || (6 * (61 + i) == 5 * (61 + j) && StrLt(semantic[j].id, lexical[i].id))
  {
    ScoreIs(lexical, semantic, i, j);
    FractionOrder(i, j);
    NotListed(semantic, j, lexical[i].id);
    RankedBy(ranks, ranking, p, q);
    RankedBy(ranks, ranking, q, p);
    StrLeTotal(lexical[i].id, semantic[j].id);
    if StrLe(lexical[i].id, semantic[j].id) && StrLe(semantic[j].id, lexical[i].id) {
      StrLeAntisymmetric(lexical[i].id, semantic[j].id);
    }
    hide F.FusedScore, F.Lists, F.Copy, F.DistinctIds;
  }

  lemma NotListed(list: seq<Record>, j: nat, id: MemoryId)
    requires j < |list| && !F.Lists(list, id)
    ensures list[j].id != id
  {
  }

  /** The ranking goes by falling score and, among equals, by ascending id. */
  lemma RankedBy(ranks: F.Ranks, ranking: seq<F.Entry>, i: nat, j: nat)
    requires F.IsRanking(ranks, ranking) && i < |ranking| && j < |ranking|
    ensures i < j ==>
              || ranking[i].score > ranking[j].score
              || (ranking[i].score == ranking[j].score && StrLt(ranking[i].record.id, ranking[j].record.id))
  {
  }

  /** A record both lists hold is returned as the lexical list holds it. */
  lemma LexicalCopy(lexical: seq<Record>, semantic: seq<Record>, ranks: F.Ranks, i: nat)
    requires F.DistinctIds(lexical) && F.IsFused(lexical, semantic, ranks) && i < |lexical|
    ensures lexical[i].id in ranks && ranks[lexical[i].id].record == lexical[i]
  {
    RankAt(lexical, i);
    F.ListsIff(lexical, lexical[i].id);
  }

  lemma SemanticCopy(lexical: seq<Record>, semantic: seq<Record>, ranks: F.Ranks, j: nat)
    requires F.DistinctIds(semantic) && F.IsFused(lexical, semantic, ranks) && j < |semantic| && !F.Lists(lexical, semantic[j].id)
    ensures semantic[j].id in ranks && ranks[semantic[j].id].record == semantic[j]
  {
    RankAt(semantic, j);
    F.ListsIff(semantic, semantic[j].id);
    F.ListsIff(lexical, semantic[j].id);
  }

  // ---------- duplicates ----------

  /** The pinned one, then the more important, then the newer. */
  predicate Outlives(a: Record, b: Record) {
    && (b.pinned ==> a.pinned)
    && (a.pinned == b.pinned ==> a.importance >= b.importance)
    && (a.pinned == b.pinned && a.importance == b.importance ==> a.updatedAt >= b.updatedAt)
  }

  predicate Alike(a: Record, b: Record) {
    a.pinned == b.pinned && a.importance == b.importance && a.updatedAt == b.updatedAt
  }

  /** Of several active rows with one identity, the row that the migration leaves active outlives every other, and has the
      smallest id among those like it. */
  lemma MigrationKeeps(rows: Rows, g: D.Groups, now: int, keep: MemoryId, id: MemoryId)
    requires RowsKeyed(rows) && D.IsGrouping(rows, rows.Keys, g) && keep in rows && id in rows && keep != id
    requires Twins(rows[keep], rows[id]) && D.ResolvedRows(rows, g, now)[keep].status.Active?
    ensures Outlives(rows[keep], rows[id]) && (Alike(rows[keep], rows[id]) ==> StrLt(keep, id))
    ensures var after := D.ResolvedRows(rows, g, now)[id]; after.status.Superseded? && after.supersedesId == Some(keep)
  {
    D.GroupResolved(rows, g, now, id);
    D.GroupResolved(rows, g, now, keep);
  }

  /** The row the maintenance pass leaves outlives every active twin of its workspace. */
  lemma ConsolidationKeeps(rows: Rows, namespace: string, workspace: string, order: seq<MemoryId>, now: int, after: Rows, keep: MemoryId, id: MemoryId)
    requires D.IsScan(rows, namespace, workspace, order) && D.InRows(rows, order) && D.IsConsolidated(rows, order, |order|, now, after)
    requires keep in order && id in order && keep != id && Twins(rows[keep], rows[id]) && after[keep].status.Active?
    ensures Outlives(rows[keep], rows[id])
    ensures after[id].status.Superseded? && after[id].supersedesId == Some(keep)
  {
    var j: nat :| j < |order| && order[j] == keep;
    var k: nat :| k < |order| && order[k] == id;
    D.ActiveAfter(rows, order, now, after, j);
    D.ConsolidatedKeepsOne(rows, namespace, workspace, order, now, after, k);
    D.ConsolidatedKeepsOne(rows, namespace, workspace, order, now, after, j);
    FirstIsFirst(rows, order, j, k);
  }

  lemma FirstIsFirst(rows: Rows, order: seq<MemoryId>, j: nat, k: nat)
    requires D.InRows(rows, order) && j < |order| && k < |order| && D.FirstTwin(rows, order, j, 0) == j
    requires IdentityOf(rows[order[j]]) == IdentityOf(rows[order[k]])
    ensures D.FirstTwin(rows, order, k, 0) == j
  {
    var m := D.FirstTwin(rows, order, k, 0);
    assert !(m < j) && !(j < m);
  }

  /** The pass scans exactly the active rows of its workspace, each once. */
  lemma ScanReads(rows: Rows, namespace: string, workspace: string, order: seq<MemoryId>)
    requires D.IsScan(rows, namespace, workspace, order)
    ensures forall id :: id in order <==>
              id in rows && rows[id].status == Active && rows[id].address.namespace == namespace && rows[id].address.workspace == workspace
    ensures forall j, k :: 0 <= j < k < |order| ==> order[j] != order[k] && Outlives(rows[order[j]], rows[order[k]])
  {
  }

  /** The migration writes only rows that share their identity with another active row. */
  lemma RefusedMeans(rows: Rows, g: D.Groups, now: int, id: MemoryId)
    ensures D.Refused(rows, g, now, id) <==>
            && id in rows && rows[id].status == Active
            && (exists other :: other in rows && other != id && rows[other].status == Active && IdentityOf(rows[other]) == IdentityOf(rows[id]))
            && !ConstraintsOk(D.ResolvedRow(g, rows[id], now))
  {
    hide IdentityOf, ConstraintsOk, D.ResolvedRow;
  }

  /** On rows satisfying the constraints the migration commits exactly when every row that would be superseded has begun by now. */
  lemma CommitsIff(rows: Rows, g: D.Groups, now: int, r: D.Outcome<Rows>)
    requires RowsKeyed(rows) && D.IsGrouping(rows, rows.Keys, g) && (forall id :: id in rows ==> ConstraintsOk(rows[id]))
    requires D.IsResolution(rows, g, now, r)
    ensures r.RolledBack? <==>
            exists id, keep :: id in rows && keep in rows && id != keep && Twins(rows[keep], rows[id])
                               && D.ResolvedRows(rows, g, now)[keep].status.Active?
                               && rows[id].validFrom.Some? && rows[id].validFrom.value > now
    ensures r.Committed? ==> r.value == D.ResolvedRows(rows, g, now)
  {
    D.RolledBackIff(rows, g, now);
    if id :| D.LosesEarly(rows, g, now, id) {
      D.GroupResolved(rows, g, now, id);
      var keep := g[IdentityOf(rows[id])].leader;
      assert keep in rows && Twins(rows[keep], rows[id]);
    }
    if id, keep :| id in rows && keep in rows && id != keep && Twins(rows[keep], rows[id])
                   && D.ResolvedRows(rows, g, now)[keep].status.Active? && rows[id].validFrom.Some? && rows[id].validFrom.value > now {
      D.GroupResolved(rows, g, now, keep);
      assert D.LosesEarly(rows, g, now, id);
    }
  }
}
