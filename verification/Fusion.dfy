/** Reciprocal-rank fusion of a lexical and a semantic result list, with scores as exact reals. */
module Fusion {
  import opened Basics
  import opened Order
  import opened Records

  const RANK_OFFSET: nat := 61
  const LEXICAL_WEIGHT: real := 1.0
  const SEMANTIC_WEIGHT: real := 1.2
  const MAX_HYBRID_RESULTS: nat := 50

  datatype Entry = Entry(score: real, record: Record)

  type Ranks = map<MemoryId, Entry>

  ghost predicate DistinctIds(list: seq<Record>) {
    forall i, j :: 0 <= i < j < |list| ==> list[i].id != list[j].id
  }

  predicate Lists(list: seq<Record>, id: MemoryId) {
    exists i :: 0 <= i < |list| && list[i].id == id
  }

  /** The position of a record, or the length of a list that does not have it. */
  function Rank(list: seq<Record>, id: MemoryId): (r: nat)
    ensures r <= |list|
    ensures r < |list| ==> list[r].id == id
    ensures forall i :: 0 <= i < r ==> list[i].id != id
  {
    if list == [] || list[0].id == id then 0
    else
      var rest := Rank(list[1..], id);
      assert forall i :: 0 < i < |list| ==> list[i] == list[1..][i - 1];
      rest + 1
  }

  function Reciprocal(weight: real, index: nat): real {
    weight / (RANK_OFFSET + index) as real
  }

  /** What one list contributes to a record's score. */
  function Part(weight: real, list: seq<Record>, id: MemoryId): real {
    if Rank(list, id) < |list| then Reciprocal(weight, Rank(list, id)) else 0.0
  }

  function FusedScore(lexical: seq<Record>, semantic: seq<Record>, id: MemoryId): real {
    Part(LEXICAL_WEIGHT, lexical, id) + Part(SEMANTIC_WEIGHT, semantic, id)
  }

  /** The copy of the record that is returned: the lexical one if there are two. */
  function Copy(lexical: seq<Record>, semantic: seq<Record>, id: MemoryId): Record
    requires Lists(lexical, id) || Lists(semantic, id)
  {
    if Rank(lexical, id) < |lexical| then lexical[Rank(lexical, id)] else semantic[Rank(semantic, id)]
  }

  lemma RankSnoc(list: seq<Record>, r: Record, id: MemoryId)
    requires DistinctIds(list + [r])
    ensures DistinctIds(list)
    ensures Lists(list + [r], id) <==> Lists(list, id) || id == r.id
    ensures Rank(list + [r], id) == if Lists(list, id) then Rank(list, id) else if id == r.id then |list| else |list| + 1
  {
    var all := list + [r];
    assert forall i :: 0 <= i < |list| ==> all[i] == list[i];
    assert all[|list|] == r;
    assert DistinctIds(list) by {
      forall i, j | 0 <= i < j < |list|
        ensures list[i].id != list[j].id
      {
        assert all[i].id != all[j].id;
      }
    }
  }

  lemma ListsIff(list: seq<Record>, id: MemoryId)
    ensures Lists(list, id) <==> Rank(list, id) < |list|
  {
  }

  /** A step of either loop changes the contribution of the record appended, and no other. */
  lemma PartSnoc(weight: real, list: seq<Record>, r: Record, id: MemoryId)
    requires DistinctIds(list + [r])
    ensures Part(weight, list + [r], id) == if id == r.id then Reciprocal(weight, |list|) else Part(weight, list, id)
    ensures id == r.id ==> !Lists(list, id) && Part(weight, list, id) == 0.0
  {
    RankSnoc(list, r, id);
    ListsIff(list, id);
    var all := list + [r];
    assert all[|list|] == r && forall i :: 0 <= i < |list| ==> all[i] == list[i];
  }

  /** The rank map after both loops. */
  ghost predicate IsFused(lexical: seq<Record>, semantic: seq<Record>, ranks: Ranks) {
    forall id :: (id in ranks <==> Lists(lexical, id) || Lists(semantic, id))
                 && (id in ranks ==> ranks[id] == Entry(FusedScore(lexical, semantic, id), Copy(lexical, semantic, id)))
  }

  lemma CopySnoc(lexical: seq<Record>, semantic: seq<Record>, r: Record, id: MemoryId)
    requires DistinctIds(semantic + [r])
    ensures Lists(lexical, id) || Lists(semantic, id) ==>
              Lists(semantic + [r], id) == (Lists(semantic, id) || id == r.id)
              && Copy(lexical, semantic + [r], id) == Copy(lexical, semantic, id)
    ensures id == r.id && !Lists(lexical, id) ==> Lists(semantic + [r], id) && Copy(lexical, semantic + [r], id) == r
  {
    RankSnoc(semantic, r, id);
    ListsIff(lexical, id);
    ListsIff(semantic, id);
    var all := semantic + [r];
    assert all[|semantic|] == r && forall i :: 0 <= i < |semantic| ==> all[i] == semantic[i];
  }

  lemma LexicalCopySnoc(lexical: seq<Record>, r: Record, id: MemoryId)
    requires DistinctIds(lexical + [r])
    ensures Lists(lexical, id) ==> Lists(lexical + [r], id) && Copy(lexical + [r], [], id) == Copy(lexical, [], id)
    ensures id == r.id ==> Lists(lexical + [r], id) && Copy(lexical + [r], [], id) == r
  {
    RankSnoc(lexical, r, id);
    ListsIff(lexical, id);
    var all := lexical + [r];
    assert all[|lexical|] == r && forall i :: 0 <= i < |lexical| ==> all[i] == lexical[i];
  }

  lemma LexicalStep(lexical: seq<Record>, r: Record, ranks: Ranks)
    requires DistinctIds(lexical + [r]) && IsFused(lexical, [], ranks)
    ensures IsFused(lexical + [r], [], ranks[r.id := Entry(Reciprocal(LEXICAL_WEIGHT, |lexical|), r)])
  {
    hide Part, Copy, Lists, Rank, DistinctIds, Reciprocal;
    forall id: MemoryId
      ensures Lists(lexical + [r], id) <==> Lists(lexical, id) || id == r.id
      ensures Part(SEMANTIC_WEIGHT, [], id) == 0.0 && !Lists([], id)
      ensures Part(LEXICAL_WEIGHT, lexical + [r], id) ==
              if id == r.id then Reciprocal(LEXICAL_WEIGHT, |lexical|) else Part(LEXICAL_WEIGHT, lexical, id)
      ensures Lists(lexical, id) ==> Copy(lexical + [r], [], id) == Copy(lexical, [], id)
      ensures id == r.id ==> Copy(lexical + [r], [], id) == r
    {
      RankSnoc(lexical, r, id);
      NothingListed(id);
      PartSnoc(LEXICAL_WEIGHT, lexical, r, id);
      LexicalCopySnoc(lexical, r, id);
    }
  }

  lemma NothingListed(id: MemoryId)
    ensures !Lists([], id) && Part(SEMANTIC_WEIGHT, [], id) == 0.0 && Part(LEXICAL_WEIGHT, [], id) == 0.0
  {
  }

  lemma PartAbsent(weight: real, list: seq<Record>, id: MemoryId)
    requires !Lists(list, id)
    ensures Part(weight, list, id) == 0.0
  {
    ListsIff(list, id);
  }

  lemma SemanticStep(lexical: seq<Record>, semantic: seq<Record>, r: Record, ranks: Ranks)
    requires DistinctIds(semantic + [r]) && IsFused(lexical, semantic, ranks)
    ensures var score := Reciprocal(SEMANTIC_WEIGHT, |semantic|);
            var entry := if r.id in ranks then ranks[r.id].(score := ranks[r.id].score + score) else Entry(score, r);
            IsFused(lexical, semantic + [r], ranks[r.id := entry])
  {
    hide Part, Copy, Lists, Rank, DistinctIds, Reciprocal;
    forall id: MemoryId
      ensures Lists(semantic + [r], id) <==> Lists(semantic, id) || id == r.id
      ensures Part(SEMANTIC_WEIGHT, semantic + [r], id) ==
              if id == r.id then Reciprocal(SEMANTIC_WEIGHT, |semantic|) else Part(SEMANTIC_WEIGHT, semantic, id)
      ensures id == r.id ==> Part(SEMANTIC_WEIGHT, semantic, id) == 0.0 && !Lists(semantic, id)
      ensures !Lists(lexical, id) ==> Part(LEXICAL_WEIGHT, lexical, id) == 0.0
      ensures Lists(lexical, id) || Lists(semantic, id) ==> Copy(lexical, semantic + [r], id) == Copy(lexical, semantic, id)
      ensures id == r.id && !Lists(lexical, id) ==> Copy(lexical, semantic + [r], id) == r
    {
      RankSnoc(semantic, r, id);
      PartSnoc(SEMANTIC_WEIGHT, semantic, r, id);
      CopySnoc(lexical, semantic, r, id);
      if !Lists(lexical, id) {
        PartAbsent(LEXICAL_WEIGHT, lexical, id);
      }
    }
  }

  lemma DistinctPrefix(list: seq<Record>, n: nat)
    requires DistinctIds(list) && n < |list|
    ensures list[..n] + [list[n]] == list[..n + 1] && DistinctIds(list[..n + 1])
  {
  }

  method FuseRanks(lexical: seq<Record>, semantic: seq<Record>) returns (ranks: Ranks)
    requires DistinctIds(lexical) && DistinctIds(semantic)
    ensures IsFused(lexical, semantic, ranks)
  {
    ranks := map[];
    for index := 0 to |lexical|
      invariant IsFused(lexical[..index], [], ranks)
    {
      hide *;
      var record := lexical[index];
      DistinctPrefix(lexical, index);
      LexicalStep(lexical[..index], record, ranks);
      ranks := ranks[record.id := Entry(Reciprocal(LEXICAL_WEIGHT, index), record)];
    }
    assert lexical[..|lexical|] == lexical && semantic[..0] == [];
    hide *;
    for index := 0 to |semantic|
      invariant IsFused(lexical, semantic[..index], ranks)
    {
      var record := semantic[index];
      var score := Reciprocal(SEMANTIC_WEIGHT, index);
      DistinctPrefix(semantic, index);
      SemanticStep(lexical, semantic[..index], record, ranks);
      var entry := if record.id in ranks then ranks[record.id].(score := ranks[record.id].score + score) else Entry(score, record);
      ranks := ranks[record.id := entry];
    }
    assert semantic[..|semantic|] == semantic;
  }

  // ---------- the ranking ----------

  /** Higher score first, then smaller id. */
  predicate Above(a: Entry, b: Entry) {
    a.score > b.score || (a.score == b.score && StrLe(a.record.id, b.record.id))
  }

  lemma AboveIsTotalPreorder()
    ensures TotalPreorder(Above)
  {
    forall a: Entry, b: Entry
      ensures Above(a, b) || Above(b, a)
    {
      StrLeTotal(a.record.id, b.record.id);
    }
    forall a: Entry, b: Entry, c: Entry | Above(a, b) && Above(b, c)
      ensures Above(a, c)
    {
      if StrLe(a.record.id, b.record.id) && StrLe(b.record.id, c.record.id) {
        StrLeTransitive(a.record.id, b.record.id, c.record.id);
      }
    }
  }

  /** All entries of the map, each once, in some order. */
  ghost predicate IsListing(ranks: Ranks, entries: seq<Entry>) {
    && (forall i :: 0 <= i < |entries| ==> entries[i].record.id in ranks && ranks[entries[i].record.id] == entries[i])
    && (forall id :: id in ranks ==> ranks[id] in entries)
    && forall i, j :: 0 <= i < j < |entries| ==> entries[i].record.id != entries[j].record.id
  }

  /** The whole fused ranking, before it is cut. */
  ghost predicate IsRanking(ranks: Ranks, entries: seq<Entry>) {
    IsListing(ranks, entries) && SortedBy(Above, entries)
  }

  lemma ListingMultiset(ranks: Ranks, a: seq<Entry>, b: seq<Entry>)
    requires IsListing(ranks, a) && IsListing(ranks, b)
    ensures multiset(a) == multiset(b)
  {
    forall e: Entry
      ensures multiset(a)[e] == multiset(b)[e]
    {
      OnceInListing(ranks, a, e);
      OnceInListing(ranks, b, e);
    }
  }

  lemma OnceInListing(ranks: Ranks, entries: seq<Entry>, e: Entry)
    requires IsListing(ranks, entries)
    ensures multiset(entries)[e] == if e.record.id in ranks && ranks[e.record.id] == e then 1 else 0
  {
    if e in entries {
      var i :| 0 <= i < |entries| && entries[i] == e;
      assert entries == entries[..i] + [e] + entries[i + 1..];
      assert e !in entries[..i] && e !in entries[i + 1..];
    }
  }

  lemma ListingTieFree(ranks: Ranks, entries: seq<Entry>)
    requires IsListing(ranks, entries)
    ensures TieFree(Above, entries)
  {
    forall a, b | a in entries && b in entries && Above(a, b) && Above(b, a)
      ensures a == b
    {
      StrLeAntisymmetric(a.record.id, b.record.id);
    }
  }

  /** The ranking does not depend on the order in which the hash map yields its values. */
  lemma RankingUnique(ranks: Ranks, a: seq<Entry>, b: seq<Entry>)
    requires IsRanking(ranks, a) && IsRanking(ranks, b)
    ensures a == b
  {
    ListingMultiset(ranks, a, b);
    ListingTieFree(ranks, a);
    SortedUnique(Above, a, b);
  }

  /** A rearrangement of a listing is a listing. */
  lemma ListingPermutes(ranks: Ranks, a: seq<Entry>, b: seq<Entry>)
    requires IsListing(ranks, a) && multiset(a) == multiset(b)
    ensures IsListing(ranks, b)
  {
    forall i | 0 <= i < |b|
      ensures b[i] in a
    {
      assert b[i] in multiset(b);
      assert b[i] in multiset(a);
    }
    forall id | id in ranks
      ensures ranks[id] in b
    {
      assert ranks[id] in multiset(a);
      assert ranks[id] in multiset(b);
    }
    forall i, j | 0 <= i < j < |b|
      ensures b[i].record.id != b[j].record.id
    {
      OnceInListing(ranks, a, b[i]);
      assert b == b[..i] + [b[i]] + b[i + 1..];
      assert b[j] == b[i + 1..][j - i - 1];
      assert b[i] == b[j] ==> multiset(b)[b[i]] >= 2;
    }
  }

  method ListValues(ranks: Ranks) returns (entries: seq<Entry>)
    requires forall id :: id in ranks ==> ranks[id].record.id == id
    ensures IsListing(ranks, entries)
  {
    entries := [];
    var rest := ranks.Keys;
    while rest != {}
      invariant rest <= ranks.Keys
      invariant forall i :: 0 <= i < |entries| ==> entries[i].record.id in ranks && ranks[entries[i].record.id] == entries[i]
      invariant forall i :: 0 <= i < |entries| ==> entries[i].record.id !in rest
      invariant forall id :: id in ranks && id !in rest ==> ranks[id] in entries
      invariant forall i, j :: 0 <= i < j < |entries| ==> entries[i].record.id != entries[j].record.id
      decreases |rest|
    {
      var id :| id in rest;
      entries := entries + [ranks[id]];
      rest := rest - {id};
    }
  }

  lemma FusedKeyed(lexical: seq<Record>, semantic: seq<Record>, ranks: Ranks)
    requires IsFused(lexical, semantic, ranks)
    ensures forall id :: id in ranks ==> ranks[id].record.id == id
  {
    forall id | id in ranks
      ensures ranks[id].record.id == id
    {
      ListsIff(lexical, id);
      ListsIff(semantic, id);
    }
  }

  method RankValues(ranks: Ranks) returns (ranking: seq<Entry>)
    requires forall id :: id in ranks ==> ranks[id].record.id == id
    ensures IsRanking(ranks, ranking)
  {
    var values := ListValues(ranks);
    ranking := Sort(Above, values);
    ListingPermutes(ranks, values, ranking);
    AboveIsTotalPreorder();
    SortSorts(Above, values);
    hide IsListing, SortedBy, TotalPreorder, Sort;
  }

  lemma RankedDistinct(ranks: Ranks, ranking: seq<Entry>)
    requires IsRanking(ranks, ranking)
    ensures forall i, j :: 0 <= i < j < |ranking| ==> ranking[i].record.id != ranking[j].record.id
  {
  }

  /** The part of `search_hybrid` after the two searches. */
  method SearchHybrid(lexical: seq<Record>, semantic: seq<Record>, queryLimit: nat)
      returns (hits: seq<Record>, ghost ranks: Ranks, ghost ranking: seq<Entry>)
    requires DistinctIds(lexical) && DistinctIds(semantic)
    ensures DistinctIds(hits) && |hits| <= Min(queryLimit, 50)
    ensures semantic == [] ==> hits == lexical[..Min(Min(queryLimit, 50), |lexical|)]
    ensures semantic != [] ==>
              && IsFused(lexical, semantic, ranks) && IsRanking(ranks, ranking)
              && |hits| == Min(Min(queryLimit, 50), |ranking|)
              && forall i :: 0 <= i < |hits| ==> hits[i] == ranking[i].record
  {
    var limit := Min(queryLimit, MAX_HYBRID_RESULTS);
    if semantic == [] {
      return lexical[..Min(limit, |lexical|)], map[], [];
    }
    var fused := FuseRanks(lexical, semantic);
    FusedKeyed(lexical, semantic, fused);
    var sorted := RankValues(fused);
    ranks, ranking := fused, sorted;
    hits := seq(Min(limit, |sorted|), i requires 0 <= i < |sorted| => sorted[i].record);
    RankedDistinct(fused, sorted);
    hide IsFused, IsRanking;
  }

  // ---------- what the ranking means ----------

  lemma ReciprocalDecreases(weight: real, i: nat, j: nat)
    requires weight > 0.0 && i < j
    ensures Reciprocal(weight, i) > Reciprocal(weight, j) > 0.0
  {
    var a, b := (RANK_OFFSET + i) as real, (RANK_OFFSET + j) as real;
    assert weight / a - weight / b == weight * (b - a) / (a * b);
  }

  lemma PartDecreases(weight: real, list: seq<Record>, a: MemoryId, b: MemoryId)
    requires weight > 0.0 && Rank(list, a) <= Rank(list, b)
    ensures Part(weight, list, a) >= Part(weight, list, b)
    ensures Rank(list, a) < Rank(list, b) ==> Part(weight, list, a) > Part(weight, list, b)
  {
    if Rank(list, a) < Rank(list, b) {
      ReciprocalDecreases(weight, Rank(list, a), Rank(list, b));
    }
  }

  /** A record at least as high in both lists, and higher in one, scores more ... */
  lemma DominantScore(lexical: seq<Record>, semantic: seq<Record>, a: MemoryId, b: MemoryId)
    requires Rank(lexical, a) <= Rank(lexical, b) && Rank(semantic, a) <= Rank(semantic, b)
    requires Rank(lexical, a) < Rank(lexical, b) || Rank(semantic, a) < Rank(semantic, b)
    ensures FusedScore(lexical, semantic, a) > FusedScore(lexical, semantic, b)
  {
    PartDecreases(LEXICAL_WEIGHT, lexical, a, b);
    PartDecreases(SEMANTIC_WEIGHT, semantic, a, b);
    hide Part, Rank;
  }

  /** ... and so is never after the other. */
  lemma DominanceKept(lexical: seq<Record>, semantic: seq<Record>, ranks: Ranks, ranking: seq<Entry>, i: nat, j: nat)
    requires IsFused(lexical, semantic, ranks) && IsRanking(ranks, ranking) && i < |ranking| && j < |ranking|
    requires var a, b := ranking[i].record.id, ranking[j].record.id;
             && Rank(lexical, a) <= Rank(lexical, b) && Rank(semantic, a) <= Rank(semantic, b)
             && (Rank(lexical, a) < Rank(lexical, b) || Rank(semantic, a) < Rank(semantic, b))
    ensures i < j
  {
    var a, b := ranking[i].record.id, ranking[j].record.id;
    DominantScore(lexical, semantic, a, b);
    hide FusedScore, Rank, Copy;
    assert ranking[i].score > ranking[j].score;
    assert j < i ==> Above(ranking[j], ranking[i]);
  }
}
