/** The specification of `expand_concepts`: the concepts around a few seeds, nearest first. */
module Expansions {
  import opened Basics
  import opened Order
  import opened Text
  import opened Reachability
  import opened AscendingLists
  import Records

  type ConceptId = string

  const MAX_HOPS: nat := 4
  const MAX_CONCEPTS: nat := 100
  const MAX_SEEDS: nat := 16

  datatype Scope = Scope(namespace: string, workspace: string)

  /** The columns of a concept the expansion does not look at. */
  datatype Detail = Detail(sensitivity: Records.Sensitivity, labels: seq<string>, sources: seq<string>, createdAt: int, updatedAt: int)

  datatype Concept = Concept(
    id: ConceptId, scope: Scope, name: string, definition: string, confidence: real, revision: nat, detail: Detail)

  type ConceptRows = map<ConceptId, Concept>

  predicate RowsKeyed(rows: ConceptRows) {
    forall id :: id in rows ==> rows[id].id == id
  }

  predicate InScope(rows: ConceptRows, scope: Scope, id: ConceptId) {
    id in rows && rows[id].scope == scope
  }

  // ---------- lists of identifiers ----------

  /** The first `n` non-blank seeds, duplicates included. */
  function FirstSeeds(seeds: seq<ConceptId>, n: nat): seq<ConceptId> {
    if seeds == [] || n == 0 then []
    else if Trim(seeds[0]) == [] then FirstSeeds(seeds[1..], n)
    else [seeds[0]] + FirstSeeds(seeds[1..], n - 1)
  }

  /** `retain(|id| visited.insert(id))`: drop what was seen, in `visited` or earlier in the list. */
  function Retain(s: seq<ConceptId>, visited: set<ConceptId>): (r: seq<ConceptId>)
    ensures Elements(r) == Elements(s) - visited
    ensures NoDuplicates(r)
  {
    if s == [] then []
    else
      ElementsCons(s);
      if s[0] in visited then Retain(s[1..], visited)
      else
        var rest := Retain(s[1..], visited + {s[0]});
        assert s[0] !in Elements(rest);
        ElementsCons([s[0]] + rest);
        [s[0]] + rest
  }

  /** A list without duplicates and without visited elements is retained whole. */
  lemma {:induction false} RetainNothing(s: seq<ConceptId>, visited: set<ConceptId>)
    requires NoDuplicates(s) && Elements(s) !! visited
    ensures Retain(s, visited) == s
  {
    if s != [] {
      assert s[0] in Elements(s);
      forall x | x in Elements(s[1..])
        ensures x !in visited + {s[0]}
      {
        var k :| 0 <= k < |s[1..]| && s[1..][k] == x;
        assert s[k + 1] in Elements(s) && s[0] != s[k + 1];
      }
      RetainNothing(s[1..], visited + {s[0]});
    }
  }

  lemma AscendingNoDuplicates(s: seq<ConceptId>)
    requires Ascending(s)
    ensures NoDuplicates(s)
  {
    forall i, j | 0 <= i < j < |s|
      ensures s[i] != s[j]
    {
      assert StrLt(s[i], s[j]);
    }
  }

  function SeedSet(seeds: seq<ConceptId>): set<ConceptId> {
    Elements(FirstSeeds(seeds, MAX_SEEDS))
  }

  /** Layer `d` in reporting order: the seeds as given, every later layer by identifier. */
  ghost function LayerList(pairs: Pairs, seeds: seq<ConceptId>, d: nat): (r: seq<ConceptId>)
    ensures Elements(r) == Layer(pairs, SeedSet(seeds), d)
    ensures NoDuplicates(r)
    ensures d > 0 ==> Ascending(r)
  {
    if d == 0 then Retain(FirstSeeds(seeds, MAX_SEEDS), {})
    else
      var r := InOrder(Layer(pairs, SeedSet(seeds), d));
      AscendingNoDuplicates(r);
      r
  }

  function Hits(rows: ConceptRows, scope: Scope, ids: seq<ConceptId>): seq<Concept> {
    if ids == [] then []
    else (if InScope(rows, scope, ids[0]) then [rows[ids[0]]] else []) + Hits(rows, scope, ids[1..])
  }

  function Take<T>(s: seq<T>, n: nat): seq<T> {
    if |s| <= n then s else s[..n]
  }

  /** The table, the links of one scope and the request: everything the expansion depends on. */
  datatype Query = Query(rows: ConceptRows, pairs: Pairs, scope: Scope, seeds: seq<ConceptId>)

  ghost function LayerHits(q: Query, d: nat): seq<Concept> {
    Hits(q.rows, q.scope, LayerList(q.pairs, q.seeds, d))
  }

  /** The in-scope concepts of the first `n` layers, layer by layer. */
  ghost function Expansion(q: Query, n: nat): seq<Concept> {
    if n == 0 then [] else Expansion(q, n - 1) + LayerHits(q, n - 1)
  }

  // ---------- hits ----------

  lemma {:induction false} HitsAre(rows: ConceptRows, scope: Scope, ids: seq<ConceptId>, c: Concept)
    requires RowsKeyed(rows)
    ensures c in Hits(rows, scope, ids) <==> c.id in Elements(ids) && InScope(rows, scope, c.id) && rows[c.id] == c
  {
    if ids != [] {
      HitsAre(rows, scope, ids[1..], c);
      ElementsCons(ids);
    }
  }

  lemma {:induction false} HitsSnoc(rows: ConceptRows, scope: Scope, ids: seq<ConceptId>, id: ConceptId)
    ensures Hits(rows, scope, ids + [id]) == Hits(rows, scope, ids) + if InScope(rows, scope, id) then [rows[id]] else []
  {
    if ids == [] {
      assert ids + [id] == [id];
    } else {
      assert (ids + [id])[1..] == ids[1..] + [id];
      HitsSnoc(rows, scope, ids[1..], id);
    }
  }

  lemma {:induction false} HitsPrefix(rows: ConceptRows, scope: Scope, ids: seq<ConceptId>, n: nat)
    requires n <= |ids|
    ensures Hits(rows, scope, ids[..n]) <= Hits(rows, scope, ids)
  {
    if n > 0 {
      assert ids[..n][1..] == ids[1..][..n - 1];
      HitsPrefix(rows, scope, ids[1..], n - 1);
    }
  }

  /** Hits keep the order of the list they come from. */
  lemma {:induction false} HitsFollow(rows: ConceptRows, scope: Scope, ids: seq<ConceptId>, i: nat, j: nat) returns (p: nat, q: nat)
    requires RowsKeyed(rows) && i < j < |Hits(rows, scope, ids)|
    ensures p < q < |ids| && ids[p] == Hits(rows, scope, ids)[i].id && ids[q] == Hits(rows, scope, ids)[j].id
  {
    var rest := Hits(rows, scope, ids[1..]);
    if !InScope(rows, scope, ids[0]) {
      p, q := HitsFollow(rows, scope, ids[1..], i, j);
      p, q := p + 1, q + 1;
    } else if i > 0 {
      p, q := HitsFollow(rows, scope, ids[1..], i - 1, j - 1);
      p, q := p + 1, q + 1;
    } else {
      HitsAre(rows, scope, ids[1..], rest[j - 1]);
      var k :| 0 <= k < |ids[1..]| && ids[1..][k] == rest[j - 1].id;
      p, q := 0, k + 1;
    }
  }

  // ---------- what the expansion contains ----------

  lemma LayerHitsAre(q: Query, d: nat, c: Concept)
    requires RowsKeyed(q.rows)
    ensures c in LayerHits(q, d) <==>
            c.id in Layer(q.pairs, SeedSet(q.seeds), d) && InScope(q.rows, q.scope, c.id) && q.rows[c.id] == c
  {
    HitsAre(q.rows, q.scope, LayerList(q.pairs, q.seeds, d), c);
  }

  lemma ExpansionStep(q: Query, n: nat, c: Concept)
    ensures c in Expansion(q, n + 1) <==> c in Expansion(q, n) || c in LayerHits(q, n)
    ensures Expansion(q, 0) == []
  {
    hide LayerHits;
  }

  lemma {:induction false} ExpansionReach(q: Query, n: nat, c: Concept)
    requires RowsKeyed(q.rows)
    ensures c in Expansion(q, n + 1) <==>
            InScope(q.rows, q.scope, c.id) && q.rows[c.id] == c && c.id in Reach(q.pairs, SeedSet(q.seeds), n)
  {
    hide Expansion, LayerHits, RowsKeyed, SeedSet;
    LayerHitsAre(q, n, c);
    ExpansionStep(q, n, c);
    if n > 0 {
      ExpansionReach(q, n - 1, c);
      ReachMonotone(q.pairs, SeedSet(q.seeds), n - 1, n);
    }
  }

  /** Membership: exactly the in-scope concepts within `n` links of the first sixteen non-blank seeds. */
  lemma ExpansionMembers(q: Query, n: nat, c: Concept)
    requires RowsKeyed(q.rows)
    ensures c in Expansion(q, n + 1) <==>
            InScope(q.rows, q.scope, c.id) && q.rows[c.id] == c && ReachableWithin(q.pairs, SeedSet(q.seeds), n, c.id)
  {
    ExpansionReach(q, n, c);
    ReachIsReachability(q.pairs, SeedSet(q.seeds), n, c.id);
  }

  /** An earlier concept is nearer, or as near and, beyond the seeds, smaller. */
  ghost predicate PrecedesAt(pairs: Pairs, seeds: set<ConceptId>, a: ConceptId, b: ConceptId, d: nat, e: nat) {
    && d <= e && a in Layer(pairs, seeds, d) && b in Layer(pairs, seeds, e)
    && a != b && (d == e && d > 0 ==> StrLt(a, b))
  }

  ghost predicate Precedes(pairs: Pairs, seeds: set<ConceptId>, a: ConceptId, b: ConceptId) {
    exists d, e :: PrecedesAt(pairs, seeds, a, b, d, e)
  }

  lemma WithinLayer(q: Query, d: nat, i: nat, j: nat)
    requires RowsKeyed(q.rows) && i < j < |LayerHits(q, d)|
    ensures Precedes(q.pairs, SeedSet(q.seeds), LayerHits(q, d)[i].id, LayerHits(q, d)[j].id)
  {
    var list := LayerList(q.pairs, q.seeds, d);
    var p, r := HitsFollow(q.rows, q.scope, list, i, j);
    assert list[p] in Elements(list) && list[r] in Elements(list);
    assert d > 0 ==> StrLt(list[p], list[r]);
    assert PrecedesAt(q.pairs, SeedSet(q.seeds), list[p], list[r], d, d);
  }

  lemma {:induction false} ExpansionLayer(q: Query, n: nat, i: nat) returns (d: nat)
    requires RowsKeyed(q.rows) && i < |Expansion(q, n)|
    ensures d < n && Expansion(q, n)[i].id in Layer(q.pairs, SeedSet(q.seeds), d)
  {
    var before := Expansion(q, n - 1);
    if i < |before| {
      d := ExpansionLayer(q, n - 1, i);
    } else {
      d := n - 1;
      LayerHitsAre(q, d, LayerHits(q, d)[i - |before|]);
    }
  }

  /** Each concept once, nearest first, each layer after the seeds in ascending order. */
  lemma {:induction false} ExpansionOrdered(q: Query, n: nat, i: nat, j: nat)
    requires RowsKeyed(q.rows) && i < j < |Expansion(q, n)|
    ensures Precedes(q.pairs, SeedSet(q.seeds), Expansion(q, n)[i].id, Expansion(q, n)[j].id)
  {
    hide Layer, LayerHits, RowsKeyed, SeedSet;
    var before := Expansion(q, n - 1);
    if j < |before| {
      ExpansionOrdered(q, n - 1, i, j);
    } else if i < |before| {
      var d := ExpansionLayer(q, n - 1, i);
      LayerHitsAre(q, n - 1, LayerHits(q, n - 1)[j - |before|]);
      LayersDisjoint(q.pairs, SeedSet(q.seeds), d, n - 1);
      assert PrecedesAt(q.pairs, SeedSet(q.seeds), Expansion(q, n)[i].id, Expansion(q, n)[j].id, d, n - 1);
    } else {
      WithinLayer(q, n - 1, i - |before|, j - |before|);
    }
  }

  lemma {:induction false} ExpansionGrows(q: Query, m: nat, n: nat)
    requires m <= n
    ensures Expansion(q, m) <= Expansion(q, n)
  {
    if m < n {
      ExpansionGrows(q, m, n - 1);
    }
  }

  lemma {:induction false} ExpansionEnds(q: Query, m: nat, n: nat)
    requires m <= n && Layer(q.pairs, SeedSet(q.seeds), m) == {}
    ensures Expansion(q, m) == Expansion(q, n)
  {
    if m < n {
      ExpansionEnds(q, m, n - 1);
      EmptyLayersAfter(q.pairs, SeedSet(q.seeds), m, n - 1);
      EmptyList(LayerList(q.pairs, q.seeds, n - 1));
    }
  }

  lemma EmptyList(s: seq<ConceptId>)
    ensures s == [] || s[0] in Elements(s)
  {
  }
}
