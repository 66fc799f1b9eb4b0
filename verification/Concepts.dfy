/** The concept tables and the operations on them. */
module Concepts {
  import opened Basics
  import opened Order
  import opened Reachability
  import opened AscendingLists
  import opened Expansions
  import opened Text

  datatype LinkKey = LinkKey(scope: Scope, source: ConceptId, target: ConceptId, relation: string)

  datatype Edge = Edge(id: string, weight: real, createdAt: int)

  type Links = map<LinkKey, Edge>

  /** The links `keys` walked in both directions. */
  function BothWays(keys: set<LinkKey>): Pairs {
    (set key | key in keys :: (key.source, key.target)) + (set key | key in keys :: (key.target, key.source))
  }

  function ScopedKeys(links: Links, scope: Scope): set<LinkKey> {
    set key | key in links && key.scope == scope
  }

  /** Links are walked in both directions, and only those of the scope. */
  lemma PairsAre(links: Links, scope: Scope, a: ConceptId, b: ConceptId)
    ensures (a, b) in BothWays(ScopedKeys(links, scope)) <==>
            exists key :: key in links && key.scope == scope
                          && ((key.source == a && key.target == b) || (key.source == b && key.target == a))
  {
    var keys := ScopedKeys(links, scope);
    if key :| key in links && key.scope == scope && ((key.source == a && key.target == b) || (key.source == b && key.target == a)) {
      assert key in keys;
    }
  }

  lemma NeighboursSnoc(done: set<LinkKey>, key: LinkKey, from: set<ConceptId>)
    ensures Neighbours(BothWays(done + {key}), from) ==
            Neighbours(BothWays(done), from) + (if key.source in from then {key.target} else {})
                                             + (if key.target in from then {key.source} else {})
  {
    var more := {(key.source, key.target), (key.target, key.source)};
    assert BothWays(done + {key}) == BothWays(done) + more;
    NeighboursGrow(BothWays(done), more, from);
    forall b
      ensures b in Neighbours(more, from) <==> (b == key.target && key.source in from) || (b == key.source && key.target in from)
    {
      NeighboursAre(more, from, b);
    }
  }

  /** The values that are not blank. */
  function NonBlank(values: seq<string>): set<string> {
    set v | v in values && Trim(v) != []
  }

  lemma NonBlankSnoc(values: seq<string>, n: nat)
    requires n < |values|
    ensures NonBlank(values[..n + 1]) == NonBlank(values[..n]) + if Trim(values[n]) != [] then {values[n]} else {}
  {
    assert values[..n + 1] == values[..n] + [values[n]];
  }

  /** Both lists into one ordered set, blank values left out. */
  method MergedStrings(left: seq<string>, right: seq<string>) returns (merged: seq<string>)
    ensures merged == InOrder(NonBlank(left + right))
  {
    var values := left + right;
    merged := [];
    for i := 0 to |values|
      invariant Ascending(merged) && Elements(merged) == NonBlank(values[..i])
    {
      NonBlankSnoc(values, i);
      if Trim(values[i]) != [] {
        InsertKeepsAscending(merged, values[i]);
        merged := InsertAscending(merged, values[i]);
      }
    }
    assert values[..|values|] == values;
    AscendingUnique(merged, InOrder(NonBlank(values)));
  }

  /** The row of a known name after another upsert. */
  ghost function Revised(row: Concept, incoming: Concept, now: int): Concept {
    row.(definition := incoming.definition,
         confidence := if row.confidence >= incoming.confidence then row.confidence else incoming.confidence,
         revision := row.revision + 1,
         detail := Detail(row.detail.sensitivity.MostRestrictive(incoming.detail.sensitivity),
                          InOrder(NonBlank(row.detail.labels + incoming.detail.labels)),
                          InOrder(NonBlank(row.detail.sources + incoming.detail.sources)),
                          row.detail.createdAt, now))
  }

  /** Labels, sources, confidence and sensitivity only accumulate; identity and creation time stay. */
  lemma RevisedAccumulates(row: Concept, incoming: Concept, now: int)
    ensures var r := Revised(row, incoming, now);
            && r.id == row.id && r.scope == row.scope && r.name == row.name && r.detail.createdAt == row.detail.createdAt
            && r.definition == incoming.definition && r.revision == row.revision + 1 && r.detail.updatedAt == now
            && r.confidence >= row.confidence && r.confidence >= incoming.confidence
            && r.detail.sensitivity.Rank() >= row.detail.sensitivity.Rank()
            && r.detail.sensitivity.Rank() >= incoming.detail.sensitivity.Rank()
            && (r.confidence == row.confidence || r.confidence == incoming.confidence)
            && (r.detail.sensitivity == row.detail.sensitivity || r.detail.sensitivity == incoming.detail.sensitivity)
            && Ascending(r.detail.labels) && Ascending(r.detail.sources)
            && NonBlank(row.detail.labels) + NonBlank(incoming.detail.labels) == Elements(r.detail.labels)
            && NonBlank(row.detail.sources) + NonBlank(incoming.detail.sources) == Elements(r.detail.sources)
  {
    assert NonBlank(row.detail.labels + incoming.detail.labels) == NonBlank(row.detail.labels) + NonBlank(incoming.detail.labels);
    assert NonBlank(row.detail.sources + incoming.detail.sources) == NonBlank(row.detail.sources) + NonBlank(incoming.detail.sources);
  }

  datatype LinkError = SelfLink | MissingEndpoint

  ghost predicate NamesUnique(rows: ConceptRows) {
    forall a, b :: a in rows && b in rows && rows[a].scope == rows[b].scope && rows[a].name == rows[b].name ==> a == b
  }

  ghost predicate LinksOk(rows: ConceptRows, links: Links) {
    forall key :: key in links ==>
      && key.source != key.target
      && InScope(rows, key.scope, key.source) && InScope(rows, key.scope, key.target)
      && 0.0 <= links[key].weight <= 1.0
  }

  /** A new row for a new name of its scope, or a change that keeps scope and name. */
  lemma PutConcept(rows: ConceptRows, links: Links, c: Concept)
    requires RowsKeyed(rows) && NamesUnique(rows) && LinksOk(rows, links)
    requires if c.id in rows then rows[c.id].scope == c.scope && rows[c.id].name == c.name
             else forall id :: InScope(rows, c.scope, id) ==> rows[id].name != c.name
    ensures RowsKeyed(rows[c.id := c]) && NamesUnique(rows[c.id := c]) && LinksOk(rows[c.id := c], links)
  {
  }

  lemma KeyedAt(rows: ConceptRows, id: ConceptId)
    requires RowsKeyed(rows) && id in rows
    ensures rows[id].id == id
  {
  }

  class ConceptStore {
    var concepts: ConceptRows
    var links: Links

    /** Every link joins two different concepts of its own scope and carries a weight in 0..1; a name
        belongs to one concept of its scope. */
    ghost predicate Valid()
      reads this
    {
      RowsKeyed(concepts) && NamesUnique(concepts) && LinksOk(concepts, links)
    }

    constructor ()
      ensures Valid() && concepts == map[] && links == map[]
    {
      concepts, links := map[], map[];
    }

    method FindByName(scope: Scope, name: string) returns (found: Option<ConceptId>)
      requires Valid()
      ensures found.Some? ==> InScope(concepts, scope, found.value) && concepts[found.value].name == name
      ensures found.None? ==> forall id :: InScope(concepts, scope, id) ==> concepts[id].name != name
    {
      var rest := concepts.Keys;
      while rest != {}
        invariant rest <= concepts.Keys
        invariant forall id :: InScope(concepts, scope, id) && concepts[id].name == name ==> id in rest
        decreases |rest|
      {
        var id :| id in rest;
        if concepts[id].scope == scope && concepts[id].name == name {
          return Some(id);
        }
        rest := rest - {id};
      }
      return None;
    }

    /** A known name keeps its row, revised; a new one gets a row of its own. */
    method UpsertConcept(incoming: Concept, now: int) returns (stored: Concept)
      requires Valid() && incoming.id !in concepts
      modifies this`concepts
      ensures Valid()
      ensures concepts == old(concepts)[stored.id := stored]
      ensures stored.id in old(concepts) ==>
                && InScope(old(concepts), incoming.scope, stored.id) && old(concepts)[stored.id].name == incoming.name
                && stored == Revised(old(concepts)[stored.id], incoming, now)
      ensures stored.id !in old(concepts) ==>
                stored == incoming && forall id :: InScope(old(concepts), incoming.scope, id) ==> old(concepts)[id].name != incoming.name
    {
      var found := FindByName(incoming.scope, incoming.name);
      hide RowsKeyed, NamesUnique, LinksOk, NonBlank, InOrder;
      match found
      case Some(id) =>
        var row := concepts[id];
        var labels := MergedStrings(row.detail.labels, incoming.detail.labels);
        var sources := MergedStrings(row.detail.sources, incoming.detail.sources);
        stored := row.(definition := incoming.definition, revision := row.revision + 1,
                       confidence := if row.confidence >= incoming.confidence then row.confidence else incoming.confidence,
                       detail := Detail(row.detail.sensitivity.MostRestrictive(incoming.detail.sensitivity), labels, sources,
                                        row.detail.createdAt, now));
        KeyedAt(concepts, id);
        PutConcept(concepts, links, stored);
        concepts := concepts[id := stored];
      case None =>
        stored := incoming;
        PutConcept(concepts, links, stored);
        concepts := concepts[incoming.id := incoming];
    }

    method LinkConcepts(key: LinkKey, weight: real, edgeId: string, now: int) returns (r: Result<Edge, LinkError>)
      requires Valid()
      modifies this`links
      ensures Valid()
      ensures r == Err(SelfLink) <==> key.source == key.target
      ensures r == Err(MissingEndpoint) <==>
                key.source != key.target &&
                !(InScope(concepts, key.scope, key.source) && InScope(concepts, key.scope, key.target))
      ensures r.Err? ==> links == old(links)
      ensures r.Ok? ==> links == old(links)[key := r.value]
      ensures r.Ok? && key in old(links) ==> r.value == old(links)[key].(weight := r.value.weight)
      ensures r.Ok? && key !in old(links) ==> r.value.id == edgeId && r.value.createdAt == now
      ensures r.Ok? ==> r.value.weight == if weight < 0.0 then 0.0 else if weight > 1.0 then 1.0 else weight
    {
      if key.source == key.target {
        return Err(SelfLink);
      }
      var clamped := if weight < 0.0 then 0.0 else if weight > 1.0 then 1.0 else weight;
      var present := set id | id in {key.source, key.target} && id in concepts && concepts[id].scope == key.scope;
      if |present| != 2 {
        assert present == {key.source, key.target} ==> |present| == 2;
        return Err(MissingEndpoint);
      }
      assert present == {key.source, key.target} by {
        PairCount(present, key.source, key.target);
      }
      var edge := if key in links then links[key].(weight := clamped) else Edge(edgeId, clamped, now);
      links := links[key := edge];
      return Ok(edge);
    }

    /** The level-by-level expansion is the limited prefix of the full one. */
    method ExpandConcepts(scope: Scope, seeds: seq<ConceptId>, maxHops: nat, limit: nat) returns (out: seq<Concept>)
      ensures out == Take(Expansion(Query(concepts, BothWays(ScopedKeys(links, scope)), scope, seeds), Min(maxHops, MAX_HOPS) + 1),
                          Min(limit, MAX_CONCEPTS))
    {
      var hops, cap := Min(maxHops, MAX_HOPS), Min(limit, MAX_CONCEPTS);
      if limit == 0 || seeds == [] {
        if seeds == [] {
          ExpansionEnds(Query(concepts, BothWays(ScopedKeys(links, scope)), scope, seeds), 0, hops + 1);
        }
        return [];
      }
      out := ExpandLevels(concepts, ScopedKeys(links, scope), scope, seeds, hops, cap);
    }
  }

  method ExpandLevels(rows: ConceptRows, keys: set<LinkKey>, scope: Scope, seeds: seq<ConceptId>, hops: nat, cap: nat)
      returns (out: seq<Concept>)
    requires cap > 0
    ensures out == Take(Expansion(Query(rows, BothWays(keys), scope, seeds), hops + 1), cap)
  {
    ghost var q := Query(rows, BothWays(keys), scope, seeds);
    out := [];
    var frontier := FirstSeeds(seeds, MAX_SEEDS);
    var visited: set<ConceptId> := {};
    for depth := 0 to hops + 1
      invariant InProgress(q, depth, cap, frontier, visited, out)
    {
      var more: bool;
      more, frontier, visited, out := ExpandLevel(q, rows, keys, scope, depth, hops + 1, cap, frontier, visited, out);
      if !more {
        break;
      }
    }
  }

  /** One round of the loop; `more` false is one of its two breaks. */
  method ExpandLevel(ghost q: Query, rows: ConceptRows, keys: set<LinkKey>, scope: Scope, ghost depth: nat, ghost n: nat, cap: nat,
                     front: seq<ConceptId>, seen: set<ConceptId>, before: seq<Concept>)
      returns (more: bool, frontier: seq<ConceptId>, visited: set<ConceptId>, out: seq<Concept>)
    requires q.rows == rows && q.pairs == BothWays(keys) && q.scope == scope && depth < n
    requires InProgress(q, depth, cap, front, seen, before)
    ensures more ==> InProgress(q, depth + 1, cap, frontier, visited, out)
    ensures !more ==> out == Take(Expansion(q, n), cap)
  {
    LevelRetained(q, depth, front, seen);
    frontier, visited := RetainUnvisited(front, seen);
    if frontier == [] {
      ExpansionEnds(q, depth, n);
      return false, frontier, visited, before;
    }
    out := AppendHits(rows, scope, frontier, before, cap);
    RoundOutput(q, depth, n, cap);
    if |out| >= cap {
      return false, frontier, visited, out;
    }
    frontier := NextFrontier(keys, frontier, visited);
    LevelNext(q, depth, frontier, visited);
    more := true;
  }

  /** The rows a query returns come in any order; they are reported in frontier order up to the limit. */
  method AppendHits(rows: ConceptRows, scope: Scope, frontier: seq<ConceptId>, before: seq<Concept>, cap: nat)
      returns (out: seq<Concept>)
    requires NoDuplicates(frontier) && |before| < cap
    ensures out == Take(before + Hits(rows, scope, frontier), cap)
  {
    var byId := map id | id in frontier && InScope(rows, scope, id) :: rows[id];
    out := before;
    var i := 0;
    while i < |frontier|
      invariant 0 <= i <= |frontier|
      invariant forall k :: i <= k < |frontier| ==> (frontier[k] in byId <==> InScope(rows, scope, frontier[k]))
      invariant forall id :: id in byId ==> id in rows && byId[id] == rows[id]
      invariant out == before + Hits(rows, scope, frontier[..i]) && |out| < cap
    {
      var id := frontier[i];
      HitsSnoc(rows, scope, frontier[..i], id);
      assert frontier[..i] + [id] == frontier[..i + 1];
      if id in byId {
        out := out + [byId[id]];
        byId := byId - {id};
        if |out| >= cap {
          HitsPrefix(rows, scope, frontier, i + 1);
          return;
        }
      }
      i := i + 1;
    }
    assert frontier[..i] == frontier;
  }

  /** What one link adds to the ordered set of the next frontier. */
  function AddEnds(next: seq<ConceptId>, key: LinkKey, current: set<ConceptId>, visited: set<ConceptId>): seq<ConceptId> {
    var first := if key.source in current && key.target !in visited then InsertAscending(next, key.target) else next;
    if key.target in current && key.source !in visited then InsertAscending(first, key.source) else first
  }

  lemma AddEndsElements(next: seq<ConceptId>, found: set<ConceptId>, key: LinkKey, current: set<ConceptId>, visited: set<ConceptId>)
    requires Elements(next) == found - visited
    ensures Elements(AddEnds(next, key, current, visited)) ==
            found + (if key.source in current then {key.target} else {}) + (if key.target in current then {key.source} else {})
            - visited
  {
  }

  lemma AddEndsAscending(next: seq<ConceptId>, key: LinkKey, current: set<ConceptId>, visited: set<ConceptId>)
    requires Ascending(next)
    ensures Ascending(AddEnds(next, key, current, visited))
  {
    InsertKeepsAscending(next, key.target);
    InsertKeepsAscending(next, key.source);
    InsertKeepsAscending(InsertAscending(next, key.target), key.source);
  }

  /** One pass over the links touching the frontier, in any order, into an ordered set. */
  method NextFrontier(keys: set<LinkKey>, frontier: seq<ConceptId>, visited: set<ConceptId>) returns (next: seq<ConceptId>)
    ensures Ascending(next)
    ensures Elements(next) == Neighbours(BothWays(keys), Elements(frontier)) - visited
  {
    var current := Elements(frontier);
    var rest, done: set<LinkKey> := keys, {};
    next := [];
    while rest != {}
      invariant rest !! done && rest + done == keys
      invariant Ascending(next) && Elements(next) == Neighbours(BothWays(done), current) - visited
      decreases |rest|
    {
      var key :| key in rest;
      NeighboursSnoc(done, key, current);
      AddEndsElements(next, Neighbours(BothWays(done), current), key, current, visited);
      AddEndsAscending(next, key, current, visited);
      next := AddEnds(next, key, current, visited);
      rest, done := rest - {key}, done + {key};
    }
    assert done == keys;
  }

  // ---------- the loop of the expansion ----------

  /** At the top of round `d`: earlier layers visited, layer `d` in the frontier. */
  ghost predicate AtLevel(q: Query, d: nat, frontier: seq<ConceptId>, visited: set<ConceptId>) {
    if d == 0 then frontier == FirstSeeds(q.seeds, MAX_SEEDS) && visited == {}
    else frontier == LayerList(q.pairs, q.seeds, d) && visited == Reach(q.pairs, SeedSet(q.seeds), d - 1)
  }

  ghost predicate InProgress(q: Query, d: nat, cap: nat, frontier: seq<ConceptId>, visited: set<ConceptId>, out: seq<Concept>) {
    AtLevel(q, d, frontier, visited) && out == Expansion(q, d) && |out| < cap
  }

  lemma LevelRetained(q: Query, d: nat, frontier: seq<ConceptId>, visited: set<ConceptId>)
    requires AtLevel(q, d, frontier, visited)
    ensures Retain(frontier, visited) == LayerList(q.pairs, q.seeds, d)
    ensures visited + Elements(frontier) == Reach(q.pairs, SeedSet(q.seeds), d)
  {
    if d > 0 {
      RetainNothing(frontier, visited);
    }
  }

  lemma RoundOutput(q: Query, d: nat, n: nat, cap: nat)
    requires d < n
    ensures Expansion(q, d + 1) == Expansion(q, d) + Hits(q.rows, q.scope, LayerList(q.pairs, q.seeds, d))
    ensures |Expansion(q, d + 1)| >= cap ==> Take(Expansion(q, d + 1), cap) == Take(Expansion(q, n), cap)
  {
    ExpansionGrows(q, d + 1, n);
  }

  lemma LevelNext(q: Query, d: nat, next: seq<ConceptId>, visited: set<ConceptId>)
    requires Ascending(next) && visited == Reach(q.pairs, SeedSet(q.seeds), d)
    requires Elements(next) == Neighbours(q.pairs, Elements(LayerList(q.pairs, q.seeds, d))) - visited
    ensures AtLevel(q, d + 1, next, visited)
  {
    LayerStep(q.pairs, SeedSet(q.seeds), d);
    AscendingUnique(next, LayerList(q.pairs, q.seeds, d + 1));
  }

  lemma PairCount(present: set<ConceptId>, a: ConceptId, b: ConceptId)
    requires |present| == 2 && present <= {a, b} && a != b
    ensures present == {a, b}
  {
    if a !in present {
      assert present <= {b};
      SubsetSize(present, {b});
    }
    if b !in present {
      assert present <= {a};
      SubsetSize(present, {a});
    }
  }

  lemma {:induction false} SubsetSize(a: set<ConceptId>, b: set<ConceptId>)
    requires a <= b
    ensures |a| <= |b|
    decreases |a|
  {
    if a != {} {
      var x :| x in a;
      SubsetSize(a - {x}, b - {x});
    }
  }

  lemma RetainStep(frontier: seq<ConceptId>, i: nat, seen: set<ConceptId>)
    requires i < |frontier|
    ensures Elements(frontier[..i + 1]) == Elements(frontier[..i]) + {frontier[i]}
    ensures Retain(frontier[i..], seen) ==
            if frontier[i] in seen then Retain(frontier[i + 1..], seen)
            else [frontier[i]] + Retain(frontier[i + 1..], seen + {frontier[i]})
  {
    assert frontier[i..][0] == frontier[i] && frontier[i..][1..] == frontier[i + 1..];
    assert frontier[..i + 1] == frontier[..i] + [frontier[i]];
  }

  lemma RetainRound(frontier: seq<ConceptId>, i: nat, visited: set<ConceptId>, kept: seq<ConceptId>, seen: set<ConceptId>)
    requires i < |frontier| && seen == visited + Elements(frontier[..i])
    ensures var c, rest := frontier[i], frontier[i + 1..];
            && (if c in seen then seen else seen + {c}) == visited + Elements(frontier[..i + 1])
            && (if c in seen then kept + Retain(rest, seen) else kept + [c] + Retain(rest, seen + {c})) == kept + Retain(frontier[i..], seen)
  {
    RetainStep(frontier, i, seen);
    hide Retain, Elements;
    var c := frontier[i];
    if c !in seen {
      assert kept + [c] + Retain(frontier[i + 1..], seen + {c}) == kept + ([c] + Retain(frontier[i + 1..], seen + {c}));
    }
  }

  lemma RetainEnds(frontier: seq<ConceptId>, seen: set<ConceptId>)
    ensures Elements(frontier[..0]) == {} && frontier[0..] == frontier
    ensures Retain(frontier[|frontier|..], seen) == [] && frontier[..|frontier|] == frontier
  {
  }

  method RetainUnvisited(frontier: seq<ConceptId>, visited: set<ConceptId>) returns (kept: seq<ConceptId>, seen: set<ConceptId>)
    ensures kept == Retain(frontier, visited) && seen == visited + Elements(frontier)
  {
    kept, seen := [], visited;
    var i := 0;
    RetainEnds(frontier, visited);
    hide *;
    while i < |frontier|
      invariant 0 <= i <= |frontier|
      invariant seen == visited + Elements(frontier[..i])
      invariant kept + Retain(frontier[i..], seen) == Retain(frontier, visited)
    {
      RetainRound(frontier, i, visited, kept, seen);
      if frontier[i] !in seen {
        kept := kept + [frontier[i]];
        seen := seen + {frontier[i]};
      }
      i := i + 1;
    }
    RetainEnds(frontier, seen);
  }

  /** What a valid store keeps. */
  lemma StoreKeeps(store: ConceptStore, key: LinkKey, id: ConceptId)
    requires store.Valid()
    ensures key in store.links ==>
              && key.source != key.target && key.source in store.concepts && key.target in store.concepts
              && store.concepts[key.source].scope == key.scope == store.concepts[key.target].scope
              && 0.0 <= store.links[key].weight && store.links[key].weight <= 1.0
    ensures id in store.concepts ==>
              && store.concepts[id].id == id
              && forall other :: other in store.concepts && other != id && store.concepts[other].scope == store.concepts[id].scope ==>
                   store.concepts[other].name != store.concepts[id].name
  {
  }
}
