/** Which seeds an expansion starts from, and in which order it answers them. */
module ExpansionSeeds {
  import opened Basics
  import opened Order
  import opened Text
  import opened Reachability
  import opened AscendingLists
  import opened Expansions

  /** How many of the first `i` seeds are not blank. */
  function NonBlankBefore(seeds: seq<ConceptId>, i: nat): nat
    requires i <= |seeds|
  {
    if i == 0 then 0 else NonBlankBefore(seeds, i - 1) + if Trim(seeds[i - 1]) != [] then 1 else 0
  }

  lemma {:induction false} NonBlankTail(seeds: seq<ConceptId>, i: nat)
    requires i < |seeds|
    ensures NonBlankBefore(seeds, i + 1) == NonBlankBefore(seeds[1..], i) + if Trim(seeds[0]) != [] then 1 else 0
  {
    hide Trim;
    if i > 0 {
      NonBlankTail(seeds, i - 1);
    }
  }

  /** Seed `i` is used when the limit is `n`. */
  ghost predicate IsSeed(seeds: seq<ConceptId>, n: nat, i: nat) {
    i < |seeds| && Trim(seeds[i]) != [] && NonBlankBefore(seeds, i) < n
  }

  lemma {:induction false} FirstSeedsAre(seeds: seq<ConceptId>, n: nat, id: ConceptId)
    ensures id in Elements(FirstSeeds(seeds, n)) <==> exists i: nat :: IsSeed(seeds, n, i) && seeds[i] == id
    decreases |seeds|
  {
    hide Trim;
    if seeds == [] || n == 0 {
      assert forall i: nat :: !IsSeed(seeds, n, i);
    } else {
      var blank := Trim(seeds[0]) == [];
      var m := if blank then n else n - 1;
      FirstSeedsAre(seeds[1..], m, id);
      forall i: nat
        ensures IsSeed(seeds, n, i + 1) <==> IsSeed(seeds[1..], m, i)
      {
        if i < |seeds[1..]| {
          NonBlankTail(seeds, i);
        }
      }
      assert IsSeed(seeds, n, 0) <==> !blank;
      if i: nat :| IsSeed(seeds, n, i) && seeds[i] == id {
        if i > 0 {
          assert IsSeed(seeds[1..], m, i - 1) && seeds[1..][i - 1] == id;
        }
      }
      if i: nat :| IsSeed(seeds[1..], m, i) && seeds[1..][i] == id {
        assert IsSeed(seeds, n, i + 1) && seeds[i + 1] == id;
      }
      if !blank {
        ElementsCons([seeds[0]] + FirstSeeds(seeds[1..], n - 1));
        assert IsSeed(seeds, n, 0);
      }
      hide IsSeed, NonBlankBefore;
    }
  }

  lemma ReachedFromOne(pairs: Pairs, seeds: set<Node>, n: nat, id: Node)
    ensures ReachableWithin(pairs, seeds, n, id) <==> exists s :: s in seeds && ReachableWithin(pairs, {s}, n, id)
  {
    if ReachableWithin(pairs, seeds, n, id) {
      var p :| IsWalkTo(pairs, seeds, n, id, p);
      assert IsWalkTo(pairs, {p[0]}, n, id, p);
    }
    if s :| s in seeds && ReachableWithin(pairs, {s}, n, id) {
      var p :| IsWalkTo(pairs, {s}, n, id, p);
      assert IsWalkTo(pairs, seeds, n, id, p);
    }
  }

  /** The concept is in scope and within `n` links of one of the first sixteen seeds that are not blank. */
  ghost predicate Near(q: Query, n: nat, c: Concept) {
    && InScope(q.rows, q.scope, c.id) && q.rows[c.id] == c
    && exists i: nat :: IsSeed(q.seeds, 16, i) && ReachableWithin(q.pairs, {q.seeds[i]}, n, c.id)
  }

  /** Membership told from the seeds as given. */
  lemma ExpansionIsNear(q: Query, n: nat, c: Concept)
    requires RowsKeyed(q.rows)
    ensures c in Expansion(q, n + 1) <==> Near(q, n, c)
  {
    ExpansionMembers(q, n, c);
    ReachedFromOne(q.pairs, SeedSet(q.seeds), n, c.id);
    forall s
      ensures s in SeedSet(q.seeds) <==> exists i: nat :: IsSeed(q.seeds, 16, i) && q.seeds[i] == s
    {
      FirstSeedsAre(q.seeds, 16, s);
    }
    hide Expansion, ReachableWithin, IsSeed, SeedSet;
  }

  // ---------- the order of the seeds ----------

  /** Where the list first has an element. */
  function FirstIndex(seeds: seq<ConceptId>, id: ConceptId): (k: nat)
    requires id in seeds
    ensures k < |seeds| && seeds[k] == id && forall i :: 0 <= i < k ==> seeds[i] != id
  {
    if seeds[0] == id then 0 else FirstIndex(seeds[1..], id) + 1
  }

  lemma {:induction false} RetainedInOrder(seeds: seq<ConceptId>, n: nat, visited: set<ConceptId>, i: nat, j: nat)
    requires i < j < |Retain(FirstSeeds(seeds, n), visited)|
    ensures var kept := Retain(FirstSeeds(seeds, n), visited);
            kept[i] in seeds && kept[j] in seeds && FirstIndex(seeds, kept[i]) < FirstIndex(seeds, kept[j])
    decreases |seeds|
  {
    hide Trim;
    var kept := Retain(FirstSeeds(seeds, n), visited);
    KeptFromSeeds(seeds, n, visited, i);
    KeptFromSeeds(seeds, n, visited, j);
    if Trim(seeds[0]) == [] {
      RetainedInOrder(seeds[1..], n, visited, i, j);
    } else {
      var rest := FirstSeeds(seeds[1..], n - 1);
      assert ([seeds[0]] + rest)[1..] == rest;
      if seeds[0] in visited {
        RetainedInOrder(seeds[1..], n - 1, visited, i, j);
      } else {
        assert kept == [seeds[0]] + Retain(rest, visited + {seeds[0]});
        if i > 0 {
          RetainedInOrder(seeds[1..], n - 1, visited + {seeds[0]}, i - 1, j - 1);
        }
        KeptUnvisited(rest, visited + {seeds[0]}, j - 1);
        if i > 0 {
          KeptUnvisited(rest, visited + {seeds[0]}, i - 1);
        }
      }
    }
  }

  lemma KeptUnvisited(s: seq<ConceptId>, visited: set<ConceptId>, i: nat)
    requires i < |Retain(s, visited)|
    ensures Retain(s, visited)[i] !in visited && Retain(s, visited)[i] in Elements(s)
  {
    assert Retain(s, visited)[i] in Elements(Retain(s, visited));
  }

  lemma KeptFromSeeds(seeds: seq<ConceptId>, n: nat, visited: set<ConceptId>, i: nat)
    requires i < |Retain(FirstSeeds(seeds, n), visited)|
    ensures var id := Retain(FirstSeeds(seeds, n), visited)[i];
            id in seeds && Trim(id) != [] && id !in visited
  {
    KeptUnvisited(FirstSeeds(seeds, n), visited, i);
    FirstSeedsAre(seeds, n, Retain(FirstSeeds(seeds, n), visited)[i]);
    hide Trim, NonBlankBefore;
  }

  /** The answer begins with the seeds in scope, in the order in which they were first named. */
  lemma SeedsInOrder(q: Query, i: nat, j: nat)
    requires RowsKeyed(q.rows) && i < j < |Expansion(q, 1)|
    ensures var a, b := Expansion(q, 1)[i].id, Expansion(q, 1)[j].id;
            a in q.seeds && b in q.seeds && FirstIndex(q.seeds, a) < FirstIndex(q.seeds, b)
  {
    assert Expansion(q, 1) == Expansion(q, 0) + LayerHits(q, 0) == LayerHits(q, 0);
    var list := LayerList(q.pairs, q.seeds, 0);
    assert list == Retain(FirstSeeds(q.seeds, 16), {});
    var p, r := HitsFollow(q.rows, q.scope, list, i, j);
    RetainedInOrder(q.seeds, 16, {}, p, r);
  }

  lemma ExpansionBegins(q: Query, n: nat)
    ensures Expansion(q, 1) <= Expansion(q, n + 1)
  {
    ExpansionGrows(q, 1, n + 1);
  }

  /** The answer for a hop bound and a limit: at most four hops and a hundred concepts, and nothing missing unless the
      limit cut it. */
  lemma AnswerIs(q: Query, maxHops: nat, limit: nat, out: seq<Concept>)
    requires RowsKeyed(q.rows) && out == Take(Expansion(q, Min(maxHops, MAX_HOPS) + 1), Min(limit, MAX_CONCEPTS))
    ensures |out| <= Min(limit, 100) && out <= Expansion(q, Min(maxHops, 4) + 1)
    ensures forall c :: c in out ==> Near(q, Min(maxHops, 4), c)
    ensures |out| < Min(limit, 100) ==> forall c :: Near(q, Min(maxHops, 4), c) ==> c in out
  {
    forall c
      ensures c in Expansion(q, Min(maxHops, 4) + 1) <==> Near(q, Min(maxHops, 4), c)
    {
      ExpansionIsNear(q, Min(maxHops, 4), c);
    }
    hide Expansion, Near;
  }

  /** An earlier answer is never further from the seeds than a later one. */
  lemma NearestFirst(q: Query, n: nat, i: nat, j: nat, d: nat)
    requires RowsKeyed(q.rows) && i < j < |Expansion(q, n + 1)|
    requires ReachableWithin(q.pairs, SeedSet(q.seeds), d, Expansion(q, n + 1)[j].id)
    ensures ReachableWithin(q.pairs, SeedSet(q.seeds), d, Expansion(q, n + 1)[i].id)
  {
    var a, b := Expansion(q, n + 1)[i].id, Expansion(q, n + 1)[j].id;
    ExpansionOrdered(q, n + 1, i, j);
    var c, e :| PrecedesAt(q.pairs, SeedSet(q.seeds), a, b, c, e);
    ReachIsReachability(q.pairs, SeedSet(q.seeds), d, a);
    ReachIsReachability(q.pairs, SeedSet(q.seeds), d, b);
    NearerReaches(q.pairs, SeedSet(q.seeds), a, b, c, e, d);
  }

  lemma NearerReaches(pairs: Pairs, seeds: set<Node>, a: Node, b: Node, c: nat, e: nat, d: nat)
    requires c <= e && a in Layer(pairs, seeds, c) && b in Layer(pairs, seeds, e) && b in Reach(pairs, seeds, d)
    ensures a in Reach(pairs, seeds, d)
  {
    if d < e {
      ReachMonotone(pairs, seeds, d, e - 1);
    } else {
      ReachMonotone(pairs, seeds, c, d);
    }
  }

  /** No concept is answered twice. */
  lemma AnswersDiffer(q: Query, n: nat, i: nat, j: nat)
    requires RowsKeyed(q.rows) && i < j < |Expansion(q, n)|
    ensures Expansion(q, n)[i].id != Expansion(q, n)[j].id
  {
    ExpansionOrdered(q, n, i, j);
    hide Layer;
  }
}
