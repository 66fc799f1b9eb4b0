/** Bounded reachability over a set of ordered pairs, by layers and by walks. */
module Reachability {

  type Node = string

  type Pairs = set<(Node, Node)>

  function Neighbours(pairs: Pairs, from: set<Node>): set<Node> {
    set e | e in pairs && e.0 in from :: e.1
  }

  /** Everything within `d` steps of `seeds`. */
  function Reach(pairs: Pairs, seeds: set<Node>, d: nat): set<Node> {
    if d == 0 then seeds
    else
      var r := Reach(pairs, seeds, d - 1);
      r + Neighbours(pairs, r)
  }

  /** What lies at distance exactly `d`. */
  function Layer(pairs: Pairs, seeds: set<Node>, d: nat): set<Node> {
    if d == 0 then seeds else Reach(pairs, seeds, d) - Reach(pairs, seeds, d - 1)
  }

  predicate IsWalk(pairs: Pairs, p: seq<Node>) {
    p != [] && forall i :: 0 <= i < |p| - 1 ==> (p[i], p[i + 1]) in pairs
  }

  ghost predicate IsWalkTo(pairs: Pairs, seeds: set<Node>, d: nat, id: Node, p: seq<Node>) {
    IsWalk(pairs, p) && p[0] in seeds && p[|p| - 1] == id && |p| <= d + 1
  }

  ghost predicate ReachableWithin(pairs: Pairs, seeds: set<Node>, d: nat, id: Node) {
    exists p :: IsWalkTo(pairs, seeds, d, id, p)
  }

  lemma NeighboursAre(pairs: Pairs, from: set<Node>, b: Node)
    ensures b in Neighbours(pairs, from) <==> exists a :: a in from && (a, b) in pairs
  {
    if a :| a in from && (a, b) in pairs {
      assert (a, b).0 in from;
    }
    if b in Neighbours(pairs, from) {
      var e :| e in pairs && e.0 in from && e.1 == b;
      assert e == (e.0, b);
    }
  }

  lemma {:induction false} ReachMonotone(pairs: Pairs, seeds: set<Node>, c: nat, d: nat)
    requires c <= d
    ensures Reach(pairs, seeds, c) <= Reach(pairs, seeds, d)
  {
    if c < d {
      ReachMonotone(pairs, seeds, c, d - 1);
    }
  }

  lemma {:induction false} WalkReaches(pairs: Pairs, seeds: set<Node>, p: seq<Node>)
    requires IsWalk(pairs, p) && p[0] in seeds
    ensures p[|p| - 1] in Reach(pairs, seeds, |p| - 1)
  {
    var n := |p|;
    if n > 1 {
      var q := p[..n - 1];
      WalkReaches(pairs, seeds, q);
      assert (p[n - 2], p[n - 2 + 1]) in pairs;
      NeighboursAre(pairs, Reach(pairs, seeds, n - 2), p[n - 1]);
    }
  }

  lemma {:induction false} ReachHasWalk(pairs: Pairs, seeds: set<Node>, d: nat, id: Node) returns (p: seq<Node>)
    requires id in Reach(pairs, seeds, d)
    ensures IsWalkTo(pairs, seeds, d, id, p)
  {
    if d == 0 {
      p := [id];
    } else if id in Reach(pairs, seeds, d - 1) {
      p := ReachHasWalk(pairs, seeds, d - 1, id);
    } else {
      NeighboursAre(pairs, Reach(pairs, seeds, d - 1), id);
      var a :| a in Reach(pairs, seeds, d - 1) && (a, id) in pairs;
      var q := ReachHasWalk(pairs, seeds, d - 1, a);
      p := q + [id];
    }
  }

  /** The layered definition is reachability by walks. */
  lemma ReachIsReachability(pairs: Pairs, seeds: set<Node>, d: nat, id: Node)
    ensures id in Reach(pairs, seeds, d) <==> ReachableWithin(pairs, seeds, d, id)
  {
    if id in Reach(pairs, seeds, d) {
      var p := ReachHasWalk(pairs, seeds, d, id);
    }
    if ReachableWithin(pairs, seeds, d, id) {
      var p :| IsWalkTo(pairs, seeds, d, id, p);
      WalkReaches(pairs, seeds, p);
      ReachMonotone(pairs, seeds, |p| - 1, d);
    }
  }

  /** The next layer is found by looking at the last one alone. */
  lemma LayerStep(pairs: Pairs, seeds: set<Node>, d: nat)
    ensures Layer(pairs, seeds, d + 1) == Neighbours(pairs, Layer(pairs, seeds, d)) - Reach(pairs, seeds, d)
  {
    forall b | b !in Reach(pairs, seeds, d)
      ensures b in Neighbours(pairs, Reach(pairs, seeds, d)) <==> b in Neighbours(pairs, Layer(pairs, seeds, d))
    {
      NeighboursAre(pairs, Reach(pairs, seeds, d), b);
      NeighboursAre(pairs, Layer(pairs, seeds, d), b);
      if d > 0 {
        NeighboursAre(pairs, Reach(pairs, seeds, d - 1), b);
      }
    }
  }

  lemma {:induction false} EmptyLayersAfter(pairs: Pairs, seeds: set<Node>, d: nat, e: nat)
    requires d <= e && Layer(pairs, seeds, d) == {}
    ensures Layer(pairs, seeds, e) == {}
  {
    if d < e {
      EmptyLayersAfter(pairs, seeds, d, e - 1);
      LayerStep(pairs, seeds, e - 1);
      assert Neighbours(pairs, {}) == {};
      assert Layer(pairs, seeds, e - 1 + 1) == {};
    }
  }

  lemma LayersDisjoint(pairs: Pairs, seeds: set<Node>, d: nat, e: nat)
    requires d < e
    ensures Layer(pairs, seeds, d) !! Layer(pairs, seeds, e)
  {
    ReachMonotone(pairs, seeds, d, e - 1);
  }

  lemma NeighboursGrow(pairs: Pairs, more: Pairs, from: set<Node>)
    ensures Neighbours(pairs + more, from) == Neighbours(pairs, from) + Neighbours(more, from)
  {
  }
}
