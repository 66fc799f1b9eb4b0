/** First-fit packing of costs into a budget, in the given order. */
module Packing {
  import opened Basics

  /** Which items a single pass admits when `room` is left. */
  function Greedy(costs: seq<nat>, room: nat): (mask: seq<bool>)
    ensures |mask| == |costs|
  {
    if costs == [] then []
    else if costs[0] <= room then [true] + Greedy(costs[1..], room - costs[0])
    else [false] + Greedy(costs[1..], room)
  }

  function Spent(costs: seq<nat>, mask: seq<bool>): nat
    requires |mask| == |costs|
  {
    if costs == [] then 0 else (if mask[0] then costs[0] else 0) + Spent(costs[1..], mask[1..])
  }

  function Admitted(mask: seq<bool>): nat {
    if mask == [] then 0 else (if mask[0] then 1 else 0) + Admitted(mask[1..])
  }

  /** The budget holds at every prefix, and an item is admitted exactly when it fits what is left. */
  lemma {:induction false} GreedyFits(costs: seq<nat>, room: nat, i: nat)
    requires i < |costs|
    ensures Spent(costs[..i], Greedy(costs, room)[..i]) <= room
    ensures Greedy(costs, room)[i] <==> Spent(costs[..i], Greedy(costs, room)[..i]) + costs[i] <= room
  {
    if i > 0 {
      var mask := Greedy(costs, room);
      assert costs[..i][1..] == costs[1..][..i - 1] && mask[..i][1..] == mask[1..][..i - 1];
      GreedyFits(costs[1..], if costs[0] <= room then room - costs[0] else room, i - 1);
    }
  }

  lemma {:induction false} GreedyWithinBudget(costs: seq<nat>, room: nat)
    ensures Spent(costs, Greedy(costs, room)) <= room
  {
    if costs != [] {
      GreedyWithinBudget(costs[1..], if costs[0] <= room then room - costs[0] else room);
      assert Greedy(costs, room)[1..] == Greedy(costs[1..], if costs[0] <= room then room - costs[0] else room);
    }
  }

  /** Among all selections within the budget the greedy one comes first in order of preference: where
      another selection first differs, greedy has the item and the other has not. */
  lemma {:induction false} GreedyIsPreferred(costs: seq<nat>, room: nat, other: seq<bool>) returns (i: nat)
    requires |other| == |costs| && Spent(costs, other) <= room && other != Greedy(costs, room)
    ensures i < |costs| && other[..i] == Greedy(costs, room)[..i] && Greedy(costs, room)[i] && !other[i]
  {
    var mask := Greedy(costs, room);
    i := 0;
    assert costs == [] ==> other == mask;
    if mask[0] == other[0] {
      var left := if costs[0] <= room then room - costs[0] else room;
      assert mask[1..] == Greedy(costs[1..], left);
      assert other == [other[0]] + other[1..] && mask == [mask[0]] + mask[1..];
      var k := GreedyIsPreferred(costs[1..], left, other[1..]);
      i := k + 1;
      assert other[..i] == [other[0]] + other[1..][..k] && mask[..i] == [mask[0]] + mask[1..][..k];
    }
  }

  lemma {:induction false} GreedySnoc(costs: seq<nat>, room: nat, c: nat)
    requires Spent(costs, Greedy(costs, room)) <= room
    ensures Greedy(costs + [c], room) == Greedy(costs, room) + [Spent(costs, Greedy(costs, room)) + c <= room]
    ensures Spent(costs + [c], Greedy(costs + [c], room)) ==
            Spent(costs, Greedy(costs, room)) + if Spent(costs, Greedy(costs, room)) + c <= room then c else 0
  {
    var all := costs + [c];
    if costs == [] {
      assert all == [c] && all[1..] == [];
    } else {
      var left := if costs[0] <= room then room - costs[0] else room;
      assert all[1..] == costs[1..] + [c];
      assert Greedy(costs, room)[1..] == Greedy(costs[1..], left);
      assert Greedy(all, room)[1..] == Greedy(all[1..], left);
      GreedySnoc(costs[1..], left, c);
    }
  }
}
