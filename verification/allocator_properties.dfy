/** Properties of the planner that hold for every input: it plans nothing
    exactly when nothing needs doing, and a distribution in which every shard
    of the universe has at most one owner can always be balanced. */
module AllocatorProperties {
  import opened Wrappers
  import opened Load
  import opened Distributions
  import opened Allocator

  // ---------------------------------------------------------------------------
  // Nothing to do

  /** The plan is empty exactly when every shard of the universe already has
      a live owner and every node already holds between the floor and the
      ceiling. */
  lemma NoMovesIffBalanced<N(!new), S(!new)>(nodes: seq<N>, shards: seq<S>, dist: map<N, set<S>>)
    requires |nodes| > 0
    ensures var live := Live(nodes, dist);
            Cost(nodes, shards, dist) == 0 <==>
              && (forall s :: s in shards ==> OwnedBySome(nodes, live, s))
              && Even(Counts(nodes, live), Floor(|nodes|, |shards|), Ceil(|nodes|, |shards|))
  {
    var live := Live(nodes, dist);
    if Unowned(shards, nodes, live) == [] {
      CostWhenAllOwned(nodes, shards, dist);
    } else {
      CostWhenSomeUnowned(nodes, shards, dist);
      var us := Unowned(shards, nodes, live);
      assert us[0] in us;
    }
  }

  lemma CostWhenAllOwned<N(!new), S(!new)>(nodes: seq<N>, shards: seq<S>, dist: map<N, set<S>>)
    requires |nodes| > 0 && Unowned(shards, nodes, Live(nodes, dist)) == []
    ensures forall s :: s in shards ==> OwnedBySome(nodes, Live(nodes, dist), s)
    ensures Cost(nodes, shards, dist) == 0 <==>
              Even(Counts(nodes, Live(nodes, dist)), Floor(|nodes|, |shards|), Ceil(|nodes|, |shards|))
  {
    var live := Live(nodes, dist);
    var floor, ceil := Floor(|nodes|, |shards|), Ceil(|nodes|, |shards|);
    assert Assigned(nodes, shards, dist) == ([], live);
    var cs := AssignedLoad(nodes, shards, dist);
    assert cs == Counts(nodes, live);
    var e, d := Excess(cs, ceil), Deficit(cs, floor);
    assert Cost(nodes, shards, dist) == Max(e, d);
    ExcessAndDeficit(cs, floor, ceil);
    EvenHasNoExcess(cs, floor, ceil);
    assert Max(e, d) == 0 <==> e == 0 && d == 0;
  }

  lemma CostWhenSomeUnowned<N(!new), S(!new)>(nodes: seq<N>, shards: seq<S>, dist: map<N, set<S>>)
    requires |nodes| > 0 && Unowned(shards, nodes, Live(nodes, dist)) != []
    ensures Cost(nodes, shards, dist) > 0
  {
    var floor, ceil := Floor(|nodes|, |shards|), Ceil(|nodes|, |shards|);
    var cs := AssignedLoad(nodes, shards, dist);
    var us := Unowned(shards, nodes, Live(nodes, dist));
    assert |Assigned(nodes, shards, dist).0| == |us| > 0;
    ExcessAndDeficit(cs, floor, ceil);
    assert Cost(nodes, shards, dist) == |us| + Max(Excess(cs, ceil), Deficit(cs, floor));
  }

  // ---------------------------------------------------------------------------
  // Exclusive ownership spreads

  /** No two nodes of the universe own a shard in common. */
  ghost predicate Exclusive<N(!new), S(!new)>(nodes: seq<N>, owned: map<N, set<S>>)
    requires Covers(nodes, owned)
  {
    forall a, b :: 0 <= a < b < |nodes| ==> owned[nodes[a]] !! owned[nodes[b]]
  }

  /** Every shard some node of the universe owns. */
  ghost function Union<N(!new), S(!new)>(nodes: seq<N>, owned: map<N, set<S>>): (u: set<S>)
    requires Covers(nodes, owned)
    ensures forall x :: x in u <==> exists k :: 0 <= k < |nodes| && x in owned[nodes[k]]
    decreases |nodes|
  {
    if nodes == [] then {}
    else
      var rest := Union(nodes[1..], owned);
      assert forall x :: x in rest <==> exists k :: 1 <= k < |nodes| && x in owned[nodes[k]] by {
        forall x | x in rest
          ensures exists k :: 1 <= k < |nodes| && x in owned[nodes[k]]
        {
          var k :| 0 <= k < |nodes[1..]| && x in owned[nodes[1..][k]];
          assert x in owned[nodes[k + 1]];
        }
        forall x, k | 1 <= k < |nodes| && x in owned[nodes[k]]
          ensures x in rest
        {
          assert nodes[1..][k - 1] == nodes[k];
        }
      }
      owned[nodes[0]] + rest
  }

  /** With exclusive ownership the total load counts every owned shard once. */
  lemma {:induction false} SumCountsIsUnion<N(!new), S(!new)>(nodes: seq<N>, owned: map<N, set<S>>)
    requires Covers(nodes, owned) && Exclusive(nodes, owned)
    ensures Sum(Counts(nodes, owned)) == |Union(nodes, owned)|
    decreases |nodes|
  {
    if nodes != [] {
      var tail := nodes[1..];
      TailExclusive(nodes, owned);
      SumCountsIsUnion(tail, owned);
      CountsTail(nodes, owned);
      HeadApart(nodes, owned);
      assert Union(nodes, owned) == owned[nodes[0]] + Union(tail, owned);
    }
  }

  lemma TailExclusive<N(!new), S(!new)>(nodes: seq<N>, owned: map<N, set<S>>)
    requires nodes != [] && Covers(nodes, owned) && Exclusive(nodes, owned)
    ensures Covers(nodes[1..], owned) && Exclusive(nodes[1..], owned)
  {
    var tail := nodes[1..];
    assert Covers(tail, owned);
    forall a, b | 0 <= a < b < |tail|
      ensures owned[tail[a]] !! owned[tail[b]]
    {
      assert tail[a] == nodes[a + 1] && tail[b] == nodes[b + 1];
    }
  }

  lemma CountsTail<N(!new), S(!new)>(nodes: seq<N>, owned: map<N, set<S>>)
    requires nodes != [] && Covers(nodes, owned)
    ensures Covers(nodes[1..], owned)
    ensures Sum(Counts(nodes, owned)) == |owned[nodes[0]]| + Sum(Counts(nodes[1..], owned))
  {
    assert Covers(nodes[1..], owned);
    assert Counts(nodes, owned)[1..] == Counts(nodes[1..], owned);
  }

  /** The first node shares no shard with the others. */
  lemma HeadApart<N(!new), S(!new)>(nodes: seq<N>, owned: map<N, set<S>>)
    requires nodes != [] && Covers(nodes, owned) && Exclusive(nodes, owned)
    ensures Covers(nodes[1..], owned)
    ensures owned[nodes[0]] !! Union(nodes[1..], owned)
  {
    var tail := nodes[1..];
    assert Covers(tail, owned);
    forall x | x in Union(tail, owned)
      ensures x !in owned[nodes[0]]
    {
      var k :| 0 <= k < |tail| && x in owned[tail[k]];
      assert owned[nodes[0]] !! owned[nodes[k + 1]];
    }
  }

  /** A sequence without repeats has as many elements as its set. */
  lemma {:induction false} DistinctCard<T>(xs: seq<T>)
    requires Distinct(xs)
    ensures |set x | x in xs| == |xs|
  {
    if xs != [] {
      var tail := xs[1..];
      assert Distinct(tail);
      DistinctCard(tail);
      assert (set x | x in xs) == {xs[0]} + (set x | x in tail);
      assert xs[0] !in tail by {
        forall k | 0 <= k < |tail|
          ensures tail[k] != xs[0]
        {
          assert tail[k] == xs[k + 1];
        }
      }
    }
  }

  /** When the live nodes own only shards of the universe and no shard twice,
      placement brings the total load to exactly the number of shards, which
      always lies between `|nodes| * floor` and `|nodes| * ceil`: the planner
      never reports `NeverBalances` for such a distribution. */
  lemma ExclusiveOwnershipSpreads<N(!new), S(!new)>(nodes: seq<N>, shards: seq<S>, dist: map<N, set<S>>)
    requires |nodes| > 0 && Distinct(nodes) && Distinct(shards)
    requires Exclusive(nodes, Live(nodes, dist))
    requires forall n :: n in nodes ==> forall x :: x in Owned(dist, n) ==> x in shards
    ensures Sum(AssignedLoad(nodes, shards, dist)) == |shards|
    ensures Spreadable(AssignedLoad(nodes, shards, dist), Floor(|nodes|, |shards|), Ceil(|nodes|, |shards|))
  {
    var live := Live(nodes, dist);
    var us := Unowned(shards, nodes, live);
    var u := Union(nodes, live);
    SumCountsIsUnion(nodes, live);
    AssignUnownedLoad(nodes, live, us);
    UniverseSplits(nodes, shards, live, us, u);
    DistinctCard(shards);
    DistinctCard(us);
  }

  /** The shards of the universe are the owned ones and the unowned ones. */
  lemma UniverseSplits<N(!new), S(!new)>(nodes: seq<N>, shards: seq<S>, live: map<N, set<S>>, us: seq<S>, u: set<S>)
    requires Covers(nodes, live)
    requires forall n :: n in nodes ==> forall x :: x in live[n] ==> x in shards
    requires forall s :: s in us <==> s in shards && !OwnedBySome(nodes, live, s)
    requires u == Union(nodes, live)
    ensures (set s | s in shards) == u + (set s | s in us)
    ensures u !! (set s | s in us)
  {
    forall x | x in u
      ensures x in shards && OwnedBySome(nodes, live, x)
    {
      var k :| 0 <= k < |nodes| && x in live[nodes[k]];
      assert nodes[k] in nodes;
    }
    forall s | s in shards && OwnedBySome(nodes, live, s)
      ensures s in u
    {
      var n :| n in nodes && n in live && s in live[n];
      var k :| 0 <= k < |nodes| && nodes[k] == n;
      assert s in live[nodes[k]];
    }
  }

  // ---------------------------------------------------------------------------
  // Placement keeps a level load level

  /** Placing the shards nobody owns, each on a least-loaded node, keeps a
      level load level. */
  lemma {:induction false} AssignUnownedLevel<N(!new), S(!new)>(nodes: seq<N>, owned: map<N, set<S>>, us: seq<S>)
    requires |nodes| > 0 && Covers(nodes, owned) && Distinct(nodes)
    requires Distinct(us) && forall s :: s in us ==> !OwnedBySome(nodes, owned, s)
    requires Level(Counts(nodes, owned))
    ensures Level(Counts(nodes, AssignUnowned(nodes, owned, us).1))
    decreases |us|
  {
    if us != [] {
      PlaceLevel(nodes, owned, us);
      var step := AssignToLeast(nodes, owned, us[0], None);
      assert Distinct(us[1..]);
      AssignUnownedLevel(nodes, step.1, us[1..]);
    }
  }

  lemma PlaceLevel<N(!new), S(!new)>(nodes: seq<N>, owned: map<N, set<S>>, us: seq<S>)
    requires |nodes| > 0 && Covers(nodes, owned) && Distinct(nodes)
    requires us != [] && Distinct(us) && forall s :: s in us ==> !OwnedBySome(nodes, owned, s)
    requires Level(Counts(nodes, owned))
    ensures var step := AssignToLeast(nodes, owned, us[0], None);
            && Covers(nodes, step.1)
            && Level(Counts(nodes, step.1))
            && forall s :: s in us[1..] ==> !OwnedBySome(nodes, step.1, s)
  {
    PlaceOne(nodes, owned, us);
    var cs := Counts(nodes, owned);
    var j := MinIndex(cs);
    var t := nodes[j];
    assert us[0] !in owned[t] by {
      assert us[0] in us && t in nodes;
    }
    CountsUpdate(nodes, owned, j, owned[t] + {us[0]});
    PlaceKeepsLevel(cs, j);
  }

  /** When ownership is exclusive, no node holds a shard outside the universe
      and the live loads are level, the plan is the placements alone: after
      them every node already holds between the floor and the ceiling, so no
      balancing move follows. Adding a shard to a balanced distribution, losing
      a node of one, or starting from an empty distribution are such cases. */
  lemma LevelNeedsOnlyPlacements<N(!new), S(!new)>(nodes: seq<N>, shards: seq<S>, dist: map<N, set<S>>)
    requires |nodes| > 0 && Distinct(nodes) && Distinct(shards)
    requires Exclusive(nodes, Live(nodes, dist))
    requires forall n :: n in nodes ==> forall x :: x in Owned(dist, n) ==> x in shards
    requires Level(Counts(nodes, Live(nodes, dist)))
    ensures Balanced(nodes, |shards|, Assigned(nodes, shards, dist).1)
    ensures Cost(nodes, shards, dist) == |Unowned(shards, nodes, Live(nodes, dist))|
  {
    var live := Live(nodes, dist);
    var us := Unowned(shards, nodes, live);
    var floor, ceil := Floor(|nodes|, |shards|), Ceil(|nodes|, |shards|);
    var cs := AssignedLoad(nodes, shards, dist);
    ExclusiveOwnershipSpreads(nodes, shards, dist);
    AssignUnownedLevel(nodes, live, us);
    FloorBelowCeil(|nodes|, |shards|);
    LevelIsEven(cs, floor, ceil);
    EvenHasNoExcess(cs, floor, ceil);
    assert Cost(nodes, shards, dist) == |us| + Max(Excess(cs, ceil), Deficit(cs, floor));
  }
}
