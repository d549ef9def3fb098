/** The planner's scenarios from the repository's allocator tests, on the
    intended planner: three nodes each owning three of nine shards, then a
    shard, a node or a shard's owner comes or goes. `Cost` is the number of
    relocations the plan holds. */
module AllocatorScenarios {
  import opened Wrappers
  import opened Load
  import opened Distributions
  import opened Allocator
  import opened AllocatorProperties
  import opened AllocatorFixtures

  /** The shard (or node) universe `0 .. k - 1`. */
  function Range(k: nat): (r: seq<int>)
    ensures |r| == k && forall i :: 0 <= i < k ==> r[i] == i
    ensures Distinct(r)
    ensures forall s :: s in r <==> 0 <= s < k
  {
    if k == 0 then [] else Range(k - 1) + [k - 1]
  }

  /** The unowned shards number as many as a distinct list with exactly
      their members. */
  lemma UnownedCount<N(!new), S(!new)>(shards: seq<S>, nodes: seq<N>, live: map<N, set<S>>, expected: seq<S>)
    requires Distinct(shards) && Distinct(expected)
    requires forall s :: s in expected <==> s in shards && !OwnedBySome(nodes, live, s)
    ensures |Unowned(shards, nodes, live)| == |expected|
  {
    var us := Unowned(shards, nodes, live);
    assert (set s | s in us) == (set s | s in expected);
    DistinctCard(us);
    DistinctCard(expected);
  }

  // ---------------------------------------------------------------------------
  // The balanced start: three nodes, nine shards

  lemma Live333(nodes: seq<int>)
    requires nodes == [0, 1, 2] || nodes == [0, 1]
    ensures Covers(nodes, Live(nodes, Dist333()))
    ensures forall k :: 0 <= k < |nodes| ==> Live(nodes, Dist333())[nodes[k]] == Dist333()[k]
  {
  }

  lemma Owners333(nodes: seq<int>, s: int)
    requires nodes == [0, 1, 2] || nodes == [0, 1]
    ensures OwnedBySome(nodes, Live(nodes, Dist333()), s) <==> 0 <= s < 3 * |nodes|
  {
    var live := Live(nodes, Dist333());
    Live333(nodes);
    if 0 <= s < 3 {
      assert s in live[nodes[0]];
    } else if 3 <= s < 6 {
      assert s in live[nodes[1]];
    } else if 6 <= s < 9 && |nodes| == 3 {
      assert s in live[nodes[2]];
    }
  }

  lemma Exclusive333(nodes: seq<int>)
    requires nodes == [0, 1, 2] || nodes == [0, 1]
    ensures Exclusive(nodes, Live(nodes, Dist333()))
    ensures forall n :: n in nodes ==> forall x :: x in Owned(Dist333(), n) ==> 0 <= x < 3 * |nodes|
  {
    Live333(nodes);
    Disjoint(Dist333());
  }

  /** The sets of the three-node distributions are pairwise apart. */
  lemma Disjoint(dist: map<int, set<int>>)
    requires dist == Dist333() || dist == Dist332()
    ensures 0 in dist && 1 in dist && 2 in dist
    ensures dist[0] !! dist[1] && dist[0] !! dist[2] && dist[1] !! dist[2]
  {
  }

  lemma Loads333(nodes: seq<int>)
    requires nodes == [0, 1, 2] || nodes == [0, 1]
    ensures Counts(nodes, Live(nodes, Dist333())) == seq(|nodes|, _ => 3)
  {
    Live333(nodes);
    ThreeElements(0, 1, 2);
    ThreeElements(3, 4, 5);
    ThreeElements(6, 7, 8);
  }

  /** What the level-loads theorem asks of the three-shards-per-node start. */
  lemma Premises333(nodes: seq<int>, shards: seq<int>)
    requires nodes == [0, 1, 2] || nodes == [0, 1]
    requires shards == Range(9) || shards == Range(10)
    ensures |nodes| > 0 && Distinct(nodes) && Distinct(shards)
    ensures Exclusive(nodes, Live(nodes, Dist333()))
    ensures forall n :: n in nodes ==> forall x :: x in Owned(Dist333(), n) ==> x in shards
    ensures Level(Counts(nodes, Live(nodes, Dist333())))
  {
    Exclusive333(nodes);
    Loads333(nodes);
  }

  /** Every shard of a universe within the first nine is owned at the start,
      and each node's load of three lies within the bounds. */
  lemma AllOwned333(nodes: seq<int>, shards: seq<int>)
    requires nodes == [0, 1, 2] && (shards == Range(8) || shards == Range(9))
    ensures forall s :: s in shards ==> OwnedBySome(nodes, Live(nodes, Dist333()), s)
    ensures Even(Counts(nodes, Live(nodes, Dist333())), Floor(3, |shards|), Ceil(3, |shards|))
  {
    forall s | s in shards
      ensures OwnedBySome(nodes, Live(nodes, Dist333()), s)
    {
      Owners333(nodes, s);
    }
    Loads333(nodes);
    assert Floor(3, |shards|) <= 3 <= Ceil(3, |shards|);
  }

  /** Every shard owned and every node at the mean: no relocation. */
  lemma BalancedPlansNothing(nodes: seq<int>, shards: seq<int>)
    requires nodes == [0, 1, 2] && shards == Range(9)
    ensures Cost(nodes, shards, Dist333()) == 0
  {
    AllOwned333(nodes, shards);
    NoMovesIffBalanced(nodes, shards, Dist333());
  }

  /** A tenth shard: one placement and nothing else. */
  lemma NewShardPlansOne(nodes: seq<int>, shards: seq<int>)
    requires nodes == [0, 1, 2] && shards == Range(10)
    ensures Cost(nodes, shards, Dist333()) == 1
  {
    Premises333(nodes, shards);
    NewShardUnowned(nodes, shards);
    LevelNeedsOnlyPlacements(nodes, shards, Dist333());
  }

  /** Node 2 leaves: its three shards are placed on the remaining two nodes,
      which ends at loads five and four, within the bounds four and five. */
  lemma LostNodePlansThree(nodes: seq<int>, shards: seq<int>)
    requires nodes == [0, 1] && shards == Range(9)
    ensures Cost(nodes, shards, Dist333()) == 3
  {
    Premises333(nodes, shards);
    LostNodeUnowned(nodes, shards);
    LevelNeedsOnlyPlacements(nodes, shards, Dist333());
  }

  /** A fourth node joins: every shard is owned, and the newcomer lacks two
      shards to reach the floor of two, so two balancing moves follow. */
  lemma NewNodePlansTwo(nodes: seq<int>, shards: seq<int>)
    requires nodes == [0, 1, 2, 3] && shards == Range(9)
    ensures Cost(nodes, shards, Dist333()) == 2
  {
    var live := Live(nodes, Dist333());
    forall s | s in shards
      ensures OwnedBySome(nodes, live, s)
    {
      if s < 3 {
        assert s in live[0];
      } else if s < 6 {
        assert s in live[1];
      } else {
        assert s in live[2];
      }
    }
    UnownedCount(shards, nodes, live, []);
    NewNodeLoads(live);
    assert Assigned(nodes, shards, Dist333()) == ([], live);
    assert AssignedLoad(nodes, shards, Dist333()) == [3, 3, 3, 0];
    assert Floor(4, 9) == 2 && Ceil(4, 9) == 3;
    NewNodeDeficit();
  }

  lemma NewNodeDeficit()
    ensures Excess([3, 3, 3, 0], 3) == 0 && Deficit([3, 3, 3, 0], 2) == 2
  {
    assert Above([3, 3, 3, 0], 3) == [0, 0, 0, 0];
    assert Below([3, 3, 3, 0], 2) == [0, 0, 0, 2];
    assert Sum([0, 0, 0, 0]) == 0;
    assert Sum([0, 0, 0, 2]) == 2;
  }

  lemma Live332(nodes: seq<int>)
    requires nodes == [0, 1, 2]
    ensures Covers(nodes, Live(nodes, Dist332()))
    ensures forall k :: 0 <= k < 3 ==> Live(nodes, Dist332())[nodes[k]] == Dist332()[k]
  {
  }

  lemma Owners332(nodes: seq<int>, s: int)
    requires nodes == [0, 1, 2]
    ensures OwnedBySome(nodes, Live(nodes, Dist332()), s) <==> 0 <= s < 8
  {
    var live := Live(nodes, Dist332());
    Live332(nodes);
    if 0 <= s < 3 {
      assert s in live[nodes[0]];
    } else if 3 <= s < 6 {
      assert s in live[nodes[1]];
    } else if 6 <= s < 8 {
      assert s in live[nodes[2]];
    }
  }

  lemma Exclusive332(nodes: seq<int>)
    requires nodes == [0, 1, 2]
    ensures Exclusive(nodes, Live(nodes, Dist332()))
    ensures forall n :: n in nodes ==> forall x :: x in Owned(Dist332(), n) ==> 0 <= x < 8
  {
    Live332(nodes);
    Disjoint(Dist332());
  }

  lemma Loads332(nodes: seq<int>)
    requires nodes == [0, 1, 2]
    ensures Counts(nodes, Live(nodes, Dist332())) == [3, 3, 2]
  {
    Live332(nodes);
    ThreeElements(0, 1, 2);
    ThreeElements(3, 4, 5);
    assert |{6, 7}| == 2;
  }

  lemma Premises332(nodes: seq<int>, shards: seq<int>)
    requires nodes == [0, 1, 2] && shards == Range(9)
    ensures |nodes| > 0 && Distinct(nodes) && Distinct(shards)
    ensures Exclusive(nodes, Live(nodes, Dist332()))
    ensures forall n :: n in nodes ==> forall x :: x in Owned(Dist332(), n) ==> x in shards
    ensures Level(Counts(nodes, Live(nodes, Dist332())))
  {
    Exclusive332(nodes);
    Loads332(nodes);
  }

  /** Shard 8 has lost its owner: it is placed on node 2, the least loaded,
      and nothing else moves. */
  lemma BadDistributionPlansOne(nodes: seq<int>, shards: seq<int>)
    requires nodes == [0, 1, 2] && shards == Range(9)
    ensures Cost(nodes, shards, Dist332()) == 1
  {
    Premises332(nodes, shards);
    BadDistributionUnowned(nodes, shards);
    LevelNeedsOnlyPlacements(nodes, shards, Dist332());
  }

  lemma NewShardUnowned(nodes: seq<int>, shards: seq<int>)
    requires nodes == [0, 1, 2] && shards == Range(10)
    ensures |Unowned(shards, nodes, Live(nodes, Dist333()))| == 1
  {
    forall s
      ensures s in [9] <==> s in shards && !OwnedBySome(nodes, Live(nodes, Dist333()), s)
    {
      Owners333(nodes, s);
    }
    UnownedCount(shards, nodes, Live(nodes, Dist333()), [9]);
  }

  lemma LostNodeUnowned(nodes: seq<int>, shards: seq<int>)
    requires nodes == [0, 1] && shards == Range(9)
    ensures |Unowned(shards, nodes, Live(nodes, Dist333()))| == 3
  {
    forall s
      ensures s in [6, 7, 8] <==> s in shards && !OwnedBySome(nodes, Live(nodes, Dist333()), s)
    {
      Owners333(nodes, s);
    }
    UnownedCount(shards, nodes, Live(nodes, Dist333()), [6, 7, 8]);
  }

  lemma BadDistributionUnowned(nodes: seq<int>, shards: seq<int>)
    requires nodes == [0, 1, 2] && shards == Range(9)
    ensures |Unowned(shards, nodes, Live(nodes, Dist332()))| == 1
  {
    forall s
      ensures s in [8] <==> s in shards && !OwnedBySome(nodes, Live(nodes, Dist332()), s)
    {
      Owners332(nodes, s);
    }
    UnownedCount(shards, nodes, Live(nodes, Dist332()), [8]);
  }

  /** Three nodes, six shards, nothing owned: six placements, two per node. */
  lemma InitialPlansSix(nodes: seq<int>, shards: seq<int>)
    requires nodes == [0, 1, 2] && shards == Range(6)
    ensures Cost(nodes, shards, map[]) == 6
    ensures Balanced(nodes, 6, Assigned(nodes, shards, map[]).1)
  {
    var live := Live(nodes, map[]);
    assert Counts(nodes, live) == [0, 0, 0];
    forall s
      ensures s in shards <==> s in shards && !OwnedBySome(nodes, live, s)
    {
    }
    UnownedCount(shards, nodes, live, shards);
    LevelNeedsOnlyPlacements(nodes, shards, map[]);
  }

  /** Shard 8 leaves the universe while node 2 still owns it. No relocation
      takes it away, and the loads of three each lie within the bounds two and
      three, so nothing is planned. */
  lemma LostShardPlansNothing(nodes: seq<int>, shards: seq<int>)
    requires nodes == [0, 1, 2] && shards == Range(8)
    ensures Cost(nodes, shards, Dist333()) == 0
  {
    AllOwned333(nodes, shards);
    NoMovesIffBalanced(nodes, shards, Dist333());
  }
}
