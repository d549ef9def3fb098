/** The distributions the planner's scenario lemmas start from, shared by
    the intended planner's scenarios and those of the code as written. */
module AllocatorFixtures {
  import opened Allocator

  /** Nodes 0, 1 and 2 own shards 0-2, 3-5 and 6-8. */
  function Dist333(): map<int, set<int>> {
    map[0 := {0, 1, 2}, 1 := {3, 4, 5}, 2 := {6, 7, 8}]
  }

  /** As `Dist333`, but node 2 owns only 6 and 7. */
  function Dist332(): map<int, set<int>> {
    map[0 := {0, 1, 2}, 1 := {3, 4, 5}, 2 := {6, 7}]
  }

  lemma ThreeElements(a: int, b: int, c: int)
    requires a < b < c
    ensures |{a, b, c}| == 3
  {
    assert {a, b, c} == {a, b} + {c};
  }

  /** Node 0 owns shards 0-4, node 1 owns 5 and node 2 owns 6-8: every
      shard of `0 .. 8` is owned, and the loads are five, one and three. */
  function DistStuck(): map<int, set<int>> {
    map[0 := {0, 1, 2, 3, 4}, 1 := {5}, 2 := {6, 7, 8}]
  }

  lemma FiveElements(a: int, b: int, c: int, d: int, e: int)
    requires a < b < c < d < e
    ensures |{a, b, c, d, e}| == 5
  {
    ThreeElements(a, b, c);
    assert {a, b, c, d, e} == {a, b, c} + {d} + {e};
  }

  /** A fourth node joining `Dist333` comes in with no shards. */
  lemma NewNodeLoads(live: map<int, set<int>>)
    requires live == Live([0, 1, 2, 3], Dist333())
    ensures Covers([0, 1, 2, 3], live)
    ensures Counts([0, 1, 2, 3], live) == [3, 3, 3, 0]
  {
    ThreeElements(0, 1, 2);
    ThreeElements(3, 4, 5);
    ThreeElements(6, 7, 8);
    assert live[0] == Dist333()[0] && live[1] == Dist333()[1] && live[2] == Dist333()[2];
    assert live[3] == {};
  }
}
