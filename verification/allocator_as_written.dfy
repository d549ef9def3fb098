/** The planner's code as written, where it departs from its evident intent,
    which the `Allocator` module models: the load index leaves out nodes of the
    universe that the distribution has no entry for; `assignToLeast` gives
    the shard to the most-loaded node, leaves the distribution untouched and
    dereferences a null `fromEntry`; so a balancing round is a self-move that
    only lowers the source's key in the index. Each member here is paired
    with a lemma that exhibits the departure next to the intended behaviour. */
module AllocatorAsWritten {
  import opened Wrappers
  import opened Relocations
  import opened Load
  import opened Distributions
  import Allocator
  import opened AllocatorFixtures

  // ---------------------------------------------------------------------------
  // The load index

  /** `nodesByCount` as written: a node is indexed, under its shard count,
      only when the distribution has an entry for it and it belongs to the
      universe. */
  function IndexAsWritten<N(!new), S>(nodes: seq<N>, dist: map<N, set<S>>): (index: map<N, int>)
    ensures forall n :: n in index <==> n in nodes && n in dist
    ensures forall n :: n in index ==> index[n] == |Owned(dist, n)|
  {
    map n | n in dist && n in nodes :: |dist[n]|
  }

  /** A node of the universe with no entry in the distribution (a node that
      has just joined) is missing from the index as written, while the
      intended index holds it with no shards. */
  lemma IndexAsWrittenMissesNewNodes<N(!new), S(!new)>(nodes: seq<N>, dist: map<N, set<S>>, n: N)
    requires n in nodes && n !in dist
    ensures n !in IndexAsWritten(nodes, dist)
    ensures n in Allocator.Live(nodes, dist) && Allocator.Live(nodes, dist)[n] == {}
  {
  }

  /** The new-node scenario: three nodes own three shards each and a fourth
      joins. The index as written sees three nodes of load three, within the
      bounds two and three, so it plans nothing; the intended index sees the
      newcomer's load of zero, below the floor, and the intended planner
      makes the two moves `AllocatorScenarios.NewNodePlansTwo` counts. */
  lemma NewNodeIsNeverLoaded()
    ensures IndexAsWritten([0, 1, 2, 3], Dist333()) == map[0 := 3, 1 := 3, 2 := 3]
    ensures Allocator.Counts([0, 1, 2, 3], Allocator.Live([0, 1, 2, 3], Dist333())) == [3, 3, 3, 0]
    ensures Allocator.Floor(4, 9) == 2 && Allocator.Ceil(4, 9) == 3
  {
    NewNodeIndex();
    NewNodeLoads(Allocator.Live([0, 1, 2, 3], Dist333()));
  }

  lemma NewNodeIndex()
    ensures IndexAsWritten([0, 1, 2, 3], Dist333()) == map[0 := 3, 1 := 3, 2 := 3]
  {
    ThreeElements(0, 1, 2);
    ThreeElements(3, 4, 5);
    ThreeElements(6, 7, 8);
    var index := IndexAsWritten([0, 1, 2, 3], Dist333());
    assert index.Keys == {0, 1, 2};
  }

  // ---------------------------------------------------------------------------
  // Removing a shard from the distribution

  /** A value handed to `Map.remove(key, value)`: the shard passed on line 139
      or the set of shards the map actually stores. */
  datatype Boxed<S> = ShardValue(shard: S) | SetValue(shards: set<S>)

  /** `Map.remove(key, value)`: the entry goes only when the key is mapped to
      a value equal to the one given; otherwise nothing changes. */
  function MapRemoveAsWritten<N(!new), S(==)>(m: map<N, set<S>>, k: N, v: Boxed<S>): (r: map<N, set<S>>)
    ensures r == m || (k in m && v == SetValue(m[k]) && r == m - {k})
    ensures r.Keys <= m.Keys
  {
    if k in m && v == SetValue(m[k]) then m - {k} else m
  }

  /** Passing a shard where the map stores sets never matches: the source
      keeps the shard, where the intended removal takes it away. */
  lemma RemoveShardIsNoOp<N(!new), S(!new)>(m: map<N, set<S>>, k: N, s: S)
    ensures MapRemoveAsWritten(m, k, ShardValue(s)) == m
    ensures s in Owned(m, k) ==> s !in Owned(RemoveMapping(m, k, s), k)
  {
  }

  // ---------------------------------------------------------------------------
  // One assignment

  /** `assignToLeast` as written, on an index given as the indexed nodes and
      their keys. The relocation is recorded first (line 135), with the
      most-loaded node (`getLast`) as target. With no `fromEntry` (a shard
      nobody owns), line 141 dereferences null. Otherwise the source's key
      drops by one (lines 137-138), the removal on line 139 matches nothing,
      and lines 141-142 repeat a removal and an insertion already done, so
      they change nothing. The target's key never rises. */
  function AssignToLeastAsWritten<N(!new), S(==,!new)>(nodes: seq<N>, keys: seq<int>, dist: map<N, set<S>>, shard: S, from: Option<nat>)
    : (r: Result<(Relocation<N, S>, seq<int>, map<N, set<S>>), Exception>)
    requires |nodes| == |keys| > 0
    requires from.Some? ==> from.value < |nodes|
    ensures r.Err? <==> from.None?
    ensures r.Ok? ==> r.value.0.toNode == Some(nodes[MaxIndex(keys)])
    ensures r.Ok? ==> r.value.0.fromNode == Some(nodes[from.value]) && r.value.0.shard == shard
    ensures r.Ok? ==> |r.value.1| == |keys| && r.value.1[from.value] == keys[from.value] - 1
    ensures r.Ok? ==> forall k :: 0 <= k < |keys| && k != from.value ==> r.value.1[k] == keys[k]
    ensures r.Ok? ==> r.value.2 == dist
  {
    var target := nodes[MaxIndex(keys)];
    match from
    case None => Err(NullPointer)
    case Some(i) =>
      var released := keys[i := keys[i] - 1];
      var dist' := MapRemoveAsWritten(dist, nodes[i], ShardValue(shard));
      RemoveShardIsNoOp(dist, nodes[i], shard);
      Ok((Relocation(Some(nodes[i]), Some(target), shard), released, dist'))
  }

  /** Every shard nobody owns makes the planner as written throw, where the
      intended planner places it on a least-loaded node. */
  lemma UnownedShardThrows<N(!new), S(!new)>(nodes: seq<N>, keys: seq<int>, dist: map<N, set<S>>, owned: map<N, set<S>>, shard: S)
    requires |nodes| == |keys| > 0 && Allocator.Covers(nodes, owned)
    ensures AssignToLeastAsWritten(nodes, keys, dist, shard, None) == Err(NullPointer)
    ensures Allocator.AssignToLeast(nodes, owned, shard, None).0.toNode.Some?
    ensures shard in Allocator.AssignToLeast(nodes, owned, shard, None).1[Allocator.AssignToLeast(nodes, owned, shard, None).0.toNode.value]
  {
  }

  /** A round of `allNodesEven` as written passes the most-loaded entry as
      `fromEntry`, and `assignToLeast` targets the most-loaded node again:
      the relocation moves a shard from a node to itself and the distribution
      is unchanged, where the intended round moves it between two different
      nodes. */
  lemma BalancingRoundIsSelfMove<N(!new), S(!new)>(nodes: seq<N>, keys: seq<int>, dist: map<N, set<S>>, shard: S)
    requires |nodes| == |keys| > 0
    ensures var r := AssignToLeastAsWritten(nodes, keys, dist, shard, Some(MaxIndex(keys)));
            r.Ok? && r.value.0.fromNode == r.value.0.toNode && r.value.2 == dist
  {
  }

  /** No key of the index ever rises in a round as written, so neither does
      the smallest one: once a node is below the floor, the loop condition
      of `allNodesEven` holds forever. */
  lemma SmallestKeyNeverRises<N(!new), S(!new)>(nodes: seq<N>, keys: seq<int>, dist: map<N, set<S>>, shard: S, i: nat)
    requires |nodes| == |keys| > 0 && i < |nodes|
    ensures var r := AssignToLeastAsWritten(nodes, keys, dist, shard, Some(i));
            r.Ok? && |r.value.1| > 0 && r.value.1[MinIndex(r.value.1)] <= keys[MinIndex(keys)]
  {
    var r := AssignToLeastAsWritten(nodes, keys, dist, shard, Some(i));
    var after := r.value.1;
    var m := MinIndex(keys);
    assert after[m] <= keys[m];
  }

  // ---------------------------------------------------------------------------
  // A loop that never ends

  /** The condition of the `allNodesEven` loop: the last key of the index
      (the most-loaded node) is above `maxShardsPerNode`, or the first (the
      least-loaded) is below `minShardsPerNode`. */
  predicate AllNodesEvenGuard(keys: seq<int>, maxShardsPerNode: int, minShardsPerNode: int)
    requires |keys| > 0
  {
    keys[MaxIndex(keys)] > maxShardsPerNode || keys[MinIndex(keys)] < minShardsPerNode
  }

  /** `DistStuck` on nodes 0, 1 and 2 and shards 0-8 reaches the loop: every
      shard is owned, so `allShardsAccountedFor` assigns nothing, and the index
      as written holds all three nodes under the keys five, one and three,
      against bounds of three and three, so the loop is entered. */
  lemma StuckIndex()
    ensures DistStuck()[0] + DistStuck()[1] + DistStuck()[2] == {0, 1, 2, 3, 4, 5, 6, 7, 8}
    ensures IndexAsWritten([0, 1, 2], DistStuck()) == map[0 := 5, 1 := 1, 2 := 3]
    ensures Allocator.Floor(3, 9) == 3 && Allocator.Ceil(3, 9) == 3
    ensures AllNodesEvenGuard([5, 1, 3], Allocator.Ceil(3, 9), Allocator.Floor(3, 9))
  {
    FiveElements(0, 1, 2, 3, 4);
    ThreeElements(6, 7, 8);
    var index := IndexAsWritten([0, 1, 2], DistStuck());
    assert index.Keys == {0, 1, 2};
    assert MinIndex([5, 1, 3]) == 1;
  }

  /** The first round on that index moves a shard of node 0 from node 0 to
      node 0 and lowers node 0's key alone: node 1 keeps its key of one, below
      the floor, and the loop condition still holds. By
      `SmallestKeyNeverRises` it holds after every later round as well, so
      the loop never ends. */
  lemma StuckRound(shard: int)
    requires shard in DistStuck()[0]
    ensures var r := AssignToLeastAsWritten([0, 1, 2], [5, 1, 3], DistStuck(), shard, Some(0));
            && r.Ok? && r.value.0 == Relocation(Some(0), Some(0), shard)
            && r.value.1 == [4, 1, 3] && r.value.2 == DistStuck()
            && AllNodesEvenGuard(r.value.1, Allocator.Ceil(3, 9), Allocator.Floor(3, 9))
  {
    assert MaxIndex([5, 1, 3]) == 0;
    var r := AssignToLeastAsWritten([0, 1, 2], [5, 1, 3], DistStuck(), shard, Some(0));
    assert r.value.1 == [4, 1, 3];
    assert MinIndex([4, 1, 3]) == 1;
  }
}
