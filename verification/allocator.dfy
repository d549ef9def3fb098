/** The balancing planner (`SimpleAllocator.determineMoves`) as its design
    evidently intends it: index the live nodes by load, give every shard nobody
    owns to a least-loaded node, then move shards from a most-loaded to a
    least-loaded node until every node holds between the floor and the ceiling
    of the mean. Nodes and shards are the universes in their iteration order;
    ties between equally loaded nodes go to the earlier node, and the shard a
    balancing move takes is any one the source owns and the target does not.
    Where the code as written does something else, module `AllocatorAsWritten`
    models that and shows the divergence next to the behaviour here. */
module Allocator {
  import opened Wrappers
  import opened Relocations
  import opened Load
  import opened Distributions

  /** The planned relocations, in order, and who owns what once they are done. */
  datatype Plan<N, S> = Plan(moves: seq<Relocation<N, S>>, owned: map<N, set<S>>)

  /** Why no plan comes out: there are no nodes (the code throws from the
      empty load index), or the owned shard copies cannot be spread evenly
      (the code's balancing loop never ends). */
  datatype PlanError = NoNodes | NeverBalances

  /** Every node of the universe has an entry. */
  predicate Covers<N(!new), S(!new)>(nodes: seq<N>, owned: map<N, set<S>>) {
    forall n :: n in nodes ==> n in owned
  }

  /** The fewest shards a node may end up with, `floor(|shards| / |nodes|)`. */
  function Floor(nodeCount: nat, shardCount: nat): (f: nat)
    requires nodeCount > 0
    ensures nodeCount * f <= shardCount < nodeCount * f + nodeCount
  {
    shardCount / nodeCount
  }

  /** The most shards a node may end up with, `ceil(|shards| / |nodes|)`. */
  function Ceil(nodeCount: nat, shardCount: nat): (c: nat)
    requires nodeCount > 0
    ensures shardCount <= nodeCount * c < shardCount + nodeCount
  {
    (shardCount + nodeCount - 1) / nodeCount
  }

  /** The floor never exceeds the ceiling, and they differ by at most one. */
  lemma FloorBelowCeil(nodeCount: nat, shardCount: nat)
    requires nodeCount > 0
    ensures Floor(nodeCount, shardCount) <= Ceil(nodeCount, shardCount) <= Floor(nodeCount, shardCount) + 1
  {
    var f: int, c: int := Floor(nodeCount, shardCount), Ceil(nodeCount, shardCount);
    MulSign(nodeCount, c - f);
    MulSign(nodeCount, c - f - 2);
    assert nodeCount * (c - f) == nodeCount * c - nodeCount * f;
    assert nodeCount * (c - f - 2) == nodeCount * c - nodeCount * f - 2 * nodeCount;
  }

  lemma MulSign(n: nat, x: int)
    requires n > 0
    ensures x < 0 <==> n * x < 0
  {
  }

  // ---------------------------------------------------------------------------
  // The load index

  /** `nodesByCount` as intended: every node of the universe with the shards it
      owns (none when the distribution has no entry for it); nodes that left
      the universe are dropped. */
  function Live<N(!new), S(!new)>(nodes: seq<N>, dist: map<N, set<S>>): (live: map<N, set<S>>)
    ensures live.Keys == set n | n in nodes
    ensures forall n :: n in live ==> live[n] == Owned(dist, n)
  {
    map n | n in nodes :: Owned(dist, n)
  }

  /** The load of each node, in universe order. */
  function Counts<N(!new), S(!new)>(nodes: seq<N>, owned: map<N, set<S>>): (cs: seq<int>)
    requires Covers(nodes, owned)
    ensures |cs| == |nodes| && forall k :: 0 <= k < |nodes| ==> cs[k] == |owned[nodes[k]]|
  {
    seq(|nodes|, k requires 0 <= k < |nodes| => |owned[nodes[k]]|)
  }

  /** Some node of the universe owns `s`. */
  predicate OwnedBySome<N(!new), S(==,!new)>(nodes: seq<N>, owned: map<N, set<S>>, s: S) {
    exists n :: n in nodes && n in owned && s in owned[n]
  }

  /** `unassignedLoad`: the shards of the universe no live node owns, in
      universe order. */
  function Unowned<N(!new), S(==,!new)>(shards: seq<S>, nodes: seq<N>, owned: map<N, set<S>>): (us: seq<S>)
    ensures forall s :: s in us <==> s in shards && !OwnedBySome(nodes, owned, s)
    ensures Distinct(shards) ==> Distinct(us)
  {
    if shards == [] then []
    else (if OwnedBySome(nodes, owned, shards[0]) then [] else [shards[0]]) + Unowned(shards[1..], nodes, owned)
  }

  // ---------------------------------------------------------------------------
  // One move

  /** `next` is `owned` with one shard handed to `to`, taken from `from` when
      there is a source: the target gains the shard, a different source loses
      it, and every other entry stays as it was. */
  predicate Shifted<N(!new), S(==,!new)>(owned: map<N, set<S>>, next: map<N, set<S>>, from: Option<N>, to: N, shard: S) {
    && next.Keys == owned.Keys && to in owned
    && next[to] == owned[to] + {shard}
    && (from.Some? && from.value in owned && from.value != to ==> next[from.value] == owned[from.value] - {shard})
    && forall n :: n in owned && Some(n) != from && n != to ==> next[n] == owned[n]
  }

  /** `assignToLeast` as intended: the shard goes to a least-loaded node; when
      it comes from a node, that node lets go of it. */
  function AssignToLeast<N(!new), S(==,!new)>(nodes: seq<N>, owned: map<N, set<S>>, shard: S, from: Option<N>): (r: (Relocation<N, S>, map<N, set<S>>))
    requires |nodes| > 0 && Covers(nodes, owned)
    requires from.Some? ==> from.value in owned
    ensures r.0.fromNode == from && r.0.shard == shard
    ensures r.0.toNode == Some(nodes[MinIndex(Counts(nodes, owned))])
    ensures forall k :: 0 <= k < |nodes| ==> |owned[r.0.toNode.value]| <= |owned[nodes[k]]|
    ensures Shifted(owned, r.1, from, r.0.toNode.value, shard)
  {
    var target := nodes[MinIndex(Counts(nodes, owned))];
    var released := if from.Some? then owned[from.value := owned[from.value] - {shard}] else owned;
    (Relocation(from, Some(target), shard), released[target := owned[target] + {shard}])
  }

  /** Carrying out a relocation on a distribution that agrees with the
      planner's view keeps it in agreement with the view the relocation
      shifts to. */
  lemma TrackRelocate<N(!new), S(!new)>(d: map<N, set<S>>, nodes: seq<N>, owned: map<N, set<S>>, next: map<N, set<S>>, mv: Relocation<N, S>)
    requires Covers(nodes, owned) && mv.toNode.Some?
    requires mv.fromNode.Some? ==> mv.fromNode.value in owned
    requires Shifted(owned, next, mv.fromNode, mv.toNode.value, mv.shard)
    requires forall n :: n in nodes ==> Owned(d, n) == owned[n]
    ensures forall n :: n in nodes ==> Owned(Relocate(d, mv), n) == next[n]
  {
    forall n | n in nodes
      ensures Owned(Relocate(d, mv), n) == next[n]
    {
      if n == mv.toNode.value {
        assert Owned(Relocate(d, mv), n) == (owned[n] - (if mv.fromNode == Some(n) then {mv.shard} else {})) + {mv.shard};
      } else if mv.fromNode == Some(n) {
        assert Owned(Relocate(d, mv), n) == owned[n] - {mv.shard};
      } else {
        assert Owned(Relocate(d, mv), n) == owned[n];
      }
    }
  }

  /** Keeping `nodes[j]`'s entry in step with its load. */
  lemma CountsUpdate<N(!new), S(!new)>(nodes: seq<N>, owned: map<N, set<S>>, j: nat, a: set<S>)
    requires Distinct(nodes) && Covers(nodes, owned) && j < |nodes|
    ensures Covers(nodes, owned[nodes[j] := a])
    ensures Counts(nodes, owned[nodes[j] := a]) == Counts(nodes, owned)[j := |a|]
  {
  }

  /** A balancing move takes one shard from `nodes[i]` to `nodes[j]`, which
      lacks it: the source's load drops by one, the target's rises by one, and
      no other load changes. */
  lemma MoveLoads<N(!new), S(!new)>(nodes: seq<N>, owned: map<N, set<S>>, next: map<N, set<S>>, cs: seq<int>, i: nat, j: nat, shard: S)
    requires Distinct(nodes) && Covers(nodes, owned) && cs == Counts(nodes, owned)
    requires i < |nodes| && j < |nodes| && i != j
    requires shard in owned[nodes[i]] && shard !in owned[nodes[j]]
    requires Shifted(owned, next, Some(nodes[i]), nodes[j], shard)
    ensures Covers(nodes, next)
    ensures Counts(nodes, next) == cs[i := cs[i] - 1][j := cs[j] + 1]
  {
    var want := cs[i := cs[i] - 1][j := cs[j] + 1];
    forall k | 0 <= k < |nodes|
      ensures |next[nodes[k]]| == want[k]
    {
      if k == i {
        CardRemove(owned[nodes[i]], shard);
      } else if k != j {
        assert nodes[k] != nodes[i] && nodes[k] != nodes[j];
      }
    }
  }

  lemma CardRemove<S>(a: set<S>, x: S)
    requires x in a
    ensures |a - {x}| == |a| - 1
  {
    assert (a - {x}) + {x} == a;
  }

  /** A move never leaves a shard without an owner. */
  lemma MoveKeepsOwners<N(!new), S(!new)>(nodes: seq<N>, owned: map<N, set<S>>, next: map<N, set<S>>, from: Option<N>, to: N, shard: S, x: S)
    requires Covers(nodes, owned) && to in nodes
    requires Shifted(owned, next, from, to, shard)
    requires OwnedBySome(nodes, owned, x) || x == shard
    ensures OwnedBySome(nodes, next, x)
  {
    if x == shard {
      assert x in next[to];
    } else {
      var n :| n in nodes && n in owned && x in owned[n];
      assert x in next[n];
    }
  }

  // ---------------------------------------------------------------------------
  // Placing the unowned shards

  /** `allShardsAccountedFor`: each unowned shard in turn goes to a
      least-loaded node, as a relocation with no source. Nobody loses a shard,
      and every placed shard ends up owned. */
  function AssignUnowned<N(!new), S(==,!new)>(nodes: seq<N>, owned: map<N, set<S>>, us: seq<S>): (r: (seq<Relocation<N, S>>, map<N, set<S>>))
    requires |nodes| > 0 && Covers(nodes, owned)
    ensures r.1.Keys == owned.Keys
    ensures |r.0| == |us|
    ensures forall k :: 0 <= k < |us| ==>
              r.0[k].fromNode == None && r.0[k].shard == us[k] && r.0[k].toNode.Some? && r.0[k].toNode.value in nodes
    ensures forall n :: n in owned ==> owned[n] <= r.1[n]
    decreases |us|
  {
    if us == [] then ([], owned)
    else
      var step := AssignToLeast(nodes, owned, us[0], None);
      var rest := AssignUnowned(nodes, step.1, us[1..]);
      ([step.0] + rest.0, rest.1)
  }

  /** Carrying out the placements on a distribution that agrees with the
      planner's view leaves it agreeing with the planner's view afterwards. */
  lemma {:induction false} AssignUnownedTracks<N(!new), S(!new)>(d: map<N, set<S>>, nodes: seq<N>, owned: map<N, set<S>>, us: seq<S>)
    requires |nodes| > 0 && Covers(nodes, owned)
    requires forall n :: n in nodes ==> Owned(d, n) == owned[n]
    ensures var r := AssignUnowned(nodes, owned, us);
            forall n :: n in nodes ==> Owned(ApplyAll(d, r.0), n) == r.1[n]
    decreases |us|
  {
    if us != [] {
      var step := AssignToLeast(nodes, owned, us[0], None);
      TrackRelocate(d, nodes, owned, step.1, step.0);
      AssignUnownedTracks(Relocate(d, step.0), nodes, step.1, us[1..]);
      var r := AssignUnowned(nodes, owned, us);
      assert r.0[0] == step.0 && r.0[1..] == AssignUnowned(nodes, step.1, us[1..]).0;
    }
  }

  /** After the placements every placed shard has an owner. */
  lemma {:induction false} AssignUnownedOwns<N(!new), S(!new)>(nodes: seq<N>, owned: map<N, set<S>>, us: seq<S>)
    requires |nodes| > 0 && Covers(nodes, owned)
    ensures forall s :: s in us ==> OwnedBySome(nodes, AssignUnowned(nodes, owned, us).1, s)
    decreases |us|
  {
    if us != [] {
      var step := AssignToLeast(nodes, owned, us[0], None);
      AssignUnownedOwns(nodes, step.1, us[1..]);
      var r := AssignUnowned(nodes, step.1, us[1..]);
      var t := step.0.toNode.value;
      assert us[0] in r.1[t];
    }
  }

  /** Placing a shard nobody owns adds one to the total load, and leaves the
      other shards nobody owned still unowned. */
  lemma PlaceOne<N(!new), S(!new)>(nodes: seq<N>, owned: map<N, set<S>>, us: seq<S>)
    requires |nodes| > 0 && Covers(nodes, owned) && Distinct(nodes)
    requires us != [] && Distinct(us) && forall s :: s in us ==> !OwnedBySome(nodes, owned, s)
    ensures var step := AssignToLeast(nodes, owned, us[0], None);
            && Covers(nodes, step.1)
            && Sum(Counts(nodes, step.1)) == Sum(Counts(nodes, owned)) + 1
            && forall s :: s in us[1..] ==> !OwnedBySome(nodes, step.1, s)
  {
    var step := AssignToLeast(nodes, owned, us[0], None);
    var j := MinIndex(Counts(nodes, owned));
    var t := nodes[j];
    assert t in nodes && t in owned;
    assert us[0] !in owned[t] by {
      assert us[0] in us;
    }
    assert step.1 == owned[t := owned[t] + {us[0]}];
    CountsUpdate(nodes, owned, j, owned[t] + {us[0]});
    SumUpdate(Counts(nodes, owned), j, |owned[t] + {us[0]}|);
    forall s | s in us[1..]
      ensures !OwnedBySome(nodes, step.1, s)
    {
      assert s in us && s != us[0];
      forall n | n in nodes && n in step.1
        ensures s !in step.1[n]
      {
        assert s !in owned[n];
      }
    }
  }

  /** Placing a distinct list of shards nobody owned adds exactly its length
      to the total load. */
  lemma {:induction false} AssignUnownedLoad<N(!new), S(!new)>(nodes: seq<N>, owned: map<N, set<S>>, us: seq<S>)
    requires |nodes| > 0 && Covers(nodes, owned) && Distinct(nodes)
    requires Distinct(us) && forall s :: s in us ==> !OwnedBySome(nodes, owned, s)
    ensures Sum(Counts(nodes, AssignUnowned(nodes, owned, us).1)) == Sum(Counts(nodes, owned)) + |us|
    decreases |us|
  {
    if us != [] {
      PlaceOne(nodes, owned, us);
      var step := AssignToLeast(nodes, owned, us[0], None);
      assert Distinct(us[1..]);
      AssignUnownedLoad(nodes, step.1, us[1..]);
    }
  }

  // ---------------------------------------------------------------------------
  // The plan

  /** The working distribution once every unowned shard is placed, and the
      placements that got it there. */
  function Assigned<N(!new), S(==,!new)>(nodes: seq<N>, shards: seq<S>, dist: map<N, set<S>>): (r: (seq<Relocation<N, S>>, map<N, set<S>>))
    requires |nodes| > 0
    ensures Covers(nodes, r.1)
  {
    var live := Live(nodes, dist);
    AssignUnowned(nodes, live, Unowned(shards, nodes, live))
  }

  /** The node loads the balancing loop starts from. */
  function AssignedLoad<N(!new), S(==,!new)>(nodes: seq<N>, shards: seq<S>, dist: map<N, set<S>>): seq<int>
    requires |nodes| > 0
  {
    Counts(nodes, Assigned(nodes, shards, dist).1)
  }

  /** The length of the plan: one placement per unowned shard, then one move
      per shard above the ceiling or missing below the floor, whichever is
      more. */
  function Cost<N(!new), S(==,!new)>(nodes: seq<N>, shards: seq<S>, dist: map<N, set<S>>): int
    requires |nodes| > 0
  {
    var cs := AssignedLoad(nodes, shards, dist);
    |Assigned(nodes, shards, dist).0|
      + Max(Excess(cs, Ceil(|nodes|, |shards|)), Deficit(cs, Floor(|nodes|, |shards|)))
  }

  /** The total load fits between `|nodes| * floor` and `|nodes| * ceil`. */
  predicate Spreadable(nodes: seq<int>, floor: int, ceil: int) {
    |nodes| * floor <= Sum(nodes) <= |nodes| * ceil
  }

  /** Every node of the universe holds between the floor and the ceiling. */
  predicate Balanced<N(!new), S(!new)>(nodes: seq<N>, shardCount: nat, owned: map<N, set<S>>)
    requires |nodes| > 0
  {
    Covers(nodes, owned) && Even(Counts(nodes, owned), Floor(|nodes|, shardCount), Ceil(|nodes|, shardCount))
  }

  /** A relocation between two different nodes of the universe. */
  predicate Transfer<N(==,!new), S(!new)>(nodes: seq<N>, r: Relocation<N, S>) {
    r.fromNode.Some? && r.toNode.Some? && r.fromNode != r.toNode && r.fromNode.value in nodes && r.toNode.value in nodes
  }

  /** Every relocation of `moves` is a transfer between nodes of the universe. */
  predicate AllTransfers<N(==,!new), S(!new)>(nodes: seq<N>, moves: seq<Relocation<N, S>>) {
    forall k :: 0 <= k < |moves| ==> Transfer(nodes, moves[k])
  }

  /** Every shard some node owns in `a` is still owned by some node in `b`. */
  ghost predicate KeepsOwners<N(!new), S(!new)>(nodes: seq<N>, a: map<N, set<S>>, b: map<N, set<S>>) {
    forall x :: OwnedBySome(nodes, a, x) ==> OwnedBySome(nodes, b, x)
  }

  /** The distribution `d` agrees with the planner's view on every node. */
  ghost predicate Agrees<N(!new), S(!new)>(nodes: seq<N>, d: map<N, set<S>>, owned: map<N, set<S>>)
    requires Covers(nodes, owned)
  {
    forall n :: n in nodes ==> Owned(d, n) == owned[n]
  }

  lemma KeepsOwnersTransitive<N(!new), S(!new)>(nodes: seq<N>, a: map<N, set<S>>, b: map<N, set<S>>, c: map<N, set<S>>)
    requires KeepsOwners(nodes, a, b) && KeepsOwners(nodes, b, c)
    ensures KeepsOwners(nodes, a, c)
  {
  }

  /** One round of `allNodesEven` as intended: the most-loaded node hands one
      of its shards that the least-loaded node lacks to the least-loaded node.
      The relocation goes between two different live nodes, the two loads
      move one step towards each other, the planner's view changes exactly as
      carrying out the relocation would change it, and no shard loses its
      last owner. */
  method MoveOne<N(!new), S(==,!new)>(nodes: seq<N>, owned: map<N, set<S>>, floor: int, ceil: int, cs: seq<int>, i: nat, j: nat)
    returns (mv: Relocation<N, S>, next: map<N, set<S>>)
    requires Distinct(nodes) && |nodes| > 0 && Covers(nodes, owned) && floor <= ceil
    requires cs == Counts(nodes, owned) && Spreadable(cs, floor, ceil)
    requires i == MaxIndex(cs) && j == MinIndex(cs)
    requires cs[i] > ceil || cs[j] < floor
    ensures i < |nodes| && j < |nodes|
    ensures Transfer(nodes, mv)
    ensures mv.fromNode == Some(nodes[i]) && mv.toNode == Some(nodes[j])
    ensures mv.shard in owned[nodes[i]] && mv.shard !in owned[nodes[j]]
    ensures Covers(nodes, next)
    ensures Counts(nodes, next) == cs[i := cs[i] - 1][j := cs[j] + 1]
    ensures Shifted(owned, next, mv.fromNode, mv.toNode.value, mv.shard)
    ensures KeepsOwners(nodes, owned, next)
  {
    BalanceStep(cs, floor, ceil, i, j, cs[i := cs[i] - 1][j := cs[j] + 1]);
    LargerSetHasExtra(owned[nodes[i]], owned[nodes[j]]);
    var s :| s in owned[nodes[i]] && s !in owned[nodes[j]];
    var step := AssignToLeast(nodes, owned, s, Some(nodes[i]));
    assert step.0.toNode == Some(nodes[j]);
    MoveLoads(nodes, owned, step.1, cs, i, j, s);
    forall x | OwnedBySome(nodes, owned, x)
      ensures OwnedBySome(nodes, step.1, x)
    {
      MoveKeepsOwners(nodes, owned, step.1, Some(nodes[i]), nodes[j], s, x);
    }
    mv, next := step.0, step.1;
  }

  /** `allNodesEven` as intended: moves from the most-loaded to the
      least-loaded node until every load lies between the floor and the
      ceiling. It needs exactly as many moves as the larger of the excess
      above the ceiling and the deficit below the floor, every move is a
      transfer between live nodes, no shard loses its last owner, and carrying
      the moves out on a distribution that agreed with the starting view
      yields the final view. */
  method Balance<N(!new), S(==,!new)>(nodes: seq<N>, start: map<N, set<S>>, floor: int, ceil: int, d: map<N, set<S>>)
    returns (moves: seq<Relocation<N, S>>, owned: map<N, set<S>>)
    requires Distinct(nodes) && |nodes| > 0 && Covers(nodes, start) && floor <= ceil
    requires Spreadable(Counts(nodes, start), floor, ceil)
    requires forall n :: n in nodes ==> Owned(d, n) == start[n]
    ensures Covers(nodes, owned) && Even(Counts(nodes, owned), floor, ceil)
    ensures |moves| == Max(Excess(Counts(nodes, start), ceil), Deficit(Counts(nodes, start), floor))
    ensures forall k :: 0 <= k < |moves| ==> Transfer(nodes, moves[k])
    ensures forall x :: OwnedBySome(nodes, start, x) ==> OwnedBySome(nodes, owned, x)
    ensures forall n :: n in nodes ==> Owned(ApplyAll(d, moves), n) == owned[n]
  {
    moves, owned := [], start;
    var cs := Counts(nodes, owned);
    BalancingStarts(nodes, start, floor, ceil, d);
    while cs[MaxIndex(cs)] > ceil || cs[MinIndex(cs)] < floor
      invariant Balancing(nodes, start, floor, ceil, d, moves, owned, cs)
      decreases Max(Excess(cs, ceil), Deficit(cs, floor))
    {
      moves, owned, cs := BalanceRound(nodes, start, floor, ceil, d, moves, owned, cs);
    }
    BalancingEnds(nodes, start, floor, ceil, d, moves, owned, cs);
  }

  lemma BalancingStarts<N(!new), S(!new)>(nodes: seq<N>, start: map<N, set<S>>, floor: int, ceil: int, d: map<N, set<S>>)
    requires Distinct(nodes) && |nodes| > 0 && Covers(nodes, start) && floor <= ceil
    requires Spreadable(Counts(nodes, start), floor, ceil)
    requires forall n :: n in nodes ==> Owned(d, n) == start[n]
    ensures Balancing(nodes, start, floor, ceil, d, [], start, Counts(nodes, start))
  {
    ExcessAndDeficit(Counts(nodes, start), floor, ceil);
    assert ApplyAll(d, []) == d;
  }

  /** Once every load is between the floor and the ceiling, the moves made
      account for the whole starting imbalance. */
  lemma BalancingEnds<N(!new), S(!new)>(nodes: seq<N>, start: map<N, set<S>>, floor: int, ceil: int, d: map<N, set<S>>,
                                       moves: seq<Relocation<N, S>>, owned: map<N, set<S>>, cs: seq<int>)
    requires Balancing(nodes, start, floor, ceil, d, moves, owned, cs)
    requires cs[MaxIndex(cs)] <= ceil && cs[MinIndex(cs)] >= floor
    ensures Covers(nodes, owned) && Even(Counts(nodes, owned), floor, ceil)
    ensures |moves| == Max(Excess(Counts(nodes, start), ceil), Deficit(Counts(nodes, start), floor))
    ensures forall k :: 0 <= k < |moves| ==> Transfer(nodes, moves[k])
    ensures forall x :: OwnedBySome(nodes, start, x) ==> OwnedBySome(nodes, owned, x)
    ensures forall n :: n in nodes ==> Owned(ApplyAll(d, moves), n) == owned[n]
  {
    EvenHasNoExcess(cs, floor, ceil);
  }

  /** What holds after every round of `allNodesEven`: `cs` are the current
      loads, still spreadable; the moves so far plus the remaining imbalance
      account for the starting imbalance; every move is a transfer; no shard
      has lost its last owner; and the moves carried out on `d` give the
      current view. */
  ghost predicate Balancing<N(!new), S(!new)>(nodes: seq<N>, start: map<N, set<S>>, floor: int, ceil: int, d: map<N, set<S>>,
                                             moves: seq<Relocation<N, S>>, owned: map<N, set<S>>, cs: seq<int>) {
    && Distinct(nodes) && |nodes| > 0 && floor <= ceil && Covers(nodes, start)
    && Covers(nodes, owned) && cs == Counts(nodes, owned)
    && Spreadable(cs, floor, ceil)
    && Excess(cs, ceil) >= 0 && Deficit(cs, floor) >= 0
    && |moves| + Max(Excess(cs, ceil), Deficit(cs, floor))
       == Max(Excess(Counts(nodes, start), ceil), Deficit(Counts(nodes, start), floor))
    && AllTransfers(nodes, moves)
    && KeepsOwners(nodes, start, owned)
    && Agrees(nodes, ApplyAll(d, moves), owned)
  }

  /** One round of the balancing loop keeps `Balancing` and lowers the
      remaining imbalance by one. */
  method BalanceRound<N(!new), S(==,!new)>(nodes: seq<N>, start: map<N, set<S>>, floor: int, ceil: int, d: map<N, set<S>>,
                                          moves: seq<Relocation<N, S>>, owned: map<N, set<S>>, cs: seq<int>)
    returns (moves': seq<Relocation<N, S>>, owned': map<N, set<S>>, cs': seq<int>)
    requires Balancing(nodes, start, floor, ceil, d, moves, owned, cs)
    requires cs[MaxIndex(cs)] > ceil || cs[MinIndex(cs)] < floor
    ensures Balancing(nodes, start, floor, ceil, d, moves', owned', cs')
    ensures |moves'| == |moves| + 1 && moves'[..|moves|] == moves
    ensures Max(Excess(cs', ceil), Deficit(cs', floor)) == Max(Excess(cs, ceil), Deficit(cs, floor)) - 1
  {
    var i, j := MaxIndex(cs), MinIndex(cs);
    var stepped := cs[i := cs[i] - 1][j := cs[j] + 1];
    BalanceStep(cs, floor, ceil, i, j, stepped);
    var mv, next := MoveOne(nodes, owned, floor, ceil, cs, i, j);
    TrackStep(d, moves, nodes, owned, next, mv);
    TransfersAppend(nodes, moves, mv);
    KeepsOwnersTransitive(nodes, start, owned, next);
    ExcessAndDeficit(stepped, floor, ceil);
    moves', owned', cs' := moves + [mv], next, stepped;
  }

  /** Carrying out one more relocation keeps the distribution in agreement
      with the view the relocation shifts to. */
  lemma TrackStep<N(!new), S(!new)>(d: map<N, set<S>>, moves: seq<Relocation<N, S>>, nodes: seq<N>, owned: map<N, set<S>>, next: map<N, set<S>>, mv: Relocation<N, S>)
    requires Covers(nodes, owned) && mv.toNode.Some?
    requires mv.fromNode.Some? ==> mv.fromNode.value in owned
    requires Shifted(owned, next, mv.fromNode, mv.toNode.value, mv.shard)
    requires Covers(nodes, next) && Agrees(nodes, ApplyAll(d, moves), owned)
    ensures Agrees(nodes, ApplyAll(d, moves + [mv]), next)
  {
    ApplyAllAppend(d, moves, mv);
    TrackRelocate(ApplyAll(d, moves), nodes, owned, next, mv);
  }

  lemma TransfersAppend<N(!new), S(!new)>(nodes: seq<N>, moves: seq<Relocation<N, S>>, mv: Relocation<N, S>)
    requires AllTransfers(nodes, moves) && Transfer(nodes, mv)
    ensures AllTransfers(nodes, moves + [mv])
  {
    assert forall k :: 0 <= k < |moves| ==> (moves + [mv])[k] == moves[k];
  }

  /** `determineMoves`. With no nodes there is no plan. Otherwise the plan
      starts with one placement per unowned shard, continues with transfers
      between live nodes, and ends with every node holding between the floor
      and the ceiling of the mean and every shard of the universe owned, after
      exactly `Cost` moves. Carrying the plan out on the input distribution
      yields exactly the planned ownership. When the total load after
      placement cannot be spread evenly the code loops forever; here that is
      `NeverBalances`. */
  method DetermineMoves<N(!new), S(==,!new)>(nodes: seq<N>, shards: seq<S>, dist: map<N, set<S>>) returns (r: Result<Plan<N, S>, PlanError>)
    requires Distinct(nodes) && Distinct(shards)
    ensures r == Err(NoNodes) <==> |nodes| == 0
    ensures r == Err(NeverBalances) <==>
              |nodes| > 0 && !Spreadable(AssignedLoad(nodes, shards, dist), Floor(|nodes|, |shards|), Ceil(|nodes|, |shards|))
    ensures r.Ok? ==> |nodes| > 0 && Balanced(nodes, |shards|, r.value.owned)
    ensures r.Ok? ==> |r.value.moves| == Cost(nodes, shards, dist)
    ensures r.Ok? ==> var placed := Assigned(nodes, shards, dist).0;
                      && |placed| <= |r.value.moves| && r.value.moves[..|placed|] == placed
                      && forall k :: |placed| <= k < |r.value.moves| ==> Transfer(nodes, r.value.moves[k])
    ensures r.Ok? ==> forall s :: s in shards ==> OwnedBySome(nodes, r.value.owned, s)
    ensures r.Ok? ==> forall n :: n in nodes ==> Owned(ApplyAll(dist, r.value.moves), n) == r.value.owned[n]
  {
    if |nodes| == 0 {
      return Err(NoNodes);
    }
    var live := Live(nodes, dist);
    var us := Unowned(shards, nodes, live);
    var placed := AssignUnowned(nodes, live, us);
    var floor, ceil := Floor(|nodes|, |shards|), Ceil(|nodes|, |shards|);
    if !Spreadable(Counts(nodes, placed.1), floor, ceil) {
      return Err(NeverBalances);
    }
    FloorBelowCeil(|nodes|, |shards|);
    AssignUnownedTracks(dist, nodes, live, us);
    AssignUnownedOwns(nodes, live, us);
    OwnersAfterPlacement(nodes, shards, live, placed.1, us);
    var transfers, owned := Balance(nodes, placed.1, floor, ceil, ApplyAll(dist, placed.0));
    ApplyAllConcat(dist, placed.0, transfers);
    var moves := placed.0 + transfers;
    assert moves[..|placed.0|] == placed.0;
    return Ok(Plan(moves, owned));
  }

  /** Carrying out two lists of relocations one after the other. */
  lemma {:induction false} ApplyAllConcat<N(!new), S(!new)>(d: map<N, set<S>>, first: seq<Relocation<N, S>>, second: seq<Relocation<N, S>>)
    ensures ApplyAll(d, first + second) == ApplyAll(ApplyAll(d, first), second)
    decreases |first|
  {
    if first != [] {
      assert (first + second)[1..] == first[1..] + second;
      ApplyAllConcat(Relocate(d, first[0]), first[1..], second);
    } else {
      assert first + second == second;
    }
  }

  /** After placement every shard of the universe has an owner. */
  lemma OwnersAfterPlacement<N(!new), S(!new)>(nodes: seq<N>, shards: seq<S>, live: map<N, set<S>>, placed: map<N, set<S>>, us: seq<S>)
    requires Covers(nodes, live) && placed.Keys == live.Keys
    requires forall n :: n in live ==> live[n] <= placed[n]
    requires forall s :: s in us <==> s in shards && !OwnedBySome(nodes, live, s)
    requires forall s :: s in us ==> OwnedBySome(nodes, placed, s)
    ensures forall s :: s in shards ==> OwnedBySome(nodes, placed, s)
  {
    forall s | s in shards
      ensures OwnedBySome(nodes, placed, s)
    {
      if s !in us {
        var n :| n in nodes && n in live && s in live[n];
        assert s in placed[n];
      }
    }
  }

  /** A set larger than another has an element the other lacks. */
  lemma LargerSetHasExtra<S(!new)>(a: set<S>, b: set<S>)
    requires |a| > |b|
    ensures exists s :: s in a && s !in b
  {
    SubsetCard(a * b, b);
    assert |a - b| > 0;
  }

  lemma {:induction false} SubsetCard<S(!new)>(a: set<S>, b: set<S>)
    requires a <= b
    ensures |a| <= |b|
    decreases |a|
  {
    if a != {} {
      var x :| x in a;
      SubsetCard(a - {x}, b - {x});
    }
  }
}
