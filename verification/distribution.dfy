/** A distribution of shards over nodes, as the test wrapper `SimpleAllocatorWrapper` keeps it in a
    set-valued multimap, and the effect of carrying out relocations on it. A
    node absent from the map owns nothing; the multimap never keeps a node
    whose set has become empty. */
module Distributions {
  import opened Wrappers
  import opened Relocations

  /** The shards `n` owns in `d`. */
  function Owned<N, S>(d: map<N, set<S>>, n: N): set<S> {
    if n in d then d[n] else {}
  }

  /** No node is kept with an empty set of shards. */
  ghost predicate NoEmptyEntry<N(!new), S>(d: map<N, set<S>>) {
    forall n :: n in d ==> d[n] != {}
  }

  /** `removeMapping(node, shard)`: the node lets go of the shard, and a node
      left with nothing disappears from the map. */
  function RemoveMapping<N(!new), S>(d: map<N, set<S>>, n: N, s: S): (r: map<N, set<S>>)
    ensures forall m :: Owned(r, m) == if m == n then Owned(d, m) - {s} else Owned(d, m)
    ensures r.Keys <= d.Keys
    ensures NoEmptyEntry(d) ==> NoEmptyEntry(r)
  {
    if n !in d then d
    else if d[n] - {s} == {} then d - {n}
    else d[n := d[n] - {s}]
  }

  /** `put(node, shard)`: the node gains the shard. */
  function PutMapping<N(!new), S>(d: map<N, set<S>>, n: N, s: S): (r: map<N, set<S>>)
    ensures forall m :: Owned(r, m) == if m == n then Owned(d, m) + {s} else Owned(d, m)
    ensures r.Keys == d.Keys + {n}
    ensures NoEmptyEntry(d) ==> NoEmptyEntry(r)
  {
    d[n := Owned(d, n) + {s}]
  }

  /** Carrying out one relocation: the source (if any) lets go of the shard,
      then the target (if any) takes it. */
  function Relocate<N(!new), S>(d: map<N, set<S>>, r: Relocation<N, S>): (d': map<N, set<S>>)
    ensures forall n :: Owned(d', n) == (Owned(d, n) - (if r.fromNode == Some(n) then {r.shard} else {}))
                                        + (if r.toNode == Some(n) then {r.shard} else {})
    ensures NoEmptyEntry(d) ==> NoEmptyEntry(d')
  {
    var released := if r.fromNode.Some? then RemoveMapping(d, r.fromNode.value, r.shard) else d;
    if r.toNode.Some? then PutMapping(released, r.toNode.value, r.shard) else released
  }

  /** Carrying out relocations in order. */
  function ApplyAll<N(!new), S>(d: map<N, set<S>>, moves: seq<Relocation<N, S>>): map<N, set<S>>
    decreases |moves|
  {
    if moves == [] then d else ApplyAll(Relocate(d, moves[0]), moves[1..])
  }

  /** Carrying out one more relocation after a sequence of them. */
  lemma {:induction false} ApplyAllAppend<N(!new), S>(d: map<N, set<S>>, moves: seq<Relocation<N, S>>, m: Relocation<N, S>)
    ensures ApplyAll(d, moves + [m]) == Relocate(ApplyAll(d, moves), m)
    decreases |moves|
  {
    if moves == [] {
      assert [] + [m] == [m];
    } else {
      assert (moves + [m])[1..] == moves[1..] + [m];
      ApplyAllAppend(Relocate(d, moves[0]), moves[1..], m);
    }
  }

  /** Carrying out relocations never leaves a node behind with an empty set. */
  lemma {:induction false} ApplyAllKeepsNoEmptyEntry<N(!new), S>(d: map<N, set<S>>, moves: seq<Relocation<N, S>>)
    requires NoEmptyEntry(d)
    ensures NoEmptyEntry(ApplyAll(d, moves))
    decreases |moves|
  {
    if moves != [] {
      ApplyAllKeepsNoEmptyEntry(Relocate(d, moves[0]), moves[1..]);
    }
  }
}
