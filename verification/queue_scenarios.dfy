/** The constrained queue over the cardinality policy, on the situations the
    repository's queue tests exercise: a policy letting one item out at a time
    in front of a one-place delegate. */
module QueueScenarios {
  import opened Wrappers
  import opened Sequences
  import opened Constrainers
  import C = Cardinality
  import opened ConstrainedQueues

  type CardQueue = Queue<C.State<int>, int>

  function Pol(): Constrainer<C.State<int>, int> {
    C.Policy<int>()
  }

  function Zeros(k: nat): (z: seq<int>)
    ensures |z| == k && forall i :: 0 <= i < k ==> z[i] == 0
  {
    seq(k, _ => 0)
  }

  /** Nothing out, nothing held, nothing queued: a fresh queue over
      `CardinalityConstrainer(cap, 1)` and `ArrayBlockingQueue(1)`. */
  function Idle(cap: nat): CardQueue {
    Queue(C.State(1, cap, 0, []), [], 1, [])
  }

  /** One 0 in the delegate (its slot taken) and `k` more 0s held. */
  function Loaded(cap: nat, k: nat): CardQueue {
    Queue(C.State(1, cap, 1, Zeros(k)), [0], 1, [])
  }

  /** Pushing one item into a delegate with room, or nothing at all. */
  lemma PushOne(q: CardQueue, x: int)
    requires |q.delegate| < q.capacity
    ensures PushAll(q, [x]) == q.(delegate := q.delegate + [x])
    ensures PushAll(q, []) == q
    ensures q.delegate == [] ==> PushAll(q, [x]) == q.(delegate := [x])
  {
    assert [x][..Room(q, 1)] == [x];
    assert [] + [x] == [x];
  }

  lemma IdleMatchesNew(cap: nat)
    requires cap >= 1
    ensures C.New<int>(cap, 1) == Ok(Idle(cap).policy)
    ensures IsEmpty(Pol(), Idle(cap)) && Poll(Idle(cap)).0.None? && Peek(Idle(cap)).None?
    ensures Element(Idle(cap)) == Err(NoSuchElement) && RemoveHead(Idle(cap)) == Err(NoSuchElement)
    ensures Take(Idle(cap)).None?
  {
  }

  /** The first item offered is let through into the delegate; every further
      one is held until the buffer is full, and then the next is refused:
      `offer` answers false, `add` throws `IllegalStateException` and `put`
      blocks, all three leaving the queue as it was. */
  lemma OfferFillsThenRefuses(cap: nat, k: nat)
    requires 1 <= cap && k < cap
    ensures Offer(Pol(), Idle(cap), 0) == (true, Loaded(cap, 0))
    ensures Add(Pol(), Idle(cap), 0) == (None, Loaded(cap, 0))
    ensures Put(Pol(), Idle(cap), 0) == Some(Loaded(cap, 0))
    ensures Offer(Pol(), Loaded(cap, k), 0) == (true, Loaded(cap, k + 1))
    ensures Add(Pol(), Loaded(cap, k), 0) == (None, Loaded(cap, k + 1))
    ensures Put(Pol(), Loaded(cap, k), 0) == Some(Loaded(cap, k + 1))
    ensures Offer(Pol(), Loaded(cap, cap), 0) == (false, Loaded(cap, cap))
    ensures Add(Pol(), Loaded(cap, cap), 0) == (Some(IllegalState), Loaded(cap, cap))
    ensures Put(Pol(), Loaded(cap, cap), 0).None?
  {
    assert Zeros(0) == [];
    assert Zeros(k) + [0] == Zeros(k + 1);
    assert [] + [0] == [0];
  }

  /** Each `forget(poll())` gets the 0 back and lets the oldest held 0 into
      the delegate; the last one leaves the queue idle and empty. */
  lemma PollForgetDrainsOne(cap: nat, k: nat)
    requires 1 <= k
    ensures Poll(Loaded(cap, k)) == (Some(0), Loaded(cap, k).(delegate := []))
    ensures Forget(Pol(), Loaded(cap, k).(delegate := []), Some(0)) == (Some(0), Loaded(cap, k - 1))
    ensures Poll(Loaded(cap, 0)) == (Some(0), Loaded(cap, 0).(delegate := []))
    ensures Forget(Pol(), Loaded(cap, 0).(delegate := []), Some(0)) == (Some(0), Idle(cap))
  {
    assert Zeros(k)[1..] == Zeros(k - 1);
    assert Zeros(0) == [];
    var q := Loaded(cap, k).(delegate := []);
    assert Pol().release(q.policy, 0) == (C.State(1, cap, 1, Zeros(k - 1)), [0]);
    PushOne(q.(policy := C.State(1, cap, 1, Zeros(k - 1))), 0);
    var q0 := Loaded(cap, 0).(delegate := []);
    assert Pol().release(q0.policy, 0) == (C.State(1, cap, 0, []), []);
    PushOne(q0.(policy := C.State(1, cap, 0, [])), 0);
  }

  /** `remove(0)` finds the 0 in the delegate, forgets it, and so lets the
      next held 0 in. */
  lemma RemoveLetsNextIn(cap: nat, k: nat)
    requires 1 <= k
    ensures RemoveItem(Pol(), Loaded(cap, k), 0) == (true, Loaded(cap, k - 1))
    ensures RemoveItem(Pol(), Loaded(cap, 0), 0) == (true, Idle(cap))
  {
    PollForgetDrainsOne(cap, k);
  }

  /** `remainingCapacity` counts the free places of the hold buffer and of the
      delegate: with four places and a one-place delegate it runs 4, 3, 2, 1,
      0 as the buffer fills. */
  lemma RemainingCapacityCountsDown(k: nat)
    requires k <= 4
    ensures RemainingCapacity(Pol(), Loaded(4, k)) == 4 - k
    ensures RemainingCapacityAsWritten(Pol(), Loaded(4, k)) == 4 - k
  {
  }

  /** With four places: five offers succeed, the sixth is refused, five
      rounds of `forget(poll())` give back five 0s and the queue ends empty. */
  lemma FiveOffersThenSixthRefused()
    ensures Offer(Pol(), Idle(4), 0).0
    ensures Offer(Pol(), Loaded(4, 3), 0) == (true, Loaded(4, 4))
    ensures !Offer(Pol(), Loaded(4, 4), 0).0 && Add(Pol(), Loaded(4, 4), 0).0 == Some(IllegalState)
    ensures IsEmpty(Pol(), Idle(4)) && Poll(Idle(4)).0.None?
  {
    OfferFillsThenRefuses(4, 3);
  }

  // ---------------------------------------------------------------------------
  // addAll of 0, 1, 2 on the small queue

  const Small: nat := 5000

  function Added(held: seq<int>, head: int): CardQueue {
    Queue(C.State(1, Small, 1, held), [head], 1, [])
  }

  /** `addAll([0, 1, 2])`: the first item goes into the delegate, the other
      two are held in order, and the answer is true. */
  lemma AddAllLetsFirstThrough()
    ensures AddAll(Pol(), Idle(Small), [0, 1, 2]) == (Ok(true), Added([1, 2], 0))
  {
    assert [0, 1, 2][1..] == [1, 2];
    assert [1, 2][1..] == [2];
    assert [] + [0] == [0] && [] + [1] == [1] && [1] + [2] == [1, 2];
    assert Add(Pol(), Idle(Small), 0) == (None, Added([], 0));
    assert Pol().admitTimed(Added([], 0).policy, 1) == Held(C.State(1, Small, 1, [1]));
    assert Add(Pol(), Added([], 0), 1) == (None, Added([1], 0));
    assert Pol().admitTimed(Added([1], 0).policy, 2) == Held(C.State(1, Small, 1, [1, 2]));
    assert Add(Pol(), Added([1], 0), 2) == (None, Added([1, 2], 0));
    assert AddAll(Pol(), Added([1], 0), [2]) == (Ok(true), Added([1, 2], 0));
    assert AddAll(Pol(), Added([], 0), [1, 2]) == (Ok(true), Added([1, 2], 0));
  }

  /** One `forget` on the small queue after its delegate was emptied: the
      oldest held item, if any, is let in. */
  lemma ForgetLetsNextIn(held: seq<int>, t: int)
    ensures held != [] ==> Forget(Pol(), Added(held, t).(delegate := []), Some(t)) == (Some(t), Added(held[1..], held[0]))
    ensures held == [] ==> Forget(Pol(), Added(held, t).(delegate := []), Some(t)) == (Some(t), Idle(Small))
  {
    var q := Added(held, t).(delegate := []);
    if held != [] {
      assert Pol().release(q.policy, t) == (C.State(1, Small, 1, held[1..]), [held[0]]);
      PushOne(q.(policy := C.State(1, Small, 1, held[1..])), held[0]);
    } else {
      assert Pol().release(q.policy, t) == (C.State(1, Small, 0, []), []);
      PushOne(q.(policy := C.State(1, Small, 0, [])), t);
    }
  }

  /** The items come out in the order they were added, and the queue ends
      empty. */
  lemma AddedComeOutInOrder()
    ensures Poll(Added([1, 2], 0)).0 == Some(0)
    ensures Forget(Pol(), Added([1, 2], 0).(delegate := []), Some(0)) == (Some(0), Added([2], 1))
    ensures Forget(Pol(), Added([2], 1).(delegate := []), Some(1)) == (Some(1), Added([], 2))
    ensures Forget(Pol(), Added([], 2).(delegate := []), Some(2)) == (Some(2), Idle(Small))
  {
    assert [1, 2][1..] == [2];
    ForgetLetsNextIn([1, 2], 0);
    ForgetLetsNextIn([2], 1);
    ForgetLetsNextIn([], 2);
  }

  /** Meanwhile the queue contains each added item, */
  lemma AddedAreContained()
    ensures Contains(Pol(), Added([1, 2], 0), 0) && Contains(Pol(), Added([1, 2], 0), 1)
    ensures Contains(Pol(), Added([1, 2], 0), 2)
  {
  }

  /** and its size counts down to an empty queue. */
  lemma AddedAreCounted()
    ensures Size(Pol(), Added([1, 2], 0)) == 3
    ensures Size(Pol(), Added([2], 1)) == 2
    ensures Size(Pol(), Added([], 2)) == 1
    ensures Size(Pol(), Idle(Small)) == 0 && IsEmpty(Pol(), Idle(Small))
  {
  }

  /** `removeAll([0, 1])` removes 0 from the delegate, which lets 1 in, then
      removes 1, which lets 2 in; 2 is what remains. */
  lemma RemoveAllLeavesTheRest()
    ensures RemoveItem(Pol(), Added([1, 2], 0), 0) == (true, Added([2], 1))
    ensures RemoveItem(Pol(), Added([2], 1), 1) == (true, Added([], 2))
    ensures !IsEmpty(Pol(), Added([], 2))
  {
    assert [1, 2][1..] == [2];
    ForgetLetsNextIn([1, 2], 0);
    ForgetLetsNextIn([2], 1);
    assert RemoveFirst([0], 0) == [];
    assert RemoveFirst([1], 1) == [];
  }

  /** `clear` after `addAll` leaves nothing behind. */
  lemma ClearAfterAddAll()
    ensures IsEmpty(Pol(), Clear(Pol(), Added([1, 2], 0)))
    ensures Poll(Clear(Pol(), Added([1, 2], 0))).0.None?
  {
  }
}
