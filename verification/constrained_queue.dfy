/** The constrained queue (`ConstrainedQueue`): a bounded delegate queue that
    consumers read from, an admission policy that decides which offered items
    may enter it, and an unbounded overflow queue (the "traffic jam") for
    items the policy releases while the delegate is full.

    The policy is any `Constrainer`; the properties below hold for every
    policy that keeps the interface's contract (`Lawful`). The background
    thread that moves the jam into the delegate is the separate step
    `JamStep`. */
module ConstrainedQueues {
  import opened Wrappers
  import opened Sequences
  import opened Constrainers

  /** The queue's state: the policy's state, the delegate's contents (head
      first) and bound, and the jam (head first). */
  datatype Queue<P, T> = Queue(policy: P, delegate: seq<T>, capacity: nat, jam: seq<T>)

  /** `IllegalStateException` and `NoSuchElementException`. */
  datatype Failure = IllegalState | NoSuchElement

  const MaxInt: int := 0x7fff_ffff

  /** The queue over a policy in state `p` and an empty delegate of the given
      bound. */
  function New<P, T>(p: P, capacity: nat): (q: Queue<P, T>)
    ensures Valid(q) && q.delegate == [] && q.jam == [] && q.policy == p
  {
    Queue(p, [], capacity, [])
  }

  /** The delegate never holds more than its bound. */
  predicate Valid<P, T>(q: Queue<P, T>) {
    |q.delegate| <= q.capacity
  }

  /** Everything the queue holds: what the policy holds, the delegate and the
      jam. Items handed to consumers and not yet forgotten are not in it. */
  ghost function Items<P, T>(c: Constrainer<P, T>, q: Queue<P, T>): multiset<T> {
    multiset(c.held(q.policy)) + multiset(q.delegate) + multiset(q.jam)
  }

  /** The room left in the delegate, capped at `n`. */
  function Room<P, T>(q: Queue<P, T>, n: nat): (k: nat)
    requires Valid(q)
    ensures k <= n && |q.delegate| + k <= q.capacity
    ensures k == n || |q.delegate| + k == q.capacity
  {
    if n <= q.capacity - |q.delegate| then n else q.capacity - |q.delegate|
  }

  // ---------------------------------------------------------------------------
  // Entering the queue

  /** `if (!delegate.offer(t)) trafficJam.offer(t)`: into the delegate while
      it has room, otherwise to the back of the jam. */
  function Enqueue<P, T>(q: Queue<P, T>, t: T): (r: Queue<P, T>)
    ensures r.policy == q.policy && r.capacity == q.capacity
    ensures |q.delegate| < q.capacity ==> r.delegate == q.delegate + [t] && r.jam == q.jam
    ensures |q.delegate| >= q.capacity ==> r.delegate == q.delegate && r.jam == q.jam + [t]
    ensures Valid(q) ==> Valid(r)
  {
    if |q.delegate| < q.capacity then q.(delegate := q.delegate + [t]) else q.(jam := q.jam + [t])
  }

  /** Enqueue each of `xs` in order: the delegate takes as many as it has room
      for, the rest go to the jam, order kept. */
  function PushAll<P, T>(q: Queue<P, T>, xs: seq<T>): (r: Queue<P, T>)
    requires Valid(q)
    ensures Valid(r) && r.policy == q.policy && r.capacity == q.capacity
    ensures r.delegate == q.delegate + xs[..Room(q, |xs|)]
    ensures r.jam == q.jam + xs[Room(q, |xs|)..]
    decreases |xs|
  {
    if xs == [] then q
    else
      var q1 := Enqueue(q, xs[0]);
      var r := PushAll(q1, xs[1..]);
      PushAllStep(q, xs, q1, r);
      r
  }

  /** Enqueueing the head and then the tail splits `xs` where enqueueing all
      of it at once would. */
  lemma PushAllStep<P, T>(q: Queue<P, T>, xs: seq<T>, q1: Queue<P, T>, r: Queue<P, T>)
    requires Valid(q) && xs != [] && q1 == Enqueue(q, xs[0])
    requires r.delegate == q1.delegate + xs[1..][..Room(q1, |xs| - 1)]
    requires r.jam == q1.jam + xs[1..][Room(q1, |xs| - 1)..]
    ensures r.delegate == q.delegate + xs[..Room(q, |xs|)]
    ensures r.jam == q.jam + xs[Room(q, |xs|)..]
  {
    var k := Room(q1, |xs| - 1);
    if |q.delegate| < q.capacity {
      assert Room(q, |xs|) == k + 1;
      SplitAfterHead(xs, k);
      assert r.delegate == q.delegate + ([xs[0]] + xs[1..][..k]);
    } else {
      assert k == 0 && Room(q, |xs|) == 0;
      SplitAfterHead(xs, 0);
      assert r.jam == q.jam + ([xs[0]] + xs[1..]);
    }
  }

  lemma SplitAfterHead<T>(xs: seq<T>, k: nat)
    requires k < |xs|
    ensures [xs[0]] + xs[1..][..k] == xs[..k + 1] && xs[1..][k..] == xs[k + 1..]
    ensures [xs[0]] + xs[1..] == xs
  {
  }

  /** `offer(t)` and `offer(t, time, unit)`: ask the policy with the timed
      call; on a refusal answer false and change nothing, otherwise answer
      true, and an item let through enters the delegate or the jam. */
  function Offer<P(!new), T(!new)>(c: Constrainer<P, T>, q: Queue<P, T>, t: T): (r: (bool, Queue<P, T>))
    ensures r.0 <==> !c.admitTimed(q.policy, t).Refused?
    ensures !r.0 ==> r.1 == q
    ensures r.1.capacity == q.capacity && (Valid(q) ==> Valid(r.1))
    ensures AdmitsFaithfully(c) && r.0 ==> Items(c, r.1) == Items(c, q) + multiset{t}
    ensures c.admitTimed(q.policy, t).Passed? && |q.delegate| < q.capacity ==>
              r.1.delegate == q.delegate + [t] && r.1.jam == q.jam
    ensures c.admitTimed(q.policy, t).Passed? && |q.delegate| >= q.capacity ==>
              r.1.delegate == q.delegate && r.1.jam == q.jam + [t]
    ensures c.admitTimed(q.policy, t).Held? ==> r.1.delegate == q.delegate && r.1.jam == q.jam
  {
    match c.admitTimed(q.policy, t)
    case Refused => (false, q)
    case Held(p) => (true, q.(policy := p))
    case Passed(p) => (true, Enqueue(q.(policy := p), t))
  }

  /** `add(t)`: like `offer`, but a refusal is an `IllegalStateException`,
      and so is an item let through while the delegate is full
      (`delegate.add`); in that case the policy has already counted the item
      and the item itself is lost. */
  function Add<P(!new), T(!new)>(c: Constrainer<P, T>, q: Queue<P, T>, t: T): (r: (Option<Failure>, Queue<P, T>))
    ensures c.admitTimed(q.policy, t).Refused? ==> r == (Some(IllegalState), q)
    ensures r.0.None? <==> c.admitTimed(q.policy, t).Held?
                           || (c.admitTimed(q.policy, t).Passed? && |q.delegate| < q.capacity)
    ensures r.0.None? ==> Offer(c, q, t) == (true, r.1)
    ensures r.1.capacity == q.capacity && r.1.jam == q.jam && (Valid(q) ==> Valid(r.1))
    ensures AdmitsFaithfully(c) && r.0.None? ==> Items(c, r.1) == Items(c, q) + multiset{t}
    ensures AdmitsFaithfully(c) && r.0.Some? && !c.admitTimed(q.policy, t).Refused? ==> Items(c, r.1) == Items(c, q)
  {
    match c.admitTimed(q.policy, t)
    case Refused => (Some(IllegalState), q)
    case Held(p) => (None, q.(policy := p))
    case Passed(p) =>
      if |q.delegate| < q.capacity then (None, q.(policy := p, delegate := q.delegate + [t]))
      else (Some(IllegalState), q.(policy := p))
  }

  /** `put(t)`: ask the policy with the blocking call and put an item let
      through into the delegate with the blocking `delegate.put`. `None` means
      the call blocks: the policy refuses for now, or the delegate is full. */
  function Put<P(!new), T(!new)>(c: Constrainer<P, T>, q: Queue<P, T>, t: T): (r: Option<Queue<P, T>>)
    ensures r.None? <==> c.admit(q.policy, t).Refused? || (c.admit(q.policy, t).Passed? && |q.delegate| >= q.capacity)
    ensures r.Some? ==> r.value.capacity == q.capacity && r.value.jam == q.jam && (Valid(q) ==> Valid(r.value))
    ensures AdmitsFaithfully(c) && r.Some? ==> Items(c, r.value) == Items(c, q) + multiset{t}
  {
    match c.admit(q.policy, t)
    case Refused => None
    case Held(p) => Some(q.(policy := p))
    case Passed(p) =>
      if |q.delegate| < q.capacity then Some(q.(policy := p, delegate := q.delegate + [t])) else None
  }

  /** `addAll(ts)`: `add` each in order, stopping at the first failure; the
      answer is whether `ts` was non-empty. */
  function AddAll<P(!new), T(!new)>(c: Constrainer<P, T>, q: Queue<P, T>, ts: seq<T>): (r: (Result<bool, Failure>, Queue<P, T>))
    ensures r.0.Ok? ==> (r.0.value <==> ts != [])
    decreases |ts|
  {
    if ts == [] then (Ok(false), q)
    else
      match Add(c, q, ts[0])
      case (Some(e), q1) => (Err(e), q1)
      case (None, q1) =>
        var (rest, q2) := AddAll(c, q1, ts[1..]);
        (if rest.Ok? then Ok(true) else rest, q2)
  }

  // ---------------------------------------------------------------------------
  // Leaving the queue

  /** `forget(x)`: a consumer is done with `x`. The policy releases it and
      hands back the items it now lets through, which enter the delegate or
      the jam in order. `x` itself is returned; an absent `x` changes nothing. */
  function Forget<P, T>(c: Constrainer<P, T>, q: Queue<P, T>, x: Option<T>): (r: (Option<T>, Queue<P, T>))
    requires Valid(q)
    ensures r.0 == x && Valid(r.1) && r.1.capacity == q.capacity
    ensures x.None? ==> r.1 == q
  {
    match x
    case None => (None, q)
    case Some(t) =>
      var (p, released) := c.release(q.policy, t);
      (x, PushAll(q.(policy := p), released))
  }

  /** `poll()` (and `poll(time, unit)`, which cannot be satisfied by waiting
      in a sequential model): the delegate's head, or nothing when it is
      empty. */
  function Poll<P, T>(q: Queue<P, T>): (r: (Option<T>, Queue<P, T>))
    ensures q.delegate == [] <==> r.0.None?
    ensures q.delegate == [] ==> r.1 == q
    ensures q.delegate != [] ==> [r.0.value] + r.1.delegate == q.delegate && r.1 == q.(delegate := r.1.delegate)
  {
    if q.delegate == [] then (None, q) else (Some(q.delegate[0]), q.(delegate := q.delegate[1..]))
  }

  /** `peek()`: the delegate's head without taking it. */
  function Peek<P, T>(q: Queue<P, T>): (r: Option<T>)
    ensures r == Poll(q).0
  {
    if q.delegate == [] then None else Some(q.delegate[0])
  }

  /** `element()`: like `peek`, but an empty delegate is a
      `NoSuchElementException`. */
  function Element<P, T>(q: Queue<P, T>): (r: Result<T, Failure>)
    ensures r.Err? <==> Peek(q).None?
    ensures r.Ok? ==> Peek(q) == Some(r.value)
    ensures r.Err? ==> r.error == NoSuchElement
  {
    if q.delegate == [] then Err(NoSuchElement) else Ok(q.delegate[0])
  }

  /** `remove()`: like `poll`, but an empty delegate is a
      `NoSuchElementException`. */
  function RemoveHead<P, T>(q: Queue<P, T>): (r: Result<(T, Queue<P, T>), Failure>)
    ensures r.Err? <==> Poll(q).0.None?
    ensures r.Ok? ==> Poll(q) == (Some(r.value.0), r.value.1)
  {
    if q.delegate == [] then Err(NoSuchElement) else Ok((q.delegate[0], q.(delegate := q.delegate[1..])))
  }

  /** `take()`: like `poll`; `None` means the call blocks on an empty
      delegate. */
  function Take<P, T>(q: Queue<P, T>): (r: Option<(T, Queue<P, T>)>)
    ensures r.None? <==> q.delegate == []
    ensures r.Some? ==> Poll(q) == (Some(r.value.0), r.value.1)
  {
    if q.delegate == [] then None else Some((q.delegate[0], q.(delegate := q.delegate[1..])))
  }

  /** `drainTo(c, maxElements)`: while fewer than `maxElements` were taken,
      poll the delegate, forget what was polled and collect it, stopping at
      the first empty poll. The count returned is `|drained|`. For a policy
      that hands back only what it held, what is drained plus what stays is
      what the queue held. */
  method DrainTo<P(!new), T(!new)>(c: Constrainer<P, T>, q: Queue<P, T>, maxElements: int) returns (drained: seq<T>, r: Queue<P, T>)
    requires Valid(q)
    ensures Valid(r) && r.capacity == q.capacity
    ensures |drained| <= (if maxElements < 0 then 0 else maxElements)
    ensures |drained| < maxElements ==> r.delegate == []
    ensures drained != [] ==> q.delegate != [] && drained[0] == q.delegate[0]
    ensures ReleasesHeld(c) ==> multiset(drained) + Items(c, r) == Items(c, q)
  {
    drained, r := [], q;
    while |drained| < maxElements
      invariant Valid(r) && r.capacity == q.capacity
      invariant |drained| <= (if maxElements < 0 then 0 else maxElements)
      invariant drained != [] ==> q.delegate != [] && drained[0] == q.delegate[0]
      invariant drained == [] ==> r == q
      invariant ReleasesHeld(c) ==> multiset(drained) + Items(c, r) == Items(c, q)
      decreases maxElements - |drained|
    {
      var (x, polled) := Poll(r);
      var (t, next) := Forget(c, polled, x);
      if t.None? {
        break;
      }
      if ReleasesHeld(c) {
        PollSpec(c, r);
        ForgetSpec(c, polled, x);
      }
      drained, r := drained + [t.value], next;
    }
  }

  /** `drainTo(c)`: `drainTo(c, Integer.MAX_VALUE)`. */
  method DrainAll<P(!new), T(!new)>(c: Constrainer<P, T>, q: Queue<P, T>) returns (drained: seq<T>, r: Queue<P, T>)
    requires Valid(q)
    ensures Valid(r) && |drained| <= MaxInt
    ensures |drained| < MaxInt ==> r.delegate == []
    ensures ReleasesHeld(c) ==> multiset(drained) + Items(c, r) == Items(c, q)
  {
    drained, r := DrainTo(c, q, MaxInt);
  }

  // ---------------------------------------------------------------------------
  // Removal, queries and clearing

  /** `remove(o)`: take `o` out of the jam if it is there, else out of the
      delegate, and in both cases forget it; otherwise ask the policy to drop
      it. */
  function RemoveItem<P, T(==)>(c: Constrainer<P, T>, q: Queue<P, T>, o: T): (r: (bool, Queue<P, T>))
    requires Valid(q)
    ensures Valid(r.1) && r.1.capacity == q.capacity
    ensures o in q.jam || o in q.delegate ==> r.0
  {
    if o in q.jam then (true, Forget(c, q.(jam := RemoveFirst(q.jam, o)), Some(o)).1)
    else if o in q.delegate then (true, Forget(c, q.(delegate := RemoveFirst(q.delegate, o)), Some(o)).1)
    else
      var (found, p) := c.remove(q.policy, o);
      (found, q.(policy := p))
  }

  /** `removeAll(os)`: `remove` each in order; true when any removal found
      its item. For a lawful policy every `o` of `os` leaves the queue as
      often as it occurs, and the answer is true exactly when one of them was
      held. */
  method RemoveAll<P(!new), T(==,!new)>(c: Constrainer<P, T>, q: Queue<P, T>, os: seq<T>) returns (found: bool, r: Queue<P, T>)
    requires Valid(q)
    ensures Valid(r) && r.capacity == q.capacity
    ensures ReleasesHeld(c) && RemovesHeld(c) ==> (found <==> exists o :: o in os && o in Items(c, q))
    ensures ReleasesHeld(c) && RemovesHeld(c) ==> Items(c, r) == Items(c, q) - multiset(os)
  {
    found, r := false, q;
    for i := 0 to |os|
      invariant Valid(r) && r.capacity == q.capacity
      invariant ReleasesHeld(c) && RemovesHeld(c) ==> (found <==> exists o :: o in os[..i] && o in Items(c, q))
      invariant ReleasesHeld(c) && RemovesHeld(c) ==> Items(c, r) == Items(c, q) - multiset(os[..i])
    {
      var (removed, next) := RemoveItem(c, r, os[i]);
      if ReleasesHeld(c) && RemovesHeld(c) {
        RemoveItemSpec(c, r, os[i]);
        RemoveAllStep(Items(c, q), os, i, Items(c, r), Items(c, next), found, removed);
      }
      found, r := found || removed, next;
    }
    assert os[..|os|] == os;
  }

  /** One round of `removeAll`, on the multisets alone. */
  lemma RemoveAllStep<T>(start: multiset<T>, os: seq<T>, i: nat, cur: multiset<T>, next: multiset<T>, found: bool, removed: bool)
    requires i < |os|
    requires cur == start - multiset(os[..i]) && next == cur - multiset{os[i]}
    requires removed <==> os[i] in cur
    requires found <==> exists x :: x in os[..i] && x in start
    ensures found || removed <==> exists x :: x in os[..i + 1] && x in start
    ensures next == start - multiset(os[..i + 1])
  {
    assert os[..i + 1] == os[..i] + [os[i]];
    if os[i] in start && !removed {
      assert os[i] in multiset(os[..i]);
    }
    if removed {
      assert os[i] in os[..i + 1];
    }
  }

  /** `contains(o)`: in the delegate, the jam, or the policy; for a policy
      that reports its holdings, exactly when the queue holds `o`. */
  predicate Contains<P(!new), T(==,!new)>(c: Constrainer<P, T>, q: Queue<P, T>, o: T)
    ensures ReportsHeld(c) ==> (Contains(c, q, o) <==> o in Items(c, q))
  {
    o in q.delegate || o in q.jam || c.contains(q.policy, o)
  }

  /** `size()`: the policy's size plus the delegate's and the jam's; for a
      policy that reports its holdings, the number of items the queue holds. */
  function Size<P(!new), T(!new)>(c: Constrainer<P, T>, q: Queue<P, T>): (n: int)
    ensures ReportsHeld(c) ==> n == |Items(c, q)|
  {
    c.size(q.policy) + |q.delegate| + |q.jam|
  }

  /** `isEmpty()`: the policy, the delegate and the jam are all empty; an
      empty queue holds nothing. */
  predicate IsEmpty<P(!new), T(!new)>(c: Constrainer<P, T>, q: Queue<P, T>)
    ensures ClearsHeld(c) && IsEmpty(c, q) ==> Items(c, q) == multiset{}
  {
    c.isEmpty(q.policy) && q.delegate == [] && q.jam == []
  }

  /** `clear()`: empty the jam, the delegate and the policy. */
  function Clear<P(!new), T(!new)>(c: Constrainer<P, T>, q: Queue<P, T>): (r: Queue<P, T>)
    ensures Valid(r) && r.delegate == [] && r.jam == [] && r.capacity == q.capacity
    ensures r.policy == c.clear(q.policy)
    ensures ClearsHeld(c) ==> Items(c, r) == multiset{}
  {
    Queue(c.clear(q.policy), [], q.capacity, [])
  }

  /** One round of the background thread: move the jam's head into the
      delegate once it has room. `None` means the thread is waiting. */
  function JamStep<P, T>(q: Queue<P, T>): (r: Option<Queue<P, T>>)
    ensures r.Some? <==> q.jam != [] && |q.delegate| < q.capacity
    ensures r.Some? ==> r.value.delegate == q.delegate + [q.jam[0]] && r.value.jam == q.jam[1..]
    ensures r.Some? ==> r.value.policy == q.policy && r.value.capacity == q.capacity
  {
    if q.jam != [] && |q.delegate| < q.capacity then
      Some(q.(delegate := q.delegate + [q.jam[0]], jam := q.jam[1..]))
    else None
  }

  // ---------------------------------------------------------------------------
  // Remaining capacity

  /** `remainingCapacity()` as evidently intended: the policy's room plus the
      delegate's, added without overflow and capped at `Integer.MAX_VALUE`. */
  function RemainingCapacity<P, T>(c: Constrainer<P, T>, q: Queue<P, T>): (r: int)
    ensures r <= MaxInt
    ensures var sum := c.remainingCapacity(q.policy) + (q.capacity - |q.delegate|);
            r == sum || (sum > MaxInt && r == MaxInt)
  {
    var sum := c.remainingCapacity(q.policy) + (q.capacity - |q.delegate|);
    if sum > MaxInt then MaxInt else sum
  }

  /** A 32-bit two's complement addition result. */
  function Wrap32(x: int): (r: int)
    ensures -0x8000_0000 <= r <= MaxInt
    ensures (r - x) % 0x1_0000_0000 == 0
  {
    (x + 0x8000_0000) % 0x1_0000_0000 - 0x8000_0000
  }

  /** `remainingCapacity()` as written: both rooms are Java `int`s, so their
      sum wraps around before it is widened to `long`, and the cap never
      applies. */
  function RemainingCapacityAsWritten<P, T>(c: Constrainer<P, T>, q: Queue<P, T>): (r: int)
    ensures r <= MaxInt
    ensures var sum := c.remainingCapacity(q.policy) + (q.capacity - |q.delegate|);
            -0x8000_0000 <= sum <= MaxInt ==> r == sum
  {
    var sum := Wrap32(c.remainingCapacity(q.policy) + (q.capacity - |q.delegate|));
    if sum > MaxInt then MaxInt else sum
  }

  /** A policy that reports unlimited room (`Integer.MAX_VALUE`, as the
      relocation policy does) in front of a delegate with any free slot makes
      the queue as written report a negative capacity; the corrected one
      reports `Integer.MAX_VALUE`. */
  lemma RemainingCapacityOverflows<P, T>(c: Constrainer<P, T>, q: Queue<P, T>)
    requires c.remainingCapacity(q.policy) == MaxInt
    requires |q.delegate| < q.capacity <= MaxInt
    ensures RemainingCapacityAsWritten(c, q) < 0
    ensures RemainingCapacity(c, q) == MaxInt
  {
    var sum := MaxInt + (q.capacity - |q.delegate|);
    assert Wrap32(sum) == sum - 0x1_0000_0000;
  }

  // ---------------------------------------------------------------------------
  // What the queue holds, for every lawful policy

  /** A successful `addAll` adds exactly its argument. */
  lemma {:induction false} AddAllSpec<P(!new), T(!new)>(c: Constrainer<P, T>, q: Queue<P, T>, ts: seq<T>)
    requires AdmitsFaithfully(c) && Valid(q)
    ensures Valid(AddAll(c, q, ts).1)
    ensures AddAll(c, q, ts).0.Ok? ==> Items(c, AddAll(c, q, ts).1) == Items(c, q) + multiset(ts)
    decreases |ts|
  {
    if ts != [] {
      var (e, q1) := Add(c, q, ts[0]);
      if e.None? {
        AddAllSpec(c, q1, ts[1..]);
        assert ts == [ts[0]] + ts[1..];
      }
    }
  }

  /** Forgetting conserves what the queue holds: the policy's hand-backs move
      from the policy into the delegate and the jam. */
  lemma ForgetSpec<P(!new), T(!new)>(c: Constrainer<P, T>, q: Queue<P, T>, x: Option<T>)
    requires ReleasesHeld(c) && Valid(q)
    ensures Items(c, Forget(c, q, x).1) == Items(c, q)
  {
    if x.Some? {
      var (p, released) := c.release(q.policy, x.value);
      var k := Room(q.(policy := p), |released|);
      assert released == released[..k] + released[k..];
    }
  }

  /** Polling takes exactly the delegate's head out of the queue. */
  lemma PollSpec<P, T>(c: Constrainer<P, T>, q: Queue<P, T>)
    requires Valid(q)
    ensures Valid(Poll(q).1)
    ensures Poll(q).0.Some? ==> Items(c, Poll(q).1) + multiset{Poll(q).0.value} == Items(c, q)
  {
    if q.delegate != [] {
      assert q.delegate == [q.delegate[0]] + q.delegate[1..];
    }
  }

  /** `remove(o)` succeeds exactly when the queue holds `o`, and then takes
      one `o` out of it. */
  lemma RemoveItemSpec<P(!new), T(!new)>(c: Constrainer<P, T>, q: Queue<P, T>, o: T)
    requires ReleasesHeld(c) && RemovesHeld(c) && Valid(q)
    ensures RemoveItem(c, q, o).0 <==> o in Items(c, q)
    ensures Items(c, RemoveItem(c, q, o).1) == Items(c, q) - multiset{o}
  {
    if o in q.jam {
      var q1 := q.(jam := RemoveFirst(q.jam, o));
      assert Items(c, q1) == Items(c, q) - multiset{o};
      ForgetSpec(c, q1, Some(o));
    } else if o in q.delegate {
      var q1 := q.(delegate := RemoveFirst(q.delegate, o));
      assert Items(c, q1) == Items(c, q) - multiset{o};
      ForgetSpec(c, q1, Some(o));
    } else {
      RemoveFromPolicy(c, q, o);
    }
  }

  lemma RemoveFromPolicy<P(!new), T(!new)>(c: Constrainer<P, T>, q: Queue<P, T>, o: T)
    requires RemovesHeld(c) && o !in q.jam && o !in q.delegate
    ensures c.remove(q.policy, o).0 <==> o in Items(c, q)
    ensures Items(c, q.(policy := c.remove(q.policy, o).1)) == Items(c, q) - multiset{o}
  {
  }

  /** The background thread only moves items: nothing is lost or made up,
      and the delegate stays within its bound. */
  lemma JamStepSpec<P, T>(c: Constrainer<P, T>, q: Queue<P, T>)
    requires Valid(q)
    ensures JamStep(q).Some? ==> Valid(JamStep(q).value) && Items(c, JamStep(q).value) == Items(c, q)
  {
    if q.jam != [] {
      assert q.jam == [q.jam[0]] + q.jam[1..];
    }
  }
}
