/** The cardinality admission policy (`CardinalityConstrainer`): at most
    `maxReleased` items may be out at once. An item that finds no free slot is
    held in a bounded first-in first-out buffer of `capacity` places, and each
    release hands the freed slot to the oldest held item, if any.

    The in-flight counter is an `int` so that a release without a matching
    admission drives it below zero, as the source's atomic integer does. */
module Cardinality {
  import opened Wrappers
  import opened Sequences
  import opened Constrainers

  datatype State<T> = State(maxReleased: int, capacity: nat, released: int, held: seq<T>)

  /** The buffer refuses a capacity below one. */
  datatype Failure = IllegalArgument

  /** `new CardinalityConstrainer(maxConstrained, maxReleased)`: nothing out,
      nothing held. The bounded buffer cannot be built with room for fewer
      than one item. */
  function New<T(==,!new)>(maxConstrained: int, maxReleased: int): (r: Result<State<T>, Failure>)
    ensures r.Err? <==> maxConstrained < 1
    ensures r.Ok? ==> IsEmpty(r.value) && r.value.capacity == maxConstrained && r.value.maxReleased == maxReleased
    ensures r.Ok? && maxReleased >= 0 ==> Valid(r.value)
  {
    if maxConstrained < 1 then Err(IllegalArgument) else Ok(State(maxReleased, maxConstrained, 0, []))
  }

  /** The private `constrained()`: take a slot when one is free. The answer is
      true when no slot was free, and then nothing changes. */
  function Reserve<T>(s: State<T>): (r: (bool, State<T>))
    ensures r.0 <==> s.released >= s.maxReleased
    ensures r.0 ==> r.1 == s
    ensures !r.0 ==> r.1 == s.(released := s.released + 1)
    ensures s.released <= s.maxReleased ==> r.1.released <= s.maxReleased
  {
    if s.released < s.maxReleased then (false, s.(released := s.released + 1)) else (true, s)
  }

  /** `constrained(t)` and `constrained(t, time, unit)`: pass `t` when a slot
      is free, otherwise hold it at the end of the buffer; when the buffer is
      full too, the blocking variant would wait for good and the timed one
      throws `TimeoutException`, both shown as `Refused`. Nobody can make room
      while the caller waits, so the duration plays no part. */
  function Admit<T>(s: State<T>, t: T): (r: Admission<State<T>>)
    ensures r.Passed? <==> s.released < s.maxReleased
    ensures r.Refused? <==> s.released >= s.maxReleased && |s.held| >= s.capacity
    ensures r.Passed? ==> r.state == s.(released := s.released + 1)
    ensures r.Held? ==> r.state == s.(held := s.held + [t])
  {
    var (constrained, s1) := Reserve(s);
    if !constrained then Passed(s1)
    else if |s1.held| < s1.capacity then Held(s1.(held := s1.held + [t]))
    else Refused
  }

  /** `notifyReleased(t)`: give the slot back, then take a slot again for the
      oldest held item and hand that item back; with nothing held the second
      slot is given back too. */
  function NotifyReleased<T>(s: State<T>, t: T): (r: (State<T>, seq<T>))
    ensures |r.1| <= 1
    ensures r.1 != [] <==> s.held != [] && s.released - 1 < s.maxReleased
    ensures r.1 != [] ==> r.1 == [s.held[0]] && r.0.held == s.held[1..] && r.0.released == s.released
    ensures r.1 == [] ==> r.0.held == s.held && r.0.released == s.released - 1
    ensures r.0.capacity == s.capacity && r.0.maxReleased == s.maxReleased
  {
    var s1 := s.(released := s.released - 1);
    var (constrained, s2) := Reserve(s1);
    if constrained then (s2, [])
    else if s2.held == [] then (s2.(released := s2.released - 1), [])
    else (s2.(held := s2.held[1..]), [s2.held[0]])
  }

  /** `clear()`. */
  function Clear<T(==,!new)>(s: State<T>): (r: State<T>)
    ensures IsEmpty(r) && r.capacity == s.capacity && r.maxReleased == s.maxReleased
  {
    s.(released := 0, held := [])
  }


  /** `remove(o)`: drop the first held `o`; true when there was one. */
  function Remove<T(==)>(s: State<T>, o: T): (r: (bool, State<T>))
    ensures r.0 <==> o in s.held
    ensures multiset(r.1.held) == multiset(s.held) - multiset{o}
    ensures r.1.released == s.released && r.1.capacity == s.capacity
  {
    (o in s.held, s.(held := RemoveFirst(s.held, o)))
  }

  /** `size()`, `contains(o)` and `remainingCapacity()` speak of the buffer
      only: items let through are not counted. `contains(o)` is true exactly
      when `remove(o)` would find `o`. */
  predicate Contains<T(==)>(s: State<T>, o: T)
    ensures Contains(s, o) <==> Remove(s, o).0
  {
    o in s.held
  }

  /** `size()`: zero exactly when the buffer contains nothing, and never more
      than its capacity. */
  function Size<T(==,!new)>(s: State<T>): (n: int)
    ensures n == 0 <==> forall o :: !Contains(s, o)
    ensures Valid(s) ==> 0 <= n <= s.capacity
  {
    if s.held != [] then assert Contains(s, s.held[0]); |s.held| else 0
  }

  /** `remainingCapacity()`: the places of the buffer not taken. */
  function RemainingCapacity<T(==,!new)>(s: State<T>): (r: int)
    ensures r + Size(s) == s.capacity
    ensures Valid(s) ==> 0 <= r <= s.capacity
  {
    s.capacity - |s.held|
  }

  /** `isEmpty()`: nothing out and nothing held. An item let through keeps
      the policy from being empty even though the buffer contains nothing. */
  predicate IsEmpty<T(==,!new)>(s: State<T>)
    ensures IsEmpty(s) <==> s.released == 0 && Size(s) == 0
    ensures IsEmpty(s) ==> forall o :: !Contains(s, o)
  {
    s.released == 0 && s.held == []
  }

  /** The policy as seen by the queue. */
  function Policy<T(==,!new)>(): (c: Constrainer<State<T>, T>) {
    Constrainer(
      (s, t) => Admit(s, t),
      (s, t) => Admit(s, t),
      (s, t) => NotifyReleased(s, t),
      s => Clear(s),
      s => IsEmpty(s),
      (s, o) => Remove(s, o),
      s => Size(s),
      (s, o) => Contains(s, o),
      s => RemainingCapacity(s),
      (s: State<T>) => s.held)
  }

  // ---------------------------------------------------------------------------
  // The invariant and its preservation

  /** No more than `maxReleased` items out, no more than `capacity` held, and
      an item is held only while every slot is taken. */
  ghost predicate Valid<T>(s: State<T>) {
    && 0 <= s.released <= s.maxReleased
    && |s.held| <= s.capacity
    && (s.held != [] ==> s.released == s.maxReleased)
  }

  lemma AdmitKeepsValid<T>(s: State<T>, t: T)
    requires Valid(s)
    ensures Admit(s, t).Passed? || Admit(s, t).Held? ==> Valid(Admit(s, t).state)
    ensures Admit(s, t).Passed? ==> s.held == []
  {
  }

  /** A release that matches an earlier admission (some slot is taken) frees
      exactly one slot or passes it on: it hands back the oldest held item if
      there is one, and otherwise the count of items out drops by one. */
  lemma NotifyReleasedSpec<T>(s: State<T>, t: T)
    requires Valid(s) && s.released > 0
    ensures Valid(NotifyReleased(s, t).0)
    ensures s.held == [] ==> NotifyReleased(s, t) == (s.(released := s.released - 1), [])
    ensures s.held != [] ==> NotifyReleased(s, t) == (s.(held := s.held[1..]), [s.held[0]])
    ensures multiset(NotifyReleased(s, t).0.held) + multiset(NotifyReleased(s, t).1) == multiset(s.held)
  {
    if s.held != [] {
      assert s.held == [s.held[0]] + s.held[1..];
    }
  }

  /** A release with no matching admission drives the counter below zero, and
      the policy never reports empty again until cleared. */
  lemma UnmatchedReleaseUnderflows<T(!new)>(t: T)
    ensures var s := State(1, 1, 0, []);
            var s' := NotifyReleased(s, t).0;
            s'.released == -1 && !IsEmpty(s') && !Valid(s')
  {
  }

  /** Clearing forgets every slot and every held item. */
  lemma ClearedAdmitsNext<T(!new)>(s: State<T>, t: T)
    requires s.maxReleased >= 1
    ensures Valid(Clear(s))
    ensures Admit(Clear(s), t).Passed?
  {
  }

  /** The policy keeps the contract the queue relies on. */
  lemma PolicyIsLawful<T(!new)>()
    ensures Lawful(Policy<T>())
  {
    PolicyReleasesHeld<T>();
    PolicyReportsHeld<T>();
  }

  lemma PolicyReleasesHeld<T(!new)>()
    ensures ReleasesHeld(Policy<T>())
  {
    var c := Policy<T>();
    forall p: State<T>, t: T
      ensures multiset(c.held(c.release(p, t).0)) + multiset(c.release(p, t).1) == multiset(c.held(p))
    {
      if p.released - 1 < p.maxReleased && p.held != [] {
        assert p.held == [p.held[0]] + p.held[1..];
      }
    }
  }

  lemma PolicyReportsHeld<T(!new)>()
    ensures ReportsHeld(Policy<T>())
  {
  }
}
