/** The admission-policy interface of the constrained queue (`Constrainer`),
    passed around as a record of functions over the policy's own state `P`.

    A policy answers `constrained(t)` in one of three ways: it lets `t` pass
    (the queue may hand it out), it holds `t` itself until a later release, or
    it refuses. A refusal of the blocking `constrained(t)` means the caller
    would block for good, so the step is not enabled; a refusal of the timed
    `constrained(t, time, unit)` is its `TimeoutException`. */
module Constrainers {
  import opened Sequences

  datatype Admission<P> = Passed(state: P) | Held(state: P) | Refused

  datatype Constrainer<!P, !T> = Constrainer(
    admit: (P, T) -> Admission<P>,          // constrained(t)
    admitTimed: (P, T) -> Admission<P>,     // constrained(t, time, unit)
    release: (P, T) -> (P, seq<T>),         // notifyReleased(t)
    clear: P -> P,
    isEmpty: P -> bool,
    remove: (P, T) -> (bool, P),            // remove(o)
    size: P -> int,
    contains: (P, T) -> bool,
    remainingCapacity: P -> int,
    /** What the policy currently holds, in the order it will hand it back. */
    held: P -> seq<T>)

  /** The contract every policy keeps towards the queue: it holds what it says
      it holds, hands back only what it held, and its queries report exactly
      its holdings. Each law is named so that a proof can ask for just the
      ones it needs. */
  ghost predicate Lawful<P(!new), T(!new)>(c: Constrainer<P, T>) {
    AdmitsFaithfully(c) && ReleasesHeld(c) && ClearsHeld(c) && RemovesHeld(c) && ReportsHeld(c)
  }

  /** An item let through leaves the holdings alone; an item held joins the
      back of them. */
  ghost predicate AdmitsFaithfully<P(!new), T(!new)>(c: Constrainer<P, T>) {
    && (forall p, t :: c.admit(p, t).Passed? ==> c.held(c.admit(p, t).state) == c.held(p))
    && (forall p, t :: c.admit(p, t).Held? ==> c.held(c.admit(p, t).state) == c.held(p) + [t])
    && (forall p, t :: c.admitTimed(p, t).Passed? ==> c.held(c.admitTimed(p, t).state) == c.held(p))
    && (forall p, t :: c.admitTimed(p, t).Held? ==> c.held(c.admitTimed(p, t).state) == c.held(p) + [t])
  }

  /** A release hands back only held items, and all of them leave the
      holdings. */
  ghost predicate ReleasesHeld<P(!new), T(!new)>(c: Constrainer<P, T>) {
    forall p, t :: multiset(c.held(c.release(p, t).0)) + multiset(c.release(p, t).1) == multiset(c.held(p))
  }

  /** `clear` drops every holding; `isEmpty` is never true while something
      is held. */
  ghost predicate ClearsHeld<P(!new), T(!new)>(c: Constrainer<P, T>) {
    && (forall p :: c.held(c.clear(p)) == [])
    && (forall p :: c.isEmpty(p) ==> c.held(p) == [])
  }

  /** `remove(o)` drops the first held `o` and says whether there was one. */
  ghost predicate RemovesHeld<P(!new), T(!new)>(c: Constrainer<P, T>) {
    && (forall p, t :: c.remove(p, t).0 <==> t in c.held(p))
    && (forall p, t :: c.held(c.remove(p, t).1) == RemoveFirst(c.held(p), t))
  }

  /** `size` and `contains` report the holdings. */
  ghost predicate ReportsHeld<P(!new), T(!new)>(c: Constrainer<P, T>) {
    && (forall p :: c.size(p) == |c.held(p)|)
    && (forall p, t :: c.contains(p, t) <==> t in c.held(p))
  }
}
