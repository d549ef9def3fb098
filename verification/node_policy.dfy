/** The node-concurrency admission policy (`ShardRelocationConstrainer`): at
    most `maxThreadsPerNode` admitted relocations may touch any one node, as
    source or as destination. A relocation that cannot be admitted waits on the
    waitlists of both of its endpoints; releasing a relocation frees one slot on
    each endpoint and admits at most one waiter per endpoint.

    Endpoints are `Option<N>`: a null endpoint is an ordinary key of the count
    map and of the waitlists, exactly as in the source. A waitlist is a hash set
    in the source; here it is a sequence without repetitions, whose order stands
    for the set's (unspecified) iteration order. */
module NodePolicy {
  import opened Wrappers
  import opened Relocations

  datatype State<N(==), S> = State(
    maxThreadsPerNode: int,
    activeCounts: map<Option<N>, int>,
    waitLists: map<Option<N>, seq<Relocation<N, S>>>)

  /** A fresh policy: no active relocation, nobody waiting. */
  function New<N(==,!new), S(==,!new)>(maxThreadsPerNode: int): (s: State<N, S>)
    ensures IsEmpty(s) && s.activeCounts == map[]
    ensures maxThreadsPerNode >= 0 ==> Valid(s)
  {
    State(maxThreadsPerNode, map[], map[])
  }

  // ---------------------------------------------------------------------------
  // Active counts

  /** `activeCounts.getOrDefault(n, 0)`. */
  function CountOf<K(!new)>(counts: map<K, int>, n: K): int {
    if n in counts then counts[n] else 0
  }

  function Count<N(==,!new), S(==,!new)>(s: State<N, S>, n: Option<N>): int {
    CountOf(s.activeCounts, n)
  }

  /** How many of `r`'s two endpoints are `n` (two for a self-move). */
  function Hits<N(==,!new), S(==,!new)>(r: Relocation<N, S>, n: Option<N>): nat {
    (if r.fromNode == n then 1 else 0) + (if r.toNode == n then 1 else 0)
  }

  /** `incrementActiveCount`: `merge(n, 1, old + 1)`. */
  function Increment<K(!new)>(counts: map<K, int>, n: K): (r: map<K, int>)
    ensures r.Keys == counts.Keys + {n}
    ensures CountOf(r, n) == CountOf(counts, n) + 1
    ensures forall m :: m != n ==> CountOf(r, m) == CountOf(counts, m)
  {
    counts[n := CountOf(counts, n) + 1]
  }

  /** `decrementActiveCount`: `computeIfPresent(n, old == 1 ? null : old - 1)`.
      An entry reaching zero is deleted and an absent node is left alone, so on
      positive counts no count ever goes negative. */
  function Decrement<K(!new)>(counts: map<K, int>, n: K): (r: map<K, int>)
    ensures n !in counts ==> r == counts
    ensures n in counts && counts[n] == 1 ==> n !in r && r.Keys == counts.Keys - {n}
    ensures forall m :: m != n ==> CountOf(r, m) == CountOf(counts, m)
    ensures Positive(counts) ==> Positive(r) && CountOf(r, n) == if CountOf(counts, n) == 0 then 0 else CountOf(counts, n) - 1
  {
    if n !in counts then counts
    else if counts[n] == 1 then counts - {n}
    else counts[n := counts[n] - 1]
  }

  ghost predicate Positive<K(!new)>(counts: map<K, int>) {
    forall m :: m in counts ==> counts[m] >= 1
  }

  /** `constrained(n, e)`: the node's count has reached the maximum. The test is
      an equality, as in the source. */
  predicate Saturated<N(==,!new), S(==,!new)>(s: State<N, S>, n: Option<N>) {
    Count(s, n) == s.maxThreadsPerNode
  }

  /** Neither endpoint of `r` is saturated. */
  predicate Admissible<N(==,!new), S(==,!new)>(s: State<N, S>, r: Relocation<N, S>) {
    !Saturated(s, r.fromNode) && !Saturated(s, r.toNode)
  }

  // ---------------------------------------------------------------------------
  // Waitlists (a multimap from endpoint to a set of relocations)

  function Waiters<N(==,!new), S(==,!new)>(wl: map<Option<N>, seq<Relocation<N, S>>>, n: Option<N>): seq<Relocation<N, S>> {
    if n in wl then wl[n] else []
  }

  /** `r` waits on some node: it is among the waiters of some endpoint, so
      some waitlist is left. */
  predicate Contains<N(==,!new), S(==,!new)>(s: State<N, S>, r: Relocation<N, S>)
    ensures Contains(s, r) <==> exists n :: r in Waiters(s.waitLists, n)
    ensures Contains(s, r) ==> |s.waitLists| > 0
  {
    var c := exists n :: n in s.waitLists && r in s.waitLists[n];
    assert c ==> exists n :: r in Waiters(s.waitLists, n) by {
      if c {
        var n :| n in s.waitLists && r in s.waitLists[n];
        assert r in Waiters(s.waitLists, n);
      }
    }
    assert c ==> |s.waitLists| > 0 by {
      if c {
        var n :| n in s.waitLists && r in s.waitLists[n];
        assert n in s.waitLists.Keys;
      }
    }
    c
  }

  /** `waitLists.put(n, r)`: set insertion, a no-op when `r` already waits on `n`. */
  function Put<N(==,!new), S(==,!new)>(wl: map<Option<N>, seq<Relocation<N, S>>>, n: Option<N>, r: Relocation<N, S>)
    : (res: map<Option<N>, seq<Relocation<N, S>>>)
    ensures res.Keys == wl.Keys + {n}
    ensures forall m, x :: x in Waiters(res, m) <==> x in Waiters(wl, m) || (m == n && x == r)
    ensures r in Waiters(wl, n) ==> res == wl
    ensures Distinct(Waiters(wl, n)) ==> Distinct(Waiters(res, n))
    ensures forall m :: m != n ==> Waiters(res, m) == Waiters(wl, m)
  {
    var current := Waiters(wl, n);
    if r in current then wl else wl[n := current + [r]]
  }

  /** `xs` without any occurrence of `x`. */
  function Without<T(==,!new)>(xs: seq<T>, x: T): (r: seq<T>)
    ensures forall y :: y in r <==> y in xs && y != x
    ensures Distinct(xs) ==> Distinct(r)
    ensures |r| <= |xs|
    ensures x !in xs ==> r == xs
  {
    if xs == [] then []
    else if xs[0] == x then Without(xs[1..], x)
    else
      var rest := Without(xs[1..], x);
      assert forall y :: y in xs[1..] ==> y in xs;
      assert Distinct(xs) ==> xs[0] !in xs[1..];
      [xs[0]] + rest
  }

  /** `remove(relocation, node)`: take `r` off `n`'s waitlist, dropping the
      list once it is empty. */
  function Unput<N(==,!new), S(==,!new)>(wl: map<Option<N>, seq<Relocation<N, S>>>, n: Option<N>, r: Relocation<N, S>)
    : (res: map<Option<N>, seq<Relocation<N, S>>>)
    ensures forall m, x :: x in Waiters(res, m) <==> x in Waiters(wl, m) && !(m == n && x == r)
    ensures forall m :: m != n ==> Waiters(res, m) == Waiters(wl, m) && (m in res <==> m in wl)
    ensures Distinct(Waiters(wl, n)) ==> Distinct(Waiters(res, n))
    ensures n in res ==> n in wl && res[n] != []
  {
    if n !in wl then wl
    else
      var rest := Without(wl[n], r);
      if rest == [] then wl - {n} else wl[n := rest]
  }

  // ---------------------------------------------------------------------------
  // The policy's operations

  /** `constrained(e)`: admit `e` when neither endpoint is saturated, raising
      both endpoint counts (twice the same count for a self-move); otherwise
      hold it, waiting on both endpoints. The answer is true when `e` is held.
      The timed variant is the same call. */
  function Constrained<N(==,!new), S(==,!new)>(s: State<N, S>, e: Relocation<N, S>): (r: (bool, State<N, S>))
    ensures r.0 <==> !Admissible(s, e)
    ensures r.1.maxThreadsPerNode == s.maxThreadsPerNode
    ensures !r.0 ==> r.1.waitLists == s.waitLists
    ensures !r.0 ==> forall n :: Count(r.1, n) == Count(s, n) + Hits(e, n)
    ensures r.0 ==> r.1.activeCounts == s.activeCounts
    ensures r.0 ==> forall n, x :: x in Waiters(r.1.waitLists, n) <==>
                                   x in Waiters(s.waitLists, n) || (x == e && Hits(e, n) > 0)
  {
    if Admissible(s, e) then
      (false, s.(activeCounts := Increment(Increment(s.activeCounts, e.fromNode), e.toNode)))
    else
      (true, s.(waitLists := Put(Put(s.waitLists, e.fromNode, e), e.toNode, e)))
  }

  /** `remove(relocation)`: take `r` off the waitlists of both its endpoints. */
  function Unwait<N(==,!new), S(==,!new)>(s: State<N, S>, r: Relocation<N, S>): State<N, S> {
    s.(waitLists := Unput(Unput(s.waitLists, r.fromNode, r), r.toNode, r))
  }

  /** The loop of `release(n, released)`: try each waiter in iteration order;
      the first one `constrained` admits is taken off both waitlists and
      reported. `constrained` puts each refused waiter back on its endpoints'
      waitlists, which changes nothing when it already waits there. */
  function Scan<N(==,!new), S(==,!new)>(s: State<N, S>, ws: seq<Relocation<N, S>>): (r: (State<N, S>, Option<Relocation<N, S>>))
    ensures r.0.maxThreadsPerNode == s.maxThreadsPerNode
    ensures r.1.None? <==> forall w :: w in ws ==> !Admissible(s, w)
    ensures r.1.None? ==> r.0.activeCounts == s.activeCounts
    ensures r.1.Some? ==> r.1.value in ws && Admissible(s, r.1.value)
    ensures r.1.Some? ==> forall n :: Count(r.0, n) == Count(s, n) + Hits(r.1.value, n)
    decreases |ws|
  {
    if ws == [] then (s, None)
    else
      var (held, s1) := Constrained(s, ws[0]);
      if !held then (Unwait(s1, ws[0]), Some(ws[0]))
      else
        var r := Scan(s1, ws[1..]);
        assert forall n :: Count(s1, n) == Count(s, n);
        assert forall w :: w in ws <==> w == ws[0] || w in ws[1..];
        r
  }

  /** The state after `decrementActiveCount(n)`. */
  function Decremented<N(==,!new), S(==,!new)>(s: State<N, S>, n: Option<N>): State<N, S> {
    s.(activeCounts := Decrement(s.activeCounts, n))
  }

  /** `release(n, released)`: free a slot on `n`, then admit at most one of
      `n`'s waiters. */
  function ReleaseNode<N(==,!new), S(==,!new)>(s: State<N, S>, n: Option<N>): (r: (State<N, S>, Option<Relocation<N, S>>))
    ensures r.0.maxThreadsPerNode == s.maxThreadsPerNode
    ensures r.1.None? <==> forall w :: w in Waiters(s.waitLists, n) ==> !Admissible(Decremented(s, n), w)
    ensures r.1.None? ==> r.0.activeCounts == Decrement(s.activeCounts, n)
    ensures r.1.Some? ==> r.1.value in Waiters(s.waitLists, n) && Admissible(Decremented(s, n), r.1.value)
    ensures r.1.Some? ==> forall m :: Count(r.0, m) == Count(Decremented(s, n), m) + Hits(r.1.value, m)
  {
    var d := Decremented(s, n);
    Scan(d, Waiters(d.waitLists, n))
  }

  /** `notifyReleased(e)`: release `e`'s source, then its destination; the
      result lists what each release admitted. */
  function NotifyReleased<N(==,!new), S(==,!new)>(s: State<N, S>, e: Relocation<N, S>): (r: (State<N, S>, seq<Relocation<N, S>>))
    ensures |r.1| <= 2 && r.0.maxThreadsPerNode == s.maxThreadsPerNode
    ensures ReleaseNode(s, e.fromNode).1.None? ==> |r.1| <= 1
    ensures r.1 == [] ==> r.0.activeCounts == Decrement(Decrement(s.activeCounts, e.fromNode), e.toNode)
    ensures r.1 != [] ==> r.1[0] in Waiters(s.waitLists, e.fromNode) || ReleaseNode(s, e.fromNode).1.None?
  {
    var (s1, o1) := ReleaseNode(s, e.fromNode);
    var (s2, o2) := ReleaseNode(s1, e.toNode);
    (s2, OptionToSeq(o1) + OptionToSeq(o2))
  }

  /** `clear()`: forget every count and every waiter. */
  function Clear<N(==,!new), S(==,!new)>(s: State<N, S>): (r: State<N, S>)
    ensures IsEmpty(r) && r.activeCounts == map[] && r.maxThreadsPerNode == s.maxThreadsPerNode
  {
    State(s.maxThreadsPerNode, map[], map[])
  }

  /** `isEmpty()`: no waitlist is left; the active counts play no part. An
      empty policy holds no waiter. */
  predicate IsEmpty<N(==,!new), S(==,!new)>(s: State<N, S>)
    ensures IsEmpty(s) ==> forall x :: !Contains(s, x)
  {
    |s.waitLists| == 0
  }

  /** `remove(o)`: take `o` off every waitlist, dropping the lists that become
      empty; true when `o` was on some list. Active counts are untouched, so an
      admitted relocation can never be removed. */
  function Remove<N(==,!new), S(==,!new)>(s: State<N, S>, o: Relocation<N, S>): (r: (bool, State<N, S>))
    ensures r.0 <==> Contains(s, o)
    ensures !Contains(r.1, o)
    ensures forall x :: x != o ==> (Contains(r.1, x) <==> Contains(s, x))
    ensures r.1.activeCounts == s.activeCounts && r.1.maxThreadsPerNode == s.maxThreadsPerNode
  {
    var wl := s.waitLists;
    var wl' := map n | n in wl && Without(wl[n], o) != [] :: Without(wl[n], o);
    assert forall x :: x != o && Contains(s, x) ==> Contains(s.(waitLists := wl'), x) by {
      forall x | x != o && Contains(s, x)
        ensures Contains(s.(waitLists := wl'), x)
      {
        var n :| n in wl && x in wl[n];
        assert x in Without(wl[n], o);
        assert x in wl'[n];
      }
    }
    ((exists n :: n in wl && o in wl[n]), s.(waitLists := wl'))
  }

  /** `remainingCapacity()`: the waitlists are unbounded. */
  const RemainingCapacity: int := 0x7fff_ffff

  // ---------------------------------------------------------------------------
  // The invariant

  /** The waitlist multimap is consistent: no empty list, no repetition, and
      every waiter waits on exactly its two (distinct) endpoints. */
  ghost predicate WellFormedWaitLists<N(!new), S(!new)>(wl: map<Option<N>, seq<Relocation<N, S>>>) {
    && (forall n :: n in wl ==> wl[n] != [] && Distinct(wl[n]))
    && (forall n, w :: n in wl && w in wl[n] ==>
          && (n == w.fromNode || n == w.toNode)
          && w.fromNode != w.toNode
          && w in Waiters(wl, w.fromNode)
          && w in Waiters(wl, w.toNode))
  }

  /** Every active count lies in `[1, maxThreadsPerNode]`, and the waitlists are
      well formed. */
  ghost predicate Valid<N(!new), S(!new)>(s: State<N, S>) {
    && s.maxThreadsPerNode >= 0
    && Positive(s.activeCounts)
    && (forall n :: n in s.activeCounts ==> s.activeCounts[n] <= s.maxThreadsPerNode)
    && WellFormedWaitLists(s.waitLists)
  }

  /** `r` waits on the waitlists of both of its endpoints. */
  predicate WaitsOnBoth<N(==,!new), S(==,!new)>(wl: map<Option<N>, seq<Relocation<N, S>>>, r: Relocation<N, S>) {
    r in Waiters(wl, r.fromNode) && r in Waiters(wl, r.toNode)
  }

  /** `ws[i]` is the first relocation of `ws` that `s` would admit. */
  predicate FirstAdmissible<N(==,!new), S(==,!new)>(s: State<N, S>, ws: seq<Relocation<N, S>>, i: int) {
    && 0 <= i < |ws|
    && Admissible(s, ws[i])
    && forall j :: 0 <= j < i ==> !Admissible(s, ws[j])
  }

  /** Going from `wl` to `wl2`, exactly the relocations of `rs` leave every
      waitlist and nothing else changes membership. */
  ghost predicate TakesOff<N(!new), S(!new)>(wl: map<Option<N>, seq<Relocation<N, S>>>,
                                            wl2: map<Option<N>, seq<Relocation<N, S>>>, rs: seq<Relocation<N, S>>) {
    forall m, x :: WaitsOn(wl2, m, x) <==> WaitsOn(wl, m, x) && x !in rs
  }

  /** `x` is on the waitlist of `m`. */
  predicate WaitsOn<N(==,!new), S(==,!new)>(wl: map<Option<N>, seq<Relocation<N, S>>>, m: Option<N>, x: Relocation<N, S>) {
    x in Waiters(wl, m)
  }

  /** How many endpoints of the relocations in `rs` are `n`. */
  function HitsAll<N(==,!new), S(==,!new)>(rs: seq<Relocation<N, S>>, n: Option<N>): nat {
    if rs == [] then 0 else Hits(rs[0], n) + HitsAll(rs[1..], n)
  }

  // ---------------------------------------------------------------------------
  // Properties

  /** Admission keeps every count within `[1, maxThreadsPerNode]` and refusal
      keeps the waitlists well formed, provided the relocation has two distinct
      endpoints: for a self-move the single saturation test is followed by two
      increments (see `SelfMoveOvershoots`). */
  lemma ConstrainedKeepsValid<N(!new), S(!new)>(s: State<N, S>, e: Relocation<N, S>)
    requires Valid(s) && e.fromNode != e.toNode
    ensures Valid(Constrained(s, e).1)
    ensures Constrained(s, e).0 ==> WaitsOnBoth(Constrained(s, e).1.waitLists, e)
  {
    var (held, s') := Constrained(s, e);
    if !held {
      forall n | n in s'.activeCounts
        ensures 1 <= s'.activeCounts[n] <= s'.maxThreadsPerNode
      {
        assert Count(s', n) == s'.activeCounts[n];
        assert Count(s', n) == Count(s, n) + Hits(e, n);
        if Hits(e, n) > 0 {
          assert Hits(e, n) == 1;
          assert Count(s, n) != s.maxThreadsPerNode;
        } else {
          assert n in s.activeCounts;
        }
      }
    } else {
      var wl, wl' := s.waitLists, s'.waitLists;
      forall n | n in wl'
        ensures wl'[n] != [] && Distinct(wl'[n])
      {
        assert Waiters(wl', n) == wl'[n];
        if n == e.toNode {
          assert e in wl'[n];
        } else if n == e.fromNode {
          assert e in wl'[n];
          assert Waiters(wl', n) == Waiters(Put(wl, e.fromNode, e), n);
        } else {
          assert Waiters(wl', n) == Waiters(wl, n);
        }
      }
      forall n: Option<N>, w: Relocation<N, S> | n in wl' && w in wl'[n]
        ensures && (n == w.fromNode || n == w.toNode)
                && w.fromNode != w.toNode
                && w in Waiters(wl', w.fromNode)
                && w in Waiters(wl', w.toNode)
      {
        assert w in Waiters(wl', n);
        if w != e {
          assert w in Waiters(wl, n);
        }
      }
    }
  }

  /** The waitlists stay well formed when `r` is taken off both endpoints, and
      afterwards `r` waits nowhere while every other waiter stays put. */
  lemma UnwaitKeepsWellFormed<N(!new), S(!new)>(s: State<N, S>, r: Relocation<N, S>)
    requires WellFormedWaitLists(s.waitLists)
    ensures WellFormedWaitLists(Unwait(s, r).waitLists)
    ensures forall m, x :: x in Waiters(Unwait(s, r).waitLists, m) <==> x in Waiters(s.waitLists, m) && x != r
  {
    var wl := s.waitLists;
    var mid := Unput(wl, r.fromNode, r);
    var wl' := Unwait(s, r).waitLists;
    assert wl' == Unput(mid, r.toNode, r);
    forall m, x
      ensures x in Waiters(wl', m) <==> x in Waiters(wl, m) && x != r
    {
      if x == r && x in Waiters(wl, m) {
        assert m in wl && x in wl[m];
      }
    }
    forall n | n in wl'
      ensures wl'[n] != [] && Distinct(wl'[n])
    {
      assert Waiters(wl', n) == wl'[n];
      if n != r.toNode {
        assert Waiters(wl', n) == Waiters(mid, n) && n in mid;
        if n != r.fromNode {
          assert Waiters(mid, n) == Waiters(wl, n) && n in wl;
        }
      } else if n != r.fromNode {
        assert Waiters(mid, n) == Waiters(wl, n);
      }
    }
    forall n: Option<N>, w: Relocation<N, S> | n in wl' && w in wl'[n]
      ensures && (n == w.fromNode || n == w.toNode)
              && w.fromNode != w.toNode
              && w in Waiters(wl', w.fromNode)
              && w in Waiters(wl', w.toNode)
    {
      assert w in Waiters(wl', n);
      assert w in Waiters(wl, n);
    }
  }

  /** Lowering one count keeps the state valid. */
  lemma DecrementedKeepsValid<N(!new), S(!new)>(s: State<N, S>, n: Option<N>)
    requires Valid(s)
    ensures Valid(Decremented(s, n))
    ensures forall m :: Count(Decremented(s, n), m) == Count(s, m) - (if m == n && Count(s, n) > 0 then 1 else 0)
  {
    var d := Decremented(s, n);
    forall m | m in d.activeCounts
      ensures d.activeCounts[m] <= d.maxThreadsPerNode
    {
      assert Count(d, m) == d.activeCounts[m];
      assert m in s.activeCounts;
    }
  }

  /** The scan of `release`: it admits the first waiter of `ws` that the state
      allows, taking it off both its waitlists; if none is allowed, nothing
      changes (putting a refused waiter back on lists it already waits on is a
      no-op). */
  lemma {:induction false} ScanSpec<N(!new), S(!new)>(s: State<N, S>, ws: seq<Relocation<N, S>>)
    requires Valid(s)
    requires forall w :: w in ws ==> WaitsOnBoth(s.waitLists, w)
    ensures Scan(s, ws).1.None? <==> forall w :: w in ws ==> !Admissible(s, w)
    ensures Scan(s, ws).1.None? ==> Scan(s, ws).0 == s
    ensures Scan(s, ws).1.Some? ==>
              && (exists i :: FirstAdmissible(s, ws, i) && ws[i] == Scan(s, ws).1.value)
              && Scan(s, ws).0 == Unwait(Constrained(s, Scan(s, ws).1.value).1, Scan(s, ws).1.value)
    decreases |ws|
  {
    if ws != [] {
      var w := ws[0];
      if Admissible(s, w) {
        assert FirstAdmissible(s, ws, 0);
      } else {
        ScanSkipsHeld(s, ws);
        ScanSpec(s, ws[1..]);
        if Scan(s, ws).1.Some? {
          var i :| FirstAdmissible(s, ws[1..], i) && ws[1..][i] == Scan(s, ws).1.value;
          FirstAdmissibleShift(s, ws, i);
        }
      }
    }
  }

  /** A refused head of the scan is skipped without any effect. */
  lemma ScanSkipsHeld<N(!new), S(!new)>(s: State<N, S>, ws: seq<Relocation<N, S>>)
    requires ws != [] && !Admissible(s, ws[0])
    requires forall w :: w in ws ==> WaitsOnBoth(s.waitLists, w)
    ensures Scan(s, ws) == Scan(s, ws[1..])
    ensures forall w :: w in ws[1..] ==> WaitsOnBoth(s.waitLists, w)
    ensures (forall w :: w in ws ==> !Admissible(s, w)) <==> (forall w :: w in ws[1..] ==> !Admissible(s, w))
  {
    assert ws[0] in ws;
    HeldWaiterStays(s, ws[0]);
    assert forall x :: x in ws <==> x == ws[0] || x in ws[1..];
  }

  lemma FirstAdmissibleShift<N(!new), S(!new)>(s: State<N, S>, ws: seq<Relocation<N, S>>, i: int)
    requires ws != [] && !Admissible(s, ws[0]) && FirstAdmissible(s, ws[1..], i)
    ensures FirstAdmissible(s, ws, i + 1) && ws[i + 1] == ws[1..][i]
  {
  }

  /** Holding a relocation that already waits on both of its endpoints
      changes nothing. */
  lemma HeldWaiterStays<N(!new), S(!new)>(s: State<N, S>, w: Relocation<N, S>)
    requires WaitsOnBoth(s.waitLists, w) && !Admissible(s, w)
    ensures Constrained(s, w) == (true, s)
  {
    var wl1 := Put(s.waitLists, w.fromNode, w);
    assert wl1 == s.waitLists;
    assert Put(wl1, w.toNode, w) == s.waitLists;
  }

  /** `release(n)`: after freeing a slot on `n`, the first of `n`'s waiters
      that fits is admitted (its endpoint counts rise) and leaves every
      waitlist; when none fits, only the count changes. Validity is kept. */
  lemma ReleaseNodeSpec<N(!new), S(!new)>(s: State<N, S>, n: Option<N>)
    requires Valid(s)
    ensures Valid(ReleaseNode(s, n).0)
    ensures ReleaseNode(s, n).1.None? <==>
              forall w :: w in Waiters(s.waitLists, n) ==> !Admissible(Decremented(s, n), w)
    ensures ReleaseNode(s, n).1.None? ==> ReleaseNode(s, n).0 == Decremented(s, n)
    ensures ReleaseNode(s, n).1.Some? ==>
              var w := ReleaseNode(s, n).1.value;
              && (exists i :: FirstAdmissible(Decremented(s, n), Waiters(s.waitLists, n), i)
                              && Waiters(s.waitLists, n)[i] == w)
              && (forall m :: Count(ReleaseNode(s, n).0, m) == Count(Decremented(s, n), m) + Hits(w, m))
              && (forall m, x :: x in Waiters(ReleaseNode(s, n).0.waitLists, m) <==>
                                 x in Waiters(s.waitLists, m) && x != w)
  {
    var d := Decremented(s, n);
    DecrementedKeepsValid(s, n);
    var ws := Waiters(d.waitLists, n);
    assert ws == Waiters(s.waitLists, n);
    forall w | w in ws
      ensures WaitsOnBoth(d.waitLists, w)
    {
      assert n in d.waitLists && w in d.waitLists[n];
    }
    ScanSpec(d, ws);
    var (s', o) := Scan(d, ws);
    if o.Some? {
      var w := o.value;
      assert w in ws;
      assert w.fromNode != w.toNode by {
        assert n in d.waitLists && w in d.waitLists[n];
      }
      ConstrainedKeepsValid(d, w);
      var s1 := Constrained(d, w).1;
      UnwaitKeepsWellFormed(s1, w);
      assert Valid(s');
      forall m ensures Count(s', m) == Count(d, m) + Hits(w, m) {
        assert Count(s', m) == Count(s1, m);
      }
    }
  }
  /** What `release(n)` does to the waitlists: only the relocation it hands
      back, one of `n`'s waiters, leaves them. */
  lemma ReleaseNodeWaiters<N(!new), S(!new)>(s: State<N, S>, n: Option<N>)
    requires Valid(s)
    ensures ReleaseNode(s, n).1.Some? ==> ReleaseNode(s, n).1.value in Waiters(s.waitLists, n)
    ensures TakesOff(s.waitLists, ReleaseNode(s, n).0.waitLists, OptionToSeq(ReleaseNode(s, n).1))
  {
    ReleaseNodeSpec(s, n);
    var (s', o) := ReleaseNode(s, n);
    if o.Some? {
      var i :| FirstAdmissible(Decremented(s, n), Waiters(s.waitLists, n), i)
               && Waiters(s.waitLists, n)[i] == o.value;
    }
    forall m, x
      ensures WaitsOn(s'.waitLists, m, x) <==> WaitsOn(s.waitLists, m, x) && x !in OptionToSeq(o)
    {
    }
  }

  /** What `release(n)` does to the counts: one slot fewer on `n` (when it had
      any), one more on each endpoint of the relocation handed back. */
  lemma ReleaseNodeCounts<N(!new), S(!new)>(s: State<N, S>, n: Option<N>)
    requires Valid(s)
    ensures forall m :: Count(ReleaseNode(s, n).0, m) ==
              Count(s, m) - (if m == n && Count(s, n) > 0 then 1 else 0) + HitsAll(OptionToSeq(ReleaseNode(s, n).1), m)
  {
    ReleaseNodeSpec(s, n);
    DecrementedKeepsValid(s, n);
    var o := ReleaseNode(s, n).1;
    forall m
      ensures HitsAll(OptionToSeq(o), m) == if o.Some? then Hits(o.value, m) else 0
    {
      if o.Some? {
        assert OptionToSeq(o)[1..] == [];
      }
    }
  }

  /** `release(n)` keeps the state valid. */
  lemma ReleaseNodeKeepsValid<N(!new), S(!new)>(s: State<N, S>, n: Option<N>)
    requires Valid(s)
    ensures Valid(ReleaseNode(s, n).0)
  {
    ReleaseNodeSpec(s, n);
  }

  /** `notifyReleased(e)` keeps the state valid. */
  lemma NotifyReleasedKeepsValid<N(!new), S(!new)>(s: State<N, S>, e: Relocation<N, S>)
    requires Valid(s)
    ensures Valid(NotifyReleased(s, e).0)
  {
    ReleaseNodeKeepsValid(s, e.fromNode);
    ReleaseNodeKeepsValid(ReleaseNode(s, e.fromNode).0, e.toNode);
  }

  /** `notifyReleased(e)` hands back at most two relocations, no one twice,
      each a former waiter of one of `e`'s endpoints; exactly those leave the
      waitlists. */
  lemma NotifyReleasedSpec<N(!new), S(!new)>(s: State<N, S>, e: Relocation<N, S>)
    requires Valid(s)
    ensures |NotifyReleased(s, e).1| <= 2 && Distinct(NotifyReleased(s, e).1)
    ensures forall x :: x in NotifyReleased(s, e).1 ==>
              x in Waiters(s.waitLists, e.fromNode) || x in Waiters(s.waitLists, e.toNode)
    ensures TakesOff(s.waitLists, NotifyReleased(s, e).0.waitLists, NotifyReleased(s, e).1)
  {
    var (s1, o1) := ReleaseNode(s, e.fromNode);
    ReleaseNodeKeepsValid(s, e.fromNode);
    ReleaseNodeWaiters(s, e.fromNode);
    var (s2, o2) := ReleaseNode(s1, e.toNode);
    ReleaseNodeWaiters(s1, e.toNode);
    assert NotifyReleased(s, e) == (s2, OptionToSeq(o1) + OptionToSeq(o2));
    ChainedReleases(s.waitLists, s1.waitLists, s2.waitLists, e, o1, o2);
  }

  /** Two releases in a row, each taking what it hands back (a waiter of its
      node) off the waitlists, together take off exactly the pair. */
  lemma ChainedReleases<N(!new), S(!new)>(wl0: map<Option<N>, seq<Relocation<N, S>>>, wl1: map<Option<N>, seq<Relocation<N, S>>>,
                                          wl2: map<Option<N>, seq<Relocation<N, S>>>, e: Relocation<N, S>,
                                          o1: Option<Relocation<N, S>>, o2: Option<Relocation<N, S>>)
    requires o1.Some? ==> o1.value in Waiters(wl0, e.fromNode)
    requires o2.Some? ==> o2.value in Waiters(wl1, e.toNode)
    requires TakesOff(wl0, wl1, OptionToSeq(o1))
    requires TakesOff(wl1, wl2, OptionToSeq(o2))
    ensures var rel := OptionToSeq(o1) + OptionToSeq(o2);
            && |rel| <= 2 && Distinct(rel)
            && (forall x :: x in rel ==> x in Waiters(wl0, e.fromNode) || x in Waiters(wl0, e.toNode))
            && TakesOff(wl0, wl2, rel)
  {
    var r1, r2 := OptionToSeq(o1), OptionToSeq(o2);
    var rel := r1 + r2;
    if o2.Some? {
      TakesOffAt(wl0, wl1, r1, e.toNode, o2.value);
    }
    if o1.Some? && o2.Some? {
      assert rel == [o1.value, o2.value];
    }
    forall x | x in rel
      ensures x in Waiters(wl0, e.fromNode) || x in Waiters(wl0, e.toNode)
    {
      if x !in r1 {
        assert x in r2;
      }
    }
    TakesOffChain(wl0, wl1, wl2, r1, r2);
  }

  /** Taking off `r1` and then `r2` takes off `r1 + r2`. */
  lemma TakesOffChain<N(!new), S(!new)>(wl0: map<Option<N>, seq<Relocation<N, S>>>, wl1: map<Option<N>, seq<Relocation<N, S>>>,
                                        wl2: map<Option<N>, seq<Relocation<N, S>>>, r1: seq<Relocation<N, S>>, r2: seq<Relocation<N, S>>)
    requires TakesOff(wl0, wl1, r1) && TakesOff(wl1, wl2, r2)
    ensures TakesOff(wl0, wl2, r1 + r2)
  {
    forall m, x
      ensures WaitsOn(wl2, m, x) <==> WaitsOn(wl0, m, x) && x !in r1 + r2
    {
      TakesOffAt(wl1, wl2, r2, m, x);
      TakesOffAt(wl0, wl1, r1, m, x);
      assert x in r1 + r2 <==> x in r1 || x in r2;
    }
  }

  lemma TakesOffAt<N(!new), S(!new)>(wl: map<Option<N>, seq<Relocation<N, S>>>, wl2: map<Option<N>, seq<Relocation<N, S>>>,
                                     rs: seq<Relocation<N, S>>, m: Option<N>, x: Relocation<N, S>)
    requires TakesOff(wl, wl2, rs)
    ensures x in Waiters(wl2, m) <==> x in Waiters(wl, m) && x !in rs
  {
    assert WaitsOn(wl2, m, x) <==> WaitsOn(wl, m, x) && x !in rs;
  }

  /** When `e` was admitted (both its endpoints are active), releasing it gives
      back one slot on each endpoint and charges one slot per endpoint of every
      relocation handed back. */
  lemma NotifyReleasedConservesCounts<N(!new), S(!new)>(s: State<N, S>, e: Relocation<N, S>)
    requires Valid(s) && e.fromNode != e.toNode
    requires Count(s, e.fromNode) >= 1 && Count(s, e.toNode) >= 1
    ensures forall m :: Count(NotifyReleased(s, e).0, m) ==
                        Count(s, m) - Hits(e, m) + HitsAll(NotifyReleased(s, e).1, m)
  {
    var (s1, o1) := ReleaseNode(s, e.fromNode);
    ReleaseNodeKeepsValid(s, e.fromNode);
    ReleaseNodeCounts(s, e.fromNode);
    var (s2, o2) := ReleaseNode(s1, e.toNode);
    ReleaseNodeCounts(s1, e.toNode);
    var r1, r2 := OptionToSeq(o1), OptionToSeq(o2);
    assert NotifyReleased(s, e) == (s2, r1 + r2);
    assert Count(s1, e.toNode) >= 1;
    HitsAllConcat(o1, r2);
  }

  lemma HitsAllConcat<N(!new), S(!new)>(o1: Option<Relocation<N, S>>, r2: seq<Relocation<N, S>>)
    ensures forall m :: HitsAll(OptionToSeq(o1) + r2, m) == HitsAll(OptionToSeq(o1), m) + HitsAll(r2, m)
  {
    var r1 := OptionToSeq(o1);
    forall m
      ensures HitsAll(r1 + r2, m) == HitsAll(r1, m) + HitsAll(r2, m)
    {
      if o1.Some? {
        assert (r1 + r2)[1..] == r2;
      } else {
        assert r1 + r2 == r2;
      }
    }
  }


  /** Under the invariant, `isEmpty` is true exactly when no relocation waits,
      whatever the active counts are. */
  lemma IsEmptyIffNothingWaits<N(!new), S(!new)>(s: State<N, S>)
    requires Valid(s)
    ensures IsEmpty(s) <==> forall x :: !Contains(s, x)
  {
    if !IsEmpty(s) {
      var n :| n in s.waitLists;
      assert Contains(s, s.waitLists[n][0]);
    }
  }

  /** A cleared policy is valid and empty, and a release on it hands back
      nothing. */
  lemma ClearReleasesNothing<N(!new), S(!new)>(s: State<N, S>, e: Relocation<N, S>)
    requires s.maxThreadsPerNode >= 0
    ensures Valid(Clear(s)) && IsEmpty(Clear(s))
    ensures NotifyReleased(Clear(s), e).1 == []
    ensures NotifyReleased(Clear(s), e).0 == Clear(s)
  {
    var c := Clear(s);
    assert Waiters(c.waitLists, e.fromNode) == [];
    assert Waiters(c.waitLists, e.toNode) == [];
  }

  /** `remove(o)` keeps the state valid. */
  lemma RemoveKeepsValid<N(!new), S(!new)>(s: State<N, S>, o: Relocation<N, S>)
    requires Valid(s)
    ensures Valid(Remove(s, o).1)
    ensures forall m, x :: x in Waiters(Remove(s, o).1.waitLists, m) <==> x in Waiters(s.waitLists, m) && x != o
  {
    var wl, wl' := s.waitLists, Remove(s, o).1.waitLists;
    forall m, x
      ensures x in Waiters(wl', m) <==> x in Waiters(wl, m) && x != o
    {
      if m in wl && x in wl[m] && x != o {
        assert x in Without(wl[m], o);
      }
    }
    forall n: Option<N>, w: Relocation<N, S> | n in wl' && w in wl'[n]
      ensures && (n == w.fromNode || n == w.toNode)
              && w.fromNode != w.toNode
              && w in Waiters(wl', w.fromNode)
              && w in Waiters(wl', w.toNode)
    {
      assert w in Waiters(wl', n);
    }
  }

  /** A self-move on a fresh policy with a limit of one is admitted and drives
      its node's count to two. */
  lemma SelfMoveOvershoots()
    ensures var e := Relocation(Some(0), Some(0), 0);
            var (held, s') := Constrained(New<int, int>(1), e);
            !held && Count(s', Some(0)) == 2 && !Valid(s')
  {
  }
}
