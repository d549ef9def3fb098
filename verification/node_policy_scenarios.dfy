/** The unit scenarios of the node-concurrency policy, replayed on the model
    with a limit of one relocation per node. A relocation `Move(f, t)` carries
    shard 0 from node `f` to node `t`. */
module NodePolicyScenarios {
  import opened Wrappers
  import opened Relocations
  import opened NodePolicy

  function Move(f: int, t: int): Relocation<int, int> {
    Relocation(Some(f), Some(t), 0)
  }

  type WaitLists = map<Option<int>, seq<Relocation<int, int>>>

  /** Putting a relocation on a node without a waitlist starts one. */
  lemma PutFresh(wl: WaitLists, n: Option<int>, r: Relocation<int, int>)
    requires n !in wl
    ensures Put(wl, n, r) == wl[n := [r]]
  {
    assert Waiters(wl, n) + [r] == [r];
  }

  /** Taking the only waiter off a node drops its waitlist. */
  lemma UnputLast(wl: WaitLists, n: Option<int>, r: Relocation<int, int>)
    requires n in wl && wl[n] == [r]
    ensures Unput(wl, n, r) == wl - {n}
  {
    assert Without(wl[n], r) == Without([], r);
  }

  type Policy = State<int, int>

  // The states of the first scenario, after each step.
  function A1(): Policy { State(1, map[Some(0) := 1, Some(1) := 1], map[]) }
  function A2(): Policy { A1().(waitLists := map[Some(0) := [Move(0, 2)], Some(2) := [Move(0, 2)]]) }
  function A4(): Policy { A2().(activeCounts := map[Some(0) := 1, Some(1) := 1, Some(3) := 1, Some(4) := 1]) }
  function A5(): Policy {
    A4().(waitLists := map[Some(0) := [Move(0, 2)], Some(2) := [Move(0, 2)], Some(3) := [Move(3, 4)], Some(4) := [Move(3, 4)]])
  }
  function A6(): Policy { State(1, map[Some(0) := 1, Some(2) := 1, Some(3) := 1, Some(4) := 1], map[Some(3) := [Move(3, 4)], Some(4) := [Move(3, 4)]]) }
  function A7(): Policy { State(1, map[Some(0) := 1, Some(2) := 1, Some(3) := 1, Some(4) := 1], map[]) }

  lemma StepA1() ensures Constrained(NodePolicy.New<int, int>(1), Move(0, 1)) == (false, A1()) { }

  lemma StepA2() ensures Constrained(A1(), Move(0, 2)) == (true, A2()) {
    PutFresh(map[], Some(0), Move(0, 2));
    PutFresh(map[Some(0) := [Move(0, 2)]], Some(2), Move(0, 2));
  }

  lemma StepA3() ensures Constrained(A2(), Move(0, 2)) == (true, A2()) { }

  lemma StepA4() ensures Constrained(A2(), Move(3, 4)) == (false, A4()) { }

  lemma StepA5() ensures Constrained(A4(), Move(3, 4)) == (true, A5()) {
    PutFresh(A4().waitLists, Some(3), Move(3, 4));
    PutFresh(A4().waitLists[Some(3) := [Move(3, 4)]], Some(4), Move(3, 4));
  }

  /** Between the two halves of releasing (0→1): (0→2) admitted, node 1 still active. */
  function A6Half(): Policy { A6().(activeCounts := map[Some(0) := 1, Some(1) := 1, Some(2) := 1, Some(3) := 1, Some(4) := 1]) }

  /** Node 0 freed while releasing (0→1). */
  function A5Freed(): Policy { A5().(activeCounts := map[Some(1) := 1, Some(3) := 1, Some(4) := 1]) }

  lemma AdmitA6() ensures Constrained(A5Freed(), Move(0, 2)) == (false, A6Half().(waitLists := A5().waitLists)) {
    var d := A5Freed();
    assert Admissible(d, Move(0, 2));
    assert Increment(d.activeCounts, Some(0)) == map[Some(1) := 1, Some(3) := 1, Some(4) := 1, Some(0) := 1];
    assert Increment(Increment(d.activeCounts, Some(0)), Some(2)) == A6Half().activeCounts;
  }

  lemma UnwaitA6() ensures Unwait(A6Half().(waitLists := A5().waitLists), Move(0, 2)) == A6Half() {
    UnputLast(A5().waitLists, Some(0), Move(0, 2));
    UnputLast(A5().waitLists - {Some(0)}, Some(2), Move(0, 2));
    assert A5().waitLists - {Some(0)} - {Some(2)} == A6().waitLists;
  }

  lemma StepA6From() ensures ReleaseNode(A5(), Some(0)) == (A6Half(), Some(Move(0, 2))) {
    assert Decremented(A5(), Some(0)) == A5Freed();
    assert Waiters(A5Freed().waitLists, Some(0)) == [Move(0, 2)];
    AdmitA6();
    UnwaitA6();
  }

  lemma StepA6To() ensures ReleaseNode(A6Half(), Some(1)) == (A6(), None) {
    assert Decremented(A6Half(), Some(1)) == A6();
  }

  lemma StepA6() ensures NotifyReleased(A5(), Move(0, 1)) == (A6(), [Move(0, 2)]) {
    StepA6From();
    StepA6To();
    assert OptionToSeq(Some(Move(0, 2))) + OptionToSeq<Relocation<int, int>>(None) == [Move(0, 2)];
  }

  lemma StepA7() ensures NotifyReleased(A6(), Move(3, 4)) == (A7(), [Move(3, 4)]) {
    var b := Move(3, 4);
    var d := A6().(activeCounts := map[Some(0) := 1, Some(2) := 1, Some(4) := 1]);
    assert Decremented(A6(), Some(3)) == d;
    assert Constrained(d, b) == (true, d);
    assert ReleaseNode(A6(), Some(3)) == (d, None);
    var d2 := A6().(activeCounts := map[Some(0) := 1, Some(2) := 1]);
    assert Decremented(d, Some(4)) == d2;
    assert Constrained(d2, b) == (false, A7().(waitLists := A6().waitLists));
    UnputLast(A6().waitLists, Some(3), b);
    UnputLast(A6().waitLists - {Some(3)}, Some(4), b);
    assert A6().waitLists - {Some(3)} - {Some(4)} == A7().waitLists;
    assert Unwait(A7().(waitLists := A6().waitLists), b) == A7();
    assert Scan(d2, [b]) == (A7(), Some(b));
    assert ReleaseNode(d, Some(4)) == (A7(), Some(b));
    NotifyReleasedOf(A6(), b, d, None, A7(), Some(b));
    assert OptionToSeq<Relocation<int, int>>(None) + OptionToSeq(Some(b)) == [b];
  }

  /** (0→1) passes, (0→2) is held twice, (3→4) passes and a second (3→4) is
      held; releasing (0→1) hands back exactly (0→2), and releasing (3→4) then
      hands back the waiting (3→4) once its destination is free as well. */
  lemma ReleaseHandsBackOneWaiter()
    ensures var (h1, s1) := Constrained(NodePolicy.New<int, int>(1), Move(0, 1));
            var (h2, s2) := Constrained(s1, Move(0, 2));
            var (h3, s3) := Constrained(s2, Move(0, 2));
            var (h4, s4) := Constrained(s3, Move(3, 4));
            var (h5, s5) := Constrained(s4, Move(3, 4));
            var (s6, r6) := NotifyReleased(s5, Move(0, 1));
            var (s7, r7) := NotifyReleased(s6, Move(3, 4));
            !h1 && h2 && h3 && !h4 && h5 && r6 == [Move(0, 2)] && r7 == [Move(3, 4)]
  {
    StepA1(); StepA2(); StepA3(); StepA4(); StepA5(); StepA6(); StepA7();
  }

  // ---------------------------------------------------------------------------
  // Two waiters handed back by one release

  // (0→1) and (3→2) admitted; (0→2) and (1→3) wait.
  function B3(): Policy {
    A2().(waitLists := map[Some(0) := [Move(0, 2)], Some(2) := [Move(0, 2)], Some(1) := [Move(1, 3)], Some(3) := [Move(1, 3)]])
  }
  function B4(): Policy { B3().(activeCounts := map[Some(0) := 1, Some(1) := 1, Some(3) := 1, Some(2) := 1]) }
  function B5(): Policy { B3().(activeCounts := map[Some(3) := 1, Some(2) := 1]) }
  function B6Half(): Policy {
    State(1, map[Some(2) := 1, Some(1) := 1, Some(3) := 1], map[Some(0) := [Move(0, 2)], Some(2) := [Move(0, 2)]])
  }
  function B6(): Policy { State(1, map[Some(1) := 1, Some(3) := 1, Some(0) := 1, Some(2) := 1], map[]) }

  lemma StepB3() ensures Constrained(A2(), Move(1, 3)) == (true, B3()) {
    PutFresh(A2().waitLists, Some(1), Move(1, 3));
    PutFresh(A2().waitLists[Some(1) := [Move(1, 3)]], Some(3), Move(1, 3));
  }

  lemma StepB4() ensures Constrained(B3(), Move(3, 2)) == (false, B4()) { }

  lemma StepB5From() ensures ReleaseNode(B4(), Some(0)) == (B4().(activeCounts := map[Some(1) := 1, Some(3) := 1, Some(2) := 1]), None) {
    var d := B4().(activeCounts := map[Some(1) := 1, Some(3) := 1, Some(2) := 1]);
    assert Decremented(B4(), Some(0)) == d;
    assert Waiters(d.waitLists, Some(0)) == [Move(0, 2)];
    assert Constrained(d, Move(0, 2)) == (true, d);
  }

  lemma StepB5To() ensures ReleaseNode(B4().(activeCounts := map[Some(1) := 1, Some(3) := 1, Some(2) := 1]), Some(1)) == (B5(), None) {
    var s := B4().(activeCounts := map[Some(1) := 1, Some(3) := 1, Some(2) := 1]);
    assert Decremented(s, Some(1)) == B5();
    assert Waiters(B5().waitLists, Some(1)) == [Move(1, 3)];
    assert Constrained(B5(), Move(1, 3)) == (true, B5());
  }

  lemma StepB5() ensures NotifyReleased(B4(), Move(0, 1)) == (B5(), []) {
    StepB5From();
    StepB5To();
    assert OptionToSeq<Relocation<int, int>>(None) + OptionToSeq<Relocation<int, int>>(None) == [];
  }

  lemma AdmitB6From() ensures Constrained(B5().(activeCounts := map[Some(2) := 1]), Move(1, 3)) == (false, B6Half().(waitLists := B3().waitLists)) {
    var d := B5().(activeCounts := map[Some(2) := 1]);
    assert Admissible(d, Move(1, 3));
    assert Increment(d.activeCounts, Some(1)) == map[Some(2) := 1, Some(1) := 1];
  }

  lemma UnwaitB6From() ensures Unwait(B6Half().(waitLists := B3().waitLists), Move(1, 3)) == B6Half() {
    UnputLast(B3().waitLists, Some(1), Move(1, 3));
    UnputLast(B3().waitLists - {Some(1)}, Some(3), Move(1, 3));
    assert B3().waitLists - {Some(1)} - {Some(3)} == B6Half().waitLists;
  }

  lemma StepB6From() ensures ReleaseNode(B5(), Some(3)) == (B6Half(), Some(Move(1, 3))) {
    assert Decremented(B5(), Some(3)) == B5().(activeCounts := map[Some(2) := 1]);
    AdmitB6From();
    UnwaitB6From();
  }

  lemma AdmitB6To() ensures Constrained(B6Half().(activeCounts := map[Some(1) := 1, Some(3) := 1]), Move(0, 2)) == (false, B6().(waitLists := B6Half().waitLists)) {
    var d := B6Half().(activeCounts := map[Some(1) := 1, Some(3) := 1]);
    assert Admissible(d, Move(0, 2));
    assert Increment(d.activeCounts, Some(0)) == map[Some(1) := 1, Some(3) := 1, Some(0) := 1];
  }

  lemma UnwaitB6To() ensures Unwait(B6().(waitLists := B6Half().waitLists), Move(0, 2)) == B6() {
    UnputLast(B6Half().waitLists, Some(0), Move(0, 2));
    UnputLast(B6Half().waitLists - {Some(0)}, Some(2), Move(0, 2));
    assert B6Half().waitLists - {Some(0)} - {Some(2)} == B6().waitLists;
  }

  lemma StepB6To() ensures ReleaseNode(B6Half(), Some(2)) == (B6(), Some(Move(0, 2))) {
    assert Decremented(B6Half(), Some(2)) == B6Half().(activeCounts := map[Some(1) := 1, Some(3) := 1]);
    AdmitB6To();
    UnwaitB6To();
  }

  lemma StepB6() ensures NotifyReleased(B5(), Move(3, 2)) == (B6(), [Move(1, 3), Move(0, 2)]) {
    StepB6From();
    StepB6To();
    NotifyReleasedOf(B5(), Move(3, 2), B6Half(), Some(Move(1, 3)), B6(), Some(Move(0, 2)));
    BothSome(Move(1, 3), Move(0, 2));
  }

  lemma BothSome<T>(a: T, b: T)
    ensures OptionToSeq(Some(a)) + OptionToSeq(Some(b)) == [a, b]
  {
  }

  /** `notifyReleased` is the two releases in a row. */
  lemma NotifyReleasedOf(s: Policy, e: Relocation<int, int>, s1: Policy, o1: Option<Relocation<int, int>>,
                         s2: Policy, o2: Option<Relocation<int, int>>)
    requires ReleaseNode(s, e.fromNode) == (s1, o1) && ReleaseNode(s1, e.toNode) == (s2, o2)
    ensures NotifyReleased(s, e) == (s2, OptionToSeq(o1) + OptionToSeq(o2))
  {
  }

  /** (0→1) passes, (0→2) and (1→3) are held, (3→2) passes. Releasing (0→1)
      hands back nothing, since each waiter is still blocked at its other
      endpoint; releasing (3→2) then hands back both, one per endpoint. */
  lemma ReleaseHandsBackTwoWaiters()
    ensures var (h1, s1) := Constrained(NodePolicy.New<int, int>(1), Move(0, 1));
            var (h2, s2) := Constrained(s1, Move(0, 2));
            var (h3, s3) := Constrained(s2, Move(1, 3));
            var (h4, s4) := Constrained(s3, Move(3, 2));
            var (s5, r5) := NotifyReleased(s4, Move(0, 1));
            var (s6, r6) := NotifyReleased(s5, Move(3, 2));
            !h1 && h2 && h3 && !h4 && r5 == [] && r6 == [Move(1, 3), Move(0, 2)] && IsEmpty(s6)
  {
    StepA1(); StepA2(); StepB3(); StepB4(); StepB5(); StepB6();
  }

  // ---------------------------------------------------------------------------
  // A waiter blocked at both endpoints

  // (0→1) and (4→2) admitted; (0→2) waits.
  function C2(): Policy { State(1, map[Some(0) := 1, Some(1) := 1, Some(4) := 1, Some(2) := 1], map[]) }
  function C3(): Policy { C2().(waitLists := A2().waitLists) }
  function C4(): Policy { C3().(activeCounts := map[Some(4) := 1, Some(2) := 1]) }
  function C5(): Policy { State(1, map[Some(0) := 1, Some(2) := 1], map[]) }

  lemma StepC2() ensures Constrained(A1(), Move(4, 2)) == (false, C2()) { }

  lemma StepC3() ensures Constrained(C2(), Move(0, 2)) == (true, C3()) {
    PutFresh(map[], Some(0), Move(0, 2));
    PutFresh(map[Some(0) := [Move(0, 2)]], Some(2), Move(0, 2));
  }

  lemma StepC4From() ensures ReleaseNode(C3(), Some(0)) == (C3().(activeCounts := map[Some(1) := 1, Some(4) := 1, Some(2) := 1]), None) {
    var d := C3().(activeCounts := map[Some(1) := 1, Some(4) := 1, Some(2) := 1]);
    assert Decremented(C3(), Some(0)) == d;
    assert Waiters(d.waitLists, Some(0)) == [Move(0, 2)];
    assert Constrained(d, Move(0, 2)) == (true, d);
  }

  lemma StepC4() ensures NotifyReleased(C3(), Move(0, 1)) == (C4(), []) {
    StepC4From();
    var s := C3().(activeCounts := map[Some(1) := 1, Some(4) := 1, Some(2) := 1]);
    assert Decremented(s, Some(1)) == C4();
    assert ReleaseNode(s, Some(1)) == (C4(), None);
    assert OptionToSeq<Relocation<int, int>>(None) + OptionToSeq<Relocation<int, int>>(None) == [];
  }

  lemma AdmitC5() ensures Constrained(C4().(activeCounts := map[]), Move(0, 2)) == (false, C5().(waitLists := C4().waitLists)) { }

  lemma UnwaitC5() ensures Unwait(C5().(waitLists := C4().waitLists), Move(0, 2)) == C5() {
    UnputLast(C4().waitLists, Some(0), Move(0, 2));
    UnputLast(C4().waitLists - {Some(0)}, Some(2), Move(0, 2));
    assert C4().waitLists - {Some(0)} - {Some(2)} == C5().waitLists;
  }

  lemma StepC5() ensures NotifyReleased(C4(), Move(4, 2)) == (C5(), [Move(0, 2)]) {
    var s := C4().(activeCounts := map[Some(2) := 1]);
    assert Decremented(C4(), Some(4)) == s;
    assert ReleaseNode(C4(), Some(4)) == (s, None);
    assert Decremented(s, Some(2)) == C4().(activeCounts := map[]);
    AdmitC5();
    UnwaitC5();
    assert ReleaseNode(s, Some(2)) == (C5(), Some(Move(0, 2)));
    assert OptionToSeq<Relocation<int, int>>(None) + OptionToSeq(Some(Move(0, 2))) == [Move(0, 2)];
  }

  /** (0→1) and (4→2) pass and (0→2) is held. Releasing (0→1) frees node 0
      but not node 2, so nothing is handed back; releasing (4→2) then hands
      back (0→2). */
  lemma ReleaseWaitsForBothEndpoints()
    ensures var (h1, s1) := Constrained(NodePolicy.New<int, int>(1), Move(0, 1));
            var (h2, s2) := Constrained(s1, Move(4, 2));
            var (h3, s3) := Constrained(s2, Move(0, 2));
            var (s4, r4) := NotifyReleased(s3, Move(0, 1));
            var (s5, r5) := NotifyReleased(s4, Move(4, 2));
            !h1 && !h2 && h3 && r4 == [] && r5 == [Move(0, 2)]
  {
    StepA1(); StepC2(); StepC3(); StepC4(); StepC5();
  }

  // ---------------------------------------------------------------------------
  // clear, isEmpty, remove, contains

  /** After (0→1) passes and (0→2) is held, clearing leaves nothing to hand
      back, and the same two requests then meet the same answers. */
  lemma ClearForgetsEverything()
    ensures var s := Clear(A2());
            && NotifyReleased(s, Move(0, 1)).1 == []
            && !Constrained(NotifyReleased(s, Move(0, 1)).0, Move(0, 1)).0
            && Constrained(Constrained(NotifyReleased(s, Move(0, 1)).0, Move(0, 1)).1, Move(0, 2)).0
  {
    ClearReleasesNothing(A2(), Move(0, 1));
    assert Clear(A2()) == NodePolicy.New<int, int>(1);
    StepA1();
    StepA2();
  }

  /** The policy is empty at first and after an admission, not after a
      refusal, and again after clearing. */
  lemma EmptyOnlyWhileNothingWaits()
    ensures IsEmpty(NodePolicy.New<int, int>(1)) && IsEmpty(A1()) && !IsEmpty(A2()) && IsEmpty(Clear(A2()))
  {
    assert Some(0) in A2().waitLists;
  }

  /** Only a waiting relocation can be removed or is contained: (0→1),
      admitted, is neither, while the held (0→2) is both, and removing it
      empties the policy. */
  lemma RemoveOnlyWaiters()
    ensures !Remove(A1(), Move(0, 1)).0 && !Remove(A2(), Move(0, 1)).0
    ensures !Contains(A1(), Move(0, 1)) && !Contains(A2(), Move(0, 1)) && Contains(A2(), Move(0, 2))
    ensures Remove(A2(), Move(0, 2)).0 && IsEmpty(Remove(A2(), Move(0, 2)).1)
  {
    var wl := A2().waitLists;
    assert Move(0, 2) in wl[Some(0)];
    assert Without(wl[Some(0)], Move(0, 2)) == [] && Without(wl[Some(2)], Move(0, 2)) == [];
    var wl' := Remove(A2(), Move(0, 2)).1.waitLists;
    forall n
      ensures n !in wl'
    {
      if n in wl {
        assert n == Some(0) || n == Some(2);
      }
    }
    assert wl'.Keys == {};
    assert |wl'| == |wl'.Keys|;
  }

  /** With a limit of one, once a relocation between two distinct nodes is
      admitted, a second one is held exactly when the two share an endpoint. */
  lemma SharedEndpointHeld<N(!new), S(!new)>(e: Relocation<N, S>, f: Relocation<N, S>)
    requires e.fromNode != e.toNode
    ensures Constrained(Constrained(NodePolicy.New<N, S>(1), e).1, f).0 <==>
            f.fromNode in {e.fromNode, e.toNode} || f.toNode in {e.fromNode, e.toNode}
  {
    var s1 := Constrained(NodePolicy.New<N, S>(1), e).1;
    assert Count(s1, e.fromNode) == 1 && Count(s1, e.toNode) == 1;
    forall n | n != e.fromNode && n != e.toNode ensures Count(s1, n) == 0 {
      assert Hits(e, n) == 0;
    }
  }
}
