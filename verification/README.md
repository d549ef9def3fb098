# ShardAllocator in Dafny

A model of the sequential core of ShardAllocator, a Java library that keeps
the shards of a service spread evenly over a changing set of nodes. It covers
three parts:

- **The relocation value and the node-concurrency policy.**
  - `ShardRelocation` is the immutable `(fromNode?, toNode?, shard)` triple, with its equality, hash and JSON rendering (module `Relocations`).
  - `ShardRelocationConstrainer` admits a relocation only while neither endpoint has reached `maxThreadsPerNode` active relocations. Otherwise it waitlists the relocation under both endpoints, and hands waiters back when a relocation finishes (module `NodePolicy`, scenarios in `NodePolicyScenarios`).
- **The cardinality policy and the constrained queue.**
  - `CardinalityConstrainer` lets at most `maxReleased` items out at once and holds the rest in a bounded FIFO buffer (module `Cardinality`).
  - `ConstrainedQueue` puts any such policy in front of a bounded delegate queue and an unbounded overflow "traffic jam" (modules `Constrainers` and `ConstrainedQueues`, scenarios in `QueueScenarios`).
  - The policy interface is a record of functions, together with the laws the queue relies on.
- **The balancing planner `SimpleAllocator.determineMoves`.**
  - From the node universe, the shard universe and the current distribution, it plans relocations:
    - first every shard nobody owns goes to a least-loaded node;
    - then the most-loaded node hands a shard to the least-loaded one, until every node holds between `floor(shards / nodes)` and `ceil(shards / nodes)` shards.
  - The planner with the code's evident slips corrected is `Allocator`, with general theorems in `AllocatorProperties` and the repository's test scenarios in `AllocatorScenarios`. Scenario distributions are in `AllocatorFixtures`.
  - The code as written slips in five places. `AllocatorAsWritten` models each slip next to the intended behaviour (see Findings).
  - A relocation is carried out on a distribution as the repository's test wrapper `SimpleAllocatorWrapper` does it (`Distributions.Relocate`). Load arithmetic is in `Load`.

Nodes and shards are type parameters. A Java `null` endpoint is `None`. Hash
sets whose iteration order the code depends on are sequences: the order of the
universes, and the order of each waitlist. Where the code's order is a hash
order, the model takes the first element in sequence order, a fixed stand-in for
an order the code leaves open.

Two facts about the code shape the model:

- The cardinality buffer releases in FIFO order, because it is an `ArrayBlockingQueue` polled at its head.
- `determineMoves` plans no relocation that takes away a shard that left the universe.

## Model

| member | source | states |
|---|---|---|
| Relocations.New | src/main/java/org/shannon/ShardAllocator/ShardRelocation.java:20-52 | construction fails with a null-pointer error exactly when the shard is missing; otherwise the getters give back both endpoints (either may be absent) and the shard |
| Relocations.Eq | src/main/java/org/shannon/ShardAllocator/ShardRelocation.java:54-56 | the intended null-safe comparison holds exactly when both values are absent or both are present and equal |
| Relocations.Equals | src/main/java/org/shannon/ShardAllocator/ShardRelocation.java:58-68 | two relocations are equal exactly when their sources, destinations and shards agree, an absent endpoint equal only to an absent one |
| Relocations.EqAsWritten | src/main/java/org/shannon/ShardAllocator/ShardRelocation.java:54-56 | `eq` as written throws exactly when its left value is null and its right is not; otherwise it answers equality |
| Relocations.EqualsAsWritten | src/main/java/org/shannon/ShardAllocator/ShardRelocation.java:64-68 | `equals` as written throws exactly when the argument's source is absent and this one's is present; whenever it answers, the answer is value equality |
| Relocations.EqualsAsWrittenThrowsOnAbsentSource | src/main/java/org/shannon/ShardAllocator/ShardRelocation.java:54-68 | comparing (0→1) with a new assignment (null→1) throws as written, where the intended answer is false |
| Relocations.Hc | src/main/java/org/shannon/ShardAllocator/ShardRelocation.java:70-72 | the hash of an absent value is 0, of a present one its own hash |
| Relocations.Hash | src/main/java/org/shannon/ShardAllocator/ShardRelocation.java:74-77 | XOR-ing the hash with the two endpoint hashes leaves the shard's hash, so a relocation with no endpoints hashes as its shard |
| Relocations.EqualsImpliesEqualHash | src/main/java/org/shannon/ShardAllocator/ShardRelocation.java:58-77 | equal relocations have equal 32-bit hashes |
| Relocations.HashIgnoresDirection | src/main/java/org/shannon/ShardAllocator/ShardRelocation.java:74-77 | a relocation and its reverse collide, because XOR is symmetric |
| Relocations.SelfMoveHashesAsShard | src/main/java/org/shannon/ShardAllocator/ShardRelocation.java:74-77 | a self-move and a relocation with no endpoints both hash to the shard's own hash |
| Relocations.JsonValue | src/main/java/org/shannon/ShardAllocator/ShardRelocation.java:79-81 | the rendering is `NULL` exactly for an absent value, and otherwise the value's text in double quotes |
| Relocations.JsonValueRoundTrip | src/main/java/org/shannon/ShardAllocator/ShardRelocation.java:79-81 | reading a rendered value back recovers absence or the value's text |
| Relocations.ToString | src/main/java/org/shannon/ShardAllocator/ShardRelocation.java:83-87 | the text is the `fromNode`, `toNode` and `shard` keys in that order, each followed by its value as `toStringJSON` renders it, between `{ ` and ` }`; the source shows as `NULL` exactly when it is absent |
| Relocations.FirstQuote | src/main/java/org/shannon/ShardAllocator/ShardRelocation.java:79-81 | the position found holds a double quote, or is the end, and no double quote comes before it |
| Relocations.FirstQuoteAfter | src/main/java/org/shannon/ShardAllocator/ShardRelocation.java:79-81 | behind a quote-free text, the first double quote is the one closing it |
| Relocations.ParseValue | src/main/java/org/shannon/ShardAllocator/ShardRelocation.java:79-81 | reading a value consumes at least two characters and leaves a suffix; an absent value was `NULL`, a present one is quote-free |
| Relocations.ParseRelocation | src/main/java/org/shannon/ShardAllocator/ShardRelocation.java:83-87 | a text read back in full opens with the `fromNode` key and closes with ` }` |
| Relocations.ValueRoundTrip | src/main/java/org/shannon/ShardAllocator/ShardRelocation.java:79-81 | a rendered value followed by any text reads back as the value's shown text (or absence) and that same text, when the shown text holds no double quote |
| Relocations.ToStringRoundTrip | src/main/java/org/shannon/ShardAllocator/ShardRelocation.java:79-87 | `toString` loses nothing: reading it back gives the shown source, target and shard, with an absent endpoint read as absent, when no shown text holds a double quote |
| Cardinality.New | src/main/java/org/shannon/ConstrainedQueue/CardinalityConstrainer.java:24-27 | a buffer capacity below one is an illegal argument; otherwise the policy starts empty with the given limits, and is valid when `maxReleased` is not negative |
| Cardinality.Reserve | src/main/java/org/shannon/ConstrainedQueue/CardinalityConstrainer.java:29-31 | the slot check says "constrained" exactly when all `maxReleased` slots are taken; otherwise it takes one, so the counter never passes `maxReleased` |
| Cardinality.Admit | src/main/java/org/shannon/ConstrainedQueue/CardinalityConstrainer.java:33-53 | an item passes exactly when a slot is free; otherwise it joins the tail of the buffer, or is refused (blocks, or times out) when the buffer is full |
| Cardinality.AdmitKeepsValid | src/main/java/org/shannon/ConstrainedQueue/CardinalityConstrainer.java:29-53 | admission keeps the counter within `[0, maxReleased]` and the buffer within its capacity; an item passes only while nothing is held |
| Cardinality.NotifyReleased | src/main/java/org/shannon/ConstrainedQueue/CardinalityConstrainer.java:55-71 | a release hands back at most one item: the oldest held one, exactly when something is held and a slot is free after giving one back, keeping the counter; otherwise the counter drops by one and the buffer is unchanged |
| Cardinality.NotifyReleasedSpec | src/main/java/org/shannon/ConstrainedQueue/CardinalityConstrainer.java:55-71 | a matched release hands back the oldest held item and keeps its slot, or frees the slot when nothing is held; nothing is lost or made up |
| Cardinality.UnmatchedReleaseUnderflows | src/main/java/org/shannon/ConstrainedQueue/CardinalityConstrainer.java:55-71 | a release with nothing let out drives the counter to -1 |
| Cardinality.Clear | src/main/java/org/shannon/ConstrainedQueue/CardinalityConstrainer.java:73-85 | clearing leaves the policy empty with its limits unchanged |
| Cardinality.ClearedAdmitsNext | src/main/java/org/shannon/ConstrainedQueue/CardinalityConstrainer.java:73-80 | a cleared policy is valid and lets the next item through |
| Cardinality.Remove | src/main/java/org/shannon/ConstrainedQueue/CardinalityConstrainer.java:87-90 | `remove(o)` answers whether `o` was held and drops one occurrence; the counter is untouched |
| Cardinality.IsEmpty | src/main/java/org/shannon/ConstrainedQueue/CardinalityConstrainer.java:82-85 | the policy is empty exactly when nothing is out and its size is zero, and then it contains nothing |
| Cardinality.Contains | src/main/java/org/shannon/ConstrainedQueue/CardinalityConstrainer.java:97-100 | `contains(o)` holds exactly when `remove(o)` would find `o` |
| Cardinality.Size | src/main/java/org/shannon/ConstrainedQueue/CardinalityConstrainer.java:92-95 | the size is zero exactly when the buffer contains nothing, and never exceeds the capacity of a valid policy |
| Cardinality.RemainingCapacity | src/main/java/org/shannon/ConstrainedQueue/CardinalityConstrainer.java:102-105 | the room left and the size add up to the capacity, and the room is never negative for a valid policy |
| Cardinality.PolicyIsLawful | src/main/java/org/shannon/ConstrainedQueue/CardinalityConstrainer.java:33-105 | the policy keeps every law the queue relies on: faithful admission, releasing only held items, clearing, removal, and reporting size and membership |
| NodePolicy.New | src/main/java/org/shannon/ConstrainedQueue/ShardRelocationConstrainer.java:33-35 | a fresh policy has no active relocation and nobody waiting, and is valid for a non-negative limit |
| NodePolicy.Increment | src/main/java/org/shannon/ConstrainedQueue/ShardRelocationConstrainer.java:41-43 | the node's count (0 when absent) rises by one and no other count changes |
| NodePolicy.Decrement | src/main/java/org/shannon/ConstrainedQueue/ShardRelocationConstrainer.java:45-47 | an absent node is left alone; a count of one drops its entry; no other count changes; positive counts stay positive |
| NodePolicy.Put | src/main/java/org/shannon/ConstrainedQueue/ShardRelocationConstrainer.java:56-57 | after a waitlist insertion, exactly the old waiters plus the new one wait; inserting a present waiter changes nothing; no waitlist gains a duplicate |
| NodePolicy.Unput | src/main/java/org/shannon/ConstrainedQueue/ShardRelocationConstrainer.java:67-73 | exactly the given relocation leaves the given node's waitlist, other waitlists are untouched, and an emptied waitlist is dropped |
| NodePolicy.Constrained | src/main/java/org/shannon/ConstrainedQueue/ShardRelocationConstrainer.java:49-60 | the answer is "constrained" exactly when an endpoint is saturated; admission raises each endpoint's count by its number of hits and leaves the waitlists alone; refusal waitlists the relocation under both endpoints and changes no count |
| NodePolicy.ConstrainedKeepsValid | src/main/java/org/shannon/ConstrainedQueue/ShardRelocationConstrainer.java:37-60 | for distinct endpoints, admission keeps every count within `[1, maxThreadsPerNode]`; a refused relocation waits on both endpoints |
| NodePolicy.SelfMoveOvershoots | src/main/java/org/shannon/ConstrainedQueue/ShardRelocationConstrainer.java:51-53 | with a limit of one, a self-move is admitted and drives its node's count to two |
| NodePolicy.UnwaitKeepsWellFormed | src/main/java/org/shannon/ConstrainedQueue/ShardRelocationConstrainer.java:74-77 | taking a relocation off both endpoints removes exactly it from every waitlist and keeps the waitlists well formed |
| NodePolicy.DecrementedKeepsValid | src/main/java/org/shannon/ConstrainedQueue/ShardRelocationConstrainer.java:45-47 | freeing a slot lowers exactly that node's count, by one when it was active, and keeps the state valid |
| NodePolicy.Scan | src/main/java/org/shannon/ConstrainedQueue/ShardRelocationConstrainer.java:82-88 | the scan admits nothing exactly when no waiter is admissible, and then changes no count; otherwise it admits a waiter that is admissible, whose endpoints each gain a slot |
| NodePolicy.ScanSpec | src/main/java/org/shannon/ConstrainedQueue/ShardRelocationConstrainer.java:82-88 | the scan admits nothing exactly when no waiter is admissible, and then changes nothing; otherwise it admits the first admissible waiter and takes it off both its waitlists |
| NodePolicy.ScanSkipsHeld | src/main/java/org/shannon/ConstrainedQueue/ShardRelocationConstrainer.java:82-88 | a waiter that is still refused is skipped without effect |
| NodePolicy.HeldWaiterStays | src/main/java/org/shannon/ConstrainedQueue/ShardRelocationConstrainer.java:55-58 | re-asking for a waiter that already waits on both endpoints and is still refused leaves the state as it was |
| NodePolicy.ReleaseNode | src/main/java/org/shannon/ConstrainedQueue/ShardRelocationConstrainer.java:79-89 | `release(n)` hands back nothing exactly when none of `n`'s waiters fits once `n` has a free slot, and then only frees that slot; otherwise it hands back one of `n`'s waiters that fits, charging its endpoints |
| NodePolicy.ReleaseNodeSpec | src/main/java/org/shannon/ConstrainedQueue/ShardRelocationConstrainer.java:79-89 | `release(n)` keeps the state valid; it hands back nothing exactly when none of `n`'s waiters is admissible once `n` has a free slot, and otherwise hands back the first admissible one, now admitted |
| NodePolicy.ReleaseNodeWaiters | src/main/java/org/shannon/ConstrainedQueue/ShardRelocationConstrainer.java:79-89 | what `release(n)` hands back was one of `n`'s waiters, and exactly it leaves every waitlist |
| NodePolicy.ReleaseNodeCounts | src/main/java/org/shannon/ConstrainedQueue/ShardRelocationConstrainer.java:79-89 | `release(n)` lowers `n`'s count by one and raises each endpoint of the relocation it hands back |
| NodePolicy.ReleaseNodeKeepsValid | src/main/java/org/shannon/ConstrainedQueue/ShardRelocationConstrainer.java:79-89 | `release(n)` keeps every count within `[1, maxThreadsPerNode]` and the waitlists well formed |
| NodePolicy.NotifyReleased | src/main/java/org/shannon/ConstrainedQueue/ShardRelocationConstrainer.java:91-97 | finishing a relocation hands back at most two relocations, at most one when its source admits nothing; handing back none only frees both endpoint slots; the first handed back waited on the source unless the source admitted nothing |
| NodePolicy.NotifyReleasedKeepsValid | src/main/java/org/shannon/ConstrainedQueue/ShardRelocationConstrainer.java:91-97 | finishing a relocation keeps the state valid |
| NodePolicy.NotifyReleasedSpec | src/main/java/org/shannon/ConstrainedQueue/ShardRelocationConstrainer.java:91-97 | at most two relocations come back, none twice, each now off every waitlist; exactly those leave the waitlists |
| NodePolicy.ChainedReleases | src/main/java/org/shannon/ConstrainedQueue/ShardRelocationConstrainer.java:91-97 | two releases in a row hand back distinct relocations and together take off exactly those |
| NodePolicy.NotifyReleasedConservesCounts | src/main/java/org/shannon/ConstrainedQueue/ShardRelocationConstrainer.java:91-97 | finishing an admitted relocation frees one slot per endpoint, and each relocation handed back takes one slot per endpoint |
| NodePolicy.Contains | src/main/java/org/shannon/ConstrainedQueue/ShardRelocationConstrainer.java:133-136 | a relocation is contained exactly when it is among some node's waiters, which needs a waitlist to be left |
| NodePolicy.IsEmpty | src/main/java/org/shannon/ConstrainedQueue/ShardRelocationConstrainer.java:105-108 | an empty policy contains no relocation |
| NodePolicy.IsEmptyIffNothingWaits | src/main/java/org/shannon/ConstrainedQueue/ShardRelocationConstrainer.java:105-108 | the policy is empty exactly when no relocation waits, whatever the active counts |
| NodePolicy.Clear | src/main/java/org/shannon/ConstrainedQueue/ShardRelocationConstrainer.java:99-103 | clearing forgets every count and every waiter and keeps the limit |
| NodePolicy.ClearReleasesNothing | src/main/java/org/shannon/ConstrainedQueue/ShardRelocationConstrainer.java:99-108 | a cleared policy is valid and empty, and a release on it hands back nothing and changes nothing |
| NodePolicy.Remove | src/main/java/org/shannon/ConstrainedQueue/ShardRelocationConstrainer.java:110-126 | `remove(o)` succeeds exactly when `o` waits, after which `o` waits nowhere, every other waiter still waits, and no count changes |
| NodePolicy.RemoveKeepsValid | src/main/java/org/shannon/ConstrainedQueue/ShardRelocationConstrainer.java:110-126 | removal keeps the state valid and takes exactly `o` off every waitlist |
| NodePolicyScenarios.ReleaseHandsBackOneWaiter | src/test/java/org/shannon/ConstrainedQueue/Test/ShardRelocationConstrainerTest.java:63-79 | (0→1) passes, (0→2) is held twice, (3→4) passes and is held again; finishing (0→1) hands back exactly (0→2), and finishing (3→4) hands back exactly (3→4) |
| NodePolicyScenarios.ReleaseHandsBackTwoWaiters | src/test/java/org/shannon/ConstrainedQueue/Test/ShardRelocationConstrainerTest.java:81-91 | after (0→1) and (3→2) pass with (0→2) and (1→3) held, finishing (0→1) hands back nothing, and finishing (3→2) hands back both waiters |
| NodePolicyScenarios.ReleaseWaitsForBothEndpoints | src/test/java/org/shannon/ConstrainedQueue/Test/ShardRelocationConstrainerTest.java:93-102 | a waiter blocked on two endpoints comes back only once both are free |
| NodePolicyScenarios.ClearForgetsEverything | src/test/java/org/shannon/ConstrainedQueue/Test/ShardRelocationConstrainerTest.java:105-115 | after clearing, a release hands back nothing and the same requests meet the same answers |
| NodePolicyScenarios.EmptyOnlyWhileNothingWaits | src/test/java/org/shannon/ConstrainedQueue/Test/ShardRelocationConstrainerTest.java:117-131 | the policy is empty at first and after an admission, not after a refusal, and again after clearing |
| NodePolicyScenarios.RemoveOnlyWaiters | src/test/java/org/shannon/ConstrainedQueue/Test/ShardRelocationConstrainerTest.java:133-168 | an admitted relocation is neither contained nor removable; a waiting one is both, and removing it empties the policy |
| NodePolicyScenarios.SharedEndpointHeld | src/test/java/org/shannon/ConstrainedQueue/Test/ShardRelocationConstrainerTest.java:22-59 | with a limit of one and one relocation admitted, a second is held exactly when the two share an endpoint |
| ConstrainedQueues.New | src/main/java/org/shannon/ConstrainedQueue/ConstrainedQueue.java:43-47 | a new queue holds nothing besides its policy and keeps the delegate within its bound |
| ConstrainedQueues.Enqueue | src/main/java/org/shannon/ConstrainedQueue/ConstrainedQueue.java:98-100 | an item goes to the tail of the delegate while it has room and to the tail of the jam otherwise, and the delegate stays within its bound |
| ConstrainedQueues.PushAll | src/main/java/org/shannon/ConstrainedQueue/ConstrainedQueue.java:94-105 | enqueuing items in order fills the delegate's room with the first of them and sends the rest, in order, to the jam |
| ConstrainedQueues.Offer | src/main/java/org/shannon/ConstrainedQueue/ConstrainedQueue.java:236-265 | `offer` answers true exactly when the policy does not refuse; then, under a faithful policy, the queue holds one more `t` (in the delegate while it has room, else in the jam, or in the policy), and otherwise it is unchanged |
| ConstrainedQueues.Add | src/main/java/org/shannon/ConstrainedQueue/ConstrainedQueue.java:200-210 | `add` succeeds exactly when the policy holds `t` or passes it into a delegate with room, and then acts as `offer` and holds one more `t`; a refusal is an `IllegalStateException` with the queue unchanged; a passed item meeting a full delegate throws and is lost |
| ConstrainedQueues.Put | src/main/java/org/shannon/ConstrainedQueue/ConstrainedQueue.java:272-277 | `put` blocks exactly when the policy refuses or a passed item meets a full delegate; otherwise the queue holds one more `t` |
| ConstrainedQueues.AddAll | src/main/java/org/shannon/ConstrainedQueue/ConstrainedQueue.java:127-131 | a successful `addAll` answers whether the argument was non-empty |
| ConstrainedQueues.AddAllSpec | src/main/java/org/shannon/ConstrainedQueue/ConstrainedQueue.java:127-131 | a successful `addAll` adds exactly the multiset of its argument |
| ConstrainedQueues.Forget | src/main/java/org/shannon/ConstrainedQueue/ConstrainedQueue.java:94-105 | `forget` returns its argument, changes nothing for null, and keeps the delegate within its bound |
| ConstrainedQueues.ForgetSpec | src/main/java/org/shannon/ConstrainedQueue/ConstrainedQueue.java:94-105 | forgetting conserves what the queue holds: what the policy hands back moves into the delegate or the jam |
| ConstrainedQueues.Poll | src/main/java/org/shannon/ConstrainedQueue/ConstrainedQueue.java:117-120 | `poll` gives nothing exactly when the delegate is empty, and otherwise takes its head and nothing else |
| ConstrainedQueues.PollSpec | src/main/java/org/shannon/ConstrainedQueue/ConstrainedQueue.java:117-120 | polling takes exactly the returned item out of the queue |
| ConstrainedQueues.Peek | src/main/java/org/shannon/ConstrainedQueue/ConstrainedQueue.java:112-115 | `peek` shows what `poll` would take |
| ConstrainedQueues.Element | src/main/java/org/shannon/ConstrainedQueue/ConstrainedQueue.java:107-110 | `element` is `peek`, with `NoSuchElementException` for an empty delegate |
| ConstrainedQueues.RemoveHead | src/main/java/org/shannon/ConstrainedQueue/ConstrainedQueue.java:122-125 | `remove()` is `poll`, with `NoSuchElementException` for an empty delegate |
| ConstrainedQueues.Take | src/main/java/org/shannon/ConstrainedQueue/ConstrainedQueue.java:293-296 | `take` blocks exactly when the delegate is empty and otherwise is `poll` |
| ConstrainedQueues.DrainTo | src/main/java/org/shannon/ConstrainedQueue/ConstrainedQueue.java:225-234 | at most `maxElements` items are drained, starting at the delegate's head; draining fewer means the delegate ran dry; drained plus remaining is what the queue held |
| ConstrainedQueues.DrainAll | src/main/java/org/shannon/ConstrainedQueue/ConstrainedQueue.java:220-223 | draining everything empties the delegate (below `Integer.MAX_VALUE` items) and conserves the items |
| ConstrainedQueues.RemoveItem | src/main/java/org/shannon/ConstrainedQueue/ConstrainedQueue.java:285-291 | `remove(o)` succeeds whenever `o` is in the jam or the delegate, and keeps the delegate within its bound |
| ConstrainedQueues.RemoveItemSpec | src/main/java/org/shannon/ConstrainedQueue/ConstrainedQueue.java:285-291 | `remove(o)` succeeds exactly when the queue holds `o`, and then removes one `o` |
| ConstrainedQueues.RemoveFromPolicy | src/main/java/org/shannon/ConstrainedQueue/ConstrainedQueue.java:290 | with `o` in neither store, the policy's removal succeeds exactly when the queue holds `o` and removes one `o` |
| ConstrainedQueues.RemoveAll | src/main/java/org/shannon/ConstrainedQueue/ConstrainedQueue.java:158-165 | `removeAll` answers whether the queue held any of the items, and removes their multiset |
| ConstrainedQueues.Contains | src/main/java/org/shannon/ConstrainedQueue/ConstrainedQueue.java:212-218 | for a policy that reports its holdings, `contains(o)` holds exactly when the queue holds `o` |
| ConstrainedQueues.Size | src/main/java/org/shannon/ConstrainedQueue/ConstrainedQueue.java:177-183 | for a policy that reports its holdings, `size` is the number of items the queue holds |
| ConstrainedQueues.IsEmpty | src/main/java/org/shannon/ConstrainedQueue/ConstrainedQueue.java:148-151 | for a policy that clears its holdings, an empty queue holds nothing |
| ConstrainedQueues.Clear | src/main/java/org/shannon/ConstrainedQueue/ConstrainedQueue.java:133-138 | clearing empties the jam and the delegate and clears the policy, after which the queue holds nothing |
| ConstrainedQueues.JamStep | src/main/java/org/shannon/ConstrainedQueue/ConstrainedQueue.java:49-63 | the background thread can move an item exactly when the jam is non-empty and the delegate has room, and then moves the jam's head to the delegate's tail |
| ConstrainedQueues.JamStepSpec | src/main/java/org/shannon/ConstrainedQueue/ConstrainedQueue.java:49-63 | the background thread neither loses nor makes up items |
| ConstrainedQueues.RemainingCapacity | src/main/java/org/shannon/ConstrainedQueue/ConstrainedQueue.java:279-283 | the room reported is the policy's room plus the delegate's, capped at `Integer.MAX_VALUE` |
| ConstrainedQueues.RemainingCapacityAsWritten | src/main/java/org/shannon/ConstrainedQueue/ConstrainedQueue.java:281 | as written the room never exceeds `Integer.MAX_VALUE`, and equals the plain sum of both rooms whenever that sum fits in 32 bits |
| ConstrainedQueues.RemainingCapacityOverflows | src/main/java/org/shannon/ConstrainedQueue/ConstrainedQueue.java:279-283 | with a policy of unlimited room and any free place in the delegate, the code as written reports a negative room, where the intended one reports `Integer.MAX_VALUE` |
| QueueScenarios.IdleMatchesNew | src/test/java/org/shannon/ConstrainedQueue/Test/ConstrainedQueueTest.java:28-31 | the small queue starts empty; `poll` and `peek` give nothing, `element` and `remove()` throw, and `take` blocks |
| QueueScenarios.OfferFillsThenRefuses | src/test/java/org/shannon/ConstrainedQueue/Test/ConstrainedQueueTest.java:302-355 | the first item is let into the delegate and the next are held until the buffer is full; then `offer` answers false, `add` throws and `put` blocks, all leaving the queue as it was |
| QueueScenarios.FiveOffersThenSixthRefused | src/test/java/org/shannon/ConstrainedQueue/Test/ConstrainedQueueTest.java:247-257 | with a buffer of four, the first offer and the fifth succeed, and then the sixth `offer` is refused and the sixth `add` throws |
| QueueScenarios.PollForgetDrainsOne | src/test/java/org/shannon/ConstrainedQueue/Test/ConstrainedQueueTest.java:119-126 | each `forget(poll())` gets the item back and lets the oldest held one in; the last leaves the queue empty |
| QueueScenarios.RemoveLetsNextIn | src/test/java/org/shannon/ConstrainedQueue/Test/ConstrainedQueueTest.java:374-381 | `remove(0)` finds the 0 in the delegate and lets the next held 0 in, until the queue is empty |
| QueueScenarios.RemainingCapacityCountsDown | src/test/java/org/shannon/ConstrainedQueue/Test/ConstrainedQueueTest.java:357-372 | with four places the reported room runs 4, 3, 2, 1, 0 as the buffer fills, as written and as intended |
| QueueScenarios.AddAllLetsFirstThrough | src/test/java/org/shannon/ConstrainedQueue/Test/ConstrainedQueueTest.java:137-146 | `addAll([0, 1, 2])` answers true, lets 0 into the delegate and holds 1 and 2 in order |
| QueueScenarios.AddedComeOutInOrder | src/test/java/org/shannon/ConstrainedQueue/Test/ConstrainedQueueTest.java:137-146 | the items come out in the order they were added, and the queue ends empty |
| QueueScenarios.AddedAreContained | src/test/java/org/shannon/ConstrainedQueue/Test/ConstrainedQueueTest.java:197-267 | after adding 0, 1 and 2 the queue contains each of them |
| QueueScenarios.AddedAreCounted | src/test/java/org/shannon/ConstrainedQueue/Test/ConstrainedQueueTest.java:197-267 | the queue's size counts down 3, 2, 1, 0 as the items come out |
| QueueScenarios.RemoveAllLeavesTheRest | src/test/java/org/shannon/ConstrainedQueue/Test/ConstrainedQueueTest.java:184-195 | removing 0 and then 1, as `removeAll([0, 1])` does item by item, succeeds both times and leaves only 2, so the queue is not empty |
| QueueScenarios.ClearAfterAddAll | src/test/java/org/shannon/ConstrainedQueue/Test/ConstrainedQueueTest.java:148-156 | `clear` after `addAll` leaves the queue empty with nothing to poll |
| Distributions.RemoveMapping | src/test/java/org/shannon/ShardAllocator/mock/SimpleAllocatorWrapper.java:42 | the node lets go of the shard, nothing else changes, and no node is left with an empty entry |
| Distributions.PutMapping | src/test/java/org/shannon/ShardAllocator/mock/SimpleAllocatorWrapper.java:43 | the node gains the shard and nothing else changes |
| Distributions.Relocate | src/test/java/org/shannon/ShardAllocator/mock/SimpleAllocatorWrapper.java:40-44 | carrying out a relocation takes the shard from the source, if any, and gives it to the destination, if any; nothing else changes |
| Distributions.ApplyAllKeepsNoEmptyEntry | src/test/java/org/shannon/ShardAllocator/mock/SimpleAllocatorWrapper.java:40-44 | carrying out relocations never leaves a node with an empty entry |
| Load.ExcessAndDeficit | src/main/java/org/shannon/ShardAllocator/Impl/SimpleAllocator.java:155-156 | shards lie above the ceiling exactly when the largest load does, and shards are missing below the floor exactly when the smallest load is too low |
| Load.BalanceStep | src/main/java/org/shannon/ShardAllocator/Impl/SimpleAllocator.java:152-159 | while the loads are uneven and the total fits the bounds, moving one shard from the most- to the least-loaded node keeps the total and lowers the larger of excess and deficit by exactly one |
| Load.EvenHasNoExcess | src/main/java/org/shannon/ShardAllocator/Impl/SimpleAllocator.java:155-156 | the loop's exit condition holds exactly when there is neither excess nor deficit |
| Load.LevelIsEven | src/main/java/org/shannon/ShardAllocator/Impl/SimpleAllocator.java:166-168 | loads that differ by at most one and whose total fits the bounds all lie within the bounds |
| Allocator.Floor | src/main/java/org/shannon/ShardAllocator/Impl/SimpleAllocator.java:166-168 | the floor is the largest per-node load whose total does not exceed the shard count |
| Allocator.Ceil | src/main/java/org/shannon/ShardAllocator/Impl/SimpleAllocator.java:166-168 | the ceiling is the smallest per-node load whose total reaches the shard count |
| Allocator.FloorBelowCeil | src/main/java/org/shannon/ShardAllocator/Impl/SimpleAllocator.java:166-168 | the floor never exceeds the ceiling, and they differ by at most one |
| Allocator.Live | src/main/java/org/shannon/ShardAllocator/Impl/SimpleAllocator.java:108-120 | the index holds exactly the nodes of the universe, each with the shards it owns (none when it has no entry); nodes outside the universe are dropped |
| Allocator.Counts | src/main/java/org/shannon/ShardAllocator/Impl/SimpleAllocator.java:108-120 | each node's load is the number of shards it owns, in the order of the node universe |
| Allocator.Unowned | src/main/java/org/shannon/ShardAllocator/Impl/SimpleAllocator.java:145-148 | the shards to place are exactly the shards of the universe no node owns |
| Allocator.AssignToLeast | src/main/java/org/shannon/ShardAllocator/Impl/SimpleAllocator.java:132-143 | the shard goes to a least-loaded node, from the given source if any; the target gains it, a different source loses it, and no other node changes |
| Allocator.AssignUnowned | src/main/java/org/shannon/ShardAllocator/Impl/SimpleAllocator.java:145-150 | one relocation with no source per unowned shard, in order, each to the then least-loaded node; nobody loses a shard |
| Allocator.AssignUnownedOwns | src/main/java/org/shannon/ShardAllocator/Impl/SimpleAllocator.java:145-150 | after the placements every placed shard has an owner |
| Allocator.AssignUnownedLoad | src/main/java/org/shannon/ShardAllocator/Impl/SimpleAllocator.java:145-150 | placing distinct unowned shards raises the total load by exactly their number |
| Allocator.AssignUnownedTracks | src/main/java/org/shannon/ShardAllocator/Impl/SimpleAllocator.java:145-150 | carrying out the placements on the distribution gives the planner's view |
| Allocator.MoveOne | src/main/java/org/shannon/ShardAllocator/Impl/SimpleAllocator.java:155-157 | a balancing round moves a shard that the most-loaded node owns to a different, least-loaded node; the source loses one and the target gains one, and every owned shard stays owned |
| Allocator.Balance | src/main/java/org/shannon/ShardAllocator/Impl/SimpleAllocator.java:152-159 | the loop ends with every load within the bounds, after exactly as many moves as the larger of excess and deficit, each a transfer between two nodes, losing no shard |
| Allocator.DetermineMoves | src/main/java/org/shannon/ShardAllocator/Impl/SimpleAllocator.java:161-174 | no nodes gives no plan; a total that cannot fit the bounds never balances; otherwise the plan is the placements, then the transfers, leaving every node within the bounds and every shard owned, and carrying it out yields the planned distribution |
| AllocatorProperties.NoMovesIffBalanced | src/main/java/org/shannon/ShardAllocator/Impl/SimpleAllocator.java:161-174 | the plan is empty exactly when every shard is owned and every load already lies within the bounds |
| AllocatorProperties.SumCountsIsUnion | src/main/java/org/shannon/ShardAllocator/Impl/SimpleAllocator.java:108-120 | when no shard has two owners, the loads add up to the number of owned shards |
| AllocatorProperties.ExclusiveOwnershipSpreads | src/main/java/org/shannon/ShardAllocator/Impl/SimpleAllocator.java:161-174 | when no shard has two owners and nobody owns a shard outside the universe, the placements bring the total to the shard count, so the loop always ends |
| AllocatorProperties.AssignUnownedLevel | src/main/java/org/shannon/ShardAllocator/Impl/SimpleAllocator.java:145-150 | placing each shard on a least-loaded node keeps loads that differ by at most one that way |
| AllocatorProperties.LevelNeedsOnlyPlacements | src/main/java/org/shannon/ShardAllocator/Impl/SimpleAllocator.java:161-174 | from loads that differ by at most one, the placements alone balance the nodes, and the plan holds exactly one relocation per unowned shard |
| AllocatorScenarios.BalancedPlansNothing | src/test/java/org/shannon/ShardAllocator/test/SimpleAllocatorTest.java:104-115 | three nodes with three of nine shards each plan no relocation |
| AllocatorScenarios.NewShardPlansOne | src/test/java/org/shannon/ShardAllocator/test/SimpleAllocatorTest.java:117-132 | a tenth shard plans one relocation |
| AllocatorScenarios.NewNodePlansTwo | src/test/java/org/shannon/ShardAllocator/test/SimpleAllocatorTest.java:168-183 | a fourth node plans two relocations |
| AllocatorScenarios.LostNodePlansThree | src/test/java/org/shannon/ShardAllocator/test/SimpleAllocatorTest.java:185-200 | losing the third node plans three relocations |
| AllocatorScenarios.BadDistributionPlansOne | src/test/java/org/shannon/ShardAllocator/test/SimpleAllocatorTest.java:219-234 | a distribution of three, three and two of nine shards plans one relocation |
| AllocatorScenarios.InitialPlansSix | src/test/java/org/shannon/ShardAllocator/test/SimpleAllocatorTest.java:91-102 | three nodes and six unowned shards plan six placements that leave every node with exactly two shards (with `DetermineMoves`, carrying the plan out gives each of the three nodes an entry) |
| AllocatorScenarios.LostShardPlansNothing | src/test/java/org/shannon/ShardAllocator/test/SimpleAllocatorTest.java:134-149 | dropping shard 8 from the universe plans no relocation, where the test expects one |
| AllocatorAsWritten.IndexAsWritten | src/main/java/org/shannon/ShardAllocator/Impl/SimpleAllocator.java:108-120 | as written the index holds exactly the nodes of the universe that have an entry in the distribution, under their shard counts |
| AllocatorAsWritten.IndexAsWrittenMissesNewNodes | src/main/java/org/shannon/ShardAllocator/Impl/SimpleAllocator.java:111-117 | a node of the universe with no entry is missing from the index as written, while the intended index holds it with no shards |
| AllocatorAsWritten.NewNodeIsNeverLoaded | src/main/java/org/shannon/ShardAllocator/Impl/SimpleAllocator.java:108-120 | when a fourth node joins three nodes of three shards, the index as written sees only loads of three, which lie within the bounds, while the intended loads include the newcomer's zero |
| AllocatorAsWritten.MapRemoveAsWritten | src/main/java/org/shannon/ShardAllocator/Impl/SimpleAllocator.java:139 | `Map.remove(key, value)` drops the entry only when the key maps to a value equal to the one given |
| AllocatorAsWritten.RemoveShardIsNoOp | src/main/java/org/shannon/ShardAllocator/Impl/SimpleAllocator.java:139 | removing a shard where the map stores sets never changes the map, while the intended removal takes the shard away |
| AllocatorAsWritten.AssignToLeastAsWritten | src/main/java/org/shannon/ShardAllocator/Impl/SimpleAllocator.java:132-143 | as written the relocation targets the most-loaded node; a missing source throws; otherwise the source's key drops by one, no other key changes, and the distribution is untouched |
| AllocatorAsWritten.UnownedShardThrows | src/main/java/org/shannon/ShardAllocator/Impl/SimpleAllocator.java:141-142 | placing a shard nobody owns throws as written, while the intended planner gives it to a node |
| AllocatorAsWritten.BalancingRoundIsSelfMove | src/main/java/org/shannon/ShardAllocator/Impl/SimpleAllocator.java:134 | a balancing round as written moves the shard from the most-loaded node to itself and leaves the distribution as it was |
| AllocatorAsWritten.SmallestKeyNeverRises | src/main/java/org/shannon/ShardAllocator/Impl/SimpleAllocator.java:152-159 | no round as written raises the smallest key, so once a node is below the floor the loop never ends |
| AllocatorAsWritten.StuckIndex | src/main/java/org/shannon/ShardAllocator/Impl/SimpleAllocator.java:108-120 | with node 0 owning shards 0-4, node 1 shard 5 and node 2 shards 6-8, every shard is owned and the index as written holds keys 5, 1 and 3 against bounds of three and three, so the loop is entered |
| AllocatorAsWritten.StuckRound | src/main/java/org/shannon/ShardAllocator/Impl/SimpleAllocator.java:152-159 | the first round on that index moves a shard of node 0 to node 0 and leaves keys 4, 1 and 3, so the loop condition still holds |

## Left out

- The jam-clearing thread, `open`, `close` and the blocking waits (ConstrainedQueue.java:49-86): these are concurrency. The thread is modelled as one explicit step (`JamStep`). A call that would block is a `None` result. `close` loops while the thread is not alive, which reads inverted; that is not modelled.
- `poll(timeout)` (ConstrainedQueue.java:267-270): without threads, waiting cannot fill the delegate, so it is `poll`.
- `TimeUnit` durations: a timed call that waits for room is modelled as failing when the buffer is full.
- `iterator` and `toArray` (ConstrainedQueue.java:153-198): destructive drains that reduce to `drainTo`, which is modelled.
- `containsAll` and `retainAll` (ConstrainedQueue.java:143-175): they only throw `UnsupportedOperationException`.
- `removeAll` and `retainAll` on the `Constrainer` interface: neither policy implements them.
- The `Constrainer` interface is a record of functions and laws, not a trait.
- `ShardRelocationConstrainer.size()` (ShardRelocationConstrainer.java:128-131): it counts waitlist mappings, which disagrees with the repository's own test of it.
- `ShardRelocationConstrainer.remainingCapacity()` is the constant `Integer.MAX_VALUE`. It has no contract of its own. `ConstrainedQueues.RemainingCapacityOverflows` uses that value.
- Hash-set iteration order: waitlists and universes are sequences. The scan of a waitlist takes the first admissible waiter in sequence order.
- Allocator.MoveOne: takes any shard the source owns and the target lacks. The code takes the first shard of the source's set in hash order (SimpleAllocator.java:157), which can be one the target also owns.
- `allocateAsync`, the allocator's `close`, `discoverDistribution`, the skip of an empty plan (SimpleAllocator.java:72-106) and split-brain resolution: executors, futures and calls into code not part of this model.
- `DistributionDiscoverer`, `ShardRelocator`, `SplitBrainResolver` and `ShardAllocator` hold no logic.
- `Math.ceil` and `Math.floor` on doubles are integer division.
- Integer width of sizes and counts: unbounded, except `remainingCapacity`, where the 32-bit wrap-around matters and is written out.
- Relocations that take away a shard that left the universe: the code plans none. `AllocatorScenarios.LostShardPlansNothing` proves the model plans nothing for the lost-shard test, which expects one relocation.
- A plan whose total load cannot fit the bounds (a shard owned twice, or a shard owned outside the universe): the code loops forever. The model reports `NeverBalances` instead of diverging.
- Cardinality.NotifyReleasedSpec: requires a matched release (`released > 0`); the unmatched case is shown separately by `UnmatchedReleaseUnderflows`.
- NodePolicy.ConstrainedKeepsValid: requires distinct endpoints, because a self-move takes two slots after one check (`SelfMoveOvershoots`).
- NodePolicy.NotifyReleasedConservesCounts: requires distinct endpoints that are both active, as after an admission.
- ConstrainedQueues.RemoveItem: states only the success direction for the jam and the delegate. `RemoveItemSpec` gives the if-and-only-if under the policy laws.
- Allocator.DetermineMoves: requires distinct universes, as the code's hash sets guarantee.

## Findings

| source | as written | input that shows it | evidently intended | confidence | as-written member | corrected member |
|---|---|---|---|---|---|---|
| src/main/java/org/shannon/ShardAllocator/Impl/SimpleAllocator.java:111-117 | only nodes with a distribution entry are indexed | nodes 0-3 where 0-2 own three of nine shards each and 3 has no entry | a newly joined node is indexed with load zero, and two relocations are planned | not executed | AllocatorAsWritten.NewNodeIsNeverLoaded | AllocatorScenarios.NewNodePlansTwo |
| src/main/java/org/shannon/ShardAllocator/Impl/SimpleAllocator.java:141-142 | `fromEntry` is dereferenced outside the null check | any shard of the universe that nobody owns | the shard is placed on a least-loaded node | not executed | AllocatorAsWritten.UnownedShardThrows | Allocator.AssignToLeast |
| src/main/java/org/shannon/ShardAllocator/Impl/SimpleAllocator.java:134 | the target is `getLast`, the most-loaded node | a balancing round, whose source is that same most-loaded node | the shard moves to a least-loaded node | not executed | AllocatorAsWritten.BalancingRoundIsSelfMove | Allocator.MoveOne |
| src/main/java/org/shannon/ShardAllocator/Impl/SimpleAllocator.java:152-159 | the loop never raises any key | nodes 0-2 and shards 0-8, node 0 owning 0-4, node 1 owning 5, node 2 owning 6-8: keys 5, 1, 3 against bounds 3..3, and key 1 never rises | each round raises the least-loaded node, so the loop ends | not executed | AllocatorAsWritten.StuckRound | Allocator.Balance |
| src/main/java/org/shannon/ShardAllocator/Impl/SimpleAllocator.java:139 | `remove(node, shard)` on a map of sets matches no entry | any balancing move | the source lets go of the shard | not executed | AllocatorAsWritten.RemoveShardIsNoOp | Distributions.RemoveMapping |
| src/main/java/org/shannon/ShardAllocator/ShardRelocation.java:55 | `eq` calls `l.equals(r)` when `l` is null and `r` is not | comparing (0→1) with (null→1) | false | not executed | Relocations.EqualsAsWrittenThrowsOnAbsentSource | Relocations.Equals |
| src/main/java/org/shannon/ConstrainedQueue/ConstrainedQueue.java:281 | the `int` sum overflows before it is widened to `long` | the node policy's room of `Integer.MAX_VALUE` plus a delegate with a free place | the room is capped at `Integer.MAX_VALUE` | not executed | ConstrainedQueues.RemainingCapacityOverflows | ConstrainedQueues.RemainingCapacity |
