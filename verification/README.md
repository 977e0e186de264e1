# Replica synchronisation ring and logical clocks, in Dafny

This project models the pure logic of four Go exercises about distributed
coordination:

- **Ring and membership utilities** (`replica-synchronization/node/node.go`).
  These cover successor lookup with wrap-around, first-index lookup,
  allocation of the smallest free id, slot deletion and slot insertion.
- **The ring protocol** (`client.go`, `coordinator.go`, `message.go` in the
  same package). Each RPC handler's locked section becomes one pure step, a
  state × message → state × message function. The successor walk after it
  asks a `reachable: int -> bool` oracle in place of dialling.
  - The election is a Chang–Roberts-style maximum-id discovery lap followed
    by an announce lap.
  - The new-node discovery starts at the coordinator.
  - The coordinator pushes its replica to every other member.
- **Lamport clocks** (`lamports-clock/client`, `lamports-clock/server`).
- **Vector clocks** (`vector-clock/client`, `vector-clock/server`). The
  server owns the last slot of every clock.

Several things become parameters:

- Time is an integer in nanoseconds.
- The servers' coin flip is a boolean `delivered`.
- The vector-clock message's `IsEmpty()` answer is a boolean.

Modules follow the Go files:

| module | file | what it holds |
|---|---|---|
| `Nodes` | `node.dfy` | the node record, message-kind constants and the ring/directory utilities |
| `RingTheory` | `ring_theory.dfy` | ring closure of the successor relation |
| `Messages` | `message.dfy` | the envelope and `IsEmpty` |
| `Client` | `client.dfy` | the follower handlers, the successor walk and the watchdog |
| `Coordinator` | `coordinator.dfy` | registration, the discovery launch, the announce launch and the replica push |
| `Election` | `election.dfy` | invariants over chains of steps, and the cross-role lemmas |
| `Scenarios` | `scenarios.dfy` | the two worked scenarios (an election after the coordinator dies, a newcomer joining), evaluated on the model |
| `Fanout` | `fanout.dfy` | Go's `max` and the shared "every channel but the sender's" loop |
| `Lamport` | `lamport.dfy` | Lamport clock rules |
| `VectorClock` | `vector_clock.dfy` | vector clock rules |
| `Text` | `text.dfy` | Sprintf text helper |
| `Wrappers` | `wrappers.dfy` | `Option` helper |

Where the code's comments or the expected behaviour and the code itself
disagree, the model follows the code:

- **Followers never prune a dead successor.** `propagateToSuccessor`
  swallows call errors. A dial error does not contain the word
  "coordinator", so the retry loop goes on to the next successor without
  pruning and without a lap bound. `Client.SuccessorWalk` therefore carries
  a fuel bound.
- **The coordinator prunes by index.** Only the coordinator's discovery
  launch prunes, and it passes the id to `deleteElement`, which expects an
  index (see Findings). `SynchronizeReplica` prunes nothing.
- **Registration hands over no replica.** `RegisterNode` replies with a bare
  ACK.
- **Followers insert before their believed coordinator.** A follower places
  a newcomer at the index of its own believed `CoordinatorId`.
- **`findIndex` does not exist.** `client.go:75` calls `findIndex`, but only
  `FindIndex` exists, so the file does not compile as written. The model uses
  `FindIndex` and requires the believed coordinator to be in the ring.
  Otherwise `slices.Insert` receives index -1 and panics.
- **The election scenario ends with ring [1, 0].** After node 2 dies on
  ring [0, 1, 2] and node 0 starts an election, the survivors hold ring
  `[1, 0]`. This is the same cycle as `[0, 1]`, starting at the winner.
- **A repeated promotion returns a zero reply.** `BecomeCoordinator` on an
  already-promoted node returns before writing its reply, so the reply stays
  the zero `Message`.
- **A coordinator missing from its own ring panics on the next admission.**
  `AdmitNewcomer` returns `None` when `FindIndex` gives -1, because
  `slices.Insert` panics on that index, and the unrecovered panic ends the
  coordinator process. The as-written prune can reach this state (see
  Findings).
- **The coordinator's own `CoordinatorId` is not updated.**
  `InitiateRingUpdate` stamps the coordinator's id on the forwarded envelope
  only.

## Model

| member | source | states |
|---|---|---|
| Nodes.FindIndex | replica-synchronization/node/node.go:153-160 | -1 exactly when the element is absent; otherwise an index holding the element with no earlier slot holding it (the first occurrence) |
| Nodes.FindSuccessor | replica-synchronization/node/node.go:135-150 | -1 when the ring has at most one member or the id is absent; otherwise the id one slot after the id's first occurrence, wrapping from the last slot to slot 0; any other result is a ring member |
| Nodes.FirstFreeFrom | replica-synchronization/node/node.go:172-176 | the scan stops at the first integer at or above its start that is not a key, and every integer it passed is a key |
| Nodes.Contains | replica-synchronization/node/node.go:163-168 | True exactly for directory keys; for any other id, a map read yields the zero address. |
| Nodes.GetUniqueId | replica-synchronization/node/node.go:163-177 | the result is ≥ 1 and is not a key (as `contains` decides), and every j in [1, result) is a key, so it is the smallest free positive id and 0 is never returned |
| Nodes.DeleteElement | replica-synchronization/node/node.go:180-182 | for an index in range, the length drops by one, the slots before the index are kept, and the slots after it shift down by one in order |
| Nodes.Insert | replica-synchronization/node/coordinator.go:84 | slices.Insert for an index in [0, len]: the length grows by one, the new id sits at the index, and the other slots keep their order around it |
| Nodes.DeleteUndoesInsert | replica-synchronization/node/node.go:180-182 | deleting the slot just inserted restores the original ring |
| RingTheory.SuccessorOfMember | replica-synchronization/node/node.go:140-147 | on distinct ids with ≥ 2 members, the successor of slot i's id is the next slot's id (wrapping), and it is never the id itself |
| RingTheory.IteratePosition | replica-synchronization/node/node.go:140-147 | k ≤ len successor hops from slot i reach slot i + k, taken modulo len |
| RingTheory.RingClosure | replica-synchronization/node/node.go:140-147 | on distinct ids, len hops from any member return to it, and the len members met on the way are pairwise distinct and include every member |
| RingTheory.DeleteKeepsOthers | replica-synchronization/node/node.go:180-182 | on distinct ids, deleting a slot removes exactly the id in it, keeps every other id, and keeps ids distinct |
| RingTheory.InsertBeforePrecedes | replica-synchronization/node/coordinator.go:84 | inserting a new id at the index of a target makes the target the new id's successor, adds only the new id, and keeps ids distinct |
| Messages.ZeroMessageIsEmpty | replica-synchronization/node/message.go:14-16 | the zero-valued message (empty type, sender 0, nil payload, directory and ring) is empty |
| Messages.EmptinessCases | replica-synchronization/node/message.go:14-16 | a message is empty iff it equals the zero message up to its coordinator id; a non-empty type, a non-zero sender, or a present zero-length collection makes it non-empty |
| Messages.CoordinatorIdIgnored | replica-synchronization/node/message.go:14-16 | changing the coordinator id never changes emptiness |
| Messages.AckIsNotEmpty | replica-synchronization/node/message.go:14-16 | every ACK reply counts as non-empty |
| Messages.IsEmpty | replica-synchronization/node/message.go:14-16 | A message is empty exactly when it equals the zero message, except possibly in its coordinator id. |
| Client.DiscoverStep | replica-synchronization/node/client.go:72-90 | a new-node discovery inserts the newcomer at the index of the believed coordinator and keeps the candidate. An election discovery makes the candidate the larger of the old one and the own id, and restarts ring and directory when overtaken. Either way self is appended and its address recorded. When not overtaken, every address already collected is kept unchanged |
| Client.InvokeElection | replica-synchronization/node/client.go:25-38 | The starting envelope is a DISCOVER from the node, naming itself as candidate, with a present but empty ring and directory and no payload, so it is not empty. |
| Client.SuccessorWalk | replica-synchronization/node/client.go:92-118 | a delivery goes to a reachable ring member that is neither -1 nor the candidate |
| Client.WalkFollowsSuccessors | replica-synchronization/node/client.go:93-118 | the k-th attempt targets the k-fold successor of the start, and every earlier target was passed over. The walk delivers at the first reachable target and completes exactly at the first -1 or candidate |
| Client.HandleRingCompletion | replica-synchronization/node/client.go:244-250 | a new-node lap goes to the coordinator for InitiateRingUpdate; any other lap goes to the candidate for UpdateRing and promotion; the envelope is passed on unchanged |
| Client.DiscoverRing | replica-synchronization/node/client.go:69-125 | the walk runs from the node's id over its post-step ring with the forwarded candidate as stop mark. It never delivers to the candidate, and the completion handler runs exactly when the walk completes. The reply is an ACK with the own id |
| Client.AdoptRing | replica-synchronization/node/client.go:132-137 | directory, ring and coordinator id are taken wholesale from the announce; the replica, id and promotion flag are untouched |
| Client.AdoptRingIdempotent | replica-synchronization/node/client.go:132-137 | adopting the same announce twice equals adopting it once |
| Client.UpdateRing | replica-synchronization/node/client.go:129-171 | after adoption, the announce is walked on over the adopted ring; a delivery never goes to the announced coordinator and stays within the adopted ring |
| Client.InvokeSynchronization | replica-synchronization/node/client.go:48-59 | the replica is replaced wholesale by the payload and nothing else in the node changes; the reply is a non-empty ACK carrying the node's own id |
| Client.BecomeCoordinator | replica-synchronization/node/client.go:194-204 | afterwards the flag is set; a first promotion names the node itself coordinator and acknowledges; an already-promoted node is left unchanged with a zero reply |
| Client.BecomeCoordinatorIdempotent | replica-synchronization/node/client.go:198-204 | a second promotion changes nothing |
| Client.WatchdogStaggered | replica-synchronization/node/client.go:302-313 | thresholds (6 s + id) strictly increase with the id: if a follower fires, every follower with a smaller id would fire after the same silence, and a promoted node never fires |
| Client.CheckForTimeout | replica-synchronization/node/client.go:299-318 | A promoted node never fires. A follower fires exactly when the silence exceeds (6 + id) s, so a follower with id ≥ 0 never fires within 6 s of its last sync. |
| Coordinator.AdmitNewcomer | replica-synchronization/node/coordinator.go:82-84 | It panics (`None`) exactly when the coordinator is missing from its own ring. Otherwise it records the newcomer's address under its id and inserts the newcomer at the coordinator's first index, keeping every other slot in order, so the ring grows by exactly one; nothing else changes. |
| Coordinator.NewcomerPrecedesCoordinator | replica-synchronization/node/coordinator.go:83-84 | On distinct ids holding the coordinator, admission succeeds and the newcomer's successor is the coordinator; the newcomer is the only member added and ids stay distinct. |
| Coordinator.SeedDiscovery | replica-synchronization/node/coordinator.go:86-101 | the seeded envelope copies kind and newcomer id from the request, has ring [self], maps self to the address stored under CoordinatorId, and names self candidate |
| Coordinator.PruneSuccessor | replica-synchronization/node/coordinator.go:113-116 | the failed id leaves the directory, and the ring loses the slot whose index equals that id; an id outside the index range is the panic |
| Coordinator.PruneSuccessorById | replica-synchronization/node/coordinator.go:112-116 | the repair the comment describes: the failed id leaves ring and directory, every other member stays, and ids stay distinct |
| Coordinator.PruneByIndexMissesTarget | replica-synchronization/node/coordinator.go:114 | on ring [0, 2, 1], the as-written repair keeps dead node 2 and drops live node 1; on ring [0, 5] it panics; the by-id repair yields [0, 1] |
| Coordinator.PruneCanDropCoordinator | replica-synchronization/node/coordinator.go:84-116 | On ring [3, 0, 1, 2] of coordinator 0 with node 1 down, the launch deletes the coordinator's own slot. This leaves [3, 1, 2] and sends to node 2, and the next admission panics. |
| Coordinator.ByIdPruneKeepsCoordinator | replica-synchronization/node/coordinator.go:112-116 | On distinct ids, the by-id repair of any other id keeps the coordinator in its ring, so a later admission succeeds. |
| Coordinator.PropagateDiscovery | replica-synchronization/node/coordinator.go:91-122 | `last` is `from` when nothing failed and the last failed id otherwise. The launch stops without sending exactly when the successor of `last` in the final ring is -1 or self, and a send goes to that successor, whose call succeeded. Every failed id failed its call and left the directory, and each failure costs exactly one ring slot. |
| Coordinator.LaunchFollowsSuccessors | replica-synchronization/node/coordinator.go:91-116 | The first failed id is the successor of `from`, and each later one is the successor of the one before in the ring as pruned so far, each a valid slot index when pruned. The final ring is the start ring with deleteElement applied with each failed id in turn. |
| Coordinator.InitiateRingDiscovery | replica-synchronization/node/coordinator.go:73-123 | It panics exactly when the coordinator is missing from its own ring. Otherwise the launch walks from the coordinator's id over the admitted ring and sends the seed built after admission. |
| Coordinator.RegisterNode | replica-synchronization/node/coordinator.go:17-27 | For every coordinator state, the handler writes an ACK carrying the coordinator's id and no replica before the detached new-node discovery runs, and that discovery is the one started from the request. A panic in the discovery ends the whole coordinator process, so the ACK arrives only if it was sent first. |
| Coordinator.InitiateRingUpdate | replica-synchronization/node/coordinator.go:127-161 | ring and directory are adopted wholesale; nothing is forwarded exactly when the successor is -1 or self (the reply then stays zero); otherwise the envelope, stamped with the coordinator's id, goes to the successor |
| Coordinator.SyncTargets | replica-synchronization/node/coordinator.go:34-41 | nobody when the directory has exactly one entry; otherwise every directory key except CoordinatorId, and never anything outside the directory |
| Coordinator.SyncMessage | replica-synchronization/node/coordinator.go:49-53 | type SYNC, the coordinator's id, and its replica as payload |
| Election.HighestId | replica-synchronization/node/client.go:77-83 | the candidate after a chain is at least the start and every hop's id, and is one of them |
| Election.RunDiscovery | replica-synchronization/node/client.go:86-99 | an election envelope stays an election envelope with a directory through any chain of hops |
| Election.ElectionStart | replica-synchronization/node/client.go:25-38 | the initiator's own step on InvokeElection's envelope yields the lap [self] with itself as candidate, satisfying the election invariant |
| Election.DiscoverPreservesElection | replica-synchronization/node/client.go:77-88 | one hop keeps the invariant: the ring is non-empty and headed by the candidate, every id is ≤ the candidate, and the directory keys are the ring ids. The new candidate is max(old, id), so it never decreases; overtaking restarts the ring at [id] |
| Election.ElectionChain | replica-synchronization/node/client.go:77-99 | along any chain of election hops the invariant holds and the candidate is the highest id met |
| Election.ElectionElectsHighest | replica-synchronization/node/client.go:25-99 | an election from an initiator through any hops elects the maximum of all their ids, which heads the collected ring |
| Election.SeedIsWellFormed | replica-synchronization/node/coordinator.go:86-101 | the new-node seed is a well-formed lap headed by the coordinator |
| Election.NewNodeHop | replica-synchronization/node/client.go:74-88 | a new-node hop keeps the lap well formed, leaves the candidate unchanged, and appends the node to the envelope's ring |
| Election.FollowerPlacesNewcomer | replica-synchronization/node/client.go:74-75 | at a follower with distinct ids, the inserted newcomer's successor is the believed coordinator |
| Election.AnnounceInstallsCoordinator | replica-synchronization/node/coordinator.go:131-154 | a follower adopting the coordinator's announce gets the coordinator's new ring and directory and names the coordinator; it never forwards back to the coordinator |
| Election.AnnounceAndPromoteWinner | replica-synchronization/node/client.go:272-296 | the winner, after adopting the finished lap and being promoted, is flagged coordinator, names itself, and holds the lap's ring |
| Election.SyncConverges | replica-synchronization/node/coordinator.go:40-54 | every sync target ends up with exactly the coordinator's replica, acknowledges with its own id, and is not the coordinator |
| Scenarios.RingFacts | replica-synchronization/node/node.go:135-150 | successors on ring [0, 1, 2] are 0→1→2→0 |
| Scenarios.Hop0 | replica-synchronization/node/client.go:25-38 | node 0 starts the election, collects [0] and reaches node 1 |
| Scenarios.Hop1 | replica-synchronization/node/client.go:77-118 | node 1 overtakes, restarts the lap at [1], skips the dead node 2 and reaches node 0 |
| Scenarios.Hop2 | replica-synchronization/node/client.go:86-118 | node 0 appends itself ([1, 0]); its successor is the candidate, so node 1 is announced and promoted |
| Scenarios.Announce | replica-synchronization/node/client.go:129-171 | the announce leaves ring [1, 0] and coordinator 1 on both survivors, and only node 1 is promoted |
| Scenarios.NewcomerJoins | replica-synchronization/node/coordinator.go:82-101 | node 3 joining through coordinator 0 is placed just before 0 ([3, 0, 1, 2]) by the coordinator and by a follower |
| Fanout.Recipients | lamports-clock/server/server.go:54-55 | The result lists, in strictly ascending order, exactly the indices in [0, channels) other than the sender's, so it has channels - 1 entries when the sender is one of them and channels entries otherwise. |
| Fanout.Max | lamports-clock/server/server.go:31 | The result is at least both arguments and equals one of them. |
| Lamport.SendMessage | lamports-clock/client/client.go:18-19 | the clock rises by exactly 1; the message carries the new clock, the greeting and the client's id |
| Lamport.ReceiveMessage | lamports-clock/client/client.go:29 | the new clock is max(local, message) + 1, so it strictly exceeds both |
| Lamport.ClockAdvancesPerEvent | lamports-clock/client/client.go:18-29 | any sequence of n sends and receives raises the clock by at least n |
| Lamport.ClockNeverDecreases | lamports-clock/client/client.go:18-29 | along any history, a longer prefix never shows a smaller clock |
| Lamport.ServerReceive | lamports-clock/server/server.go:31 | the server clock becomes max(server, message) + 1, strictly above both |
| Lamport.SendToOthers | lamports-clock/server/server.go:43-66 | a dropped forward ticks once. Otherwise every channel but the sender's gets one copy, in channel order, and the clock ticks once per copy. Copy k carries clock + k + 1 (strictly increasing), the original text and the original sender |
| Lamport.HandleClientMessage | lamports-clock/server/server.go:26-40 | A zero-valued message is received but not forwarded. Any other message is received, and then dropped with one tick or forwarded. When forwarded, copy k goes to the k-th recipient channel and carries the received clock + k + 1, the text and the sender. |
| VectorClock.VectorMAX | vector-clock/client/client.go:44-49 | with the second clock at least as long, the result has the first clock's length, and each slot is ≥ both inputs and equal to one of them (their max) |
| VectorClock.CausalityDetection | vector-clock/client/client.go:52-59 | true exactly when every slot of the message clock is ≤ the local clock's slot |
| VectorClock.VectorMaxAlgebra | vector-clock/client/client.go:44-49 | VectorMAX(a, a) = a, and VectorMAX is commutative on equal-length clocks |
| VectorClock.CausalityReflexive | vector-clock/client/client.go:52-59 | a clock is below itself, and an empty message clock is below any clock |
| VectorClock.MergeDominates | vector-clock/client/client.go:36-59 | after merging, both the message clock and the old local clock are below the merged clock |
| VectorClock.SendMessage | vector-clock/client/client.go:18-19 | only the client's own slot changes, by exactly +1; the message carries the new clock |
| VectorClock.ReceiveMessage | vector-clock/client/client.go:31-37 | the flag is computed against the pre-merge clock; other slots become the max; the own slot becomes max + 1, strictly above both inputs' values there |
| VectorClock.ServerReceive | vector-clock/server/server.go:31-37 | the flag is computed against the pre-merge clock; every slot ends ≥ both inputs, and the last (server) slot ends at max + 1; the length is kept |
| VectorClock.SendToOthers | vector-clock/server/server.go:49-73 | a dropped forward raises only the last slot, by 1. Otherwise every channel but the sender's gets one copy in channel order, and only the last slot rises, once per copy. Copy k carries that clock, the original text and the original sender |
| VectorClock.HandleClientMessage | vector-clock/server/server.go:27-46 | The flag is taken against the pre-merge clock. Slots other than the last end at the merge's max, and the last slot ends above both inputs. An empty message is not forwarded. Otherwise the message is dropped with one tick of the last slot, or forwarded: copy k goes to the k-th recipient channel and carries the received clock with the last slot raised by k + 1, the text and the sender. |
| VectorClock.SlotOwnership | vector-clock/main.go:24-28 | with NumNodes client slots plus the server's, a client send never moves the server slot, and server forwarding moves only its own slot |

## Left out

- **RPC transport.** Dial, call, `ServeConn`, the listeners, `StartNode`,
  `StartCoordinator`, `RegisterWithCoordinator` and the handler-set swap in
  `BecomeCoordinator` are network plumbing. The handler swap and the start
  of the sync loop are not modelled. `reachable` is an oracle: in the
  follower walk it means the dial succeeded, because that walk ignores call
  errors. In `Coordinator.PropagateDiscovery` it means the dial and the
  DiscoverRing call both returned no error, because `propagateToSuccessor`
  fails on either (coordinator.go:166-176) and the launch prunes on that
  error.
- **Concurrency.** Goroutines, the mutex and channels are not modelled.
  Each handler's locked section is one atomic step. In the clock servers,
  one iteration of a client's `handleClientChannels` (the locked receive and
  every separately locked per-copy tick) is one uninterrupted step, although
  the per-client goroutines run concurrently. So "copy k carries the
  received clock + k + 1" in `Lamport.HandleClientMessage` and
  `VectorClock.HandleClientMessage` holds only when no other client's ticks
  come in between. The sync loop's
  unlocked reads of the directory are not modelled, and neither is a ring
  changing while a walk runs.
- **Time.** Sleeps, `time.Now` and `printWithDelay` are left out. Time is an
  integer in nanoseconds.
- **Randomness.** `modifyReplica` and the servers' coin flips are left out;
  the drop decision is a boolean parameter.
- **Persistence and process lifecycle.** `ReadNodesList`,
  `ConvertMapStringToInt`, `replica-synchronization/main.go` and signal
  handling are JSON, disk and OS glue.
- **Other programs.** `lamports-clock/main.go` and `vector-clock/main.go`
  are channel wiring; only the slot count of `vector-clock/main.go` is used.
  Everything under `custom-bully-algorithm` is left out.
- **Map iteration order.** `SynchronizeReplica` visits members in map
  iteration order; the model gives its targets as a set.
- **Slice aliasing.** `VectorMAX` mutates its first argument in place, and
  a message clock shares the backing array with the clock it came from.
  The model uses value semantics, so every clock in a message is a snapshot.
- **The message type of the clock programs.** `vector-clock/client/message.go`
  and `lamports-clock/client/message.go` are not part of this model. The
  Lamport zero test follows the three fields the code constructs, and the
  vector `IsEmpty()` answer is a parameter.
- **nil and empty after gob decoding.** The RPC codec may turn an empty
  slice or map into nil. Messages are modelled as values, and a nil
  collection adopted into node state reads as empty.
- **Integer width.** Go `int` is 64-bit and `time.Duration` multiplication
  can overflow; clocks, ids and thresholds here are unbounded integers.
- Client.SuccessorWalk: its result is stated only up to a `fuel` bound. The
  Go loop has no lap bound and never prunes, so with the candidate absent
  from the ring and every successor unreachable it retries forever.
  `OutOfFuel` stands for "still retrying".
- Client.DiscoverRing: shares the fuel bound of `SuccessorWalk`. The step
  also requires the message's directory to be present unless it is reset,
  because a nil map write panics in Go.
- Client.UpdateRing: shares the fuel bound of `SuccessorWalk`.

## Findings

| source | as written | input that shows it | evidently intended | confidence | as-written member | corrected member |
|---|---|---|---|---|---|---|
| replica-synchronization/node/coordinator.go:114 | `deleteElement(cn.Node.Ring, successorId)` passes the failed node's id where `deleteElement` expects an index | ring [0, 2, 1] with node 2 unreachable: the ring becomes [0, 2], so dead node 2 stays and live node 1 is dropped while its directory entry remains. Ring [0, 5] with node 5 unreachable: index 5 is out of range and the goroutine panics | remove the failed id itself from the ring, as the comment at coordinator.go:112 says | high (not executed) | Coordinator.PruneByIndexMissesTarget | Coordinator.PruneSuccessorById |
| replica-synchronization/node/coordinator.go:114 | the same index-for-id deletion can delete the coordinator's own slot, after which `FindIndex(cn.Node.Id)` at coordinator.go:84 is -1 and `slices.Insert` panics on the next registration; the panic is unrecovered in a goroutine, so it ends the whole coordinator process | coordinator 0 with ring [3, 0, 1, 2] (just after node 3 joined) and node 1 down: slot 1 holds 0, so the ring becomes [3, 1, 2], and the next admission panics and the coordinator process exits | only the failed id leaves the ring, so the coordinator keeps its slot | high (not executed) | Coordinator.PruneCanDropCoordinator | Coordinator.ByIdPruneKeepsCoordinator |

The discovery launch `Coordinator.PropagateDiscovery` keeps the as-written
repair (`Coordinator.PruneSuccessor`) so that it models the code. The
corrected repair is proved on its own: the failed id leaves both ring and
directory, every other member stays, and ids stay distinct. The panic that
the as-written repair can lead to is kept as the `None` outcome of
`Coordinator.AdmitNewcomer` and the `InsertPanic` outcome of
`Coordinator.InitiateRingDiscovery`; on a ring of distinct ids, the by-id
repair of any other id keeps the coordinator's slot, so the next admission
succeeds.
