/** The coordinator role of coordinator.go: registration, the new-node
    discovery it launches, the announce it launches, and the replica push. */
module Coordinator {
  import opened Wrappers
  import opened Nodes
  import opened Messages
  import opened RingTheory

  /** InitiateRingDiscovery's locked admission: the newcomer's address (from
      the directory it sent) is recorded under its id, and the newcomer is
      inserted at the coordinator's own index, i.e. just before it. A
      coordinator missing from its own ring makes FindIndex return -1, and
      slices.Insert panics on that index: `None`. */
  function AdmitNewcomer(node: Node, request: Message): (r: Option<Node>)
    ensures r.None? <==> node.id !in node.ring
    ensures r.Some? ==> r.value.clientList == node.clientList[request.nodeId := Lookup(request.clientList.GetOr(map[]), request.nodeId)]
    ensures r.Some? ==> r.value.ring == Insert(node.ring, FindIndex(node.ring, node.id), request.nodeId)
    ensures r.Some? ==> |r.value.ring| == |node.ring| + 1
    ensures r.Some? ==> r.value == node.(clientList := r.value.clientList, ring := r.value.ring)
  {
    var i := FindIndex(node.ring, node.id);
    if i == -1 then None
    else Some(node.(
      clientList := node.clientList[request.nodeId := Lookup(request.clientList.GetOr(map[]), request.nodeId)],
      ring := Insert(node.ring, i, request.nodeId)))
  }

  /** On a ring of distinct ids holding the coordinator, the admitted newcomer
      becomes the coordinator's predecessor: its successor is the coordinator,
      it is the only new member, and ids stay distinct. */
  lemma NewcomerPrecedesCoordinator(node: Node, request: Message)
    requires Distinct(node.ring) && node.id in node.ring && request.nodeId !in node.ring
    ensures AdmitNewcomer(node, request).Some?
    ensures FindSuccessor(AdmitNewcomer(node, request).value.ring, request.nodeId) == node.id
    ensures Distinct(AdmitNewcomer(node, request).value.ring)
    ensures forall x :: x in AdmitNewcomer(node, request).value.ring <==> x in node.ring || x == request.nodeId
    ensures request.nodeId in AdmitNewcomer(node, request).value.clientList
  {
    InsertBeforePrecedes(node.ring, node.id, request.nodeId);
  }

  /** The envelope InitiateRingDiscovery sends around (built from the
      admitted state): the request's kind and newcomer id, a ring holding only
      the coordinator, a directory mapping the coordinator to the address
      stored under its believed coordinator id, and itself as coordinator. */
  function SeedDiscovery(node: Node, request: Message): (m: Message)
    ensures m.msgType == request.msgType && m.nodeId == request.nodeId
    ensures m.ring == Some([node.id]) && m.coordinatorId == node.id
    ensures m.clientList == Some(map[node.id := Lookup(node.clientList, node.coordinatorId)])
    ensures m.payload.None?
  {
    Message(request.msgType, request.nodeId, None, Some(map[node.id := Lookup(node.clientList, node.coordinatorId)]), Some([node.id]), node.id)
  }

  /** The repair after a failed propagation: the failed id leaves the
      directory, and deleteElement is applied to the ring with that id used as
      an INDEX. `None` is the index-out-of-range panic. */
  function PruneSuccessor(node: Node, successorId: int): (r: Option<Node>)
    ensures r.Some? <==> 0 <= successorId < |node.ring|
    ensures r.Some? ==> r.value.clientList == node.clientList - {successorId}
    ensures r.Some? ==> r.value.ring == DeleteElement(node.ring, successorId) && |r.value.ring| == |node.ring| - 1
    ensures r.Some? ==> r.value == node.(clientList := r.value.clientList, ring := r.value.ring)
  {
    if 0 <= successorId < |node.ring|
    then Some(node.(ring := DeleteElement(node.ring, successorId), clientList := node.clientList - {successorId}))
    else None
  }

  /** The evidently intended repair: remove the failed id itself from both the
      ring and the directory. */
  function PruneSuccessorById(node: Node, successorId: int): (r: Node)
    requires Distinct(node.ring)
    ensures successorId !in r.ring && successorId !in r.clientList
    ensures forall x :: x in r.ring <==> x in node.ring && x != successorId
    ensures Distinct(r.ring)
    ensures r.clientList == node.clientList - {successorId}
    ensures r == node.(clientList := r.clientList, ring := r.ring)
  {
    var i := FindIndex(node.ring, successorId);
    var ring := if i == -1 then node.ring else DeleteElement(node.ring, i);
    assert (forall x :: x in ring <==> x in node.ring && x != successorId) && Distinct(ring) by {
      if i != -1 { DeleteKeepsOthers(node.ring, i); }
    }
    node.(ring := ring, clientList := node.clientList - {successorId})
  }

  /** As written, the repair deletes the wrong slot: on ring [0, 2, 1] the
      unreachable node 2 stays in the ring while live node 1 is dropped (its
      directory entry survives, so ring and directory disagree), and on ring
      [0, 5] the unreachable node 5 makes deleteElement panic. The by-id repair
      drops exactly node 2. */
  lemma PruneByIndexMissesTarget()
    ensures var n := Node(0, [], map[0 := "a", 1 := "b", 2 := "c"], [0, 2, 1], 0);
            PruneSuccessor(n, 2) == Some(n.(ring := [0, 2], clientList := map[0 := "a", 1 := "b"])) &&
            PruneSuccessorById(n, 2).ring == [0, 1]
    ensures PruneSuccessor(Node(0, [], map[0 := "a", 5 := "f"], [0, 5], 0), 5).None?
  {
    var n := Node(0, [], map[0 := "a", 1 := "b", 2 := "c"], [0, 2, 1], 0);
    assert n.clientList - {2} == map[0 := "a", 1 := "b"];
    assert DeleteElement([0, 2, 1], 2) == [0, 2];
    assert FindIndex([0, 2, 1], 2) == 1;
    assert DeleteElement([0, 2, 1], 1) == [0, 1];
  }

  /** As written, the repair can delete the coordinator itself. After node 3
      joins coordinator 0 the ring is [3, 0, 1, 2]; if node 1 is down, the
      launch deletes slot 1, which holds the coordinator, leaving [3, 1, 2]
      with dead node 1 still in it, and hands the envelope to node 2. The next
      admission at this coordinator then panics in slices.Insert. */
  lemma PruneCanDropCoordinator()
    ensures var n := Node(0, [], map[0 := "a", 1 := "b", 2 := "c", 3 := "d"], [3, 0, 1, 2], 0);
            var l := PropagateDiscovery(n, 0, x => x != 1);
            && l.failed == [1] && l.result == SentTo(2)
            && l.node.ring == [3, 1, 2] && 0 !in l.node.ring
            && AdmitNewcomer(l.node, Message(NDISCOVER, 4, None, Some(map[4 := "e"]), None, 0)).None?
  {
    var n := Node(0, [], map[0 := "a", 1 := "b", 2 := "c", 3 := "d"], [3, 0, 1, 2], 0);
    assert FindIndex([3, 0, 1, 2], 0) == 1;
    assert DeleteElement([3, 0, 1, 2], 1) == [3, 1, 2];
    assert FindIndex([3, 1, 2], 1) == 1;
  }

  /** The by-id repair never removes a member other than the failed one, so
      the coordinator keeps its own slot whenever it was not the failed id,
      and a later admission succeeds. */
  lemma ByIdPruneKeepsCoordinator(node: Node, successorId: int, request: Message)
    requires Distinct(node.ring) && node.id in node.ring && successorId != node.id
    ensures node.id in PruneSuccessorById(node, successorId).ring
    ensures AdmitNewcomer(PruneSuccessorById(node, successorId), request).Some?
  {
  }

  /** How the discovery launch ended. */
  datatype Propagation =
    | SentTo(target: int)    // a successor accepted the envelope
    | NoSuccessor            // successor -1 or the coordinator itself: nothing sent
    | IndexPanic(index: int) // deleteElement was handed an out-of-range index

  /** The coordinator's state after the launch loop, the position the last
      successor was computed from, the ids whose propagation failed in order,
      and the ending. */
  datatype Launch = Launch(node: Node, last: int, failed: seq<int>, result: Propagation)

  /** The ring after deleteElement has been applied with each id of `ids`
      in turn, as written: the id is used as a slot index. It stops at the
      first index out of range, where Go would have panicked. */
  function DeleteSlots(ring: seq<int>, ids: seq<int>): seq<int>
    decreases |ids|
  {
    if ids == [] || !(0 <= ids[0] < |ring|) then ring
    else DeleteSlots(DeleteElement(ring, ids[0]), ids[1..])
  }

  /** The launch loop of InitiateRingDiscovery, from `from` on: stop when the
      successor is -1 or the coordinator, hand the envelope to a successor
      whose DiscoverRing call succeeds, otherwise prune and retry from the
      failed id. `reachable(x)` stands for "dialling x and calling its
      DiscoverRing returned no error": propagateToSuccessor fails on either.
      Every failure shortens the ring by one, so the loop ends.

      `failed` lists the failed ids in order and `last` is the id the final
      successor was taken from: `from` when nothing failed, otherwise the
      last failed id. LaunchFollowsSuccessors states the order. */
  function PropagateDiscovery(node: Node, from: int, reachable: int -> bool): (l: Launch)
    ensures l.node == node.(clientList := l.node.clientList, ring := l.node.ring)
    ensures |l.node.ring| == |node.ring| - |l.failed|
    ensures l.node.clientList.Keys <= node.clientList.Keys
    ensures forall k :: k in node.clientList ==> (k in l.node.clientList <==> k !in l.failed)
    ensures forall k :: k in l.node.clientList ==> l.node.clientList[k] == node.clientList[k]
    ensures forall f :: f in l.failed ==> !reachable(f) && f != -1 && f != node.id
    ensures l.last == if l.failed == [] then from else l.failed[|l.failed| - 1]
    ensures l.result.NoSuccessor? <==>
              FindSuccessor(l.node.ring, l.last) == -1 || FindSuccessor(l.node.ring, l.last) == node.id
    ensures l.result.SentTo? ==>
              l.result.target == FindSuccessor(l.node.ring, l.last) && reachable(l.result.target) &&
              l.result.target in l.node.ring && l.result.target != node.id
    ensures l.result.IndexPanic? ==>
              l.result.index == FindSuccessor(l.node.ring, l.last) && !reachable(l.result.index) &&
              l.result.index != node.id && !(0 <= l.result.index < |l.node.ring|)
    decreases |node.ring|
  {
    var s := FindSuccessor(node.ring, from);
    if s == -1 || s == node.id then Launch(node, from, [], NoSuccessor)
    else if reachable(s) then Launch(node, from, [], SentTo(s))
    else if !(0 <= s < |node.ring|) then Launch(node, from, [], IndexPanic(s))
    else
      var pruned := PruneSuccessor(node, s).value;
      var rest := PropagateDiscovery(pruned, s, reachable);
      var failed := [s] + rest.failed;
      assert forall f :: f in failed <==> f == s || f in rest.failed;
      Launch(rest.node, rest.last, failed, rest.result)
  }

  /** The failed ids of a launch from `from` over `ring`, in order: each is
      the successor of the one before (of `from` for the first) in the ring
      as pruned so far, and each was a valid slot index when pruned. */
  ghost predicate FailureChain(ring: seq<int>, from: int, failed: seq<int>)
    decreases |failed|
  {
    failed == [] ||
      (&& failed[0] == FindSuccessor(ring, from)
       && 0 <= failed[0] < |ring|
       && FailureChain(DeleteElement(ring, failed[0]), failed[0], failed[1..]))
  }

  /** The launch walks the successor chain from `from`: the k-th failed id is
      the successor of the (k-1)-th in the ring pruned by the earlier
      failures, and the final ring is the start ring pruned by every failure
      in order. */
  lemma {:induction false} LaunchFollowsSuccessors(node: Node, from: int, reachable: int -> bool)
    ensures FailureChain(node.ring, from, PropagateDiscovery(node, from, reachable).failed)
    ensures PropagateDiscovery(node, from, reachable).node.ring == DeleteSlots(node.ring, PropagateDiscovery(node, from, reachable).failed)
    decreases |node.ring|
  {
    var l := PropagateDiscovery(node, from, reachable);
    var s := FindSuccessor(node.ring, from);
    if s != -1 && s != node.id && !reachable(s) && PruneSuccessor(node, s).Some? {
      var pruned := PruneSuccessor(node, s).value;
      LaunchFollowsSuccessors(pruned, s, reachable);
      var rest := PropagateDiscovery(pruned, s, reachable);
      assert l.failed == [s] + rest.failed;
      assert l.failed[1..] == rest.failed;
    }
  }

  /** What InitiateRingDiscovery does: admit, build the envelope, launch; or
      panic in the admission. */
  datatype Initiation =
    | Launched(seed: Message, launch: Launch)
    | InsertPanic

  /** InitiateRingDiscovery: the walk starts at the coordinator's own id over
      the ring that already holds the newcomer, and every envelope it sends is
      the seed built after admission. */
  function InitiateRingDiscovery(node: Node, request: Message, reachable: int -> bool): (r: Initiation)
    ensures r.InsertPanic? <==> node.id !in node.ring
    ensures r.Launched? ==> r.seed == SeedDiscovery(AdmitNewcomer(node, request).value, request)
    ensures r.Launched? ==> r.launch == PropagateDiscovery(AdmitNewcomer(node, request).value, node.id, reachable)
    ensures r.Launched? ==> r.seed.coordinatorId == node.id && r.seed.ring == Some([node.id])
  {
    match AdmitNewcomer(node, request)
    case None => InsertPanic
    case Some(admitted) =>
      Launched(SeedDiscovery(admitted, request), PropagateDiscovery(admitted, node.id, reachable))
  }

  /** What RegisterNode does: acknowledge at once and start the discovery. */
  datatype Registration = Registration(reply: Message, discovery: Initiation)

  /** RegisterNode: the handler writes an ACK with the coordinator's id and no
      replica before the detached new-node discovery runs. An `InsertPanic`
      in that discovery ends the whole coordinator process, so the ACK
      arrives only if the RPC layer sent it first. */
  function RegisterNode(node: Node, request: Message, reachable: int -> bool): (r: Registration)
    ensures r.reply.msgType == ACK && r.reply.nodeId == node.id && r.reply.payload.None?
    ensures r.discovery == InitiateRingDiscovery(node, request, reachable)
  {
    Registration(Ack(node.id), InitiateRingDiscovery(node, request, reachable))
  }

  /** An announce handed to a successor. */
  datatype Forward = Forward(target: int, msg: Message)

  /** Everything one InitiateRingUpdate call does. */
  datatype RingUpdate = RingUpdate(node: Node, forward: Option<Forward>, reply: Message)

  /** InitiateRingUpdate: ring and directory are taken wholesale from the
      finished discovery (nil reads as empty), the envelope is re-stamped with
      the coordinator's id and sent to the successor, unless that is -1 or the
      coordinator itself, in which case the handler returns before writing
      its reply. The send runs detached and its errors are only logged. */
  function InitiateRingUpdate(node: Node, msg: Message): (r: RingUpdate)
    ensures r.node == node.(ring := msg.ring.GetOr([]), clientList := msg.clientList.GetOr(map[]))
    ensures r.forward.None? <==>
              FindSuccessor(r.node.ring, node.id) == -1 || FindSuccessor(r.node.ring, node.id) == node.id
    ensures r.forward.Some? ==>
              r.forward.value.target == FindSuccessor(r.node.ring, node.id) && r.forward.value.target in r.node.ring &&
              r.forward.value.msg == msg.(coordinatorId := node.id)
    ensures r.forward.None? ==> r.reply == ZeroMessage
    ensures r.forward.Some? ==> r.reply == Ack(node.id)
  {
    var adopted := node.(ring := msg.ring.GetOr([]), clientList := msg.clientList.GetOr(map[]));
    var stamped := msg.(coordinatorId := node.id);
    var s := FindSuccessor(adopted.ring, node.id);
    if s == -1 || s == node.id then RingUpdate(adopted, None, ZeroMessage)
    else RingUpdate(adopted, Some(Forward(s, stamped)), Ack(node.id))
  }

  /** Who one SynchronizeReplica round contacts: nobody when the directory
      has exactly one entry, otherwise every directory key except the believed
      coordinator id (in no particular order). */
  function SyncTargets(node: Node): (r: set<int>)
    ensures r <= node.clientList.Keys && node.coordinatorId !in r
    ensures |node.clientList| == 1 ==> r == {}
    ensures |node.clientList| != 1 ==> forall k :: k in node.clientList && k != node.coordinatorId ==> k in r
  {
    if |node.clientList| == 1 then {} else node.clientList.Keys - {node.coordinatorId}
  }

  /** The envelope each sync call carries: kind SYNC, the coordinator's id,
      and its current replica. */
  function SyncMessage(node: Node): (m: Message)
    ensures m.msgType == SYNC && m.nodeId == node.id && m.payload == Some(node.localReplica)
    ensures m.clientList.None? && m.ring.None?
  {
    Message(SYNC, node.id, Some(node.localReplica), None, None, 0)
  }
}
