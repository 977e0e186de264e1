/** Properties of whole protocol rounds: the ring election as a chain of
    discovery steps, the new-node lap, the announce, and the replica push. */
module Election {
  import opened Wrappers
  import opened Nodes
  import opened Messages
  import opened RingTheory
  import opened Client
  import opened Coordinator

  /** The shape a discovery envelope keeps while it circulates: ring and
      directory present, the ring non-empty and headed by the candidate, and
      the directory's keys exactly the ring's ids. */
  ghost predicate WellFormedLap(msg: Message) {
    && msg.ring.Some? && msg.clientList.Some?
    && |msg.ring.value| > 0
    && msg.ring.value[0] == msg.coordinatorId
    && (forall x :: x in msg.clientList.value <==> x in msg.ring.value)
  }

  /** An election envelope: a well-formed lap in which no collected id
      exceeds the candidate. */
  ghost predicate ElectionInvariant(msg: Message) {
    && msg.msgType == DISCOVER
    && WellFormedLap(msg)
    && (forall x :: x in msg.ring.value ==> x <= msg.coordinatorId)
  }

  /** The candidate after a chain of hops: the larger of the start and every
      hop's id. */
  function HighestId(start: int, hops: seq<ClientNode>): (r: int)
    ensures r >= start && forall i :: 0 <= i < |hops| ==> r >= hops[i].node.id
    ensures r == start || exists i :: 0 <= i < |hops| && r == hops[i].node.id
    decreases |hops|
  {
    if |hops| == 0 then start
    else
      var next := if hops[0].node.id > start then hops[0].node.id else start;
      var r := HighestId(next, hops[1..]);
      assert forall i :: 1 <= i < |hops| ==> hops[1..][i - 1] == hops[i];
      r
  }

  /** The envelope after it has visited `hops` in order. */
  function RunDiscovery(msg: Message, hops: seq<ClientNode>, now: int): (r: Message)
    requires msg.msgType == DISCOVER && msg.clientList.Some?
    ensures r.msgType == DISCOVER && r.clientList.Some? && r.nodeId == msg.nodeId
    decreases |hops|
  {
    if |hops| == 0 then msg
    else RunDiscovery(DiscoverStep(hops[0], msg, now).msg, hops[1..], now)
  }

  /** The initiator's own step on the envelope InvokeElection builds yields
      the one-member lap [self] with itself as candidate. */
  lemma ElectionStart(cn: ClientNode, now: int)
    ensures CanDiscover(cn, InvokeElection(cn))
    ensures ElectionInvariant(DiscoverStep(cn, InvokeElection(cn), now).msg)
    ensures DiscoverStep(cn, InvokeElection(cn), now).msg.ring == Some([cn.node.id])
    ensures DiscoverStep(cn, InvokeElection(cn), now).msg.coordinatorId == cn.node.id
  {
  }

  /** One election hop: the candidate becomes the larger of the old candidate
      and the node's id (so it never decreases), a higher id restarts the lap
      at [self], and the envelope stays an election envelope. */
  lemma DiscoverPreservesElection(cn: ClientNode, msg: Message, now: int)
    requires ElectionInvariant(msg)
    ensures CanDiscover(cn, msg)
    ensures ElectionInvariant(DiscoverStep(cn, msg, now).msg)
    ensures DiscoverStep(cn, msg, now).msg.coordinatorId ==
              (if cn.node.id > msg.coordinatorId then cn.node.id else msg.coordinatorId)
    ensures cn.node.id > msg.coordinatorId ==> DiscoverStep(cn, msg, now).msg.ring == Some([cn.node.id])
  {
  }

  /** Along any chain of election hops the envelope stays well formed and its
      candidate is the highest id met so far. */
  lemma {:induction false} ElectionChain(msg: Message, hops: seq<ClientNode>, now: int)
    requires ElectionInvariant(msg)
    ensures ElectionInvariant(RunDiscovery(msg, hops, now))
    ensures RunDiscovery(msg, hops, now).coordinatorId == HighestId(msg.coordinatorId, hops)
    decreases |hops|
  {
    if |hops| > 0 {
      DiscoverPreservesElection(hops[0], msg, now);
      ElectionChain(DiscoverStep(hops[0], msg, now).msg, hops[1..], now);
    }
  }

  /** The envelope of an election that `initiator` starts and `hops` carry
      on, in order. */
  function ElectionRound(initiator: ClientNode, hops: seq<ClientNode>, now: int): (m: Message)
    ensures m.msgType == DISCOVER && m.nodeId == initiator.node.id
  {
    RunDiscovery(DiscoverStep(initiator, InvokeElection(initiator), now).msg, hops, now)
  }

  /** An election started by `initiator` and carried through `hops` elects the
      highest id among them all (HighestId), and that id heads the collected
      ring, whose ids are exactly the directory's keys. */
  lemma ElectionElectsHighest(initiator: ClientNode, hops: seq<ClientNode>, now: int)
    ensures ElectionInvariant(ElectionRound(initiator, hops, now))
    ensures ElectionRound(initiator, hops, now).coordinatorId == HighestId(initiator.node.id, hops)
  {
    ElectionStart(initiator, now);
    ElectionChain(DiscoverStep(initiator, InvokeElection(initiator), now).msg, hops, now);
  }

  /** The coordinator's new-node envelope is a well-formed lap headed by the
      coordinator. */
  lemma SeedIsWellFormed(node: Node, request: Message)
    ensures WellFormedLap(SeedDiscovery(node, request))
    ensures SeedDiscovery(node, request).ring.value[0] == node.id
  {
  }

  /** A new-node hop keeps the lap well formed and never touches the
      candidate; a node other than the newcomer inserts the newcomer just
      before its believed coordinator. */
  lemma NewNodeHop(cn: ClientNode, msg: Message, now: int)
    requires msg.msgType == NDISCOVER && WellFormedLap(msg) && CanDiscover(cn, msg)
    ensures WellFormedLap(DiscoverStep(cn, msg, now).msg)
    ensures DiscoverStep(cn, msg, now).msg.coordinatorId == msg.coordinatorId
    ensures DiscoverStep(cn, msg, now).msg.ring.value == msg.ring.value + [cn.node.id]
  {
  }

  /** On a ring of distinct ids that holds the believed coordinator but not the
      newcomer, a follower's new-node hop makes the newcomer the coordinator's
      predecessor, exactly as the coordinator's own admission does. */
  lemma FollowerPlacesNewcomer(cn: ClientNode, msg: Message, now: int)
    requires InsertsNewcomer(cn, msg) && msg.clientList.Some?
    requires Distinct(cn.node.ring) && cn.node.coordinatorId in cn.node.ring && msg.nodeId !in cn.node.ring
    ensures FindSuccessor(DiscoverStep(cn, msg, now).cn.node.ring, msg.nodeId) == cn.node.coordinatorId
    ensures Distinct(DiscoverStep(cn, msg, now).cn.node.ring)
  {
    InsertBeforePrecedes(cn.node.ring, cn.node.coordinatorId, msg.nodeId);
  }

  /** An announce the coordinator forwards installs, at every follower that
      adopts it, the coordinator's own new ring and directory and names the
      coordinator; the follower passes it on unchanged and never back to the
      coordinator. */
  lemma AnnounceInstallsCoordinator(coord: Node, msg: Message, cn: ClientNode, now: int, reachable: int -> bool, fuel: nat)
    requires InitiateRingUpdate(coord, msg).forward.Some?
    ensures var u := InitiateRingUpdate(coord, msg);
            var a := UpdateRing(cn, u.forward.value.msg, now, reachable, fuel);
            && a.cn.node.ring == u.node.ring
            && a.cn.node.clientList == u.node.clientList
            && a.cn.node.coordinatorId == coord.id
            && (a.hop.Delivered? ==> a.hop.target != coord.id)
  {
  }

  /** The election announce: every node adopting the finished envelope names
      the winner, and the winner, once promoted, is the coordinator it names. */
  lemma AnnounceAndPromoteWinner(winner: ClientNode, msg: Message, now: int, reachable: int -> bool, fuel: nat)
    requires winner.node.id == msg.coordinatorId
    ensures var a := UpdateRing(winner, msg, now, reachable, fuel);
            var p := BecomeCoordinator(a.cn);
            && p.cn.isCoordinator
            && p.cn.node.coordinatorId == winner.node.id
            && p.cn.node.ring == msg.ring.GetOr([])
  {
  }

  /** Replica convergence: every node the coordinator syncs ends up holding
      exactly the coordinator's replica and acknowledges with its own id. */
  lemma SyncConverges(coord: Node, cn: ClientNode, now: int)
    requires cn.node.id in SyncTargets(coord)
    ensures InvokeSynchronization(cn, SyncMessage(coord), now).cn.node.localReplica == coord.localReplica
    ensures InvokeSynchronization(cn, SyncMessage(coord), now).msg == Ack(cn.node.id)
    ensures cn.node.id != coord.coordinatorId
  {
  }
}
