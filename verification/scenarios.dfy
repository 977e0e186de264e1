/** Two worked scenarios, evaluated on the model:
    an election after the coordinator dies, and a newcomer joining. */
module Scenarios {
  import opened Wrappers
  import opened Nodes
  import opened Messages
  import opened Client
  import opened Coordinator

  /** Directory of a three-node deployment (port 8000 + id). */
  function Dir(): map<int, string> { map[0 := "127.0.0.1:8000", 1 := "127.0.0.1:8001", 2 := "127.0.0.1:8002"] }
  /** Node 2, the old coordinator, has been killed. */
  predicate Alive(x: int) { x == 0 || x == 1 }
  /** A follower of ring [0, 1, 2] that believes node 2 is coordinator. */
  function Follower(id: int, t: int): ClientNode { ClientNode(Node(id, [], Dir(), [0, 1, 2], 2), t, false) }

  /** Successors on ring [0, 1, 2]. */
  lemma RingFacts()
    ensures FindSuccessor([0, 1, 2], 0) == 1 && FindSuccessor([0, 1, 2], 1) == 2 && FindSuccessor([0, 1, 2], 2) == 0
  {
  }

  /** Node 0 times out first and starts the election: it collects itself and
      reaches node 1. */
  lemma Hop0()
    ensures DiscoverRing(Follower(0, 0), InvokeElection(Follower(0, 0)), 6, Alive, 3) ==
      Discovery(Follower(0, 6), Message(DISCOVER, 0, None, Some(map[0 := "127.0.0.1:8000"]), Some([0]), 0), Delivered(1), None, Ack(0))
  {
  }

  /** Node 1 overtakes the candidate, restarts the lap at itself, skips the
      dead node 2 and reaches node 0. */
  lemma Hop1()
    ensures DiscoverRing(Follower(1, 0), Message(DISCOVER, 0, None, Some(map[0 := "127.0.0.1:8000"]), Some([0]), 0), 7, Alive, 3) ==
      Discovery(Follower(1, 7), Message(DISCOVER, 0, None, Some(map[1 := "127.0.0.1:8001"]), Some([1]), 1), Delivered(0), None, Ack(1))
  {
  }

  /** Node 0 appends itself; its successor is the candidate, so the lap is
      over and node 1 is announced and promoted. */
  lemma Hop2()
    ensures var fwd := Message(DISCOVER, 0, None, Some(map[1 := "127.0.0.1:8001", 0 := "127.0.0.1:8000"]), Some([1, 0]), 1);
      DiscoverRing(Follower(0, 6), Message(DISCOVER, 0, None, Some(map[1 := "127.0.0.1:8001"]), Some([1]), 1), 8, Alive, 3) ==
      Discovery(Follower(0, 8), fwd, Completed, Some(AnnounceAndPromote(1, fwd)), Ack(0))
  {
    RingFacts();
    assert [1] + [0] == [1, 0];
  }

  /** The announce installs ring [1, 0] (the cycle 0 -> 1 -> 0) and
      coordinator 1 on both survivors, and only node 1 is promoted. */
  lemma Announce()
    ensures var fwd := Message(DISCOVER, 0, None, Some(map[1 := "127.0.0.1:8001", 0 := "127.0.0.1:8000"]), Some([1, 0]), 1);
      var a1 := UpdateRing(Follower(1, 7), fwd, 9, Alive, 3);
      var a0 := UpdateRing(Follower(0, 8), fwd, 10, Alive, 3);
      var p1 := BecomeCoordinator(a1.cn);
      && a1.hop == Delivered(0) && a0.hop == Completed
      && p1.cn.isCoordinator && !a0.cn.isCoordinator
      && p1.cn.node.ring == a0.cn.node.ring == [1, 0]
      && p1.cn.node.coordinatorId == a0.cn.node.coordinatorId == 1
  {
  }

  /** Node 3 joins through coordinator 0 of ring [0, 1, 2]: the coordinator and
      each follower that sees the new-node discovery place 3 just before 0. */
  lemma NewcomerJoins()
    ensures var request := Message(NDISCOVER, 3, None, Some(map[3 := "127.0.0.1:8003"]), Some([0, 1, 2, 3]), 0);
      var coord := Node(0, [], map[0 := "127.0.0.1:8000", 1 := "127.0.0.1:8001", 2 := "127.0.0.1:8002"], [0, 1, 2], 0);
      var follower := ClientNode(Node(1, [], Dir(), [0, 1, 2], 0), 0, false);
      var seed := SeedDiscovery(AdmitNewcomer(coord, request).value, request);
      && AdmitNewcomer(coord, request).Some?
      && AdmitNewcomer(coord, request).value.ring == [3, 0, 1, 2]
      && 3 in AdmitNewcomer(coord, request).value.clientList
      && DiscoverStep(follower, seed, 1).cn.node.ring == [3, 0, 1, 2]
      && DiscoverStep(follower, seed, 1).msg.ring == Some([0, 1])
  {
    assert FindIndex([0, 1, 2], 0) == 0;
    assert Insert([0, 1, 2], 0, 3) == [3, 0, 1, 2];
    assert [0] + [1] == [0, 1];
  }
}
