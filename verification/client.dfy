/** The follower role of client.go: each RPC handler's critical section as a
    pure step, the successor walk that follows it, and the watchdog. */
module Client {
  import opened Wrappers
  import opened Nodes
  import opened Messages
  import opened RingTheory

  /** A follower: the shared node record, the time of the last discovery,
      announce or sync it took part in (nanoseconds), and the promotion flag. */
  datatype ClientNode = ClientNode(node: Node, lastUpdated: int, isCoordinator: bool)

  /** A node state after a handler's critical section and the message it
      produced (a forwarded envelope or a reply). */
  datatype Step = Step(cn: ClientNode, msg: Message)

  const NanosPerSecond: int := 1_000_000_000

  /** The discovery envelope an election starts with: the node names itself
      as candidate, with an empty (but present) ring and directory. */
  function InvokeElection(cn: ClientNode): (m: Message)
    ensures m.msgType == DISCOVER && m.nodeId == cn.node.id && m.coordinatorId == cn.node.id
    ensures m.ring == Some([]) && m.clientList == Some(map[]) && m.payload.None?
    ensures !IsEmpty(m)
  {
    Message(DISCOVER, cn.node.id, None, Some(map[]), Some([]), cn.node.id)
  }

  /** A new-node discovery reaching a node other than the newcomer. */
  predicate InsertsNewcomer(cn: ClientNode, msg: Message) {
    msg.msgType == NDISCOVER && cn.node.id != msg.nodeId
  }

  /** A discovery reaching a node whose id beats the current candidate. */
  predicate Overtakes(cn: ClientNode, msg: Message) {
    !InsertsNewcomer(cn, msg) && msg.msgType == DISCOVER && cn.node.id > msg.coordinatorId
  }

  /** When the discovery step does not panic: the insert needs the believed
      coordinator in the local ring (slices.Insert rejects index -1), and the
      write into the message's directory needs a non-nil map unless the
      directory is reset first. */
  predicate CanDiscover(cn: ClientNode, msg: Message) {
    && (InsertsNewcomer(cn, msg) ==> cn.node.coordinatorId in cn.node.ring)
    && (msg.clientList.Some? || Overtakes(cn, msg))
  }

  /** The locked part of DiscoverRing. A new-node discovery makes the node
      insert the newcomer before its coordinator; an election discovery that
      meets a higher id restarts the candidate, ring and directory at this
      node. Either way the node appends itself to the message's ring and
      records its own address in the message's directory. */
  function DiscoverStep(cn: ClientNode, msg: Message, now: int): (r: Step)
    requires CanDiscover(cn, msg)
    ensures r.msg.msgType == msg.msgType && r.msg.nodeId == msg.nodeId && r.msg.payload == msg.payload
    ensures msg.msgType == DISCOVER ==>
              r.msg.coordinatorId >= msg.coordinatorId && r.msg.coordinatorId >= cn.node.id &&
              (r.msg.coordinatorId == msg.coordinatorId || r.msg.coordinatorId == cn.node.id)
    ensures msg.msgType != DISCOVER ==> r.msg.coordinatorId == msg.coordinatorId
    ensures r.msg.ring.Some? && |r.msg.ring.value| > 0 && r.msg.ring.value[|r.msg.ring.value| - 1] == cn.node.id
    ensures Overtakes(cn, msg) ==> r.msg.ring == Some([cn.node.id])
    ensures !Overtakes(cn, msg) ==> r.msg.ring.value[..|r.msg.ring.value| - 1] == msg.ring.GetOr([])
    ensures r.msg.clientList.Some? && cn.node.id in r.msg.clientList.value
    ensures r.msg.clientList.value[cn.node.id] == Lookup(cn.node.clientList, cn.node.id)
    ensures Overtakes(cn, msg) ==> r.msg.clientList.value.Keys == {cn.node.id}
    ensures !Overtakes(cn, msg) ==> r.msg.clientList.value.Keys == msg.clientList.value.Keys + {cn.node.id}
    ensures !Overtakes(cn, msg) ==>
              r.msg.clientList.value == msg.clientList.value[cn.node.id := Lookup(cn.node.clientList, cn.node.id)]
    ensures InsertsNewcomer(cn, msg) ==>
              r.cn.node.ring == Insert(cn.node.ring, FindIndex(cn.node.ring, cn.node.coordinatorId), msg.nodeId)
    ensures !InsertsNewcomer(cn, msg) ==> r.cn.node == cn.node
    ensures r.cn.node.id == cn.node.id && r.cn.node.localReplica == cn.node.localReplica
    ensures r.cn.node.clientList == cn.node.clientList && r.cn.node.coordinatorId == cn.node.coordinatorId
    ensures r.cn.lastUpdated == now && r.cn.isCoordinator == cn.isCoordinator
  {
    var node :=
      if InsertsNewcomer(cn, msg)
      then cn.node.(ring := Insert(cn.node.ring, FindIndex(cn.node.ring, cn.node.coordinatorId), msg.nodeId))
      else cn.node;
    var base :=
      if Overtakes(cn, msg)
      then msg.(coordinatorId := cn.node.id, ring := Some([]), clientList := Some(map[]))
      else msg;
    assert [] + [cn.node.id] == [cn.node.id];
    var out := base.(
      ring := Some(base.ring.GetOr([]) + [cn.node.id]),
      clientList := Some(base.clientList.value[cn.node.id := Lookup(cn.node.clientList, cn.node.id)]));
    Step(ClientNode(node, now, cn.isCoordinator), out)
  }

  /** Outcome of the successor walk after a handler's critical section. */
  datatype Hop =
    | Delivered(target: int)  // the call reached `target`; the walk ends
    | Completed               // no successor, or the next one is the candidate
    | OutOfFuel               // still retrying when the fuel bound was reached

  /** A successor the walk passes over: a real member other than the
      candidate whose dial failed. */
  predicate Skipped(s: int, candidate: int, reachable: int -> bool) {
    s != -1 && s != candidate && !reachable(s)
  }

  /** The retry loop of DiscoverRing and UpdateRing: hop to the successor of
      the previous target until a dial succeeds, or until there is no successor
      or it is the candidate. Failed targets are never pruned, so the loop is
      bounded here by `fuel`. */
  function SuccessorWalk(ring: seq<int>, from: int, candidate: int, reachable: int -> bool, fuel: nat): (h: Hop)
    ensures h.Delivered? ==> h.target != -1 && h.target != candidate && reachable(h.target) && h.target in ring
    decreases fuel
  {
    if fuel == 0 then OutOfFuel
    else
      var s := FindSuccessor(ring, from);
      if s != -1 && s != candidate then
        if reachable(s) then Delivered(s) else SuccessorWalk(ring, s, candidate, reachable, fuel - 1)
      else Completed
  }

  /** Every hop before the `k`-th was passed over. */
  ghost predicate SkippedBefore(ring: seq<int>, from: int, candidate: int, reachable: int -> bool, k: nat) {
    forall j {:trigger Skipped(Iterate(ring, from, j), candidate, reachable)} :: 1 <= j < k ==> Skipped(Iterate(ring, from, j), candidate, reachable)
  }

  /** The walk stops at its `k`-th attempted target, which is the `k`-fold
      successor of the start: it delivers to the first reachable one, completes
      at the first -1 or candidate, and runs out of fuel only after passing
      over `fuel` targets (then `k` is `fuel + 1`). */
  lemma {:induction false} WalkFollowsSuccessors(ring: seq<int>, from: int, candidate: int, reachable: int -> bool, fuel: nat)
    returns (k: nat)
    ensures 1 <= k <= fuel + 1 && SkippedBefore(ring, from, candidate, reachable, k)
    ensures SuccessorWalk(ring, from, candidate, reachable, fuel).OutOfFuel? <==> k == fuel + 1
    ensures SuccessorWalk(ring, from, candidate, reachable, fuel).Delivered? ==>
              SuccessorWalk(ring, from, candidate, reachable, fuel).target == Iterate(ring, from, k)
    ensures SuccessorWalk(ring, from, candidate, reachable, fuel).Completed? ==>
              Iterate(ring, from, k) == -1 || Iterate(ring, from, k) == candidate
    decreases fuel
  {
    if fuel == 0 {
      k := 1;
    } else {
      var s := FindSuccessor(ring, from);
      assert Iterate(ring, from, 1) == s;
      if s != -1 && s != candidate && !reachable(s) {
        var w := SuccessorWalk(ring, s, candidate, reachable, fuel - 1);
        assert SuccessorWalk(ring, from, candidate, reachable, fuel) == w;
        var k' := WalkFollowsSuccessors(ring, s, candidate, reachable, fuel - 1);
        k := k' + 1;
        IterateShift(ring, from, k');
        assert Iterate(ring, s, k') == Iterate(ring, from, k);
        SkippedShift(ring, from, s, candidate, reachable, k');
      } else {
        k := 1;
        if s != -1 && s != candidate {
          assert SuccessorWalk(ring, from, candidate, reachable, fuel) == Delivered(s);
        } else {
          assert SuccessorWalk(ring, from, candidate, reachable, fuel) == Completed;
        }
      }
    }
  }

  /** Passing over the first successor `s` and then `k` further hops from `s`
      is passing over `k + 1` hops from the start. */
  lemma SkippedShift(ring: seq<int>, from: int, s: int, candidate: int, reachable: int -> bool, k: nat)
    requires s == FindSuccessor(ring, from) && Skipped(s, candidate, reachable)
    requires SkippedBefore(ring, s, candidate, reachable, k)
    ensures SkippedBefore(ring, from, candidate, reachable, k + 1)
  {
    forall j | 1 <= j < k + 1
      ensures Skipped(Iterate(ring, from, j), candidate, reachable)
    {
      if j > 1 {
        IterateShift(ring, from, j - 1);
      } else {
        assert Iterate(ring, from, 1) == s;
      }
    }
  }

  /** What a node does once a discovery lap is over. */
  datatype Completion =
    | RequestRingUpdate(coordinator: int, msg: Message)  // CoordinatorNode.InitiateRingUpdate at the coordinator
    | AnnounceAndPromote(winner: int, msg: Message)      // ClientNode.UpdateRing, then ClientNode.BecomeCoordinator, at the winner

  /** handleRingCompletion: a new-node discovery goes back to the coordinator
      for an announce; an election discovery is announced to the candidate,
      which is then promoted. Either way the finished envelope is passed on
      unchanged to the node it names as coordinator. */
  function HandleRingCompletion(msg: Message): (c: Completion)
    ensures c.msg == msg
    ensures c.RequestRingUpdate? <==> msg.msgType == NDISCOVER
    ensures c.RequestRingUpdate? ==> c.coordinator == msg.coordinatorId
    ensures c.AnnounceAndPromote? ==> c.winner == msg.coordinatorId
  {
    if msg.msgType == NDISCOVER then RequestRingUpdate(msg.coordinatorId, msg)
    else AnnounceAndPromote(msg.coordinatorId, msg)
  }

  /** Everything one DiscoverRing call does. */
  datatype Discovery = Discovery(cn: ClientNode, forwarded: Message, hop: Hop, completion: Option<Completion>, reply: Message)

  /** DiscoverRing: the locked step, then the walk from this node over its
      (possibly extended) ring with the message's candidate as stop mark; a
      completed walk hands the envelope to handleRingCompletion. */
  function DiscoverRing(cn: ClientNode, msg: Message, now: int, reachable: int -> bool, fuel: nat): (d: Discovery)
    requires CanDiscover(cn, msg)
    ensures d.cn == DiscoverStep(cn, msg, now).cn && d.forwarded == DiscoverStep(cn, msg, now).msg
    ensures d.hop == SuccessorWalk(d.cn.node.ring, cn.node.id, d.forwarded.coordinatorId, reachable, fuel)
    ensures d.hop.Delivered? ==> d.hop.target != d.forwarded.coordinatorId && reachable(d.hop.target)
    ensures d.completion.Some? <==> d.hop.Completed?
    ensures d.completion.Some? ==> d.completion.value.msg == d.forwarded
    ensures d.reply == Ack(cn.node.id)
  {
    var step := DiscoverStep(cn, msg, now);
    var hop := SuccessorWalk(step.cn.node.ring, cn.node.id, step.msg.coordinatorId, reachable, fuel);
    var completion := if hop.Completed? then Some(HandleRingCompletion(step.msg)) else None;
    Discovery(step.cn, step.msg, hop, completion, Ack(cn.node.id))
  }

  /** The locked part of UpdateRing: directory, ring and coordinator id are
      taken wholesale from the announce (nil reads as empty); the replica, the
      id and the promotion flag are untouched. */
  function AdoptRing(cn: ClientNode, msg: Message, now: int): (r: ClientNode)
    ensures r.node.clientList == msg.clientList.GetOr(map[]) && r.node.ring == msg.ring.GetOr([])
    ensures r.node.coordinatorId == msg.coordinatorId
    ensures r.node.id == cn.node.id && r.node.localReplica == cn.node.localReplica
    ensures r.isCoordinator == cn.isCoordinator && r.lastUpdated == now
  {
    var node := cn.node.(
      clientList := msg.clientList.GetOr(map[]),
      ring := msg.ring.GetOr([]),
      coordinatorId := msg.coordinatorId);
    ClientNode(node, now, cn.isCoordinator)
  }

  /** Adopting the same announce twice is adopting it once. */
  lemma AdoptRingIdempotent(cn: ClientNode, msg: Message, now: int)
    ensures AdoptRing(AdoptRing(cn, msg, now), msg, now) == AdoptRing(cn, msg, now)
  {
  }

  /** Everything one UpdateRing call does. */
  datatype Announce = Announce(cn: ClientNode, hop: Hop, reply: Message)

  /** UpdateRing: adopt the announce, then walk on over the adopted ring,
      stopping before the announced coordinator. The forwarded envelope is the
      received one, unchanged. */
  function UpdateRing(cn: ClientNode, msg: Message, now: int, reachable: int -> bool, fuel: nat): (a: Announce)
    ensures a.cn == AdoptRing(cn, msg, now)
    ensures a.hop == SuccessorWalk(msg.ring.GetOr([]), cn.node.id, msg.coordinatorId, reachable, fuel)
    ensures a.hop.Delivered? ==> a.hop.target != msg.coordinatorId && a.hop.target in msg.ring.GetOr([])
    ensures a.reply == Ack(cn.node.id)
  {
    var adopted := AdoptRing(cn, msg, now);
    Announce(adopted, SuccessorWalk(adopted.node.ring, cn.node.id, msg.coordinatorId, reachable, fuel), Ack(cn.node.id))
  }

  /** InvokeSynchronization: the replica is replaced wholesale by the payload
      (nil reads as empty) and the node acknowledges with its own id; ring,
      directory and coordinator are untouched. */
  function InvokeSynchronization(cn: ClientNode, msg: Message, now: int): (r: Step)
    ensures r.cn.node.localReplica == msg.payload.GetOr([])
    ensures r.cn.node == cn.node.(localReplica := r.cn.node.localReplica)
    ensures r.cn.lastUpdated == now && r.cn.isCoordinator == cn.isCoordinator
    ensures r.msg.msgType == ACK && r.msg.nodeId == cn.node.id && !IsEmpty(r.msg)
  {
    Step(ClientNode(cn.node.(localReplica := msg.payload.GetOr([])), now, cn.isCoordinator), Ack(cn.node.id))
  }

  /** The flag part of BecomeCoordinator. A node already promoted returns at
      once, leaving the reply at its zero value; otherwise it raises the flag,
      names itself coordinator and acknowledges. */
  function BecomeCoordinator(cn: ClientNode): (r: Step)
    ensures r.cn.isCoordinator
    ensures cn.isCoordinator ==> r.cn == cn && r.msg == ZeroMessage
    ensures !cn.isCoordinator ==> r.cn.node.coordinatorId == cn.node.id && r.msg == Ack(cn.node.id)
    ensures r.cn.node == cn.node.(coordinatorId := r.cn.node.coordinatorId) && r.cn.lastUpdated == cn.lastUpdated
  {
    if cn.isCoordinator then Step(cn, ZeroMessage)
    else Step(ClientNode(cn.node.(coordinatorId := cn.node.id), cn.lastUpdated, true), Ack(cn.node.id))
  }

  /** A second promotion changes nothing, and a promoted node names itself. */
  lemma BecomeCoordinatorIdempotent(cn: ClientNode)
    ensures BecomeCoordinator(BecomeCoordinator(cn).cn).cn == BecomeCoordinator(cn).cn
    ensures !cn.isCoordinator ==> BecomeCoordinator(cn).cn.node.coordinatorId == cn.node.id
  {
  }

  /** Silence a node tolerates before it starts an election: 6 s plus its id. */
  function ElectionThreshold(id: int): int {
    (6 + id) * NanosPerSecond
  }

  /** One tick of CheckForTimeout: whether a node that has heard nothing for
      `elapsed` nanoseconds starts an election. */
  function CheckForTimeout(cn: ClientNode, elapsed: int): (fire: bool)
    ensures cn.isCoordinator ==> !fire
    ensures !cn.isCoordinator ==> (fire <==> elapsed > ElectionThreshold(cn.node.id))
    ensures cn.node.id >= 0 && elapsed <= 6 * NanosPerSecond ==> !fire
  {
    !cn.isCoordinator && elapsed > ElectionThreshold(cn.node.id)
  }

  /** The watchdog never fires on a promoted node; thresholds are strictly
      increasing in the id, so whenever a follower fires, every follower with
      a smaller id would have fired after the same silence. */
  lemma WatchdogStaggered(a: ClientNode, b: ClientNode, elapsed: int)
    requires a.node.id < b.node.id && !a.isCoordinator
    ensures ElectionThreshold(a.node.id) < ElectionThreshold(b.node.id)
    ensures CheckForTimeout(b, elapsed) ==> CheckForTimeout(a, elapsed)
    ensures b.isCoordinator ==> !CheckForTimeout(b, elapsed)
  {
  }
}
