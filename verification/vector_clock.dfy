/** Vector clocks as the clients and the relay server of vector-clock apply
    them. Clocks have one slot per client plus a last slot owned by the
    server. Clocks are values here: the sharing of one backing array between a
    clock and the messages built from it is not modelled. */
module VectorClock {
  import opened Text
  import opened Fanout

  /** One channel message: a clock, the text and the original sender. */
  datatype Message = Message(clock: seq<int>, text: string, clientId: int)

  datatype Client = Client(id: int, clock: seq<int>)

  datatype Server = Server(clock: seq<int>)

  /** A message written to the channel with index `channel`. */
  datatype Delivery = Delivery(channel: int, msg: Message)

  /** Slot count in vector-clock/main.go: ten clients plus the server's slot. */
  const NumNodes: nat := 10

  /** VectorMAX: the slot-wise maximum over the first clock's slots (Go
      indexes the second clock at each of them, so it must be at least as
      long). */
  function VectorMAX(clock1: seq<int>, clock2: seq<int>): (r: seq<int>)
    requires |clock2| >= |clock1|
    ensures |r| == |clock1|
    ensures forall i :: 0 <= i < |r| ==> r[i] >= clock1[i] && r[i] >= clock2[i]
    ensures forall i :: 0 <= i < |r| ==> r[i] == clock1[i] || r[i] == clock2[i]
  {
    seq(|clock1|, i requires 0 <= i < |clock1| => Max(clock1[i], clock2[i]))
  }

  /** The scan of CausalityDetection from slot `i` on. */
  function CausalFrom(msgClock: seq<int>, localClock: seq<int>, i: nat): (r: bool)
    requires i <= |msgClock| <= |localClock|
    ensures r <==> forall j :: i <= j < |msgClock| ==> msgClock[j] <= localClock[j]
    decreases |msgClock| - i
  {
    if i == |msgClock| then true
    else if msgClock[i] > localClock[i] then false
    else CausalFrom(msgClock, localClock, i + 1)
  }

  /** CausalityDetection: true exactly when no slot of the message clock
      exceeds the local one. */
  function CausalityDetection(msgClock: seq<int>, localClock: seq<int>): (r: bool)
    requires |localClock| >= |msgClock|
    ensures r <==> forall i :: 0 <= i < |msgClock| ==> msgClock[i] <= localClock[i]
  {
    CausalFrom(msgClock, localClock, 0)
  }

  /** VectorMAX is idempotent and, on equal lengths, commutative. */
  lemma VectorMaxAlgebra(a: seq<int>, b: seq<int>)
    requires |a| == |b|
    ensures VectorMAX(a, a) == a
    ensures VectorMAX(a, b) == VectorMAX(b, a)
  {
  }

  /** A clock is below itself, and an empty message clock is below anything. */
  lemma CausalityReflexive(c: seq<int>, local: seq<int>)
    ensures CausalityDetection(c, c)
    ensures CausalityDetection([], local)
  {
  }

  /** After merging, both the message clock and the old local clock are below
      the merged clock. */
  lemma MergeDominates(local: seq<int>, msg: seq<int>)
    requires |local| == |msg|
    ensures CausalityDetection(msg, VectorMAX(local, msg))
    ensures CausalityDetection(local, VectorMAX(local, msg))
  {
  }

  /** The clock with one slot ticked. */
  function Tick(clock: seq<int>, slot: int): (r: seq<int>)
    requires 0 <= slot < |clock|
    ensures |r| == |clock| && r[slot] == clock[slot] + 1
    ensures forall i :: 0 <= i < |clock| && i != slot ==> r[i] == clock[i]
  {
    clock[slot := clock[slot] + 1]
  }

  /** A client after sending, and the message it sent. */
  datatype Sent = Sent(client: Client, msg: Message)

  /** One round of SendMessage: tick the client's own slot, send the clock. */
  function SendMessage(c: Client): (r: Sent)
    requires 0 <= c.id < |c.clock|
    ensures r.client.id == c.id && |r.client.clock| == |c.clock|
    ensures r.client.clock[c.id] == c.clock[c.id] + 1
    ensures forall i :: 0 <= i < |c.clock| && i != c.id ==> r.client.clock[i] == c.clock[i]
    ensures r.msg == Message(r.client.clock, Greeting(c.id), c.id)
  {
    var ticked := c.(clock := Tick(c.clock, c.id));
    Sent(ticked, Message(ticked.clock, Greeting(c.id), c.id))
  }

  /** A clock holder after a receive, and whether CausalityDetection fired. */
  datatype Received<T> = Received(holder: T, flagged: bool)

  /** One round of ReceiveMessage. The causality test runs against the clock
      before the merge; then the clock becomes the slot-wise maximum and the
      client's own slot is ticked. Both Go helpers index across each other's
      slots, so the clocks must have equal length. */
  function ReceiveMessage(c: Client, msg: Message): (r: Received<Client>)
    requires |msg.clock| == |c.clock| && 0 <= c.id < |c.clock|
    ensures r.flagged <==> forall i :: 0 <= i < |msg.clock| ==> msg.clock[i] <= c.clock[i]
    ensures r.holder.id == c.id && |r.holder.clock| == |c.clock|
    ensures forall i :: 0 <= i < |c.clock| && i != c.id ==> r.holder.clock[i] == Max(c.clock[i], msg.clock[i])
    ensures r.holder.clock[c.id] == Max(c.clock[c.id], msg.clock[c.id]) + 1
    ensures r.holder.clock[c.id] > c.clock[c.id] && r.holder.clock[c.id] > msg.clock[c.id]
  {
    var flagged := CausalityDetection(msg.clock, c.clock);
    Received(c.(clock := Tick(VectorMAX(c.clock, msg.clock), c.id)), flagged)
  }

  /** The slot the server owns: the last one. */
  function ServerSlot(clock: seq<int>): int
    requires |clock| > 0
  {
    |clock| - 1
  }

  /** handleClientChannels' receive: the causality flag against the clock
      before the merge, then the slot-wise maximum with the last slot ticked. */
  function ServerReceive(s: Server, msg: Message): (r: Received<Server>)
    requires |msg.clock| == |s.clock| > 0
    ensures r.flagged <==> forall i :: 0 <= i < |msg.clock| ==> msg.clock[i] <= s.clock[i]
    ensures |r.holder.clock| == |s.clock|
    ensures forall i :: 0 <= i < |s.clock| ==> r.holder.clock[i] >= msg.clock[i] && r.holder.clock[i] >= s.clock[i]
    ensures forall i :: 0 <= i < ServerSlot(s.clock) ==> r.holder.clock[i] == Max(s.clock[i], msg.clock[i])
    ensures r.holder.clock[ServerSlot(s.clock)] == Max(s.clock[ServerSlot(s.clock)], msg.clock[ServerSlot(s.clock)]) + 1
  {
    var flagged := CausalityDetection(msg.clock, s.clock);
    Received(Server(Tick(VectorMAX(s.clock, msg.clock), ServerSlot(s.clock))), flagged)
  }

  /** The server clock with its own slot raised by `n`. */
  function Raised(clock: seq<int>, n: int): (r: seq<int>)
    requires |clock| > 0
    ensures |r| == |clock| && r[ServerSlot(clock)] == clock[ServerSlot(clock)] + n
    ensures forall i :: 0 <= i < ServerSlot(clock) ==> r[i] == clock[i]
  {
    clock[ServerSlot(clock) := clock[ServerSlot(clock)] + n]
  }

  /** sendMessage: a dropped forward (`delivered` false) ticks only the server
      slot, once; otherwise every channel but the sender's gets a copy, the
      server slot ticking before each, and the copy carries the clock right
      after its tick, the original text and the original sender. */
  method SendToOthers(s: Server, message: Message, channels: nat, delivered: bool) returns (s': Server, out: seq<Delivery>)
    requires |s.clock| > 0
    ensures !delivered ==> s'.clock == Raised(s.clock, 1) && out == []
    ensures delivered ==> |out| == |Recipients(channels, message.clientId)| && s'.clock == Raised(s.clock, |out|)
    ensures delivered ==> forall k :: 0 <= k < |out| ==>
              out[k] == Delivery(Recipients(channels, message.clientId)[k], Message(Raised(s.clock, k + 1), message.text, message.clientId))
    ensures forall k :: 0 <= k < |out| ==> out[k].channel != message.clientId && 0 <= out[k].channel < channels
  {
    if !delivered {
      return Server(Raised(s.clock, 1)), [];
    }
    var clock := s.clock;
    out := [];
    var i := 0;
    while i < channels
      invariant 0 <= i <= channels
      invariant |out| == |Recipients(i, message.clientId)| && clock == Raised(s.clock, |out|)
      invariant forall k :: 0 <= k < |out| ==>
                  out[k] == Delivery(Recipients(i, message.clientId)[k], Message(Raised(s.clock, k + 1), message.text, message.clientId))
    {
      if i != message.clientId {
        clock := Tick(clock, ServerSlot(clock));
        out := out + [Delivery(i, Message(clock, message.text, message.clientId))];
      }
      i := i + 1;
    }
    s' := Server(clock);
    forall k | 0 <= k < |out|
      ensures out[k].channel != message.clientId && 0 <= out[k].channel < channels
    {
      assert out[k].channel in Recipients(channels, message.clientId);
    }
  }

  /** One message through handleClientChannels: receive, then forward unless
      the message is empty. `isEmpty` is the message's IsEmpty() answer; that
      method's definition is not part of this model. */
  method HandleClientMessage(s: Server, msg: Message, channels: nat, delivered: bool, isEmpty: bool)
    returns (s': Server, flagged: bool, out: seq<Delivery>)
    requires |msg.clock| == |s.clock| > 0
    ensures flagged <==> CausalityDetection(msg.clock, s.clock)
    ensures |s'.clock| == |s.clock|
    ensures forall i :: 0 <= i < ServerSlot(s.clock) ==> s'.clock[i] == Max(s.clock[i], msg.clock[i])
    ensures s'.clock[ServerSlot(s.clock)] > s.clock[ServerSlot(s.clock)] && s'.clock[ServerSlot(s.clock)] > msg.clock[ServerSlot(s.clock)]
    ensures isEmpty ==> s' == ServerReceive(s, msg).holder && out == []
    ensures !isEmpty && !delivered ==> s'.clock == Raised(ServerReceive(s, msg).holder.clock, 1) && out == []
    ensures !isEmpty && delivered ==> s'.clock == Raised(ServerReceive(s, msg).holder.clock, |out|)
    ensures !isEmpty && delivered ==> |out| == |Recipients(channels, msg.clientId)|
    ensures !isEmpty && delivered ==> forall k :: 0 <= k < |out| ==>
              out[k] == Delivery(Recipients(channels, msg.clientId)[k],
                                 Message(Raised(ServerReceive(s, msg).holder.clock, k + 1), msg.text, msg.clientId))
    ensures forall k :: 0 <= k < |out| ==>
              out[k].channel != msg.clientId && out[k].msg.text == msg.text && out[k].msg.clientId == msg.clientId
  {
    var r := ServerReceive(s, msg);
    s', flagged, out := r.holder, r.flagged, [];
    if !isEmpty {
      s', out := SendToOthers(r.holder, msg, channels, delivered);
    }
  }

  /** With main.go's layout (NumNodes client slots plus the server's), a
      client's send and the server's forwarding touch disjoint slots: a client
      never moves the server slot, and forwarding moves nothing else. */
  lemma SlotOwnership(c: Client, s: Server, n: int)
    requires |c.clock| == NumNodes + 1 && 0 <= c.id < NumNodes && |s.clock| == NumNodes + 1
    ensures SendMessage(c).client.clock[NumNodes] == c.clock[NumNodes]
    ensures forall i :: 0 <= i < NumNodes ==> Raised(s.clock, n)[i] == s.clock[i]
  {
  }
}
