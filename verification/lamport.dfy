/** Lamport's scalar clock as the clients and the relay server of
    lamports-clock apply it. Channels become sequences of deliveries; the
    server's coin flip is a parameter. */
module Lamport {
  import opened Text
  import opened Fanout

  /** One channel message: the sender's clock, the text and the original
      sender's client id. */
  datatype Message = Message(clock: int, text: string, clientId: int)

  datatype Client = Client(id: int, clock: int)

  datatype Server = Server(clock: int)

  /** A message written to the channel with index `channel`. */
  datatype Delivery = Delivery(channel: int, msg: Message)

  /** A client after sending, and the message it sent. */
  datatype Sent = Sent(client: Client, msg: Message)

  /** One round of SendMessage: tick once, then send the new clock. */
  function SendMessage(c: Client): (r: Sent)
    ensures r.client.id == c.id && r.client.clock == c.clock + 1
    ensures r.msg.clock == r.client.clock && r.msg.clientId == c.id && r.msg.text == Greeting(c.id)
  {
    var ticked := c.(clock := c.clock + 1);
    Sent(ticked, Message(ticked.clock, Greeting(c.id), c.id))
  }

  /** One round of ReceiveMessage: the clock jumps past both the local clock
      and the message's, to the larger of them plus one. */
  function ReceiveMessage(c: Client, msg: Message): (r: Client)
    ensures r.id == c.id
    ensures r.clock > c.clock && r.clock > msg.clock
    ensures r.clock == c.clock + 1 || r.clock == msg.clock + 1
  {
    c.(clock := Max(c.clock, msg.clock) + 1)
  }

  /** What happens to a client next. */
  datatype Event = SendEvent | ReceiveEvent(msg: Message)

  function Apply(c: Client, e: Event): Client {
    match e
    case SendEvent => SendMessage(c).client
    case ReceiveEvent(m) => ReceiveMessage(c, m)
  }

  /** The client after a sequence of events, first to last. */
  function Run(c: Client, events: seq<Event>): Client
    decreases |events|
  {
    if |events| == 0 then c else Run(Apply(c, events[0]), events[1..])
  }

  /** Running a concatenation is running its halves one after the other. */
  lemma {:induction false} RunAppend(c: Client, a: seq<Event>, b: seq<Event>)
    ensures Run(c, a + b) == Run(Run(c, a), b)
    decreases |a|
  {
    if |a| > 0 {
      assert (a + b)[1..] == a[1..] + b;
      RunAppend(Apply(c, a[0]), a[1..], b);
    } else {
      assert a + b == b;
    }
  }

  /** Every event moves the client clock up by at least one. */
  lemma {:induction false} ClockAdvancesPerEvent(c: Client, events: seq<Event>)
    ensures Run(c, events).clock >= c.clock + |events|
    ensures Run(c, events).id == c.id
    decreases |events|
  {
    if |events| > 0 {
      ClockAdvancesPerEvent(Apply(c, events[0]), events[1..]);
    }
  }

  /** The client clock never decreases across any sequence of sends and
      receives: a longer prefix of the history never shows a smaller clock. */
  lemma ClockNeverDecreases(c: Client, events: seq<Event>, i: nat, j: nat)
    requires i <= j <= |events|
    ensures Run(c, events[..i]).clock <= Run(c, events[..j]).clock
  {
    assert events[..j] == events[..i] + events[i..j];
    RunAppend(c, events[..i], events[i..j]);
    ClockAdvancesPerEvent(Run(c, events[..i]), events[i..j]);
  }

  /** The locked update of handleClientChannels: the server clock jumps to the
      larger of its clock and the message's, plus one. */
  function ServerReceive(s: Server, msg: Message): (r: Server)
    ensures r.clock > s.clock && r.clock > msg.clock
    ensures r.clock == s.clock + 1 || r.clock == msg.clock + 1
  {
    Server(Max(s.clock, msg.clock) + 1)
  }

  /** Go's `msg != (client.Message{})` test, negated. */
  predicate IsZero(msg: Message) {
    msg == Message(0, "", 0)
  }

  /** sendMessage: a dropped forward (`delivered` false) ticks the clock once;
      otherwise every channel but the sender's gets a copy, the clock ticking
      before each, and the copy carries the clock right after its tick, the
      original text and the original sender. */
  method SendToOthers(s: Server, message: Message, channels: nat, delivered: bool) returns (s': Server, out: seq<Delivery>)
    ensures !delivered ==> s'.clock == s.clock + 1 && out == []
    ensures delivered ==> |out| == |Recipients(channels, message.clientId)| && s'.clock == s.clock + |out|
    ensures delivered ==> forall k :: 0 <= k < |out| ==>
              out[k] == Delivery(Recipients(channels, message.clientId)[k], Message(s.clock + k + 1, message.text, message.clientId))
    ensures forall k :: 0 <= k < |out| ==> out[k].channel != message.clientId && 0 <= out[k].channel < channels
    ensures forall a, b :: 0 <= a < b < |out| ==> out[a].msg.clock < out[b].msg.clock
  {
    if !delivered {
      return Server(s.clock + 1), [];
    }
    var clock := s.clock;
    out := [];
    var i := 0;
    while i < channels
      invariant 0 <= i <= channels
      invariant |out| == |Recipients(i, message.clientId)| && clock == s.clock + |out|
      invariant forall k :: 0 <= k < |out| ==>
                  out[k] == Delivery(Recipients(i, message.clientId)[k], Message(s.clock + k + 1, message.text, message.clientId))
    {
      if i != message.clientId {
        clock := clock + 1;
        out := out + [Delivery(i, Message(clock, message.text, message.clientId))];
      }
      i := i + 1;
    }
    s' := Server(clock);
    forall k | 0 <= k < |out|
      ensures out[k].channel != message.clientId && 0 <= out[k].channel < channels
    {
      assert out[k].channel in Recipients(channels, message.clientId);
    }
  }

  /** One message through handleClientChannels: receive, then forward unless
      the message is the zero value. */
  method HandleClientMessage(s: Server, msg: Message, channels: nat, delivered: bool) returns (s': Server, out: seq<Delivery>)
    ensures s'.clock >= ServerReceive(s, msg).clock
    ensures IsZero(msg) ==> s' == ServerReceive(s, msg) && out == []
    ensures !IsZero(msg) && !delivered ==> s'.clock == ServerReceive(s, msg).clock + 1 && out == []
    ensures !IsZero(msg) && delivered ==>
              s'.clock == ServerReceive(s, msg).clock + |out| && |out| == |Recipients(channels, msg.clientId)|
    ensures !IsZero(msg) && delivered ==> forall k :: 0 <= k < |out| ==>
              out[k] == Delivery(Recipients(channels, msg.clientId)[k], Message(ServerReceive(s, msg).clock + k + 1, msg.text, msg.clientId))
    ensures forall k :: 0 <= k < |out| ==>
              out[k].channel != msg.clientId && out[k].msg.text == msg.text && out[k].msg.clientId == msg.clientId &&
              out[k].msg.clock == ServerReceive(s, msg).clock + k + 1
  {
    s' := ServerReceive(s, msg);
    out := [];
    if !IsZero(msg) {
      var received := s';
      s', out := SendToOthers(received, msg, channels, delivered);
    }
  }
}
