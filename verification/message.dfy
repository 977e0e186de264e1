/** The wire envelope of message.go. */
module Messages {
  import opened Wrappers
  import opened Nodes

  /** One RPC argument or reply. The slice and map fields keep Go's
      distinction between nil (`None`) and present-but-empty (`Some`). */
  datatype Message = Message(
    msgType: string,
    nodeId: int,
    payload: Option<seq<int>>,
    clientList: Option<map<int, string>>,
    ring: Option<seq<int>>,
    coordinatorId: int)

  /** Go's zero value `Message{}`. */
  const ZeroMessage: Message := Message("", 0, None, None, None, 0)

  /** The acknowledgement every handler replies with. */
  function Ack(id: int): (r: Message)
    ensures r.msgType == ACK && r.nodeId == id
    ensures r.payload.None? && r.clientList.None? && r.ring.None?
  {
    Message(ACK, id, None, None, None, 0)
  }

  /** A message carrying nothing: empty kind, sender 0 and every slice and map
      nil. The coordinator id is not consulted. */
  function IsEmpty(m: Message): (e: bool)
    ensures e <==> m == ZeroMessage.(coordinatorId := m.coordinatorId)
  {
    m.msgType == "" && m.nodeId == 0 && m.payload.None? && m.clientList.None? && m.ring.None?
  }

  /** The zero value is empty. */
  lemma ZeroMessageIsEmpty()
    ensures IsEmpty(ZeroMessage)
  {
  }

  /** A message is empty exactly when its kind, sender and three collections
      are all zero; in particular any kind (ACK, DISCOVER, SYNC, ...), any
      non-zero sender, and any present collection, even a zero-length one,
      makes it non-empty. */
  lemma EmptinessCases(m: Message)
    ensures IsEmpty(m) <==> m == ZeroMessage.(coordinatorId := m.coordinatorId)
    ensures m.msgType != "" ==> !IsEmpty(m)
    ensures m.nodeId != 0 ==> !IsEmpty(m)
    ensures m.payload == Some([]) || m.clientList == Some(map[]) || m.ring == Some([]) ==> !IsEmpty(m)
  {
  }

  /** The coordinator id has no influence on emptiness. */
  lemma CoordinatorIdIgnored(m: Message, c: int)
    ensures IsEmpty(m.(coordinatorId := c)) == IsEmpty(m)
  {
  }

  /** Every acknowledgement is non-empty. */
  lemma AckIsNotEmpty(id: int)
    ensures !IsEmpty(Ack(id))
  {
  }
}
