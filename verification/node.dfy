/** The node record and the ring/membership utilities of node.go. */
module Nodes {

  // Message kinds (node.go:29-36).
  const ACK: string := "ACK"
  const DISCOVER: string := "DISCOVER"
  const SYNC: string := "SYNC"
  const NDISCOVER: string := "NDISCOVER"

  /** Per-process state of one ring member; the lock guarding it is not
      modelled because every handler's critical section is one atomic step. */
  datatype Node = Node(
    id: int,
    localReplica: seq<int>,
    clientList: map<int, string>,
    ring: seq<int>,
    coordinatorId: int)

  /** Go's read of a map: a missing key yields the zero value "". */
  function Lookup(m: map<int, string>, k: int): (r: string)
    ensures k in m ==> r == m[k]
    ensures k !in m ==> r == ""
  {
    if k in m then m[k] else ""
  }

  /** The linear scan of FindIndex, started at position `i`. */
  function IndexFrom(ring: seq<int>, element: int, i: nat): (r: int)
    requires i <= |ring|
    ensures r == -1 ==> forall j :: i <= j < |ring| ==> ring[j] != element
    ensures r != -1 ==> i <= r < |ring| && ring[r] == element && forall j :: i <= j < r ==> ring[j] != element
    decreases |ring| - i
  {
    if i == |ring| then -1
    else if ring[i] == element then i
    else IndexFrom(ring, element, i + 1)
  }

  /** Index of the first occurrence of `element`, or -1 when it is absent. */
  function FindIndex(ring: seq<int>, element: int): (r: int)
    ensures -1 <= r < |ring|
    ensures r == -1 <==> element !in ring
    ensures r != -1 ==> ring[r] == element && forall j :: 0 <= j < r ==> ring[j] != element
  {
    IndexFrom(ring, element, 0)
  }

  /** Slot reached from slot `i` after `k <= n` forward hops round a ring of
      `n` slots. */
  function Advance(i: int, k: int, n: int): int {
    if i + k < n then i + k else i + k - n
  }

  /** The member after `id` in traversal order, wrapping from the last slot to
      the first; -1 when the ring has at most one member or `id` is absent. */
  function FindSuccessor(ring: seq<int>, id: int): (r: int)
    ensures |ring| <= 1 ==> r == -1
    ensures id !in ring ==> r == -1
    ensures |ring| > 1 && id in ring ==> r == ring[Advance(FindIndex(ring, id), 1, |ring|)]
    ensures r != -1 ==> r in ring
  {
    if |ring| <= 1 then -1
    else
      var i := FindIndex(ring, id);
      if i == -1 then -1
      else if i + 1 < |ring| then ring[i + 1]
      else ring[0]
  }

  /** Whether `i` is a key of the directory. */
  function Contains(nodeList: map<int, string>, i: int): (b: bool)
    ensures b <==> i in nodeList.Keys
    ensures !b ==> Lookup(nodeList, i) == ""
  {
    i in nodeList
  }

  /** The first integer at or above `i` that is not a key. */
  function FirstFreeFrom(nodeList: map<int, string>, i: int): (r: int)
    ensures r >= i && !Contains(nodeList, r)
    ensures forall j :: i <= j < r ==> Contains(nodeList, j)
    decreases |set k | k in nodeList && k >= i|
  {
    if !Contains(nodeList, i) then i
    else
      assert (set k | k in nodeList && k >= i + 1) == (set k | k in nodeList && k >= i) - {i};
      FirstFreeFrom(nodeList, i + 1)
  }

  /** Id for a newly joined node: the smallest positive integer not yet a key. */
  function GetUniqueId(nodeList: map<int, string>): (r: int)
    ensures r >= 1 && !Contains(nodeList, r)
    ensures forall j :: 1 <= j < r ==> Contains(nodeList, j)
  {
    FirstFreeFrom(nodeList, 1)
  }

  /** Removal of the slot at `index`; Go panics outside [0, |slice|). */
  function DeleteElement(slice: seq<int>, index: int): (r: seq<int>)
    requires 0 <= index < |slice|
    ensures |r| == |slice| - 1
    ensures forall j :: 0 <= j < index ==> r[j] == slice[j]
    ensures forall j :: index <= j < |r| ==> r[j] == slice[j + 1]
  {
    slice[..index] + slice[index + 1..]
  }

  /** `slices.Insert(s, index, v)`; Go panics outside [0, |s|]. */
  function Insert(s: seq<int>, index: int, v: int): (r: seq<int>)
    requires 0 <= index <= |s|
    ensures |r| == |s| + 1 && r[index] == v
    ensures forall j :: 0 <= j < index ==> r[j] == s[j]
    ensures forall j :: index < j < |r| ==> r[j] == s[j - 1]
  {
    s[..index] + [v] + s[index..]
  }

  /** Deleting the slot just inserted gives back the original sequence. */
  lemma DeleteUndoesInsert(s: seq<int>, index: int, v: int)
    requires 0 <= index <= |s|
    ensures DeleteElement(Insert(s, index, v), index) == s
  {
  }
}
