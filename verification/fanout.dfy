/** What the two clock programs share: Go's built-in `max` and the send loop
    over every channel index except the sender's, in ascending order. */
module Fanout {

  /** Go's built-in `max` on two integers. */
  function Max(a: int, b: int): (r: int)
    ensures r >= a && r >= b
    ensures r == a || r == b
  {
    if a >= b then a else b
  }

  /** The channel indices in [0, channels) other than `sender`, ascending. */
  function Recipients(channels: nat, sender: int): (r: seq<int>)
    ensures forall x :: x in r <==> 0 <= x < channels && x != sender
    ensures forall a, b :: 0 <= a < b < |r| ==> r[a] < r[b]
    ensures |r| == if 0 <= sender < channels then channels - 1 else channels
    decreases channels
  {
    if channels == 0 then []
    else
      var prefix := Recipients(channels - 1, sender);
      assert forall a :: 0 <= a < |prefix| ==> prefix[a] < channels - 1 by {
        forall a | 0 <= a < |prefix| ensures prefix[a] < channels - 1 {
          assert prefix[a] in prefix;
        }
      }
      prefix + (if channels - 1 != sender then [channels - 1] else [])
  }
}
