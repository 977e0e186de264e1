/** Closure of the successor relation of node.go's findSuccessor: on a ring of
    distinct ids, following successors walks every member once and returns. */
module RingTheory {
  import opened Nodes

  /** No id occurs twice in the ring. */
  ghost predicate Distinct(ring: seq<int>) {
    forall a, b :: 0 <= a < b < |ring| ==> ring[a] != ring[b]
  }

  /** `findSuccessor` applied `k` times, starting at `x`. */
  function Iterate(ring: seq<int>, x: int, k: nat): int
    decreases k
  {
    if k == 0 then x else FindSuccessor(ring, Iterate(ring, x, k - 1))
  }

  /** Iterating from the successor of `x` is iterating from `x`, one hop later. */
  lemma {:induction false} IterateShift(ring: seq<int>, x: int, j: nat)
    ensures Iterate(ring, FindSuccessor(ring, x), j) == Iterate(ring, x, j + 1)
  {
    if j > 0 {
      IterateShift(ring, x, j - 1);
    }
  }

  /** Inserting a new id at the index of `target` (as slices.Insert does)
      makes the new id the predecessor of `target`, adds nothing else, and
      keeps ids distinct. */
  lemma InsertBeforePrecedes(ring: seq<int>, target: int, v: int)
    requires Distinct(ring) && target in ring && v !in ring
    ensures FindSuccessor(Insert(ring, FindIndex(ring, target), v), v) == target
    ensures Distinct(Insert(ring, FindIndex(ring, target), v))
    ensures forall x :: x in Insert(ring, FindIndex(ring, target), v) <==> x in ring || x == v
  {
  }

  /** Deleting slot `i` of a ring of distinct ids removes exactly the id in
      that slot and keeps the others distinct. */
  lemma DeleteKeepsOthers(ring: seq<int>, i: int)
    requires Distinct(ring) && 0 <= i < |ring|
    ensures forall x :: x in DeleteElement(ring, i) <==> x in ring && x != ring[i]
    ensures Distinct(DeleteElement(ring, i))
  {
    var r := DeleteElement(ring, i);
    forall x ensures x in r <==> x in ring && x != ring[i] {
      if x in r {
        var j :| 0 <= j < |r| && r[j] == x;
        if j < i { assert ring[j] == x; } else { assert ring[j + 1] == x; }
      }
      if x in ring && x != ring[i] {
        var j :| 0 <= j < |ring| && ring[j] == x;
        if j < i { assert r[j] == x; } else { assert r[j - 1] == x; }
      }
    }
    forall a, b | 0 <= a < b < |r| ensures r[a] != r[b] {
      var a' := if a < i then a else a + 1;
      var b' := if b < i then b else b + 1;
      assert r[a] == ring[a'] && r[b] == ring[b'] && a' < b';
    }
  }

  /** On distinct ids, the successor of the member in slot `i` is the member in
      the next slot, wrapping to slot 0, and is never the member itself. */
  lemma SuccessorOfMember(ring: seq<int>, i: int)
    requires Distinct(ring) && |ring| >= 2 && 0 <= i < |ring|
    ensures FindSuccessor(ring, ring[i]) == ring[Advance(i, 1, |ring|)]
    ensures FindSuccessor(ring, ring[i]) != ring[i]
  {
  }

  /** After `k <= |ring|` hops from slot `i` the walk stands at slot
      `Advance(i, k, |ring|)`. */
  lemma {:induction false} IteratePosition(ring: seq<int>, i: int, k: nat)
    requires Distinct(ring) && |ring| >= 2 && 0 <= i < |ring| && k <= |ring|
    ensures Iterate(ring, ring[i], k) == ring[Advance(i, k, |ring|)]
  {
    if k > 0 {
      var p := Advance(i, k - 1, |ring|);
      AdvanceStep(i, k, |ring|);
      IteratePosition(ring, i, k - 1);
      SuccessorOfMember(ring, p);
    }
  }

  /** One more hop from slot `Advance(i, k - 1, n)` lands on `Advance(i, k, n)`. */
  lemma AdvanceStep(i: int, k: int, n: int)
    requires 0 <= i < n && 1 <= k <= n
    ensures 0 <= Advance(i, k - 1, n) < n
    ensures Advance(Advance(i, k - 1, n), 1, n) == Advance(i, k, n)
  {
  }

  /** The first |ring| hops from a member visit pairwise different members. */
  lemma HopsAreDistinct(ring: seq<int>, i: int, k1: nat, k2: nat)
    requires Distinct(ring) && |ring| >= 2 && 0 <= i < |ring|
    requires k1 < k2 < |ring|
    ensures Iterate(ring, ring[i], k1) != Iterate(ring, ring[i], k2)
  {
    IteratePosition(ring, i, k1);
    IteratePosition(ring, i, k2);
    var p1, p2 := Advance(i, k1, |ring|), Advance(i, k2, |ring|);
    assert p1 != p2;
    if p1 < p2 { assert ring[p1] != ring[p2]; } else { assert ring[p2] != ring[p1]; }
  }

  /** Every member is reached from slot `i` within |ring| hops. */
  lemma HopsReachAll(ring: seq<int>, i: int, j: int) returns (k: nat)
    requires Distinct(ring) && |ring| >= 2 && 0 <= i < |ring| && 0 <= j < |ring|
    ensures k < |ring| && Iterate(ring, ring[i], k) == ring[j]
  {
    k := if j >= i then j - i else j - i + |ring|;
    IteratePosition(ring, i, k);
  }

  /** The members met on the first `n` hops from `x`, in order (hop 0 is `x`). */
  function Visits(ring: seq<int>, x: int, n: nat): (r: seq<int>)
    ensures |r| == n
  {
    seq(n, k requires 0 <= k < n => Iterate(ring, x, k))
  }

  /** Ring closure: from any member, |ring| successor hops return to it, and
      the |ring| members met on the way are pairwise different and are exactly
      the members of the ring. */
  lemma RingClosure(ring: seq<int>, i: int)
    requires Distinct(ring) && |ring| >= 2 && 0 <= i < |ring|
    ensures Iterate(ring, ring[i], |ring|) == ring[i]
    ensures Distinct(Visits(ring, ring[i], |ring|))
    ensures forall j :: 0 <= j < |ring| ==> ring[j] in Visits(ring, ring[i], |ring|)
  {
    var vs := Visits(ring, ring[i], |ring|);
    IteratePosition(ring, i, |ring|);
    forall a, b | 0 <= a < b < |vs|
      ensures vs[a] != vs[b]
    {
      HopsAreDistinct(ring, i, a, b);
    }
    forall j | 0 <= j < |ring|
      ensures ring[j] in vs
    {
      var k := HopsReachAll(ring, i, j);
      assert vs[k] == ring[j];
    }
  }
}
