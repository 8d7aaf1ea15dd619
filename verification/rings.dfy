/** A bounded queue kept in a fixed number of slots, as the sequence it stands for. */
module Rings {
  /** The slot `i` places on, for at most one lap. */
  function Wrap(i: nat, slots: nat): (w: nat)
    requires i < 2 * slots
    ensures w < slots
  {
    if i < slots then i else i - slots
  }

  /** Stepping a cursor with a remainder is going one place on. */
  lemma NextIsWrap(i: nat, slots: nat)
    requires i < slots
    ensures (i + 1) % slots == Wrap(i + 1, slots)
  {
    if i + 1 == slots {
      assert slots % slots == 0;
    }
  }

  function Contents<T>(ring: seq<T>, head: nat, count: nat): (s: seq<T>)
    requires head < |ring| && count <= |ring|
    ensures |s| == count
    ensures forall k :: 0 <= k < count ==> s[k] == ring[Wrap(head + k, |ring|)]
  {
    seq(count, k requires 0 <= k < count => ring[Wrap(head + k, |ring|)])
  }

  /** The free slot at the tail is none of the occupied ones. */
  lemma TailIsFree(slots: nat, head: nat, count: nat, k: nat)
    requires head < slots && k < count < slots
    ensures Wrap(head + count, slots) != Wrap(head + k, slots)
  {
  }

  /** Writing the free slot leaves the queue alone. */
  lemma TailWriteKeeps<T>(before: seq<T>, after: seq<T>, head: nat, count: nat)
    requires |before| == |after| && head < |before| && count < |before|
    requires forall i :: 0 <= i < |before| && i != Wrap(head + count, |before|) ==> after[i] == before[i]
    ensures Contents(after, head, count) == Contents(before, head, count)
  {
    forall k | 0 <= k < count
      ensures Contents(after, head, count)[k] == Contents(before, head, count)[k]
    {
      TailIsFree(|before|, head, count, k);
    }
  }

  lemma PushContents<T>(ring: seq<T>, head: nat, count: nat, x: T)
    requires head < |ring| && count < |ring| && ring[Wrap(head + count, |ring|)] == x
    ensures Contents(ring, head, count + 1) == Contents(ring, head, count) + [x]
    ensures count + 1 < |ring| ==> Wrap(Wrap(head + count, |ring|) + 1, |ring|) == Wrap(head + count + 1, |ring|)
  {
  }

  lemma PopContents<T>(ring: seq<T>, head: nat, count: nat)
    requires head < |ring| && 0 < count <= |ring|
    ensures Contents(ring, head, count)[0] == ring[head]
    ensures Contents(ring, Wrap(head + 1, |ring|), count - 1) == Contents(ring, head, count)[1..]
  {
    var next := Wrap(head + 1, |ring|);
    forall k | 0 <= k < count - 1
      ensures Contents(ring, next, count - 1)[k] == Contents(ring, head, count)[1..][k]
    {
      assert Wrap(next + k, |ring|) == Wrap(head + (k + 1), |ring|);
    }
  }

  /** Where a ring is read, where it is written, and how much is in between. */
  datatype Cursor = Cursor(head: nat, tail: nat, count: nat) {
    predicate Fits(slots: nat) {
      head < slots && tail < slots && count <= slots && tail == Wrap(head + count, slots)
    }

    function Pushed(slots: nat): (next: Cursor)
      requires Fits(slots) && count < slots
      ensures next.Fits(slots) && next.head == head && next.count == count + 1
    {
      NextIsWrap(tail, slots);
      Cursor(head, (tail + 1) % slots, count + 1)
    }

    function Popped(slots: nat): (next: Cursor)
      requires Fits(slots) && count > 0
      ensures next.Fits(slots) && next.head == Wrap(head + 1, slots) && next.count == count - 1
    {
      NextIsWrap(head, slots);
      Cursor((head + 1) % slots, tail, count - 1)
    }
  }
}
