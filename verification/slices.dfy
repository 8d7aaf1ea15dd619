/** Pieces of concatenated sequences. */
module Slices {

  /** The first `k` parts, one after the other. */
  function Concat<T>(parts: seq<seq<T>>, k: nat): seq<T>
    requires k <= |parts|
  {
    if k == 0 then [] else Concat(parts, k - 1) + parts[k - 1]
  }

  lemma {:induction false} ConcatPrefix<T>(parts: seq<seq<T>>, j: nat, k: nat)
    requires j <= k <= |parts|
    ensures Concat(parts, j) <= Concat(parts, k)
    decreases k
  {
    if j < k {
      ConcatPrefix(parts, j, k - 1);
    }
  }

  /** `part` stands at this place. */
  predicate StandsAt<T(==)>(data: seq<T>, pos: nat, part: seq<T>) {
    pos + |part| <= |data| && data[pos..pos + |part|] == part
  }

  /** Part `k` of a concatenation framed by `head` and `tail`. */
  lemma PartAt<T>(head: seq<T>, parts: seq<seq<T>>, tail: seq<T>, k: nat)
    requires k < |parts|
    ensures StandsAt(head + Concat(parts, |parts|) + tail, |head| + |Concat(parts, k)|, parts[k])
  {
    ConcatPrefix(parts, k + 1, |parts|);
    var front, all := Concat(parts, k), Concat(parts, |parts|);
    assert front + parts[k] <= all;
    FramedPart(head, all, tail, front, parts[k]);
  }

  lemma FramedPart<T>(head: seq<T>, all: seq<T>, tail: seq<T>, front: seq<T>, part: seq<T>)
    requires front + part <= all
    ensures StandsAt(head + all + tail, |head| + |front|, part)
  {
    var back := all[|front| + |part|..];
    assert all == front + part + back;
    assert head + all + tail == (head + front) + part + (back + tail);
  }
}
