/** Bytes as bounded integers, with the bit operations the recording format uses spelled out. */
module Bytes {
  type Byte = x: int | 0 <= x < 256

  datatype Option<+T> = None | Some(value: T)

  /** Exclusive or of the low `n` bits. */
  function XorBits(a: nat, b: nat, n: nat): (x: nat)
    decreases n, a, b
  {
    if n == 0 then 0
    else (if a % 2 != b % 2 then 1 else 0) + 2 * XorBits(a / 2, b / 2, n - 1)
  }

  lemma {:induction false} XorBitsBound(a: nat, b: nat, n: nat)
    ensures XorBits(a, b, n) < Power(n)
    decreases n
  {
    if n > 0 {
      XorBitsBound(a / 2, b / 2, n - 1);
    }
  }

  function Power(n: nat): nat {
    if n == 0 then 1 else 2 * Power(n - 1)
  }

  lemma {:induction false} XorBitsUndo(a: nat, b: nat, n: nat)
    requires a < Power(n) && b < Power(n)
    ensures XorBits(b, XorBits(a, b, n), n) == a
    ensures XorBits(a, b, n) == 0 <==> a == b
    decreases n
  {
    if n > 0 {
      XorBitsUndo(a / 2, b / 2, n - 1);
      var rest, x := XorBits(a / 2, b / 2, n - 1), XorBits(a, b, n);
      assert x / 2 == rest && x % 2 == if a % 2 != b % 2 then 1 else 0;
      assert XorBits(b, x, n) == (if b % 2 != x % 2 then 1 else 0) + 2 * XorBits(b / 2, rest, n - 1);
    }
  }

  function Xor(a: Byte, b: Byte): Byte {
    PowerEight();
    XorBitsBound(a, b, 8);
    XorBits(a, b, 8)
  }

  lemma PowerEight()
    ensures Power(8) == 256
  {
    assert Power(4) == 16;
  }

  /** Applying a mask twice undoes it, and the mask is zero exactly when nothing changed. */
  lemma XorUndo(a: Byte, b: Byte)
    ensures Xor(b, Xor(a, b)) == a
    ensures Xor(a, b) == 0 <==> a == b
  {
    PowerEight();
    XorBitsUndo(a, b, 8);
  }

  function XorAll(a: seq<Byte>, b: seq<Byte>): (x: seq<Byte>)
    requires |a| == |b|
    ensures |x| == |a|
    ensures forall i :: 0 <= i < |a| ==> x[i] == Xor(a[i], b[i])
  {
    seq(|a|, i requires 0 <= i < |a| => Xor(a[i], b[i]))
  }

  lemma XorAllUndo(now: seq<Byte>, before: seq<Byte>)
    requires |now| == |before|
    ensures XorAll(before, XorAll(now, before)) == now
  {
    forall i | 0 <= i < |now|
      ensures XorAll(before, XorAll(now, before))[i] == now[i]
    {
      XorUndo(now[i], before[i]);
    }
  }
}
