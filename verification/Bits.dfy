/** Bitwise operations on unsigned numbers of any width. */
module Bits {
  import opened Bytes

  function Xor(a: nat, b: nat): nat
    decreases a + b
  {
    if a == 0 && b == 0 then 0 else (if a % 2 != b % 2 then 1 else 0) + 2 * Xor(a / 2, b / 2)
  }

  function Or(a: nat, b: nat): nat
    decreases a + b
  {
    if a == 0 && b == 0 then 0 else (if a % 2 == 1 || b % 2 == 1 then 1 else 0) + 2 * Or(a / 2, b / 2)
  }

  lemma {:induction false} XorIsZero(a: nat, b: nat)
    ensures Xor(a, b) == 0 <==> a == b
    decreases a + b
  {
    if a != 0 || b != 0 {
      XorIsZero(a / 2, b / 2);
    }
  }

  lemma {:induction false} OrIsZero(a: nat, b: nat)
    ensures Or(a, b) == 0 <==> a == 0 && b == 0
    decreases a + b
  {
    if a != 0 || b != 0 {
      OrIsZero(a / 2, b / 2);
    }
  }

  /** The byte at `index`, or zero past the end. */
  function ByteAt(bytes: seq<Byte>, index: nat): Byte {
    if index < |bytes| then bytes[index] else 0
  }

  /** Compares two byte strings without stopping at the first difference. */
  method ConstantTimeEq(left: seq<Byte>, right: seq<Byte>) returns (equal: bool)
    ensures equal <==> left == right
  {
    var maxLen := if |left| > |right| then |left| else |right|;
    var diff := Xor(|left|, |right|);
    XorIsZero(|left|, |right|);
    for index := 0 to maxLen
      invariant diff == 0 <==> |left| == |right| && forall k | 0 <= k < index :: ByteAt(left, k) == ByteAt(right, k)
    {
      var bit := Xor(ByteAt(left, index), ByteAt(right, index));
      XorIsZero(ByteAt(left, index), ByteAt(right, index));
      OrIsZero(diff, bit);
      diff := Or(diff, bit);
    }
    assert diff == 0 ==> forall k | 0 <= k < |left| :: ByteAt(left, k) == left[k] && ByteAt(right, k) == right[k];
    equal := diff == 0;
  }
}
