/** Bit arithmetic on leaf indices.

    The hash-tree backend treats a leaf index as a path in a binary tree:
    bit k of the index (counted from the least significant end) picks the
    left (0) or right (1) child when descending to tree height k.  The Rust
    code works on `usize`; here indices are unbounded naturals and the
    shift, bit test, exclusive-or and bit-length are defined on them. */
module Bits {

  /** 2^k */
  function Pow2(k: nat): nat
  {
    if k == 0 then 1 else 2 * Pow2(k - 1)
  }

  /** x >> k */
  function Shr(x: nat, k: nat): nat
  {
    if k == 0 then x else Shr(x / 2, k - 1)
  }

  /** (x >> k) & 1 */
  function Bit(x: nat, k: nat): nat
  {
    Shr(x, k) % 2
  }

  /** x ^ y, bitwise exclusive-or */
  function Xor(x: nat, y: nat): nat
    decreases x + y
  {
    if x == 0 && y == 0 then 0
    else 2 * Xor(x / 2, y / 2) + (if x % 2 == y % 2 then 0 else 1)
  }

  /** Number of significant bits of x: how many times `x >>= 1` runs
      before x reaches 0. */
  function BitLength(x: nat): nat
  {
    if x == 0 then 0 else 1 + BitLength(x / 2)
  }

  /** The other child of the same parent: node c's sibling is c ^ 1. */
  function Sibling(c: nat): nat
  {
    if c % 2 == 0 then c + 1 else c - 1
  }

  /** Shifting one more place halves the result. */
  lemma {:induction false} ShrSucc(x: nat, k: nat)
    ensures Shr(x, k + 1) == Shr(x, k) / 2
    decreases k
  {
    if k > 0 {
      ShrSucc(x / 2, k - 1);
    }
  }

  /** The node on x's path at height k is the child, selected by bit k,
      of the node at height k + 1. */
  lemma ShrChild(x: nat, k: nat)
    ensures Shr(x, k) == 2 * Shr(x, k + 1) + Bit(x, k)
  {
    ShrSucc(x, k);
  }

  /** An index below 2^d has no bits at position d or above. */
  lemma {:induction false} ShrBelowPow2(x: nat, d: nat)
    requires x < Pow2(d)
    ensures Shr(x, d) == 0
    decreases d
  {
    if d > 0 {
      ShrBelowPow2(x / 2, d - 1);
    }
  }

  /** x ^ y is zero exactly when x and y are equal. */
  lemma {:induction false} XorZero(x: nat, y: nat)
    ensures Xor(x, y) == 0 <==> x == y
    decreases x + y
  {
    if !(x == 0 && y == 0) {
      XorZero(x / 2, y / 2);
    }
  }

  /** Shifting commutes with exclusive-or. */
  lemma {:induction false} XorShr(x: nat, y: nat, k: nat)
    ensures Shr(Xor(x, y), k) == Xor(Shr(x, k), Shr(y, k))
    decreases k
  {
    if k > 0 {
      assert Xor(x, y) / 2 == Xor(x / 2, y / 2);
      XorShr(x / 2, y / 2, k - 1);
    }
  }

  /** Exclusive-or of two d-bit numbers is a d-bit number. */
  lemma {:induction false} XorBelowPow2(x: nat, y: nat, d: nat)
    requires x < Pow2(d) && y < Pow2(d)
    ensures Xor(x, y) < Pow2(d)
    decreases d
  {
    if d > 0 && !(x == 0 && y == 0) {
      XorBelowPow2(x / 2, y / 2, d - 1);
    }
  }

  /** A number below 2^d has at most d significant bits. */
  lemma {:induction false} BitLengthBelowPow2(x: nat, d: nat)
    requires x < Pow2(d)
    ensures BitLength(x) <= d
    decreases d
  {
    if x != 0 {
      BitLengthBelowPow2(x / 2, d - 1);
    }
  }

  /** x >> j is exactly 1 when bit j is the highest set bit of x. */
  lemma {:induction false} ShrIsOne(x: nat, j: nat)
    ensures Shr(x, j) == 1 <==> BitLength(x) == j + 1
    decreases j
  {
    if j > 0 {
      ShrIsOne(x / 2, j - 1);
    }
  }

  /** Two nodes differ only in their last bit exactly when they are siblings. */
  lemma {:induction false} XorIsOne(x: nat, y: nat)
    ensures Xor(x, y) == 1 <==> y == Sibling(x)
  {
    XorZero(x / 2, y / 2);
    if !(x == 0 && y == 0) {
      assert Xor(x, y) == 2 * Xor(x / 2, y / 2) + (if x % 2 == y % 2 then 0 else 1);
    }
  }

  /** The divergence height of two distinct d-bit indices: the bit-length
      of (p ^ c) >> 1 is below d, and it is the one height at which the
      node on c's path is the sibling of the node on p's path. */
  lemma DivergenceHeight(p: nat, c: nat, d: nat)
    requires p != c && p < Pow2(d) && c < Pow2(d)
    ensures BitLength(Xor(p, c) / 2) < d
    ensures forall j :: 0 <= j < d ==>
              (Shr(c, j) == Sibling(Shr(p, j)) <==> j == BitLength(Xor(p, c) / 2))
  {
    forall j | 0 <= j < d
      ensures Shr(c, j) == Sibling(Shr(p, j)) <==> j == BitLength(Xor(p, c) / 2)
    {
      DivergesAt(p, c, j);
    }
    DivergenceBelow(p, c, d);
  }

  /** The divergence height of two distinct d-bit indices is below d. */
  lemma DivergenceBelow(p: nat, c: nat, d: nat)
    requires p != c && p < Pow2(d) && c < Pow2(d)
    ensures BitLength(Xor(p, c) / 2) < d
  {
    var x := Xor(p, c);
    XorZero(p, c);
    XorBelowPow2(p, c, d);
    BitLengthBelowPow2(x, d);
  }

  /** At height j, c's node is the sibling of p's node exactly when j is
      the bit-length of (p ^ c) >> 1. */
  lemma DivergesAt(p: nat, c: nat, j: nat)
    requires p != c
    ensures Shr(c, j) == Sibling(Shr(p, j)) <==> j == BitLength(Xor(p, c) / 2)
  {
    var x := Xor(p, c);
    XorZero(p, c);
    assert BitLength(x) == 1 + BitLength(x / 2);
    XorShr(p, c, j);
    XorIsOne(Shr(p, j), Shr(c, j));
    ShrIsOne(x, j);
  }
}
