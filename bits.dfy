/** Python's bitwise operators on non-negative integers: `^`, `&`, `|` and `>>`
    (which on a non-negative integer is division by a power of two). */
module Bits {

  function Pow2(n: nat): (r: nat)
    ensures r >= 1
  {
    if n == 0 then 1 else 2 * Pow2(n - 1)
  }

  lemma Pow2Values()
    ensures Pow2(8) == 0x100 && Pow2(31) == 0x8000_0000 && Pow2(32) == 0x1_0000_0000
  {
    assert Pow2(4) == 0x10;
    assert Pow2(8) == 0x100;
    assert Pow2(12) == 0x1000;
    assert Pow2(16) == 0x1_0000;
    assert Pow2(20) == 0x10_0000;
    assert Pow2(24) == 0x100_0000;
    assert Pow2(28) == 0x1000_0000;
  }

  /** Bitwise exclusive or of two naturals, lowest bit first. */
  function Xor(a: nat, b: nat): (r: nat)
    decreases a + b
  {
    if a == 0 && b == 0 then 0
    else 2 * Xor(a / 2, b / 2) + (if a % 2 == b % 2 then 0 else 1)
  }

  /** Exclusive or of two n-bit values is an n-bit value. */
  lemma {:induction false} XorBound(a: nat, b: nat, n: nat)
    requires a < Pow2(n) && b < Pow2(n)
    ensures Xor(a, b) < Pow2(n)
    decreases n
  {
    if n > 0 && !(a == 0 && b == 0) {
      XorBound(a / 2, b / 2, n - 1);
    }
  }

  /** When b holds bit n and a does not, their exclusive or holds bit n. */
  lemma {:induction false} XorTopBit(a: nat, b: nat, n: nat)
    requires a < Pow2(n) <= b < Pow2(n + 1)
    ensures Xor(a, b) >= Pow2(n)
    decreases n
  {
    if n > 0 {
      XorTopBit(a / 2, b / 2, n - 1);
    }
  }

  /** Exclusive or with a fixed value is one-to-one. */
  lemma {:induction false} XorCancel(c: nat, x: nat, y: nat)
    requires Xor(c, x) == Xor(c, y)
    ensures x == y
    decreases x + y
  {
    if !(x == 0 && y == 0) {
      XorCancel(c / 2, x / 2, y / 2);
    }
  }

  lemma {:induction false} XorCommutes(a: nat, b: nat)
    ensures Xor(a, b) == Xor(b, a)
    decreases a + b
  {
    if !(a == 0 && b == 0) {
      XorCommutes(a / 2, b / 2);
    }
  }

  lemma {:induction false} XorSelf(a: nat)
    ensures Xor(a, a) == 0
    decreases a
  {
    if a != 0 {
      XorSelf(a / 2);
    }
  }


  /** `Xor` seen one bit at a time: the low bit and the rest. */
  lemma XorUnfold(a: nat, b: nat)
    ensures Xor(a, b) == 2 * Xor(a / 2, b / 2) + (if a % 2 == b % 2 then 0 else 1)
  {
  }

  /** Xor against a value whose k low bits are all set flips those bits of a
      k-bit value and leaves the high part alone: m * 2^k + (2^k - 1) ^ v is
      m * 2^k + (2^k - 1 - v). With m = 0 this is the k-bit complement. */
  lemma {:induction false} XorLowOnes(m: nat, k: nat, v: nat)
    requires v < Pow2(k)
    ensures Xor(m * Pow2(k) + (Pow2(k) - 1), v) == m * Pow2(k) + (Pow2(k) - 1 - v)
  {
    if k == 0 {
      XorZero(m);
    } else {
      var n := Pow2(k - 1);
      var mn := m * n;
      assert m * Pow2(k) == 2 * mn;
      var a := 2 * mn + 2 * n - 1;
      assert a / 2 == mn + (n - 1) && a % 2 == 1;
      XorLowOnes(m, k - 1, v / 2);
      XorUnfold(a, v);
    }
  }

  lemma {:induction false} XorZero(a: nat)
    ensures Xor(a, 0) == a
    decreases a
  {
    if a != 0 {
      XorZero(a / 2);
    }
  }

  /** Bitwise and of two naturals, lowest bit first. */
  function And(a: nat, b: nat): (r: nat)
    decreases a + b
  {
    if a == 0 || b == 0 then 0
    else 2 * And(a / 2, b / 2) + (if a % 2 == 1 && b % 2 == 1 then 1 else 0)
  }

  /** `y >> p`: y shifted right by p bits. */
  function Shr(y: nat, p: nat): (r: nat) {
    if p == 0 then y else Shr(y / 2, p - 1)
  }

  lemma {:induction false} ShrUnfold(y: nat, p: nat)
    ensures Shr(y, p + 1) == Shr(y, p) / 2
  {
    if p > 0 {
      ShrUnfold(y / 2, p - 1);
    }
  }

  /** The shifts the P9813 header uses, as divisions. */
  lemma ShrValues(y: nat)
    ensures Shr(y, 2) == y / 4 && Shr(y, 4) == y / 16 && Shr(y, 6) == y / 64
  {
    ShrUnfold(y, 0);
    ShrUnfold(y, 1);
    ShrUnfold(y, 2);
    ShrUnfold(y, 3);
    ShrUnfold(y, 4);
    ShrUnfold(y, 5);
  }

  /** Masking with a two-bit field at position p (the masks 0x03, 0x0C and
      0x30 are p = 0, 2 and 4) keeps exactly those two bits of y. */
  lemma {:induction false} AndTwoBits(p: nat, y: nat)
    ensures And(3 * Pow2(p), y) == (Shr(y, p) % 4) * Pow2(p)
  {
    if p == 0 {
      if y != 0 {
        assert And(1, y / 2) == (y / 2) % 2;
      }
    } else {
      var n := Pow2(p - 1);
      AndTwoBits(p - 1, y / 2);
      var s := Shr(y / 2, p - 1) % 4;
      var a := 3 * Pow2(p);
      assert a == 2 * (3 * n);
      assert a / 2 == 3 * n && a % 2 == 0;
      assert And(a, y) == 2 * And(3 * n, y / 2);
      assert Shr(y, p) == Shr(y / 2, p - 1);
      assert And(3 * n, y / 2) == s * n;
      assert Pow2(p) == 2 * n;
      assert s * Pow2(p) == 2 * (s * n);
    }
  }

  /** Bitwise or of two naturals, lowest bit first. */
  function Or(a: nat, b: nat): (r: nat)
    decreases a + b
  {
    if a == 0 && b == 0 then 0
    else 2 * Or(a / 2, b / 2) + (if a % 2 == 1 || b % 2 == 1 then 1 else 0)
  }

  lemma {:induction false} OrZero(a: nat)
    ensures Or(a, 0) == a
    decreases a
  {
    if a != 0 {
      OrZero(a / 2);
    }
  }

  /** `a | 1` sets the low bit and keeps the others. */
  lemma OrOne(a: nat)
    ensures Or(a, 1) == a - a % 2 + 1
  {
    OrZero(a / 2);
  }
}
