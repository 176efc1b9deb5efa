/** Bytes, shifts and the bitwise "or" of natural numbers, as the wire formats use them. */
module Bytes {

  type byte = n: nat | n < 256

  datatype Option<+T> = None | Some(value: T)

  const TWO_32: nat := 0x1_0000_0000
  const TWO_64: nat := 0x1_0000_0000_0000_0000

  /** x shifted left by k bits. */
  function Shl(x: nat, k: nat): nat {
    if k == 0 then x else 2 * Shl(x, k - 1)
  }

  /** Bitwise or of two unsigned numbers. */
  function Or(a: nat, b: nat): nat
    decreases a + b
  {
    if a == 0 then b
    else if b == 0 then a
    else (if a % 2 == 1 || b % 2 == 1 then 1 else 0) + 2 * Or(a / 2, b / 2)
  }

  lemma {:induction false} ShlPlus(x: nat, j: nat, k: nat)
    ensures Shl(Shl(x, j), k) == Shl(x, j + k)
  {
    if k > 0 {
      ShlPlus(x, j, k - 1);
    }
  }

  lemma {:induction false} ShlMonotone(x: nat, y: nat, k: nat)
    requires x <= y
    ensures x <= Shl(x, k) <= Shl(y, k)
    ensures x < y ==> Shl(x, k) < Shl(y, k)
  {
    if k > 0 {
      ShlMonotone(x, y, k - 1);
    }
  }

  lemma {:induction false} ShlSum(x: nat, y: nat, k: nat)
    ensures Shl(x + y, k) == Shl(x, k) + Shl(y, k)
  {
    if k > 0 {
      ShlSum(x, y, k - 1);
    }
  }

  lemma Shl7(x: nat)
    ensures Shl(x, 7) == 0x80 * x
  {
    assert Shl(x, 1) == 2 * x;
    assert Shl(x, 2) == 4 * x;
    assert Shl(x, 3) == 8 * x;
    assert Shl(x, 4) == 16 * x;
    assert Shl(x, 5) == 32 * x;
    assert Shl(x, 6) == 64 * x;
  }

  lemma Shl8(x: nat)
    ensures Shl(x, 8) == 0x100 * x
  {
    Shl7(x);
  }

  lemma Shl14(x: nat)
    ensures Shl(x, 14) == 0x4000 * x
  {
    Shl7(x);
    Shl7(0x80 * x);
    ShlPlus(x, 7, 7);
  }

  lemma Shl21(x: nat)
    ensures Shl(x, 21) == 0x20_0000 * x
  {
    Shl14(x);
    Shl7(0x4000 * x);
    ShlPlus(x, 14, 7);
  }

  lemma Shl28(x: nat)
    ensures Shl(x, 28) == 0x1000_0000 * x
  {
    Shl21(x);
    Shl7(0x20_0000 * x);
    ShlPlus(x, 21, 7);
  }

  lemma Shl32(x: nat)
    ensures Shl(x, 32) == 0x1_0000_0000 * x
  {
    Shl28(x);
    var y := Shl(x, 28);
    ShlPlus(x, 28, 4);
    assert Shl(y, 1) == 2 * y;
    assert Shl(y, 2) == 4 * y;
    assert Shl(y, 3) == 8 * y;
    assert Shl(y, 4) == 16 * y;
  }

  lemma Shl64(x: nat)
    ensures Shl(x, 64) == 0x1_0000_0000_0000_0000 * x
  {
    Shl32(x);
    Shl32(0x1_0000_0000 * x);
    ShlPlus(x, 32, 32);
  }

  /** Or-ing in bits above every set bit is addition. */
  lemma {:induction false} OrDisjoint(a: nat, x: nat, k: nat)
    requires a < Shl(1, k)
    ensures Or(a, Shl(x, k)) == a + Shl(x, k)
  {
    ShlSum(0, 0, k);
    if k > 0 && a > 0 && x > 0 {
      OrDisjoint(a / 2, x, k - 1);
      ShlMonotone(x, x, k - 1);
      var y := Shl(x, k - 1);
      assert Or(a, 2 * y) == a % 2 + 2 * Or(a / 2, y);
    }
  }

  /** Or never sets a bit that is above every bit of both operands. */
  lemma {:induction false} OrBound(a: nat, b: nat, k: nat)
    requires a < Shl(1, k) && b < Shl(1, k)
    ensures Or(a, b) < Shl(1, k)
  {
    if a > 0 && b > 0 {
      OrBound(a / 2, b / 2, k - 1);
    }
  }
}
