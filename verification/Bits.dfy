/** The bits of unsigned numbers, and what shifts and bitwise operations make of them. */
module Bits {
  import opened Bytes

  predicate Bit(x: nat, i: nat)
    decreases i
  {
    if i == 0 then x % 2 == 1 else Bit(x / 2, i - 1)
  }

  /** Bitwise and of two unsigned numbers. */
  function And(a: nat, b: nat): nat
    decreases a + b
  {
    if a == 0 || b == 0 then 0
    else (if a % 2 == 1 && b % 2 == 1 then 1 else 0) + 2 * And(a / 2, b / 2)
  }

  lemma {:induction false} BitZero(i: nat)
    ensures !Bit(0, i)
  {
    if i > 0 {
      BitZero(i - 1);
    }
  }

  lemma {:induction false} BitShl(x: nat, s: nat, i: nat)
    ensures Bit(Shl(x, s), i) <==> i >= s && Bit(x, i - s)
    decreases s
  {
    if s > 0 && i > 0 {
      BitShl(x, s - 1, i - 1);
    }
  }

  lemma {:induction false} BitOr(a: nat, b: nat, i: nat)
    ensures Bit(Or(a, b), i) <==> Bit(a, i) || Bit(b, i)
    decreases i
  {
    BitZero(i);
    if a > 0 && b > 0 && i > 0 {
      BitOr(a / 2, b / 2, i - 1);
    }
  }

  lemma BitOne(s: nat, i: nat)
    ensures Bit(Shl(1, s), i) <==> i == s
  {
    BitShl(1, s, i);
    if i > s {
      BitZero(i - s - 1);
    }
  }

  lemma {:induction false} Multiple(k: nat, d: nat)
    requires k > 0
    ensures k * d >= d
  {}

  lemma ModUnique(x: nat, d: nat, q: nat, r: nat)
    requires r < d && x == q * d + r
    ensures x % d == r
  {
    var p, t := x / d, x % d;
    assert x == p * d + t && t < d;
    if p < q {
      var k := q - p;
      assert q * d == p * d + k * d;
      Multiple(k, d);
      assert false;
    } else if q < p {
      var k := p - q;
      assert p * d == q * d + k * d;
      Multiple(k, d);
      assert false;
    }
  }

  lemma HalfMod(x: nat, m: nat)
    requires m > 0
    ensures x % (2 * m) == 2 * (x / 2 % m) + x % 2
  {
    var q, r := x / 2 / m, x / 2 % m;
    assert x / 2 == q * m + r;
    assert x == q * (2 * m) + (2 * r + x % 2) by {
      assert q * (2 * m) == 2 * (q * m);
    }
    ModUnique(x, 2 * m, q, 2 * r + x % 2);
  }

  /** Truncation to k bits. */
  lemma {:induction false} BitMod(x: nat, k: nat, i: nat)
    ensures Shl(1, k) > 0 && (Bit(x % Shl(1, k), i) <==> i < k && Bit(x, i))
    decreases k
  {
    if k == 0 {
      BitZero(i);
    } else {
      BitMod(x / 2, k - 1, if i == 0 then 0 else i - 1);
      HalfMod(x, Shl(1, k - 1));
    }
  }

  /** A number and a single bit have a common bit exactly when the number has that bit. */
  lemma {:induction false} AndOne(x: nat, s: nat)
    ensures And(x, Shl(1, s)) != 0 <==> Bit(x, s)
  {
    ShlMonotone(1, 1, s);
    if x == 0 {
      BitZero(s);
    } else if s > 0 {
      AndOne(x / 2, s - 1);
    }
  }
}
