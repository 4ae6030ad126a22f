/** Python's integer bit operators, restricted to non-negative integers.

    Python integers are unbounded, so no bit width is fixed here: `1 << n`,
    `x >> s` and `a & b` are defined on `nat` and are exact for every size.
    `Bit(x, i)` gives the meaning of all three, bit by bit. */
module Bits {

  /** `1 << n`. */
  function Pow2(n: nat): (p: nat)
    ensures p >= 1
  {
    if n == 0 then 1 else 2 * Pow2(n - 1)
  }

  /** `x >> s` for non-negative `x`: s halvings, each dropping the lowest bit. */
  function ShiftRight(x: nat, s: nat): (r: nat)
    ensures r <= x
  {
    if s == 0 then x else ShiftRight(x / 2, s - 1)
  }

  /** `a & b` for non-negative operands, computed from the least significant bit up.
      The result is no larger than either operand. */
  function BitAnd(a: nat, b: nat): (r: nat)
    ensures r <= a && r <= b
    decreases a
  {
    if a == 0 || b == 0 then 0
    else 2 * BitAnd(a / 2, b / 2) + (if a % 2 == 1 && b % 2 == 1 then 1 else 0)
  }

  /** Bit i of x is 1 (bit 0 is the least significant one). */
  predicate Bit(x: nat, i: nat)
    decreases i
  {
    if i == 0 then x % 2 == 1 else Bit(x / 2, i - 1)
  }

  lemma {:induction false} ZeroHasNoBits(i: nat)
    ensures !Bit(0, i)
  {
    if i > 0 {
      ZeroHasNoBits(i - 1);
    }
  }

  /** Two numbers with the same bits are equal. */
  lemma {:induction false} BitsDetermineValue(x: nat, y: nat)
    requires forall i: nat :: Bit(x, i) == Bit(y, i)
    ensures x == y
    decreases x + y
  {
    if x != 0 || y != 0 {
      assert Bit(x, 0) == Bit(y, 0);
      forall i: nat
        ensures Bit(x / 2, i) == Bit(y / 2, i)
      {
        assert Bit(x, i + 1) == Bit(y, i + 1);
      }
      BitsDetermineValue(x / 2, y / 2);
    }
  }

  /** `1 << n` has exactly bit n set. */
  lemma {:induction false} Pow2Bits(n: nat, i: nat)
    ensures Bit(Pow2(n), i) <==> i == n
  {
    if n == 0 {
      if i > 0 {
        ZeroHasNoBits(i - 1);
      }
    } else if i > 0 {
      assert Pow2(n) / 2 == Pow2(n - 1);
      Pow2Bits(n - 1, i - 1);
    }
  }

  /** `a & b` has a bit set exactly where both operands have it set. */
  lemma {:induction false} BitAndBits(a: nat, b: nat, i: nat)
    ensures Bit(BitAnd(a, b), i) <==> Bit(a, i) && Bit(b, i)
    decreases i
  {
    if a == 0 || b == 0 {
      ZeroHasNoBits(i);
    } else if i > 0 {
      assert BitAnd(a, b) / 2 == BitAnd(a / 2, b / 2);
      BitAndBits(a / 2, b / 2, i - 1);
    }
  }

  /** The mask test of a single bit: `x & (1 << n)` is `1 << n` when bit n of x is set and 0 otherwise. */
  lemma {:induction false} AndWithPow2(x: nat, n: nat)
    ensures BitAnd(x, Pow2(n)) == if Bit(x, n) then Pow2(n) else 0
    decreases n
  {
    if x == 0 {
      ZeroHasNoBits(n);
    } else if n > 0 {
      assert Pow2(n) / 2 == Pow2(n - 1);
      AndWithPow2(x / 2, n - 1);
    }
  }

  /** Quotient and remainder determine each other: x = d * q + r with 0 <= r < d gives x / d == q. */
  lemma DivisionUnique(x: nat, d: nat, q: nat, r: nat)
    requires d >= 1 && r < d && x == d * q + r
    ensures x / d == q
  {
    var q', r' := x / d, x % d;
    assert x == d * q' + r';
    if q' < q {
      assert d * q >= d * (q' + 1) by { MultiplyMonotone(d, q' + 1, q); }
      assert false;
    } else if q < q' {
      assert d * q' >= d * (q + 1) by { MultiplyMonotone(d, q + 1, q'); }
      assert false;
    }
  }

  lemma MultiplyMonotone(d: nat, a: nat, b: nat)
    requires a <= b
    ensures d * a <= d * b
  {
  }

  lemma HalfThenDivide(x: nat, k: nat)
    requires k >= 1
    ensures x / 2 / k == x / (2 * k)
  {
    var q, r := x / 2 / k, x / 2 % k;
    assert x / 2 == k * q + r;
    assert x == (2 * k) * q + (2 * r + x % 2);
    DivisionUnique(x, 2 * k, q, 2 * r + x % 2);
  }

  /** `x >> s` is floor division by 2 to the power s. */
  lemma {:induction false} ShiftRightDivides(x: nat, s: nat)
    ensures ShiftRight(x, s) == x / Pow2(s)
  {
    if s > 0 {
      ShiftRightDivides(x / 2, s - 1);
      HalfThenDivide(x, Pow2(s - 1));
    }
  }

  /** Bit i of `x >> s` is bit s + i of x. */
  lemma {:induction false} ShiftRightBits(x: nat, s: nat, i: nat)
    ensures Bit(ShiftRight(x, s), i) <==> Bit(x, s + i)
    decreases s
  {
    if s > 0 {
      ShiftRightBits(x / 2, s - 1, i);
    }
  }

  /** The bit group `(x >> s) & m`: bit i is set exactly when bit s + i of x and bit i of m are. */
  lemma ExtractBits(x: nat, s: nat, m: nat, i: nat)
    ensures Bit(BitAnd(ShiftRight(x, s), m), i) <==> Bit(x, s + i) && Bit(m, i)
  {
    BitAndBits(ShiftRight(x, s), m, i);
    ShiftRightBits(x, s, i);
  }
}
