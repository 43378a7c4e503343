/** Python's arbitrary-precision integer operations that the scripts rely on:
    floor division and modulo, `int.bit_length`, shifts and bitwise or.
    Dafny's own `/` and `%` are Euclidean, so Python's floor semantics are
    written out for negative divisors. */
module PyInt {

  function Abs(x: int): (r: nat)
    ensures r == x || r == -x
  {
    if x < 0 then -x else x
  }

  /** 2^k. */
  function Pow2(k: nat): (r: nat)
    ensures r >= 1
  {
    if k == 0 then 1 else 2 * Pow2(k - 1)
  }

  lemma {:induction false} Pow2Add(j: nat, k: nat)
    ensures Pow2(j + k) == Pow2(j) * Pow2(k)
  {
    if k > 0 {
      Pow2Add(j, k - 1);
      assert Pow2(j + k) == 2 * Pow2(j + k - 1);
    }
  }

  /** Python's `a % b`: the remainder takes the sign of the divisor. */
  function FloorMod(a: int, b: int): (r: int)
    requires b != 0
    ensures b > 0 ==> 0 <= r < b
    ensures b < 0 ==> b < r <= 0
  {
    if b < 0 && a % b != 0 then a % b + b else a % b
  }

  /** Python's `a // b`: the quotient rounded towards minus infinity. */
  function FloorDiv(a: int, b: int): (r: int)
    requires b != 0
  {
    if b < 0 && a % b != 0 then a / b - 1 else a / b
  }

  /** Python's guarantee `(a // b) * b + a % b == a`. */
  lemma FloorDivMod(a: int, b: int)
    requires b != 0
    ensures FloorDiv(a, b) * b + FloorMod(a, b) == a
  {
    var q, m := a / b, a % b;
    assert q * b + m == a;
    if b < 0 && m != 0 {
      assert (q - 1) * b == q * b - b;
    }
  }

  /** The number of bits of |x|, as `int.bit_length`: 0 for 0. */
  function BitLength(x: int): (r: nat)
    ensures x != 0 ==> r >= 1
    decreases Abs(x), if x < 0 then 1 else 0
  {
    if x < 0 then BitLength(-x)
    else if x == 0 then 0
    else 1 + BitLength(x / 2)
  }

  /** A value has at most k bits exactly when its magnitude is below 2^k. */
  lemma BitLengthBound(x: int, k: nat)
    ensures BitLength(x) <= k <==> Abs(x) < Pow2(k)
  {
    if x < 0 {
      assert BitLength(x) == BitLength(-x) && Abs(x) == -x;
      NatBitLengthBound(-x, k);
    } else {
      NatBitLengthBound(x, k);
    }
  }

  /** The same for a non-negative value, by induction on k. */
  lemma {:induction false} NatBitLengthBound(x: nat, k: nat)
    ensures BitLength(x) <= k <==> x < Pow2(k)
  {
    if x == 0 {
      assert BitLength(x) == 0;
    } else if k == 0 {
      assert BitLength(x) >= 1 && Pow2(k) == 1;
    } else {
      var h, q := x / 2, Pow2(k - 1);
      NatBitLengthBound(h, k - 1);
      assert BitLength(x) == 1 + BitLength(h);
      assert Pow2(k) == 2 * q;
      assert x == 2 * h + x % 2 && 0 <= x % 2 < 2;
    }
  }

  /** A positive value reaches 2^(bit_length - 1). */
  lemma {:induction false} BitLengthTop(x: int)
    requires x != 0
    ensures Pow2(BitLength(x) - 1) <= Abs(x)
    decreases Abs(x), if x < 0 then 1 else 0
  {
    if x < 0 {
      BitLengthTop(-x);
    } else if x > 1 {
      BitLengthTop(x / 2);
    }
  }

  /** `i << s` for a non-negative shift count. */
  function ShiftLeft(i: int, s: nat): (r: int)
  {
    i * Pow2(s)
  }

  /** `x >> s` for a non-negative shift count (an arithmetic, flooring shift). */
  function ShiftRight(x: int, s: nat): (r: int)
  {
    FloorDiv(x, Pow2(s))
  }

  /** Python's `a | b` on integers in two's complement of unbounded width. */
  function Or(a: int, b: int): (r: int)
    decreases Abs(a) + Abs(b)
  {
    if a == 0 then b
    else if b == 0 then a
    else if a == -1 || b == -1 then -1
    else 2 * Or(FloorDiv(a, 2), FloorDiv(b, 2)) + (if a % 2 == 1 || b % 2 == 1 then 1 else 0)
  }

  /** Or-ing a value below 2^s into a number shifted left by s places adds it:
      the two have no set bit in common. */
  lemma {:induction false} OrShiftedLow(i: int, s: nat, low: int)
    requires 0 <= low < Pow2(s)
    ensures Or(ShiftLeft(i, s), low) == ShiftLeft(i, s) + low
  {
    var a := ShiftLeft(i, s);
    if s == 0 {
      assert low == 0;
    } else if a != 0 && low != 0 {
      assert a == 2 * ShiftLeft(i, s - 1);
      assert FloorDiv(a, 2) == ShiftLeft(i, s - 1);
      assert FloorDiv(low, 2) == low / 2;
      OrShiftedLow(i, s - 1, low / 2);
      assert a % 2 == 0;
    }
  }

  /** `x & (2^k - 1)`: for every integer, the non-negative residue mod 2^k. */
  function LowBits(x: int, k: nat): (r: int)
    ensures 0 <= r < Pow2(k)
    ensures (x - r) % Pow2(k) == 0
  {
    var m := Pow2(k);
    assert x == (x / m) * m + x % m;
    MultipleMod(x / m, m);
    x % m
  }

  lemma MultipleMod(q: int, m: int)
    requires m != 0
    ensures (q * m) % m == 0
  {
    var d, r := (q * m) / m, (q * m) % m;
    assert (q - d) * m == r by {
      assert q * m == d * m + r;
    }
    if q - d != 0 {
      MulAtLeast(q - d, m);
      assert false;
    }
  }

  /** A non-zero multiple of m is at least |m| in magnitude. */
  lemma MulAtLeast(k: int, m: int)
    requires k != 0
    ensures Abs(k * m) >= Abs(m)
  {
    MulAtLeastNat(Abs(k), Abs(m));
    assert Abs(k * m) == Abs(k) * Abs(m) by {
      if k < 0 && m < 0 { assert k * m == (-k) * (-m); }
      else if k < 0 { assert -(k * m) == (-k) * m; }
      else if m < 0 { assert -(k * m) == k * (-m); }
    }
  }

  lemma {:induction false} MulAtLeastNat(k: nat, m: nat)
    requires k >= 1
    ensures k * m >= m
  {
    if k > 1 {
      MulAtLeastNat(k - 1, m);
      assert k * m == (k - 1) * m + m;
    }
  }

  lemma MulMonotone(a: int, b: int, m: nat)
    requires a <= b
    ensures a * m <= b * m
  {
    if a < b {
      MulAtLeastNat(b - a, m);
      assert b * m - a * m == (b - a) * m;
    }
  }

  /** A value below k * m has quotient below k. */
  lemma DivBelow(x: int, m: int, k: int)
    requires m > 0 && 0 <= x < k * m
    ensures 0 <= x / m < k
  {
    assert x == (x / m) * m + x % m;
    if x / m >= k {
      MulMonotone(k, x / m, m);
    }
    if x / m < 0 {
      MulMonotone(x / m, -1, m);
    }
  }

  lemma DivMod(x: int, m: int)
    requires m != 0
    ensures x == (x / m) * m + x % m
  {
  }
}
