/** The two truncation rules of the generators. The fixed-width rule keeps
    the low l - n bits of an l-bit output (l = 32 in dual_ec_backdoor.py,
    l = 256 in dual_ec_drbg_backdoor.py); the bit-length-relative rule of
    test.py and dual_ec_drbg.py drops the top n bits of the value itself. */
module Truncation {
  import opened Wrappers
  import opened PyInt
  import Field

  /** `truncate(x, n)` of the fixed-width generators:
      `0 if x.bit_length() <= n else x & (2 ** (l - n) - 1)`. None where the
      source raises: when n > l the mask is a float and `&` fails. */
  function TruncateFixed(x: int, n: int, l: int): (r: Option<int>)
    ensures n >= 0 && Abs(x) < Pow2(n) ==> r == Some(0)
    ensures r.None? <==> n > l && BitLength(x) > n
    ensures r.Some? && BitLength(x) > n ==>
              0 <= r.value < Pow2(l - n) && (x - r.value) % Pow2(l - n) == 0
  {
    DegenerateBelow(x, n);
    if BitLength(x) <= n then Some(0)
    else if n > l then None
    else Some(LowBits(x, l - n))
  }

  lemma DegenerateBelow(x: int, n: int)
    ensures n >= 0 ==> (BitLength(x) <= n <==> Abs(x) < Pow2(n))
  {
    if n >= 0 {
      BitLengthBound(x, n);
    }
  }

  /** Every fixed-width output is below 2^(l - n). */
  lemma TruncateFixedBound(x: int, n: int, l: int)
    requires 0 <= n <= l
    ensures TruncateFixed(x, n, l).Some? && 0 <= TruncateFixed(x, n, l).value < Pow2(l - n)
  {
  }

  /** With nothing truncated, an l-bit value comes back unchanged. */
  lemma TruncateNothing(x: int, l: nat)
    requires 0 <= x < Pow2(l)
    ensures TruncateFixed(x, 0, l) == Some(x)
  {
    if x != 0 {
      var r := TruncateFixed(x, 0, l).value;
      assert (x - r) % Pow2(l) == 0 && 0 <= r < Pow2(l);
      Field.CongruentIff(x, r, Pow2(l));
      Field.SmallMod(x, Pow2(l));
      Field.SmallMod(r, Pow2(l));
    }
  }

  /** The observer's reconstruction inverts truncation: the high bits
      `i = raw >> (l - n)` are one of the 2^n values the attack enumerates, and
      `(i << (l - n)) | truncate(raw, n)` gives back raw. */
  lemma TruncateReconstruct(raw: int, n: nat, l: nat)
    requires n <= l && 0 <= raw < Pow2(l) && BitLength(raw) > n
    ensures 0 <= ShiftRight(raw, l - n) < Pow2(n)
    ensures Or(ShiftLeft(ShiftRight(raw, l - n), l - n), TruncateFixed(raw, n, l).value) == raw
  {
    TruncateFixedKeepsLow(raw, n, l);
    Reassemble(raw, n, l - n, l);
  }

  /** The high and low parts of an (n + s)-bit value, or-ed together. */
  lemma Reassemble(x: int, n: nat, s: nat, l: nat)
    requires l == n + s && 0 <= x < Pow2(l)
    ensures 0 <= ShiftRight(x, s) < Pow2(n)
    ensures Or(ShiftLeft(ShiftRight(x, s), s), LowBits(x, s)) == x
  {
    SplitAt(x, s);
    HighBelow(x, n, s, l);
    OrShiftedLow(ShiftRight(x, s), s, LowBits(x, s));
  }

  /** Proof helper: TruncateFixed unfolded where it keeps the low bits. */
  lemma TruncateFixedKeepsLow(x: int, n: int, l: int)
    requires n <= l && BitLength(x) > n
    ensures TruncateFixed(x, n, l) == Some(LowBits(x, l - n))
  {
  }

  /** A value is its high part shifted back plus its low s bits. */
  lemma SplitAt(x: int, s: nat)
    ensures ShiftLeft(ShiftRight(x, s), s) + LowBits(x, s) == x
  {
    var m := Pow2(s);
    assert ShiftRight(x, s) == x / m;
    assert LowBits(x, s) == x % m;
    DivMod(x, m);
  }

  /** The part of an (n + s)-bit value above its low s bits is below 2^n. */
  lemma HighBelow(x: int, n: nat, s: nat, l: nat)
    requires l == n + s && 0 <= x < Pow2(l)
    ensures 0 <= ShiftRight(x, s) < Pow2(n)
  {
    var m := Pow2(s);
    assert ShiftRight(x, s) == x / m;
    Pow2Add(n, s);
    DivBelow(x, m, Pow2(n));
  }

  /** `truncate(x, n)` of the bit-length-relative generators:
      `x & (2 ** (x.bit_length() - n) - 1)`. None where the source raises,
      which is whenever x has fewer than n bits (the mask is then a float).
      Otherwise the value lies below 2^(bit_length(x) - n) and, for x >= 0,
      never exceeds x; a value of exactly n bits truncates to 0. */
  function TruncateRelative(x: int, n: int): (r: Option<int>)
    ensures r.Some? <==> BitLength(x) >= n
    ensures BitLength(x) == n ==> r == Some(0)
    ensures r.Some? ==> 0 <= r.value < Pow2(BitLength(x) - n)
    ensures r.Some? && x >= 0 ==> r.value <= x
  {
    if BitLength(x) < n then None
    else
      var k := BitLength(x) - n;
      var v := LowBits(x, k);
      ModAtMost(x, Pow2(k));
      Some(v)
  }

  lemma ModAtMost(x: int, m: int)
    requires m > 0
    ensures x >= 0 ==> x % m <= x
  {
    if x >= 0 {
      assert x == (x / m) * m + x % m;
      assert x / m >= 0;
      assert (x / m) * m >= 0;
    }
  }

  /** The relative rule removes exactly the top n bits of a non-negative
      value: what it drops, `x >> (bit_length(x) - n)`, is below 2^n, and
      putting it back in front of the output restores x. */
  lemma TruncateRelativeSplit(x: int, n: nat)
    requires x >= 0 && BitLength(x) >= n
    ensures var k := BitLength(x) - n;
            var top := ShiftRight(x, k);
            && 0 <= top < Pow2(n)
            && x == ShiftLeft(top, k) + TruncateRelative(x, n).value
  {
    NatBitLengthBound(x, BitLength(x));
    TruncateRelativeKeepsLow(x, n);
    SplitBelow(x, n, BitLength(x) - n, BitLength(x), TruncateRelative(x, n).value);
  }

  /** Proof helper: TruncateRelative unfolded where it does not raise. */
  lemma TruncateRelativeKeepsLow(x: int, n: int)
    requires BitLength(x) >= n
    ensures TruncateRelative(x, n) == Some(LowBits(x, BitLength(x) - n))
  {
  }

  /** An (n + s)-bit value is its high part, below 2^n, shifted back in front
      of its low s bits. */
  lemma SplitBelow(x: int, n: nat, s: nat, l: nat, low: int)
    requires l == n + s && 0 <= x < Pow2(l) && low == LowBits(x, s)
    ensures 0 <= ShiftRight(x, s) < Pow2(n)
    ensures x == ShiftLeft(ShiftRight(x, s), s) + low
  {
    SplitAt(x, s);
    HighBelow(x, n, s, l);
  }

  /** With n = 0 the relative rule returns a non-negative value unchanged. */
  lemma TruncateRelativeNothing(x: int)
    requires x >= 0
    ensures TruncateRelative(x, 0) == Some(x)
  {
    TruncateRelativeSplit(x, 0);
    var k := BitLength(x);
    assert Pow2(0) == 1;
    assert ShiftRight(x, k) == 0;
    assert ShiftLeft(0, k) == 0;
  }

  /** A value with fewer than n bits, i.e. below 2^(n-1) in magnitude, makes
      the relative rule raise. */
  lemma TruncateRelativeRaises(x: int, n: nat)
    requires n >= 1 && Abs(x) < Pow2(n - 1)
    ensures TruncateRelative(x, n) == None
  {
    BitLengthBound(x, n - 1);
  }

  /** The fixed-width rule applied to what `generate` computed before
      truncating: None (the call raises) when the x-coordinate is missing. */
  function TruncateFixedOpt(raw: Option<int>, n: int, l: int): (r: Option<int>)
  {
    match raw
    case None => None
    case Some(v) => TruncateFixed(v, n, l)
  }

  /** The bit-length-relative rule on a possibly missing x-coordinate. */
  function TruncateRelativeOpt(raw: Option<int>, n: int): (r: Option<int>)
  {
    match raw
    case None => None
    case Some(v) => TruncateRelative(v, n)
  }
}
