/** src/test.py: the generator on the toy curve y^2 = x^3 - 3x + 1 over
    p = 103, with the bit-length-relative truncation of 16 bits. Every
    x-coordinate on this curve is below 103 and so has at most 7 bits: each
    `generate` call that gets as far as truncating raises. */
module SmallCurveGenerator {
  import opened Wrappers
  import opened PyInt
  import opened Curve
  import opened Truncation
  import opened Generator
  import Field

  /** `my_ec_curve`. */
  const Params: CurveParams := CurveParams(103, -3, 1)

  /** The configured prime passes the modulus check of `square_root_mod_p`:
      103 + 1 is divisible by 4, so a root exists exactly for the values that
      meet Euler's criterion. */
  lemma RootModulusFits(z: int)
    ensures (Params.p + 1) % 4 == 0
    ensures Field.SqrtModP(z, Params.p).Some? <==> Field.IsResidue(z, Params.p)
  {
  }

  /** `truncate`'s default width. */
  const Trunc: nat := 16

  class MyEC {
    const curve: CurveParams
    var seed: Option<int>
    /** Missing attributes (None) until `set_P` / `set_Q` are called. */
    var P: Option<Point>
    var Q: Option<Point>

    /** `MyEC()`: the fixed seed 0xdeadbeef. */
    constructor()
      ensures curve == Params && seed == Some(0xdeadbeef)
      ensures P == None && Q == None
    {
      curve := Params;
      seed := Some(0xdeadbeef);
      P := None;
      Q := None;
    }

    /** `set_P(x, y)`: raises, changing nothing, unless (x, y) is on the curve. */
    method SetP(x: int, y: int) returns (ok: bool)
      modifies this`P
      ensures ok == OnCurve(curve, x, y)
      ensures P == (if ok then Some(Affine(x, y)) else old(P))
    {
      ok := OnCurve(curve, x, y);
      if ok {
        P := Some(Affine(x, y));
      }
    }

    /** `set_Q(x, y)`, as `set_P`. */
    method SetQ(x: int, y: int) returns (ok: bool)
      modifies this`Q
      ensures ok == OnCurve(curve, x, y)
      ensures Q == (if ok then Some(Affine(x, y)) else old(Q))
    {
      ok := OnCurve(curve, x, y);
      if ok {
        Q := Some(Affine(x, y));
      }
    }

    /** `generate()`: the stored seed drives one step and is replaced by
        x(r * P); the output is `truncate(x(r * Q))` with the relative rule. */
    method Generate() returns (out: Option<int>)
      modifies this`seed
      ensures var o := Step(curve, P, Q, old(seed), None);
              seed == o.seed && out == TruncateRelativeOpt(o.raw, Trunc)
    {
      if seed.None? || P.None? {
        return None;
      }
      var r := X(Mul(curve, seed.value, P.value));
      if r.None? {
        return None;
      }
      seed := X(Mul(curve, r.value, P.value));
      if Q.None? {
        return None;
      }
      var output := X(Mul(curve, r.value, Q.value));
      out := TruncateRelativeOpt(output, Trunc);
    }
  }

  /** Every value of the field, indeed every value below 2^15, is too short
      for a 16-bit relative truncation: `truncate` raises on it. */
  lemma FieldValuesTooShort(x: int)
    requires 0 <= x < Params.p
    ensures TruncateRelative(x, Trunc) == None
  {
    assert Pow2(15) == 32768 by {
      assert Pow2(5) == 32;
      Pow2Add(5, 5);
      Pow2Add(10, 5);
    }
    TruncateRelativeRaises(x, Trunc);
  }

  /** So an output is only ever produced from an x-coordinate outside
      [0, 103), which no reduced coordinate of this curve is. */
  lemma OutputNeedsUnreducedCoordinate(P: Option<Point>, Q: Option<Point>, stored: Option<int>)
    requires TruncateRelativeOpt(Step(Params, P, Q, stored, None).raw, Trunc).Some?
    ensures var v := Step(Params, P, Q, stored, None).raw.value;
            !(0 <= v < Params.p)
  {
    var v := Step(Params, P, Q, stored, None).raw.value;
    if 0 <= v < Params.p {
      FieldValuesTooShort(v);
    }
  }
}
