/** src/dual_ec_drbg.py: the generator on NIST P-256 with fixed P and Q, the
    seed 0x42, and the bit-length-relative truncation of 16 bits. */
module DualEcDrbg {
  import opened Wrappers
  import opened PyInt
  import opened Curve
  import opened Truncation
  import opened Generator
  import P256

  /** `truncate`'s default width. */
  const Trunc: nat := 16

  class DualECDRBG {
    const curve: CurveParams
    var seed: Option<int>
    const P: Point
    const Q: Point

    /** `DualECDRBG()`: a fresh generator starts from seed 0x42 with P = G
        and the standard's Q (both on the curve, P256.PointsOnCurve). */
    constructor()
      ensures curve == P256.Params && seed == Some(0x42)
      ensures P == P256.G && Q == P256.QPoint
    {
      curve := P256.Params;
      seed := Some(0x42);
      P := P256.G;
      Q := P256.QPoint;
    }

    /** `generate()`: replaces the seed by x(r * P), r = x(seed * P), and
        returns the relative truncation of x(r * Q); only the seed changes. */
    method Generate() returns (out: Option<int>)
      modifies this`seed
      ensures var o := Step(curve, Some(P), Some(Q), old(seed), None);
              seed == o.seed && out == TruncateRelativeOpt(o.raw, Trunc)
    {
      if seed.None? {
        return None;
      }
      var r := X(Mul(curve, seed.value, P));
      if r.None? {
        return None;
      }
      seed := X(Mul(curve, r.value, P));
      var output := X(Mul(curve, r.value, Q));
      out := TruncateRelativeOpt(output, Trunc);
    }
  }

  /** An output is the value with its top 16 bits removed: what was removed
      is below 2^16 and, put back in front, restores the x-coordinate. */
  lemma OutputDropsTopBits(c: CurveParams, P: Point, Q: Point, stored: Option<int>)
    requires TruncateRelativeOpt(Step(c, Some(P), Some(Q), stored, None).raw, Trunc).Some?
    requires Step(c, Some(P), Some(Q), stored, None).raw.value >= 0
    ensures var v := Step(c, Some(P), Some(Q), stored, None).raw.value;
            var out := TruncateRelativeOpt(Step(c, Some(P), Some(Q), stored, None).raw, Trunc).value;
            var k := BitLength(v) - Trunc;
            && 0 <= out <= v
            && 0 <= ShiftRight(v, k) < Pow2(Trunc)
            && v == ShiftLeft(ShiftRight(v, k), k) + out
  {
    var v := Step(c, Some(P), Some(Q), stored, None).raw.value;
    TruncateRelativeSplit(v, Trunc);
  }
}
