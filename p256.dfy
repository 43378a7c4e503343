/** The NIST P-256 domain parameters that dual_ec_drbg_backdoor.py and
    dual_ec_drbg.py copy into their `nist_p256` table (FIPS 186-4,
    section D.1.2.3), together with the Dual_EC_DRBG point Q of NIST
    SP 800-90A (2012), appendix A.1.1. */
module P256 {
  import opened Curve

  /** p = 2^256 - 2^224 + 2^192 + 2^96 - 1. */
  const Prime: int := 0xffffffff_00000001_00000000_00000000_00000000_ffffffff_ffffffff_ffffffff

  const B: int := 0x5ac635d8_aa3a93e7_b3ebbd55_769886bc_651d06b0_cc53b0f6_3bce3c3e_27d2604b

  /** The curve y^2 = x^3 - 3x + b over the P-256 prime. */
  const Params: CurveParams := CurveParams(Prime, -3, B)

  /** The generator G, used as the Dual_EC_DRBG point P. */
  const G: Point := Affine(0x6b17d1f2_e12c4247_f8bce6e5_63a440f2_77037d81_2deb33a0_f4a13945_d898c296,
                           0x4fe342e2_fe1a7f9b_8ee7eb4a_7c0f9e16_2bce3357_6b315ece_cbb64068_37bf51f5)

  /** The standard's point Q. */
  const QPoint: Point := Affine(0xc97445f4_5cdef9f0_d3e05e1e_585fc297_235b82b5_be8ff3ef_ca67c598_52018192,
                                0xb28ef557_ba31dfcb_dd21ac46_e2a91e3c_304f44cb_87058ada_2cb81515_1e610046)

  /** The prime supports `square_root_mod_p`. */
  lemma PrimeSupportsRoot()
    ensures (Prime + 1) % 4 == 0
  {
  }

  /** Both points lie on the curve, so the constructors' `Point(curve, x, y)`
      calls never raise. */
  lemma PointsOnCurve()
    ensures OnCurve(Params, G.x, G.y)
    ensures OnCurve(Params, QPoint.x, QPoint.y)
  {
  }
}
