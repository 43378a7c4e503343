/** The generate step that the four generator classes share: from a seed s,
    r = x(s * P), the stored seed becomes x(r * P), and the output is the
    truncation of x(r * Q). The classes differ only in where s comes from and
    in the truncation rule, so the step is defined once here, before
    truncation. It is a simplified form of the Dual_EC_DRBG generate step of
    NIST SP 800-90A (2012), section 10.3.1. */
module Generator {
  import opened Wrappers
  import opened Curve

  /** What one `generate` call leaves behind: the seed it stores, and the
      x-coordinate of r * Q before truncation, or None when the call raises. */
  datatype Outcome = Outcome(seed: Option<int>, raw: Option<int>)

  /** One `generate` call. s is the explicit seed argument when it is not
      None, else the stored seed. The call raises before touching the seed
      when s is None, P was never set, or s * P is the point at infinity (r is
      then None and `r * P` fails). Otherwise it stores x(r * P), which is
      None when r * P is at infinity, and then raises if Q was never set or
      r * Q is at infinity (`truncate(None)` fails). */
  function Step(c: CurveParams, P: Option<Point>, Q: Option<Point>,
                stored: Option<int>, arg: Option<int>): (o: Outcome)
  {
    var s := if arg.None? then stored else arg;
    if s.None? || P.None? then Outcome(stored, None)
    else match X(Mul(c, s.value, P.value))
      case None => Outcome(stored, None)
      case Some(r) =>
        var next := X(Mul(c, r, P.value));
        if Q.None? then Outcome(next, None) else Outcome(next, X(Mul(c, r, Q.value)))
  }

  /** An explicit seed decides the call alone: the stored seed is then
      neither read nor, once r exists, kept. */
  lemma ExplicitSeedDecides(c: CurveParams, P: Option<Point>, Q: Option<Point>,
                            stored1: Option<int>, stored2: Option<int>, s: int)
    requires P.Some? && X(Mul(c, s, P.value)).Some?
    ensures Step(c, P, Q, stored1, Some(s)) == Step(c, P, Q, stored2, Some(s))
    ensures Step(c, P, Q, stored1, Some(s)).seed == X(Mul(c, X(Mul(c, s, P.value)).value, P.value))
  {
  }

  /** Calling with no seed is calling with the stored one. */
  lemma DefaultSeedIsStored(c: CurveParams, P: Option<Point>, Q: Option<Point>, s: int)
    ensures Step(c, P, Q, Some(s), None) == Step(c, P, Q, Some(s), Some(s))
  {
  }
}
