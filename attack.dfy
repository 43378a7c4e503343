/** The body of `find_possible_seeds` that dual_ec_backdoor.py and
    dual_ec_drbg_backdoor.py share: from the i-th guess at the truncated high
    bits, rebuild a full x-coordinate, keep it only if its curve value is a
    quadratic residue, take the point with that x and the root returned by
    `square_root_mod_p`, and multiply it by the trapdoor scalar e. */
module Attack {
  import opened Wrappers
  import opened PyInt
  import opened Field
  import opened Curve
  import Truncation

  /** What the loop body makes of one index i: nothing (not a residue), an
      exception, or a predicted seed (None when e * A is at infinity). */
  datatype Candidate = Skip | Raise | Seed(pred: Option<int>)

  /** `x = i << (l - n) | output`. */
  function CandidateX(l: int, n: int, output: int, i: nat): (r: int)
    requires n <= l
  {
    Or(ShiftLeft(i, l - n), output)
  }

  /** One pass of the loop body for index i, with output length l and
      truncation width n. A negative shift count (n > l) raises; so do the
      assertion on p inside `square_root_mod_p` and the curve check of
      `Point(curve, x, y)`, but the latter never fails: the root found is the
      y of a point on the curve. */
  function Reconstruct(c: CurveParams, l: int, n: int, output: int, e: int, i: nat): (r: Candidate)
    ensures r == Skip <==> n <= l && !IsResidue(Evaluate(c, CandidateX(l, n, output, i)), c.p)
    ensures r == Raise <==>
              n > l || ((c.p + 1) % 4 != 0 && IsResidue(Evaluate(c, CandidateX(l, n, output, i)), c.p))
    ensures r.Seed? ==>
              var x := CandidateX(l, n, output, i);
              exists y :: OnCurve(c, x, y) && r.pred == X(Mul(c, e, Affine(x, y)))
  {
    if n > l then Raise
    else
      var x := CandidateX(l, n, output, i);
      var z := Evaluate(c, x);
      if !IsResidue(z, c.p) then Skip
      else match SqrtModP(z, c.p)
        case None => Raise
        case Some(y) =>
          RootGivesPoint(c, x);
          if !OnCurve(c, x, y) then Raise
          else Seed(X(Mul(c, e, Affine(x, y))))
  }

  /** The candidate built from the true x-coordinate: when the real
      pre-truncation value raw is rebuilt at index raw >> (l - n), its point
      is (raw, root of the curve value), and the seed predicted from it is
      x(e * (raw, root)). */
  lemma ReconstructAtTrueIndex(c: CurveParams, l: nat, n: nat, raw: int, e: int)
    requires n <= l && 0 <= raw < Pow2(l) && PyInt.BitLength(raw) > n
    requires (c.p + 1) % 4 == 0 && IsResidue(Evaluate(c, raw), c.p)
    ensures var i := ShiftRight(raw, l - n);
            && 0 <= i < Pow2(n)
            && Reconstruct(c, l, n, Truncation.TruncateFixed(raw, n, l).value, e, i)
               == Seed(X(Mul(c, e, Affine(raw, SqrtModP(Evaluate(c, raw), c.p).value))))
  {
    Truncation.TruncateReconstruct(raw, n, l);
    RootGivesPoint(c, raw);
  }

  /** A candidate whose curve value is 0 is skipped, on any prime p >= 3:
      `square_root_exists(0, p)` is false. */
  lemma ZeroCurveValueSkipped(c: CurveParams, l: int, n: int, output: int, e: int, i: nat)
    requires n <= l && c.p >= 3 && Evaluate(c, CandidateX(l, n, output, i)) == 0
    ensures Reconstruct(c, l, n, output, e, i) == Skip
  {
    MultipleNotResidue(0, c.p);
  }
}
