/** src/dual_ec_drbg_backdoor.py: the generator on NIST P-256 with 256-bit
    outputs and a per-call truncation width, and the search that lists one
    predicted seed for every rebuilt x-coordinate whose curve value is a
    residue, without checking any of them against a later output. */
module DualEcDrbgBackdoor {
  import opened Wrappers
  import opened PyInt
  import opened Field
  import opened Curve
  import opened Truncation
  import opened Generator
  import opened Attack
  import P256

  /** `nist_p256["l"]`, the output bit length. */
  const L: nat := 256

  class DualECDRBG {
    const curve: CurveParams
    var seed: Option<int>
    var P: Option<Point>
    var Q: Option<Point>

    /** `DualECDRBG()`: P is the base point G, Q the standard's point
        (both on the curve, P256.PointsOnCurve), and the seed is 0x42. */
    constructor()
      ensures curve == P256.Params && seed == Some(0x42)
      ensures P == Some(P256.G) && Q == Some(P256.QPoint)
    {
      curve := P256.Params;
      seed := Some(0x42);
      P := Some(P256.G);
      Q := Some(P256.QPoint);
    }

    /** `generate(n, seed)`: the given seed, or the stored one when it is
        None, drives one step; the stored seed is overwritten either way and
        the output is the fixed-width truncation of x(r * Q) to n bits fewer
        than 256. P and Q are not changed. */
    method Generate(n: int, arg: Option<int>) returns (out: Option<int>)
      modifies this`seed
      ensures var o := Step(curve, P, Q, old(seed), arg);
              seed == o.seed && out == TruncateFixedOpt(o.raw, n, L)
    {
      var s := if arg.None? then seed else arg;
      if s.None? || P.None? {
        return None;
      }
      var r := X(Mul(curve, s.value, P.value));
      if r.None? {
        return None;
      }
      seed := X(Mul(curve, r.value, P.value));
      if Q.None? {
        return None;
      }
      var output := X(Mul(curve, r.value, Q.value));
      out := TruncateFixedOpt(output, n, L);
    }
  }

  /** The list built from indices 0 .. k-1 in ascending order, or None once
      an index raises. */
  function Candidates(c: CurveParams, output: int, e: int, n: int, k: nat): (r: Option<seq<Option<int>>>)
  {
    if k == 0 then Some([])
    else match Candidates(c, output, e, n, k - 1)
      case None => None
      case Some(s) =>
        match Reconstruct(c, L, n, output, e, k - 1)
        case Skip => Some(s)
        case Raise => None
        case Seed(pred) => Some(s + [pred])
  }

  /** `find_possible_seeds(ec_curve, output, real_seed, e, n)`: the list for
      all 2^n indices. It changes nothing (not even the generator's seed),
      calls no `generate`, and `realSeed` plays no part. */
  method FindPossibleSeeds(ec: DualECDRBG, output: int, realSeed: Option<int>, e: int, n: nat)
    returns (r: Option<seq<Option<int>>>)
    ensures r == Candidates(ec.curve, output, e, n, Pow2(n))
  {
    var possibleSeeds: seq<Option<int>> := [];
    var i: nat := 0;
    while i < Pow2(n)
      invariant i <= Pow2(n)
      invariant Candidates(ec.curve, output, e, n, i) == Some(possibleSeeds)
    {
      var cand := Reconstruct(ec.curve, L, n, output, e, i);
      match cand {
        case Skip =>
        case Raise =>
          RaisedStaysRaised(ec.curve, output, e, n, i + 1, Pow2(n));
          return None;
        case Seed(predSeed) =>
          possibleSeeds := possibleSeeds + [predSeed];
      }
      i := i + 1;
    }
    assert i == Pow2(n);
    r := Some(possibleSeeds);
  }

  lemma {:induction false} RaisedStaysRaised(c: CurveParams, output: int, e: int, n: int, j: nat, k: nat)
    requires j <= k && Candidates(c, output, e, n, j).None?
    ensures Candidates(c, output, e, n, k).None?
    decreases k
  {
    if j < k {
      RaisedStaysRaised(c, output, e, n, j, k - 1);
    }
  }

  /** With n <= 256 on a prime p = 3 mod 4 (P-256 is one,
      P256.PrimeSupportsRoot), nothing raises. */
  lemma {:induction false} CandidatesNeverRaise(c: CurveParams, output: int, e: int, n: int, k: nat)
    requires n <= L && (c.p + 1) % 4 == 0
    ensures Candidates(c, output, e, n, k).Some?
  {
    if k > 0 {
      CandidatesNeverRaise(c, output, e, n, k - 1);
    }
  }

  /** At most one entry per index: at most 2^n entries in all. */
  lemma {:induction false} CandidatesBounded(c: CurveParams, output: int, e: int, n: int, k: nat)
    requires Candidates(c, output, e, n, k).Some?
    ensures |Candidates(c, output, e, n, k).value| <= k
  {
    if k > 0 {
      CandidatesBounded(c, output, e, n, k - 1);
    }
  }

  /** Every entry is the predicted seed of some index below k. */
  lemma {:induction false} CandidatesSound(c: CurveParams, output: int, e: int, n: int, k: nat)
    requires Candidates(c, output, e, n, k).Some?
    ensures forall pred :: pred in Candidates(c, output, e, n, k).value ==>
              exists i :: 0 <= i < k && Reconstruct(c, L, n, output, e, i) == Seed(pred)
  {
    if k > 0 {
      CandidatesSound(c, output, e, n, k - 1);
      var s := Candidates(c, output, e, n, k - 1).value;
      forall pred | pred in Candidates(c, output, e, n, k).value
        ensures exists i :: 0 <= i < k && Reconstruct(c, L, n, output, e, i) == Seed(pred)
      {
        if pred !in s {
          assert Reconstruct(c, L, n, output, e, k - 1) == Seed(pred);
        }
      }
    }
  }

  /** Every index whose curve value passes the residue test contributes its
      predicted seed. */
  lemma {:induction false} CandidatesComplete(c: CurveParams, output: int, e: int, n: int, i: nat, k: nat)
    requires i < k && Candidates(c, output, e, n, k).Some?
    requires Reconstruct(c, L, n, output, e, i).Seed?
    ensures Reconstruct(c, L, n, output, e, i).pred in Candidates(c, output, e, n, k).value
    decreases k
  {
    if i < k - 1 {
      CandidatesComplete(c, output, e, n, i, k - 1);
    }
  }

  /** The entries come in ascending order of index: the list for the first
      j indices is a prefix of the list for the first k. */
  lemma {:induction false} CandidatesPrefix(c: CurveParams, output: int, e: int, n: int, j: nat, k: nat)
    requires j <= k && Candidates(c, output, e, n, k).Some?
    ensures Candidates(c, output, e, n, j).Some?
    ensures Candidates(c, output, e, n, j).value <= Candidates(c, output, e, n, k).value
    decreases k
  {
    if j < k {
      CandidatesPrefix(c, output, e, n, j, k - 1);
    }
  }

  /** The backdoor on P-256 (`real_seed in possible_seeds`): a `generate(n)`
      from seed0 stores S1 and has raw0 before truncation. If the curve value
      at raw0 passes Euler's criterion and the point the attack rebuilds has
      e times it at x-coordinate S1 (the same group-law instance as in
      DualEcBackdoor.TrapdoorRecoversSeed, taken as a hypothesis), then S1 is
      in the list. */
  lemma TrapdoorListsSeed(P: Point, Q: Point, seed0: Option<int>, e: int, n: nat, raw0: int, S1: int)
    requires n <= L
    requires Step(P256.Params, Some(P), Some(Q), seed0, None) == Outcome(Some(S1), Some(raw0))
    requires 0 <= raw0 < Pow2(L) && BitLength(raw0) > n
    requires IsResidue(Evaluate(P256.Params, raw0), P256.Prime)
    requires X(Mul(P256.Params, e, Affine(raw0, SqrtModP(Evaluate(P256.Params, raw0), P256.Prime).value))) == Some(S1)
    ensures var r := Candidates(P256.Params, TruncateFixed(raw0, n, L).value, e, n, Pow2(n));
            r.Some? && Some(S1) in r.value
  {
    var c := P256.Params;
    P256.PrimeSupportsRoot();
    ReconstructAtTrueIndex(c, L, n, raw0, e);
    CandidatesNeverRaise(c, TruncateFixed(raw0, n, L).value, e, n, Pow2(n));
    CandidatesComplete(c, TruncateFixed(raw0, n, L).value, e, n, ShiftRight(raw0, L - n), Pow2(n));
  }
}
