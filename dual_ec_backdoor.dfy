/** src/dual_ec_backdoor.py: a generator on the curve
    y^2 = x^3 - 3x + 123456789 over p = 10^9 + 7 with 32-bit outputs, and the
    trapdoor search that keeps a candidate seed only when re-running
    `generate` from it reproduces the next observed output. The truncation
    width `ec_params["trunc"]`, a module-level entry that `main` changes
    between experiments, is an explicit parameter here. */
module DualEcBackdoor {
  import opened Wrappers
  import opened PyInt
  import opened Field
  import opened Curve
  import opened Truncation
  import opened Generator
  import opened Attack

  /** `ec_params`: the curve. */
  const Params: CurveParams := CurveParams(1_000_000_007, -3, 123456789)

  /** `ec_params["l"]`, the output bit length. */
  const L: nat := 32

  /** The configured prime supports `square_root_mod_p`, and every field
      element fits in the 32-bit output. */
  lemma ParamsFit()
    ensures (Params.p + 1) % 4 == 0
    ensures Params.p < Pow2(L)
  {
    assert Pow2(L) == 4294967296 by {
      assert Pow2(4) == 16;
      Pow2Add(4, 4);
      Pow2Add(8, 8);
      Pow2Add(16, 16);
    }
  }

  class MyEC {
    /** `self.curve`, `self.prime`, `self.a`, `self.b`. */
    const curve: CurveParams
    var seed: Option<int>
    /** Unset (None) until `set_P` / `set_Q` are called. */
    var P: Option<Point>
    var Q: Option<Point>

    /** `MyEC()`: the seed drawn by `random.randint(0, p - 1)` is passed in. */
    constructor(initialSeed: int)
      requires 0 <= initialSeed <= Params.p - 1
      ensures curve == Params && seed == Some(initialSeed)
      ensures P == None && Q == None
    {
      curve := Params;
      seed := Some(initialSeed);
      P := None;
      Q := None;
    }

    /** `set_P(x, y)`: the point is built only if it lies on the curve;
        otherwise the library raises and nothing changes. */
    method SetP(x: int, y: int) returns (ok: bool)
      modifies this
      ensures ok == OnCurve(curve, x, y)
      ensures P == (if ok then Some(Affine(x, y)) else old(P))
      ensures Q == old(Q) && seed == old(seed)
    {
      ok := OnCurve(curve, x, y);
      if ok {
        P := Some(Affine(x, y));
      }
    }

    /** `set_Q(x, y)`, as `set_P`. */
    method SetQ(x: int, y: int) returns (ok: bool)
      modifies this
      ensures ok == OnCurve(curve, x, y)
      ensures Q == (if ok then Some(Affine(x, y)) else old(Q))
      ensures P == old(P) && seed == old(seed)
    {
      ok := OnCurve(curve, x, y);
      if ok {
        Q := Some(Affine(x, y));
      }
    }

    /** `generate(seed=None)` with the truncation width `trunc`: the stored
        seed is replaced by x(r * P) even when an explicit seed is given, the
        output is the truncated x(r * Q), and P and Q stay as they are.
        `out` is None where the call raises. */
    method Generate(arg: Option<int>, trunc: int) returns (out: Option<int>)
      modifies this`seed
      ensures var o := Step(curve, P, Q, old(seed), arg);
              seed == o.seed && out == TruncateFixedOpt(o.raw, trunc, L)
    {
      var s := if arg.None? then seed else arg;
      if s.None? || P.None? {
        return None;
      }
      var r := X(Mul(curve, s.value, P.value));
      if r.None? {
        return None;
      }
      seed := X(Mul(curve, r.value, P.value));
      if Q.None? {
        return None;
      }
      var output := X(Mul(curve, r.value, Q.value));
      out := TruncateFixedOpt(output, trunc, L);
    }
  }

  // -----------------------------------------------------------------------
  // find_possible_seeds

  /** What the search reads besides the generator's seed. */
  datatype Setting = Setting(c: CurveParams, P: Option<Point>, Q: Option<Point>,
                             output: int, nextOutput: int, e: int, trunc: nat)

  /** The output `generate(s)` gives for an explicit seed s (the stored seed
      plays no part, see Generator.ExplicitSeedDecides). */
  function GenerateFrom(st: Setting, s: int): (r: Option<int>)
  {
    TruncateFixedOpt(Step(st.c, st.P, st.Q, None, Some(s)).raw, st.trunc, L)
  }

  /** The output `generate(None)` gives when the generator holds `stored`:
      the seed argument is None, so the stored seed drives the step. */
  function GenerateStored(st: Setting, stored: Option<int>): (r: Option<int>)
  {
    TruncateFixedOpt(Step(st.c, st.P, st.Q, stored, None).raw, st.trunc, L)
  }

  lemma GenerateFromAnyStored(st: Setting, stored: Option<int>, s: int)
    ensures TruncateFixedOpt(Step(st.c, st.P, st.Q, stored, Some(s)).raw, st.trunc, L) == GenerateFrom(st, s)
  {
  }

  /** The search's state after some iterations: the generator's seed, the
      list `possible_seeds`, and whether an exception has ended the search. */
  datatype Scan = Scan(seed: Option<int>, found: seq<Option<int>>, raised: bool)

  /** Iteration i: the candidate's predicted seed is passed to `generate`
      (which overwrites the generator's seed) and kept if the output matches
      the next observed output. */
  function ScanStep(st: Setting, sc: Scan, i: nat): (next: Scan)
  {
    if sc.raised then sc
    else match Reconstruct(st.c, L, st.trunc, st.output, st.e, i)
      case Skip => sc
      case Raise => sc.(raised := true)
      case Seed(pred) =>
        var o := Step(st.c, st.P, st.Q, sc.seed, pred);
        var out := TruncateFixedOpt(o.raw, st.trunc, L);
        if out.None? then Scan(o.seed, sc.found, true)
        else if out.value == st.nextOutput then Scan(o.seed, sc.found + [pred], false)
        else Scan(o.seed, sc.found, false)
  }

  /** The state after iterations 0 .. k-1, in ascending order of i. */
  function ScanUpTo(st: Setting, seed0: Option<int>, k: nat): (sc: Scan)
  {
    if k == 0 then Scan(seed0, [], false) else ScanStep(st, ScanUpTo(st, seed0, k - 1), k - 1)
  }

  /** `find_possible_seeds(ec_curve, output, next_output, e)`: it examines
      exactly the 2^trunc indices, leaves the generator's seed where the last
      `generate` call put it, and returns the kept seeds (None where it
      raises). */
  method FindPossibleSeeds(ec: MyEC, output: int, nextOutput: int, e: int, trunc: nat)
    returns (r: Option<seq<Option<int>>>)
    modifies ec`seed
    ensures var sc := ScanUpTo(Setting(ec.curve, ec.P, ec.Q, output, nextOutput, e, trunc),
                               old(ec.seed), Pow2(trunc));
            ec.seed == sc.seed && r == (if sc.raised then None else Some(sc.found))
  {
    ghost var st := Setting(ec.curve, ec.P, ec.Q, output, nextOutput, e, trunc);
    ghost var seed0 := ec.seed;
    var possibleSeeds: seq<Option<int>> := [];
    var raised := false;
    var i: nat := 0;
    while i < Pow2(trunc) && !raised
      invariant i <= Pow2(trunc)
      invariant ec.P == st.P && ec.Q == st.Q
      invariant ScanUpTo(st, seed0, i) == Scan(ec.seed, possibleSeeds, raised)
    {
      ghost var before := Scan(ec.seed, possibleSeeds, false);
      match Reconstruct(ec.curve, L, trunc, output, e, i) {
        case Skip =>
          ScanSkip(st, before, i);
        case Raise =>
          ScanRaise(st, before, i);
          raised := true;
        case Seed(predSeed) =>
          var predOutput := ec.Generate(predSeed, trunc);
          ScanSeed(st, before, i, predSeed);
          if predOutput.None? {
            raised := true;
          } else if predOutput.value == nextOutput {
            possibleSeeds := possibleSeeds + [predSeed];
          }
      }
      i := i + 1;
    }
    assert st == Setting(ec.curve, ec.P, ec.Q, output, nextOutput, e, trunc);
    if raised {
      ScanStaysRaised(st, seed0, i, Pow2(trunc));
      return None;
    }
    assert i == Pow2(trunc);
    r := Some(possibleSeeds);
  }

  /** Proof helper for FindPossibleSeeds: ScanStep unfolded at a skipped
      index. */
  lemma ScanSkip(st: Setting, sc: Scan, i: nat)
    requires !sc.raised && Reconstruct(st.c, L, st.trunc, st.output, st.e, i) == Skip
    ensures ScanStep(st, sc, i) == sc
  {
  }

  /** Proof helper: ScanStep unfolded at an index that raises. */
  lemma ScanRaise(st: Setting, sc: Scan, i: nat)
    requires !sc.raised && Reconstruct(st.c, L, st.trunc, st.output, st.e, i) == Raise
    ensures ScanStep(st, sc, i) == sc.(raised := true)
  {
  }

  /** Proof helper: ScanStep unfolded at an index with a predicted seed. */
  lemma ScanSeed(st: Setting, sc: Scan, i: nat, pred: Option<int>)
    requires !sc.raised && Reconstruct(st.c, L, st.trunc, st.output, st.e, i) == Seed(pred)
    ensures var o := Step(st.c, st.P, st.Q, sc.seed, pred);
            var out := TruncateFixedOpt(o.raw, st.trunc, L);
            ScanStep(st, sc, i) ==
              if out.None? then Scan(o.seed, sc.found, true)
              else if out.value == st.nextOutput then Scan(o.seed, sc.found + [pred], false)
              else Scan(o.seed, sc.found, false)
  {
  }

  // -----------------------------------------------------------------------
  // Properties of the search

  /** Once an exception ends the search, nothing changes any more. */
  lemma {:induction false} ScanStaysRaised(st: Setting, seed0: Option<int>, j: nat, k: nat)
    requires j <= k && ScanUpTo(st, seed0, j).raised
    ensures ScanUpTo(st, seed0, k) == ScanUpTo(st, seed0, j)
    decreases k
  {
    if j < k {
      ScanStaysRaised(st, seed0, j, k - 1);
    }
  }

  /** The list only grows, by appending: the seeds kept in the first j
      iterations are a prefix of those kept in the first k, so they appear in
      ascending order of i. */
  lemma {:induction false} ScanAppends(st: Setting, seed0: Option<int>, j: nat, k: nat)
    requires j <= k && !ScanUpTo(st, seed0, k).raised
    ensures !ScanUpTo(st, seed0, j).raised
    ensures ScanUpTo(st, seed0, j).found <= ScanUpTo(st, seed0, k).found
    decreases k
  {
    if j < k {
      var prev := ScanUpTo(st, seed0, k - 1);
      ScanStepExtends(st, prev, k - 1);
      ScanAppends(st, seed0, j, k - 1);
      PrefixTransitive(ScanUpTo(st, seed0, j).found, prev.found, ScanUpTo(st, seed0, k).found);
    }
  }

  /** Proof helper: an iteration that leaves the search running was reached
      with it running, and only appends to the list. */
  lemma ScanStepExtends(st: Setting, sc: Scan, i: nat)
    requires !ScanStep(st, sc, i).raised
    ensures !sc.raised && sc.found <= ScanStep(st, sc, i).found
  {
  }

  lemma PrefixTransitive<T>(a: seq<T>, b: seq<T>, c: seq<T>)
    requires a <= b && b <= c
    ensures a <= c
  {
  }

  /** At most one seed is kept per index: at most 2^trunc in all. */
  lemma {:induction false} ScanFoundBounded(st: Setting, seed0: Option<int>, k: nat)
    ensures |ScanUpTo(st, seed0, k).found| <= k
  {
    if k > 0 {
      ScanFoundBounded(st, seed0, k - 1);
    }
  }

  /** Every seed kept reproduces the next output: `generate(s) == next_output`
      for an integer s. A kept None (a candidate whose e * A is the point at
      infinity) was passed as `generate(None)`, so it is kept only when some
      index i predicted None and the seed the generator held before that
      iteration regenerates the next output. */
  lemma ScanFoundVerified(st: Setting, seed0: Option<int>, k: nat)
    ensures forall s :: Some(s) in ScanUpTo(st, seed0, k).found ==>
              GenerateFrom(st, s) == Some(st.nextOutput)
    ensures None in ScanUpTo(st, seed0, k).found ==>
              exists i :: 0 <= i < k && Reconstruct(st.c, L, st.trunc, st.output, st.e, i) == Seed(None)
                          && GenerateStored(st, ScanUpTo(st, seed0, i).seed) == Some(st.nextOutput)
  {
    ScanSeedsVerified(st, seed0, k);
    ScanNoneVerified(st, seed0, k);
  }

  lemma {:induction false} ScanSeedsVerified(st: Setting, seed0: Option<int>, k: nat)
    ensures forall s :: Some(s) in ScanUpTo(st, seed0, k).found ==>
              GenerateFrom(st, s) == Some(st.nextOutput)
  {
    if k > 0 {
      ScanSeedsVerified(st, seed0, k - 1);
      var sc := ScanUpTo(st, seed0, k - 1);
      if !sc.raised {
        match Reconstruct(st.c, L, st.trunc, st.output, st.e, k - 1)
        case Skip =>
        case Raise =>
        case Seed(pred) =>
          if pred.Some? {
            GenerateFromAnyStored(st, sc.seed, pred.value);
          }
      }
    }
  }

  lemma {:induction false} ScanNoneVerified(st: Setting, seed0: Option<int>, k: nat)
    ensures None in ScanUpTo(st, seed0, k).found ==>
              exists i :: 0 <= i < k && Reconstruct(st.c, L, st.trunc, st.output, st.e, i) == Seed(None)
                          && GenerateStored(st, ScanUpTo(st, seed0, i).seed) == Some(st.nextOutput)
  {
    if k > 0 {
      ScanNoneVerified(st, seed0, k - 1);
      var sc := ScanUpTo(st, seed0, k - 1);
      if !sc.raised && None !in sc.found && None in ScanUpTo(st, seed0, k).found {
        assert Reconstruct(st.c, L, st.trunc, st.output, st.e, k - 1) == Seed(None);
        assert GenerateStored(st, sc.seed) == Some(st.nextOutput);
      }
    }
  }

  /** A candidate whose predicted seed reproduces the next output is kept,
      unless the search raises. */
  lemma ScanKeepsMatch(st: Setting, seed0: Option<int>, i: nat, k: nat, s: int)
    requires i < k && Reconstruct(st.c, L, st.trunc, st.output, st.e, i) == Seed(Some(s))
    requires GenerateFrom(st, s) == Some(st.nextOutput)
    requires !ScanUpTo(st, seed0, k).raised
    ensures Some(s) in ScanUpTo(st, seed0, k).found
  {
    ScanAppends(st, seed0, i + 1, k);
    GenerateFromAnyStored(st, ScanUpTo(st, seed0, i).seed, s);
    assert ScanUpTo(st, seed0, i + 1).found[|ScanUpTo(st, seed0, i + 1).found| - 1] == Some(s);
  }

  /** The backdoor at work (`assert real_seed in predicted_seeds`). A first
      `generate()` from seed0 stores S1 and yields raw0 before truncation; a
      second one from S1 yields out1. If the curve value at raw0 passes
      Euler's criterion and e * (raw0, root), for the point the attack
      rebuilds, has x-coordinate S1 (an instance of the group law taken here
      as a hypothesis: it rests on (raw0, root) = +-(r * Q), on
      e * (r * Q) = r * (e * Q), on the trapdoor e * Q = P, and on
      x(-B) = x(B), none of which the affine model derives), then the
      search on (truncate(raw0), out1) keeps S1, whatever the generator's seed
      is when it starts, unless it raises. */
  lemma TrapdoorRecoversSeed(c: CurveParams, P: Point, Q: Point, seed0: Option<int>, start: Option<int>,
                             e: int, trunc: nat, raw0: int, S1: int, out1: int)
    requires trunc <= L
    requires Step(c, Some(P), Some(Q), seed0, None) == Outcome(Some(S1), Some(raw0))
    requires 0 <= raw0 < Pow2(L) && BitLength(raw0) > trunc
    requires (c.p + 1) % 4 == 0 && IsResidue(Evaluate(c, raw0), c.p)
    requires X(Mul(c, e, Affine(raw0, SqrtModP(Evaluate(c, raw0), c.p).value))) == Some(S1)
    requires TruncateFixedOpt(Step(c, Some(P), Some(Q), Some(S1), None).raw, trunc, L) == Some(out1)
    ensures var st := Setting(c, Some(P), Some(Q), TruncateFixed(raw0, trunc, L).value, out1, e, trunc);
            var sc := ScanUpTo(st, start, Pow2(trunc));
            !sc.raised ==> Some(S1) in sc.found
  {
    var st := Setting(c, Some(P), Some(Q), TruncateFixed(raw0, trunc, L).value, out1, e, trunc);
    ReconstructAtTrueIndex(c, L, trunc, raw0, e);
    GenerateFromAnyStored(st, Some(S1), S1);
    if !ScanUpTo(st, start, Pow2(trunc)).raised {
      ScanKeepsMatch(st, start, ShiftRight(raw0, L - trunc), Pow2(trunc), S1);
    }
  }
}
