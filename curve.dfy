/** The curve arithmetic the scripts take from the `ecdsa` and `sage`
    libraries, which are not part of this model. In their place stands a
    textbook affine model of a short Weierstrass curve y^2 = x^3 + a x + b
    over Z/p: the point at infinity, addition by the chord and tangent
    formulas, and scalar multiplication as repeated addition. Nothing proved
    here depends on the library's own algorithms; where a lemma needs a
    group-law fact, it takes it as a hypothesis. */
module Curve {
  import opened Wrappers
  import opened PyInt
  import opened Field

  /** A curve `CurveFp(p, a, b)`, with the class attributes `prime`, `a`
      and `b` that the scripts copy from it. */
  datatype CurveParams = CurveParams(p: Modulus, a: int, b: int)

  datatype Point = Infinity | Affine(x: int, y: int)

  /** `MyEC.__call__` / `DualECDRBG.__call__`: (x^3 + a x + b) mod p, the
      right-hand side of the curve equation. */
  function Evaluate(c: CurveParams, x: int): (r: int)
    ensures 0 <= r < c.p
    ensures (x * x * x + c.a * x + c.b - r) % c.p == 0
  {
    var v := x * x * x + c.a * x + c.b;
    CongruentIff(v, v % c.p, c.p);
    SmallMod(v % c.p, c.p);
    v % c.p
  }

  /** The check the library makes when a point is built from coordinates:
      y^2 - (x^3 + a x + b) is a multiple of p. */
  predicate OnCurve(c: CurveParams, x: int, y: int)
  {
    (y * y - (x * x * x + c.a * x + c.b)) % c.p == 0
  }

  /** A point lies on the curve exactly when y^2 mod p is the curve value. */
  lemma OnCurveIff(c: CurveParams, x: int, y: int)
    ensures OnCurve(c, x, y) <==> (y * y) % c.p == Evaluate(c, x)
  {
    var v := x * x * x + c.a * x + c.b;
    CongruentIff(y * y, v, c.p);
    SmallMod(Evaluate(c, x), c.p);
    CongruentIff(v, Evaluate(c, x), c.p);
  }

  /** The square root of a curve value is the y of a point on the curve with
      that x: so the `Point(curve, x, y)` built from a reconstructed x never
      fails its curve check. */
  lemma RootGivesPoint(c: CurveParams, x: int)
    requires SqrtModP(Evaluate(c, x), c.p).Some?
    ensures OnCurve(c, x, SqrtModP(Evaluate(c, x), c.p).value)
  {
    var z := Evaluate(c, x);
    SmallMod(z, c.p);
    OnCurveIff(c, x, SqrtModP(z, c.p).value);
  }

  /** `.x()`: None for the point at infinity. */
  function X(P: Point): (r: Option<int>)
    ensures r.None? <==> P == Infinity
  {
    match P
    case Infinity => None
    case Affine(x, _) => Some(x)
  }

  /** Division in Z/p; 0 where there is no inverse (the libraries return 0
      for the inverse of 0). */
  function FieldInverse(v: int, p: Modulus): (r: int)
  {
    match ModInverse(v, p)
    case Some(w) => w
    case None => 0
  }

  function Neg(c: CurveParams, P: Point): (r: Point)
  {
    match P
    case Infinity => Infinity
    case Affine(x, y) => Affine(x, (-y) % c.p)
  }

  function Double(c: CurveParams, x: int, y: int): (r: Point)
  {
    var l := ((3 * x * x + c.a) * FieldInverse(2 * y, c.p)) % c.p;
    var x3 := (l * l - 2 * x) % c.p;
    Affine(x3, (l * (x - x3) - y) % c.p)
  }

  /** `P1 + P2`. */
  function Add(c: CurveParams, P1: Point, P2: Point): (r: Point)
  {
    match (P1, P2)
    case (Infinity, _) => P2
    case (_, Infinity) => P1
    case (Affine(x1, y1), Affine(x2, y2)) =>
      if (x1 - x2) % c.p == 0 then
        if (y1 + y2) % c.p == 0 then Infinity else Double(c, x1, y1)
      else
        var l := ((y2 - y1) * FieldInverse(x2 - x1, c.p)) % c.p;
        var x3 := (l * l - x1 - x2) % c.p;
        Affine(x3, (l * (x1 - x3) - y1) % c.p)
  }

  /** k * P for k >= 0: P added to the point at infinity k times, so that
      (k + 1) * P = k * P + P, the step `Q = Q + P` of the scripts' loops. */
  function MulNat(c: CurveParams, k: nat, P: Point): (r: Point)
  {
    if k == 0 then Infinity else Add(c, MulNat(c, k - 1, P), P)
  }

  /** `k * P` for any integer k; a negative k multiplies -P. */
  function Mul(c: CurveParams, k: int, P: Point): (r: Point)
  {
    if k >= 0 then MulNat(c, k, P) else MulNat(c, -k, Neg(c, P))
  }

  /** 1 * P is P: adding P to the point at infinity. */
  lemma MulNatOne(c: CurveParams, P: Point)
    ensures MulNat(c, 1, P) == P
  {
    assert MulNat(c, 1, P) == Add(c, Infinity, P);
  }

  /** The multiples 1 * P .. (e-1) * P miss Q and e * P misses it too. */
  lemma MissesOneMore(c: CurveParams, P: Point, Q: Point, e: nat)
    requires forall j: nat :: 1 <= j < e ==> MulNat(c, j, P) != Q
    requires MulNat(c, e, P) != Q
    ensures forall j: nat :: 1 <= j < e + 1 ==> MulNat(c, j, P) != Q
  {
  }

  /** Once some multiple n * P (n >= 2) is P again, the multiples repeat with
      period n - 1. Only the recursive definition of k * P is used. */
  lemma {:induction false} MultiplesRepeat(c: CurveParams, P: Point, n: nat, t: nat)
    requires n >= 2 && MulNat(c, n, P) == P
    ensures MulNat(c, n + t, P) == MulNat(c, 1 + t, P)
  {
    if t == 0 {
      MulNatOne(c, P);
    } else {
      MultiplesRepeat(c, P, n, t - 1);
    }
  }

  /** Hence every positive multiple already occurs among 1 * P .. (n-1) * P. */
  lemma {:induction false} MultiplesInCycle(c: CurveParams, P: Point, n: nat, j: nat)
    requires n >= 2 && MulNat(c, n, P) == P && j >= 1
    ensures exists i :: 1 <= i < n && MulNat(c, j, P) == MulNat(c, i, P)
    decreases j
  {
    if j < n {
      assert MulNat(c, j, P) == MulNat(c, j, P);
    } else {
      MultiplesRepeat(c, P, n, j - n);
      MultiplesInCycle(c, P, n, j - n + 1);
    }
  }
}
