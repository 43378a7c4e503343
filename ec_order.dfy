/** src/ec.py: the toy curve y^2 = x^3 - x + 6 over p = 103, a brute-force
    count of its points and a brute-force order of a point. */
module EcOrder {
  import opened Wrappers
  import opened Curve
  import Field

  /** `ec_params`. */
  const Params: CurveParams := CurveParams(103, -1, 6)

  /** The configured prime passes the modulus check of `square_root_mod_p`:
      103 + 1 is divisible by 4, so a root exists exactly for the values that
      meet Euler's criterion. */
  lemma RootModulusFits(z: int)
    ensures (Params.p + 1) % 4 == 0
    ensures Field.SqrtModP(z, Params.p).Some? <==> Field.IsResidue(z, Params.p)
  {
  }

  /** How many y in [0, k) satisfy y^2 mod p == f(x). */
  function RowCount(c: CurveParams, x: int, k: nat): (r: nat)
  {
    if k == 0 then 0
    else RowCount(c, x, k - 1) + (if ((k - 1) * (k - 1)) % c.p == Evaluate(c, x) then 1 else 0)
  }

  /** How many pairs (x, y) in [0, k) x [0, p) satisfy y^2 mod p == f(x). */
  function PointCount(c: CurveParams, k: nat): (r: nat)
  {
    if k == 0 then 0 else PointCount(c, k - 1) + RowCount(c, k - 1, c.p)
  }

  /** The y counted for x: those below k that lie on the curve with it. */
  ghost function Row(c: CurveParams, x: int, k: nat): (r: set<int>)
  {
    set y | 0 <= y < k && OnCurve(c, x, y)
  }

  /** RowCount counts exactly the points of the curve with that x. */
  lemma {:induction false} RowCountIsPoints(c: CurveParams, x: int, k: nat)
    ensures RowCount(c, x, k) == |Row(c, x, k)|
  {
    if k > 0 {
      RowCountIsPoints(c, x, k - 1);
      OnCurveIff(c, x, k - 1);
      if OnCurve(c, x, k - 1) {
        assert Row(c, x, k) == Row(c, x, k - 1) + {k - 1};
      } else {
        assert Row(c, x, k) == Row(c, x, k - 1);
      }
    }
  }

  /** Each row holds at most its k candidates. */
  lemma {:induction false} RowCountBound(c: CurveParams, x: int, k: nat)
    ensures RowCount(c, x, k) <= k
  {
    if k > 0 {
      RowCountBound(c, x, k - 1);
    }
  }

  /** Hence at most k * p pairs over k rows. */
  lemma {:induction false} PointCountBound(c: CurveParams, k: nat)
    ensures PointCount(c, k) <= k * c.p
  {
    if k > 0 {
      PointCountBound(c, k - 1);
      RowCountBound(c, k - 1, c.p);
      assert k * c.p == (k - 1) * c.p + c.p;
    }
  }

  class MyEC {
    const curve: CurveParams
    /** `self.order`, absent (None) until `calc_order` runs. */
    var order: Option<int>

    constructor()
      ensures curve == Params && order == None
    {
      curve := Params;
      order := None;
    }

    /** `calc_order()`: one for the point at infinity plus the number of
        pairs (x, y) in [0, p)^2 on the curve, stored in `order` and
        returned; it lies between 1 and p^2 + 1. */
    method CalcOrder() returns (r: int)
      modifies this`order
      ensures r == 1 + PointCount(curve, curve.p) && order == Some(r)
      ensures 1 <= r <= curve.p * curve.p + 1
    {
      var count := 1;
      var x := 0;
      while x < curve.p
        invariant 0 <= x <= curve.p
        invariant count == 1 + PointCount(curve, x)
      {
        var y := 0;
        while y < curve.p
          invariant 0 <= y <= curve.p
          invariant count == 1 + PointCount(curve, x) + RowCount(curve, x, y)
        {
          if (y * y) % curve.p == Evaluate(curve, x) {
            count := count + 1;
          }
          y := y + 1;
        }
        x := x + 1;
      }
      order := Some(count);
      r := count;
      PointCountBound(curve, curve.p);
    }

    /** `point_order(P)`: the least k >= 1 with k * P at infinity (1 for the
        point at infinity itself). The loop runs until it finds one, so the
        caller must pass a point of finite order. */
    method PointOrder(P: Point) returns (k: nat)
      requires exists n: nat :: n >= 1 && MulNat(curve, n, P) == Infinity
      ensures k >= 1 && MulNat(curve, k, P) == Infinity
      ensures forall j: nat :: 1 <= j < k ==> MulNat(curve, j, P) != Infinity
      ensures P == Infinity ==> k == 1
    {
      ghost var n: nat :| n >= 1 && MulNat(curve, n, P) == Infinity;
      k := 1;
      var Q := P;
      MulNatOne(curve, P);
      while Q != Infinity
        invariant 1 <= k <= n
        invariant Q == MulNat(curve, k, P)
        invariant forall j: nat :: 1 <= j < k ==> MulNat(curve, j, P) != Infinity
        decreases n - k
      {
        MissesOneMore(curve, P, Infinity, k);
        Q := Add(curve, Q, P);
        k := k + 1;
      }
    }
  }
}
