/** src/ec_dlp.py: a brute-force discrete logarithm on a curve and a
    trial-division prime lister. The curves themselves come from a symbolic
    algebra library that is not part of this model; `find_e` is stated over
    the affine model of module Curve. */
module EcDlp {
  import opened Wrappers
  import opened Field
  import opened Curve

  /** `find_e(P, Q)`: tries e = 1, 2, ... and returns the first e with
      e * P == Q, or None as soon as some e >= 2 brings P back before that.
      The loop ends only when the multiples of P cycle, which is what the
      caller must guarantee. If it returns e, then e is the least positive
      multiplier taking P to Q; it returns None exactly when no positive
      multiple of P is Q; and `find_e(P, P)` is 1. */
  method FindE(c: CurveParams, P: Point, Q: Point) returns (r: Option<nat>)
    requires exists n: nat :: n >= 2 && MulNat(c, n, P) == P
    ensures r.Some? ==> r.value >= 1 && MulNat(c, r.value, P) == Q
    ensures r.Some? ==> forall j: nat :: 1 <= j < r.value ==> MulNat(c, j, P) != Q
    ensures r.None? <==> forall j: nat :: j >= 1 ==> MulNat(c, j, P) != Q
    ensures Q == P ==> r == Some(1)
  {
    ghost var n: nat :| n >= 2 && MulNat(c, n, P) == P;
    MulNatOne(c, P);
    var e: nat := 1;
    while MulNat(c, e, P) != Q
      invariant 1 <= e <= n
      invariant e >= 2 ==> MulNat(c, e, P) != P
      invariant forall j: nat :: 1 <= j < e ==> MulNat(c, j, P) != Q
      decreases n - e
    {
      MissesOneMore(c, P, Q, e);
      e := e + 1;
      if MulNat(c, e, P) == P {
        CycleMissesTarget(c, P, Q, e);
        return None;
      }
    }
    r := Some(e);
  }

  /** Once e * P is P again (e >= 2), the multiples below e are all there
      is: if none of them is Q, no positive multiple is. */
  lemma CycleMissesTarget(c: CurveParams, P: Point, Q: Point, e: nat)
    requires e >= 2 && MulNat(c, e, P) == P
    requires forall j: nat :: 1 <= j < e ==> MulNat(c, j, P) != Q
    ensures forall j: nat :: j >= 1 ==> MulNat(c, j, P) != Q
  {
    forall j: nat | j >= 1
      ensures MulNat(c, j, P) != Q
    {
      MultiplesInCycle(c, P, e, j);
    }
  }

  /** Trial division: i >= 2 and no j in [2, i) divides i. */
  predicate IsPrime(i: int)
  {
    i >= 2 && forall j :: 2 <= j < i ==> !Divides(j, i)
  }

  /** The primes below n in ascending order. */
  function PrimesBelow(n: int): (r: seq<int>)
    decreases n
  {
    if n <= 2 then [] else PrimesBelow(n - 1) + (if IsPrime(n - 1) then [n - 1] else [])
  }

  /** The list holds exactly the primes in [2, n). */
  lemma {:induction false} PrimesBelowMembers(n: int)
    ensures forall i :: i in PrimesBelow(n) <==> 2 <= i < n && IsPrime(i)
    decreases n
  {
    if n > 2 {
      PrimesBelowMembers(n - 1);
    }
  }

  /** ... in strictly ascending order. */
  lemma {:induction false} PrimesBelowAscending(n: int)
    ensures forall a, b :: 0 <= a < b < |PrimesBelow(n)| ==> PrimesBelow(n)[a] < PrimesBelow(n)[b]
    decreases n
  {
    if n > 2 {
      PrimesBelowAscending(n - 1);
      PrimesBelowMembers(n - 1);
      var s := PrimesBelow(n - 1);
      forall a, b | 0 <= a < b < |PrimesBelow(n)|
        ensures PrimesBelow(n)[a] < PrimesBelow(n)[b]
      {
        if b >= |s| {
          assert PrimesBelow(n)[a] == s[a] && s[a] in s;
        }
      }
    }
  }

  /** `generate_primes(n)`: every i in [2, n) in ascending order, kept when
      the inner loop over j in [2, i) finds no divisor (it stops at the
      first one). The result is the list of primes below n: empty for
      n <= 2, ascending, every element below n. */
  method GeneratePrimes(n: int) returns (primes: seq<int>)
    ensures primes == PrimesBelow(n)
    ensures forall i :: i in primes <==> 2 <= i < n && IsPrime(i)
    ensures forall a, b :: 0 <= a < b < |primes| ==> primes[a] < primes[b]
  {
    primes := [];
    var i := 2;
    while i < n
      invariant 2 <= i && (i <= n || i == 2)
      invariant primes == PrimesBelow(i)
    {
      var isPrime := true;
      var j := 2;
      while j < i
        invariant 2 <= j <= i
        invariant isPrime == forall k :: 2 <= k < j ==> !Divides(k, i)
      {
        if i % j == 0 {
          assert Divides(j, i);
          isPrime := false;
          break;
        }
        j := j + 1;
      }
      assert isPrime == IsPrime(i);
      if isPrime {
        primes := primes + [i];
      }
      i := i + 1;
    }
    if n < 2 {
      assert PrimesBelow(2) == [] && PrimesBelow(n) == [];
    }
    PrimesBelowMembers(n);
    PrimesBelowAscending(n);
  }
}
