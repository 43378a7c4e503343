/** The prime-field helpers that every script repeats word for word:
    `extended_gcd`, `mod_inverse`, `square_root_exists` (Euler's criterion)
    and `square_root_mod_p` (the square root for p = 3 mod 4). */
module Field {
  import opened Wrappers
  import opened PyInt

  /** The modulus handed to Python's three-argument `pow`; every caller
      passes a curve's prime, so it is positive. */
  type Modulus = m: int | m > 0 witness 1

  /** d divides n (0 divides only 0). */
  predicate Divides(d: int, n: int)
  {
    if d == 0 then n == 0 else n % d == 0
  }

  // ---------------------------------------------------------------------
  // Divisibility and congruence facts

  lemma DividesMultiple(d: int, k: int)
    ensures Divides(d, d * k)
  {
    if d != 0 {
      assert d * k == k * d;
      MultipleMod(k, d);
    }
  }

  lemma DividesWitness(d: int, n: int)
    requires d != 0 && Divides(d, n)
    ensures n == d * (n / d)
  {
  }

  lemma DividesLinear(d: int, u: int, v: int, s: int, t: int)
    requires Divides(d, u) && Divides(d, v)
    ensures Divides(d, s * u + t * v)
  {
    if d != 0 {
      var ku, kv := u / d, v / d;
      DividesWitness(d, u);
      DividesWitness(d, v);
      assert s * u + t * v == d * (s * ku + t * kv) by {
        assert s * u == s * (d * ku) == d * (s * ku);
        assert t * v == t * (d * kv) == d * (t * kv);
      }
      DividesMultiple(d, s * ku + t * kv);
    }
  }

  /** Only 1 and -1 divide 1. */
  lemma DividesOne(c: int)
    requires Divides(c, 1)
    ensures c == 1 || c == -1
  {
    var k := 1 / c;
    DividesWitness(c, 1);
    MulAtLeast(k, c);
    assert Abs(k * c) == 1 by { assert c * k == k * c; }
  }

  /** Two values agree mod m exactly when m divides their difference. */
  lemma CongruentIff(u: int, v: int, m: int)
    requires m != 0
    ensures u % m == v % m <==> (u - v) % m == 0
  {
    var qu, qv := u / m, v / m;
    assert u == qu * m + u % m;
    assert v == qv * m + v % m;
    if u % m == v % m {
      assert u - v == (qu - qv) * m;
      MultipleMod(qu - qv, m);
    } else {
      if (u - v) % m == 0 {
        var k := (u - v) / m;
        assert u - v == k * m;
        assert u % m - v % m == (k - qu + qv) * m;
        MulAtLeast(k - qu + qv, m);
        assert false;
      }
    }
  }

  /** Multiplication respects reduction mod m. */
  lemma MulMod(a: int, b: int, m: int)
    requires m != 0
    ensures (a * b) % m == ((a % m) * (b % m)) % m
  {
    var qa, ra, qb, rb := a / m, a % m, b / m, b % m;
    assert a == qa * m + ra;
    assert b == qb * m + rb;
    assert a * b - ra * rb == (qa * qb * m + qa * rb + ra * qb) * m;
    MultipleMod(qa * qb * m + qa * rb + ra * qb, m);
    CongruentIff(a * b, ra * rb, m);
  }

  // ---------------------------------------------------------------------
  // extended_gcd and mod_inverse

  /** The triple `(gcd, x, y)` returned by `extended_gcd`. */
  datatype Bezout = Bezout(g: int, x: int, y: int)

  /** `extended_gcd(a, b)`: recursion on `(b, a % b)` with Python's floor
      modulo; it ends because |a % b| < |b|. The result satisfies Bezout's
      identity and divides both arguments. */
  function ExtendedGcd(a: int, b: int): (r: Bezout)
    ensures a * r.x + b * r.y == r.g
    ensures Divides(r.g, a) && Divides(r.g, b)
    ensures a >= 0 && b >= 0 ==> r.g >= 0
    ensures b > 0 ==> r.g > 0
    decreases Abs(b)
  {
    if b == 0 then Bezout(a, 1, 0)
    else
      var t := ExtendedGcd(b, FloorMod(a, b));
      BezoutStep(a, b, t);
      Bezout(t.g, t.y, t.x - FloorDiv(a, b) * t.y)
  }

  /** One level of the recursion: a triple for (b, a % b) gives one for (a, b). */
  lemma BezoutStep(a: int, b: int, t: Bezout)
    requires b != 0
    requires b * t.x + FloorMod(a, b) * t.y == t.g
    requires Divides(t.g, b) && Divides(t.g, FloorMod(a, b))
    ensures a * t.y + b * (t.x - FloorDiv(a, b) * t.y) == t.g
    ensures Divides(t.g, a)
  {
    var q, m := FloorDiv(a, b), FloorMod(a, b);
    FloorDivMod(a, b);
    assert a == q * b + m;
    assert a * t.y == q * b * t.y + m * t.y;
    assert b * (t.x - q * t.y) == b * t.x - q * b * t.y;
    DividesLinear(t.g, b, m, q, 1);
  }

  /** g is a greatest common divisor of a and b: a common divisor that every
      common divisor divides. */
  ghost predicate IsGcd(g: int, a: int, b: int)
  {
    && Divides(g, a) && Divides(g, b)
    && forall c :: Divides(c, a) && Divides(c, b) ==> Divides(c, g)
  }

  lemma ExtendedGcdIsGcd(a: int, b: int)
    ensures IsGcd(ExtendedGcd(a, b).g, a, b)
  {
    var r := ExtendedGcd(a, b);
    forall c | Divides(c, a) && Divides(c, b)
      ensures Divides(c, r.g)
    {
      DividesLinear(c, a, b, r.x, r.y);
      assert r.x * a + r.y * b == r.g;
    }
  }

  /** a and b have no common divisor but 1 and -1. */
  ghost predicate Coprime(a: int, b: int)
  {
    forall c :: Divides(c, a) && Divides(c, b) ==> c == 1 || c == -1
  }

  /** `mod_inverse(d, n)`: None where the source raises, that is when the
      gcd found is not 1 (ValueError) or n is 0 (ZeroDivisionError in
      `x % n`). Otherwise the result is an inverse of d modulo n, in Python's
      range for `% n`. For a positive modulus an inverse is returned exactly
      when d and n are coprime. */
  function ModInverse(d: int, n: int): (r: Option<int>)
    ensures r.Some? ==> n != 0 && Divides(n, d * r.value - 1)
    ensures r.Some? && n > 0 ==> 0 <= r.value < n
    ensures r.Some? && n < 0 ==> n < r.value <= 0
    ensures n > 0 ==> (r.Some? <==> Coprime(d, n))
  {
    var t := ExtendedGcd(d, n);
    ExtendedGcdIsGcd(d, n);
    if t.g != 1 || n == 0 then
      NotCoprimeWhenGcdNotOne(d, n, t.g);
      None
    else
      var v := FloorMod(t.x, n);
      InverseOfBezout(d, n, t.x, t.y, v);
      CoprimeWhenGcdOne(d, n);
      Some(v)
  }

  lemma NotCoprimeWhenGcdNotOne(d: int, n: int, g: int)
    requires g == ExtendedGcd(d, n).g && (g != 1 || n == 0)
    ensures n > 0 ==> !Coprime(d, n)
  {
    if n > 0 {
      assert Divides(g, d) && Divides(g, n) && g > 0;
    }
  }

  lemma CoprimeWhenGcdOne(d: int, n: int)
    requires ExtendedGcd(d, n).g == 1
    ensures Coprime(d, n)
  {
    ExtendedGcdIsGcd(d, n);
    forall c | Divides(c, d) && Divides(c, n)
      ensures c == 1 || c == -1
    {
      DividesOne(c);
    }
  }

  lemma InverseOfBezout(d: int, n: int, x: int, y: int, v: int)
    requires n != 0 && d * x + n * y == 1 && v == FloorMod(x, n)
    ensures Divides(n, d * v - 1)
  {
    var q := FloorDiv(x, n);
    FloorDivMod(x, n);
    assert d * v - 1 == n * (-y - d * q) by {
      assert v == x - q * n;
      assert d * v == d * x - d * q * n;
    }
    DividesMultiple(n, -y - d * q);
  }

  // ---------------------------------------------------------------------
  // pow, square_root_exists, square_root_mod_p

  function Pow(b: int, e: nat): (r: int)
  {
    if e == 0 then 1 else b * Pow(b, e - 1)
  }

  lemma {:induction false} PowAdd(b: int, j: nat, k: nat)
    ensures Pow(b, j + k) == Pow(b, j) * Pow(b, k)
  {
    if k > 0 {
      PowAdd(b, j, k - 1);
      assert Pow(b, j + k) == b * Pow(b, j + k - 1);
      assert b * (Pow(b, j) * Pow(b, k - 1)) == Pow(b, j) * (b * Pow(b, k - 1));
    }
  }

  /** Python's three-argument `pow(b, e, m)` for a positive modulus. */
  function ModPow(b: int, e: nat, m: Modulus): (r: int)
    ensures 0 <= r < m
  {
    Pow(b, e) % m
  }

  /** `square_root_exists(z, p)`: Euler's criterion z^((p-1)/2) = 1 mod p. */
  predicate IsResidue(z: int, p: Modulus)
  {
    ModPow(z, (p - 1) / 2, p) == 1
  }

  /** `square_root_mod_p(z, p)`: None where one of its two assertions fails
      (p + 1 not divisible by 4, or z failing Euler's criterion); otherwise
      z^((p+1)/4) mod p, which is a square root of z modulo p. */
  function SqrtModP(z: int, p: Modulus): (r: Option<int>)
    ensures r.Some? <==> (p + 1) % 4 == 0 && IsResidue(z, p)
    ensures r.Some? ==> 0 <= r.value < p && (r.value * r.value) % p == z % p
  {
    if (p + 1) % 4 != 0 || !IsResidue(z, p) then None
    else
      var y := ModPow(z, (p + 1) / 4, p);
      SquareOfRoot(z, p);
      Some(y)
  }

  /** For p = 3 mod 4 and z meeting Euler's criterion,
      (z^((p+1)/4))^2 = z^((p-1)/2) * z = z mod p. Primality is not needed. */
  lemma SquareOfRoot(z: int, p: Modulus)
    requires (p + 1) % 4 == 0 && IsResidue(z, p)
    ensures var y := ModPow(z, (p + 1) / 4, p); (y * y) % p == z % p
  {
    var k, h := (p + 1) / 4, (p - 1) / 2;
    HalfExponents(p);
    var w, e := Pow(z, k), Pow(z, h);
    SquareOfPower(z, k, h);
    var y, zr := w % p, z % p;
    MulMod(w, w, p);
    MulMod(e, z, p);
    calc {
      (y * y) % p;
      (w * w) % p;
      (e * z) % p;
      ((e % p) * zr) % p;
      { assert e % p == 1; }
      (1 * zr) % p;
      { SmallMod(zr, p); }
      zr;
    }
  }

  lemma SmallMod(r: int, m: int)
    requires 0 <= r < m
    ensures r % m == r
  {
    CongruentIff(r, 0, m);
    assert (r - 0) % m == r % m;
    if r % m != r {
      var q := r / m;
      assert r == q * m + r % m;
      assert r - r % m == q * m;
      MulAtLeast(q, m);
    }
  }

  lemma HalfExponents(p: int)
    requires p > 0 && (p + 1) % 4 == 0
    ensures (p + 1) / 4 + (p + 1) / 4 == (p - 1) / 2 + 1
  {
  }

  lemma SquareOfPower(z: int, k: nat, h: nat)
    requires k + k == h + 1
    ensures Pow(z, k) * Pow(z, k) == Pow(z, h) * z
  {
    PowAdd(z, k, k);
    PowAdd(z, h, 1);
  }

  /** A multiple of p fails Euler's criterion once p >= 3, so
      `square_root_exists(0, p)` is false and a zero curve value is skipped. */
  lemma {:induction false} MultipleNotResidue(z: int, p: Modulus)
    requires p >= 3 && z % p == 0
    ensures !IsResidue(z, p)
  {
    PowOfMultiple(z, (p - 1) / 2, p);
  }

  lemma {:induction false} PowOfMultiple(z: int, e: nat, p: Modulus)
    requires e >= 1 && z % p == 0
    ensures Pow(z, e) % p == 0
  {
    MulMod(z, Pow(z, e - 1), p);
  }
}
