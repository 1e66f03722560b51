/**
 * Divisibility, the extended Euclidean algorithm behind gmpy2.invert, and
 * the number theory the Paillier round trip rests on: Euclid's lemma,
 * Fermat's little theorem (through the binomial theorem), and Euler's
 * theorem modulo n^2 for n a product of two distinct primes.
 */
module NumberTheory {
  import opened Arith

  datatype Option<T> = None | Some(value: T)

  /** d is a positive divisor of x. */
  predicate Divides(d: int, x: int) {
    d > 0 && x % d == 0
  }

  /** a and b have no common divisor greater than one. */
  ghost predicate Coprime(a: int, b: int) {
    forall d :: d > 1 && Divides(d, a) ==> !Divides(d, b)
  }

  ghost predicate IsPrime(p: int) {
    p > 1 && forall d :: 1 < d < p ==> !Divides(d, p)
  }

  /** x is an inverse of a modulo m. */
  predicate IsInverseMod(a: int, x: int, m: int)
    requires m > 0
  {
    (a * x) % m == 1
  }

  // ---------------------------------------------------------------- divisibility

  lemma DividesByWitness(d: int, x: int, k: int)
    requires d > 0 && x == d * k
    ensures Divides(d, x)
  {
    ModUnique(x, d, k, 0);
  }

  lemma DividesWitness(d: int, x: int)
    requires Divides(d, x)
    ensures x == d * (x / d)
  {
  }

  lemma DividesSelf(d: int)
    requires d > 0
    ensures Divides(d, d)
  {
    DividesByWitness(d, d, 1);
  }

  /** A common divisor of x and y divides every combination a*x + b*y. */
  lemma DividesLinear(d: int, x: int, y: int, a: int, b: int)
    requires Divides(d, x) && Divides(d, y)
    ensures Divides(d, a * x + b * y)
  {
    var kx, ky := x / d, y / d;
    DividesWitness(d, x);
    DividesWitness(d, y);
    calc {
      a * x + b * y;
      a * (d * kx) + b * (d * ky);
      d * (a * kx + b * ky);
    }
    DividesByWitness(d, a * x + b * y, a * kx + b * ky);
  }

  lemma DividesBound(d: int, x: int)
    requires Divides(d, x) && x > 0
    ensures d <= x
  {
    var k := x / d;
    DividesWitness(d, x);
    if k <= 0 {
      assert false;
    }
    MulAtLeast(d, k);
  }

  lemma DividesFromMod(m: int, x: int)
    requires m > 1 && x % m == 1
    ensures Divides(m, x - 1)
  {
    ModUnique(x - 1, m, x / m, 0);
  }

  lemma ModFromDivides(m: int, x: int)
    requires m > 1 && Divides(m, x - 1)
    ensures x % m == 1
  {
    DividesWitness(m, x - 1);
    ModUnique(x, m, (x - 1) / m, 1);
  }

  // ---------------------------------------------------------------- Euclid

  /**
   * The extended Euclidean algorithm: the greatest common divisor g of a and b
   * with Bezout coefficients x, y such that a*x + b*y == g.
   */
  function ExtGcd(a: nat, b: nat): (r: (nat, int, int))
    ensures a * r.1 + b * r.2 == r.0
    ensures a > 0 || b > 0 ==> Divides(r.0, a) && Divides(r.0, b)
    decreases b
  {
    if b == 0 then
      if a > 0 then DividesSelf(a); ModUnique(0, a, 0, 0); (a, 1, 0) else (0, 1, 0)
    else
      var (g, x, y) := ExtGcd(b, a % b);
      ExtGcdStep(a, b, g, x, y);
      (g, y, x - (a / b) * y)
  }

  lemma ExtGcdStep(a: nat, b: nat, g: nat, x: int, y: int)
    requires b > 0
    requires b * x + (a % b) * y == g
    requires Divides(g, b) && Divides(g, a % b)
    ensures a * y + b * (x - (a / b) * y) == g
    ensures Divides(g, a) && Divides(g, b)
  {
    calc {
      a * y + b * (x - (a / b) * y);
      (b * (a / b) + a % b) * y + b * x - b * (a / b) * y;
      b * x + (a % b) * y;
    }
    DividesLinear(g, b, a % b, a / b, 1);
    assert (a / b) * b + 1 * (a % b) == a;
  }

  /** Bezout's identity for coprime a and b, with the coefficients as results. */
  lemma Bezout(a: int, b: int) returns (x: int, y: int)
    requires b > 0 && Coprime(a, b)
    ensures a * x + b * y == 1
  {
    var r := ExtGcd(a % b, b);
    var g := r.0;
    DividesLinear(g, b, a % b, a / b, 1);
    assert (a / b) * b + 1 * (a % b) == a;
    assert g == 1 by {
      DividesBound(g, b);
      if g > 1 {
        assert false;
      }
    }
    x, y := r.1, r.2 - (a / b) * r.1;
    calc {
      a * x + b * y;
      (b * (a / b) + a % b) * r.1 + b * r.2 - b * (a / b) * r.1;
      (a % b) * r.1 + b * r.2;
    }
  }

  /** A Bezout identity equal to one rules out every common divisor. */
  lemma BezoutCoprime(a: int, b: int, x: int, y: int)
    requires a * x + b * y == 1
    ensures Coprime(a, b)
  {
    forall d | d > 1 && Divides(d, a)
      ensures !Divides(d, b)
    {
      if Divides(d, b) {
        DividesLinear(d, a, b, x, y);
        DividesBound(d, 1);
        assert false;
      }
    }
  }

  lemma CoprimeSymmetric(a: int, b: int)
    requires Coprime(a, b)
    ensures Coprime(b, a)
  {
  }

  lemma CoprimeMul(a: int, b: int, c: int)
    requires b > 0 && c > 0
    requires Coprime(a, b) && Coprime(a, c)
    ensures Coprime(a, b * c)
  {
    var x1, y1 := Bezout(a, b);
    var x2, y2 := Bezout(a, c);
    calc {
      1;
      (a * x1 + b * y1) * (a * x2 + c * y2);
      a * (x1 * a * x2 + x1 * c * y2 + b * y1 * x2) + (b * c) * (y1 * y2);
    }
    BezoutCoprime(a, b * c, x1 * a * x2 + x1 * c * y2 + b * y1 * x2, y1 * y2);
  }

  /** Two coprime divisors of c divide it together. */
  lemma CoprimeDividesProduct(a: int, b: int, c: int)
    requires Coprime(a, b)
    requires Divides(a, c) && Divides(b, c)
    ensures Divides(a * b, c)
  {
    var x, y := Bezout(a, b);
    var ka, kb := c / a, c / b;
    DividesWitness(a, c);
    DividesWitness(b, c);
    calc {
      c;
      c * (a * x + b * y);
      (b * kb) * a * x + (a * ka) * b * y;
      (a * b) * (kb * x + ka * y);
    }
    DividesByWitness(a * b, c, kb * x + ka * y);
  }

  /**
   * gmpy2.invert(a, m): the inverse of a modulo m, in [0, m). There is one
   * exactly when a and m are coprime; otherwise gmpy2 raises, which is None here.
   */
  function Invert(a: int, m: int): (r: Option<int>)
    requires m > 1
    ensures r.Some? ==> 0 <= r.value < m && IsInverseMod(a, r.value, m)
    ensures r.None? ==> forall x :: !IsInverseMod(a, x, m)
    ensures r.Some? <==> Coprime(a, m)
  {
    var e := ExtGcd(a % m, m);
    InvertCorrect(a, m, e.0, e.1, e.2);
    if e.0 == 1 then Some(e.1 % m) else None
  }

  lemma InvertCorrect(a: int, m: int, g: nat, x: int, y: int)
    requires m > 1
    requires (a % m) * x + m * y == g
    requires Divides(g, a % m) && Divides(g, m)
    ensures g == 1 ==> IsInverseMod(a, x % m, m) && Coprime(a, m)
    ensures g != 1 ==> !Coprime(a, m) && forall z :: !IsInverseMod(a, z, m)
  {
    var q, r := a / m, a % m;
    assert a == m * q + r;
    DividesLinear(g, m, r, q, 1);
    assert q * m + 1 * r == a;
    if g == 1 {
      InverseFromBezout(a, m, x, y);
      LiftBezout(a, m, q, r, x, y);
      BezoutCoprime(a, m, x, y - q * x);
    } else {
      DividesBound(g, m);
      assert g > 1 && Divides(g, a) && Divides(g, m);
      forall z
        ensures !IsInverseMod(a, z, m)
      {
        if IsInverseMod(a, z, m) {
          InverseCoprime(a, z, m);
          assert false;
        }
      }
    }
  }

  /** A Bezout identity for a mod m yields the inverse of a modulo m. */
  lemma InverseFromBezout(a: int, m: int, x: int, y: int)
    requires m > 1 && (a % m) * x + m * y == 1
    ensures (a * (x % m)) % m == 1
  {
    var r, xm := a % m, x % m;
    assert (a * xm) % m == (a * x) % m by {
      ModMul(a, xm, m);
      ModMod(x, m);
      ModMul(a, x, m);
    }
    assert (a * x) % m == (r * x) % m by {
      ModMulLeft(a, x, m);
    }
    assert (r * x) % m == 1 by {
      var k := -y;
      assert r * x == 1 + k * m;
      ModAddMultiple(1, k, m);
      ModUnique(1, m, 0, 1);
    }
  }

  /** A Bezout identity for r = a - m*q becomes one for a. */
  lemma LiftBezout(a: int, m: int, q: int, r: int, x: int, y: int)
    requires a == m * q + r && r * x + m * y == 1
    ensures a * x + m * (y - q * x) == 1
  {
  }

  /** Euclid's algorithm decides coprimality: the gcd it computes is 1 exactly for coprime inputs. */
  lemma ExtGcdCoprime(a: nat, m: nat)
    requires m > 0
    ensures ExtGcd(a, m).0 == 1 <==> Coprime(a, m)
  {
    var r := ExtGcd(a, m);
    if r.0 == 1 {
      BezoutCoprime(a, m, r.1, r.2);
    } else {
      DividesBound(r.0, m);
      assert r.0 > 1 && Divides(r.0, a) && Divides(r.0, m);
    }
  }

  /** Every m > 1 divides both 0 and itself. */
  lemma ZeroNotCoprime(m: int)
    requires m > 1
    ensures !Coprime(0, m)
  {
    DividesSelf(m);
    DividesByWitness(m, 0, 0);
  }

  /** Having an inverse modulo m makes a coprime to m. */
  lemma InverseCoprime(a: int, x: int, m: int)
    requires m > 0 && IsInverseMod(a, x, m)
    ensures Coprime(a, m)
  {
    var k := (a * x) / m;
    assert a * x == m * k + 1;
    BezoutCoprime(a, m, x, -k);
  }

  // ---------------------------------------------------------------- primes

  lemma PrimeDivisor(p: int, d: int)
    requires IsPrime(p) && d > 1 && Divides(d, p)
    ensures d == p
  {
    DividesBound(d, p);
  }

  lemma PrimeCoprime(p: int, a: int)
    requires IsPrime(p) && !Divides(p, a)
    ensures Coprime(a, p)
  {
    forall d | d > 1 && Divides(d, a)
      ensures !Divides(d, p)
    {
      if Divides(d, p) {
        PrimeDivisor(p, d);
        assert false;
      }
    }
  }

  lemma DistinctPrimesCoprime(p: int, q: int)
    requires IsPrime(p) && IsPrime(q) && p != q
    ensures Coprime(p, q)
  {
    if Divides(q, p) {
      PrimeDivisor(p, q);
      assert false;
    }
    PrimeCoprime(q, p);
  }

  /** Euclid's lemma: a prime that divides a product divides one of its factors. */
  lemma EuclidLemma(p: int, a: int, b: int)
    requires IsPrime(p) && Divides(p, a * b)
    ensures Divides(p, a) || Divides(p, b)
  {
    if !Divides(p, a) {
      PrimeCoprime(p, a);
      var x, y := Bezout(a, p);
      DividesSelf(p);
      DividesLinear(p, a * b, p, x, b * y);
      calc {
        x * (a * b) + (b * y) * p;
        b * (a * x + p * y);
        b;
      }
    }
  }

  /** A prime that does not divide t is not a factor of any product p*q it is coprime to. */
  lemma CoprimeNotDivides(t: int, p: int, q: int)
    requires IsPrime(p) && q > 0 && Coprime(t, p * q)
    ensures !Divides(p, t)
  {
    if Divides(p, t) {
      DividesByWitness(p, p * q, q);
      assert false;
    }
  }

  // ---------------------------------------------------------------- binomials

  /** The binomial coefficient, by Pascal's rule. */
  function Binom(n: nat, k: nat): nat
    decreases n
  {
    if k == 0 then 1 else if n == 0 then 0 else Binom(n - 1, k - 1) + Binom(n - 1, k)
  }

  lemma {:induction false} BinomAbove(n: nat, k: nat)
    requires k > n
    ensures Binom(n, k) == 0
    decreases n
  {
    if n > 0 {
      BinomAbove(n - 1, k - 1);
      BinomAbove(n - 1, k);
    }
  }

  lemma {:induction false} BinomDiagonal(n: nat)
    ensures Binom(n, n) == 1
    decreases n
  {
    if n > 0 {
      BinomDiagonal(n - 1);
      BinomAbove(n - 1, n);
    }
  }

  /** The absorption identity k * C(n, k) == n * C(n-1, k-1). */
  lemma {:induction false} Absorption(n: nat, k: nat)
    requires n >= 1 && k >= 1
    ensures k * Binom(n, k) == n * Binom(n - 1, k - 1)
    decreases n
  {
    if n == 1 {
      if k > 1 {
        BinomAbove(1, k);
        BinomAbove(0, k - 1);
      }
    } else if k == 1 {
      Absorption(n - 1, 1);
    } else {
      Absorption(n - 1, k);
      Absorption(n - 1, k - 1);
      AbsorptionStep(n, k, Binom(n - 1, k - 1), Binom(n - 1, k), Binom(n - 2, k - 2), Binom(n - 2, k - 1));
    }
  }

  /** The algebra of one Pascal step of Absorption, over the four coefficients involved. */
  lemma AbsorptionStep(n: int, k: int, a: int, b: int, c: int, d: int)
    requires k * b == (n - 1) * d
    requires (k - 1) * a == (n - 1) * c
    requires a == c + d
    ensures k * (a + b) == n * a
  {
    calc {
      k * (a + b);
      a + (k - 1) * a + k * b;
      a + (n - 1) * c + (n - 1) * d;
      a + (n - 1) * (c + d);
      n * a;
    }
  }

  lemma PrimeDividesBinom(p: nat, k: nat)
    requires IsPrime(p) && 0 < k < p
    ensures Divides(p, Binom(p, k))
  {
    Absorption(p, k);
    DividesByWitness(p, k * Binom(p, k), Binom(p - 1, k - 1));
    EuclidLemma(p, k, Binom(p, k));
    if Divides(p, k) {
      DividesBound(p, k);
      assert false;
    }
  }

  /** The partial binomial sum C(n,0) + C(n,1) x + ... + C(n,j-1) x^(j-1). */
  function BinomSum(n: nat, x: int, j: nat): int
    decreases j
  {
    if j == 0 then 0 else BinomSum(n, x, j - 1) + Binom(n, j - 1) * Pow(x, j - 1)
  }

  lemma {:induction false} PascalSum(n: nat, x: int, j: nat)
    ensures BinomSum(n + 1, x, j + 1) == BinomSum(n, x, j + 1) + x * BinomSum(n, x, j)
    decreases j
  {
    if j > 0 {
      PascalSum(n, x, j - 1);
      var xj1 := Pow(x, j - 1);
      assert Pow(x, j) == x * xj1;
      assert BinomSum(n + 1, x, j + 1) == BinomSum(n + 1, x, j) + (Binom(n, j - 1) + Binom(n, j)) * Pow(x, j);
      PascalStep(x, xj1, BinomSum(n, x, j - 1), Binom(n, j - 1), Binom(n, j));
    }
  }

  /** The algebra of one step of PascalSum: x * (s + c1 * x^(j-1)) == x * s + c1 * x^j. */
  lemma PascalStep(x: int, xj1: int, s: int, c1: int, c2: int)
    ensures (s + c1 * xj1) + x * s + (c1 + c2) * (x * xj1)
         == (s + c1 * xj1) + c2 * (x * xj1) + x * (s + c1 * xj1)
  {
  }

  lemma {:induction false} BinomSumSaturates(n: nat, x: int, j: nat)
    requires j >= n + 1
    ensures BinomSum(n, x, j) == BinomSum(n, x, n + 1)
    decreases j
  {
    if j > n + 1 {
      BinomSumSaturates(n, x, j - 1);
      BinomAbove(n, j - 1);
    }
  }

  /** The binomial theorem for (x + 1)^n. */
  lemma {:induction false} BinomialTheorem(n: nat, x: int)
    ensures Pow(x + 1, n) == BinomSum(n, x, n + 1)
    decreases n
  {
    if n > 0 {
      BinomialTheorem(n - 1, x);
      PascalSum(n - 1, x, n);
      BinomSumSaturates(n - 1, x, n + 1);
    }
  }

  /** For prime p, all the middle terms of (x + 1)^p vanish modulo p. */
  lemma {:induction false} BinomSumModPrime(p: nat, x: int, j: nat)
    requires IsPrime(p) && 1 <= j <= p
    ensures BinomSum(p, x, j) % p == 1
    decreases j
  {
    if j == 1 {
      ModUnique(1, p, 0, 1);
    } else {
      BinomSumModPrime(p, x, j - 1);
      PrimeDividesBinom(p, j - 1);
      var b, w := Binom(p, j - 1), Pow(x, j - 1);
      DividesWitness(p, b);
      var k := b / p;
      MulRegroup(p, k, w);
      ModAddMultiple(BinomSum(p, x, j - 1), k * w, p);
    }
  }

  lemma MulRegroup(p: int, k: int, w: int)
    ensures (p * k) * w == (k * w) * p
  {
  }

  /** (x + 1)^p == x^p + 1 modulo a prime p. */
  lemma FreshmansDream(p: nat, x: int)
    requires IsPrime(p)
    ensures Pow(x + 1, p) % p == (Pow(x, p) + 1) % p
  {
    BinomialTheorem(p, x);
    BinomDiagonal(p);
    BinomSumModPrime(p, x, p);
    ModAdd(BinomSum(p, x, p), Pow(x, p), p);
    ModAdd(1, Pow(x, p), p);
    ModUnique(1, p, 0, 1);
  }

  lemma {:induction false} FermatPow(p: nat, a: nat)
    requires IsPrime(p)
    ensures Pow(a, p) % p == a % p
    decreases a
  {
    if a == 0 {
      PowAdd(0, 1, p - 1);
    } else {
      FermatPow(p, a - 1);
      FreshmansDream(p, a - 1);
      calc {
        Pow(a, p) % p;
        (Pow(a - 1, p) + 1) % p;
        { ModAdd(Pow(a - 1, p), 1, p); }
        (Pow(a - 1, p) % p + 1 % p) % p;
        ((a - 1) % p + 1 % p) % p;
        { ModAdd(a - 1, 1, p); }
        a % p;
      }
    }
  }

  /** Fermat's little theorem: a^(p-1) == 1 modulo p when p does not divide a. */
  lemma Fermat(p: nat, a: int)
    requires IsPrime(p) && !Divides(p, a)
    ensures Pow(a, p - 1) % p == 1
  {
    var b := a % p;
    var x := Pow(b, p - 1);
    FermatPow(p, b);
    assert Pow(b, p) == b * x;
    ModSub(b * x, b, p);
    ModMod(a, p);
    ModUnique(0, p, 0, 0);
    assert (b * x - b) % p == 0;
    assert b * (x - 1) == b * x - b;
    EuclidLemma(p, b, x - 1);
    if Divides(p, b) {
      assert false;
    }
    ModFromDivides(p, x);
    PowModBase(a, p - 1, p);
  }

  /** Lifting Fermat to the square of the prime: t^(p(p-1)) == 1 modulo p^2. */
  lemma EulerPrimeSquare(p: nat, t: int)
    requires IsPrime(p) && !Divides(p, t)
    ensures Pow(t, p * (p - 1)) % (p * p) == 1
  {
    var x := Pow(t, p - 1);
    Fermat(p, t);
    var k := x / p;
    assert x == 1 + k * p;
    PowOnePlusMultiple(k, p, p);
    PowPow(t, p - 1, p);
    ExponentCommutes(p);
    OnePlusSquareMultiple(p, k);
  }

  lemma ExponentCommutes(p: nat)
    requires p > 1
    ensures (p - 1) * p == p * (p - 1)
  {
  }

  /** 1 + p*k*p leaves remainder 1 modulo p^2. */
  lemma OnePlusSquareMultiple(p: int, k: int)
    requires p > 1
    ensures (1 + p * k * p) % (p * p) == 1
  {
    var pp := p * p;
    assert pp > 1 by {
      MulAtLeast(p, p);
    }
    assert 1 + p * k * p == 1 + k * pp;
    ModAddMultiple(1, k, pp);
    ModUnique(1, pp, 0, 1);
  }

  /**
   * Euler's theorem modulo n^2 for n = p*q: every t coprime to n satisfies
   * t^(n * (p-1)(q-1)) == 1 modulo n^2, since n * (p-1)(q-1) is the order of
   * the unit group modulo n^2.
   */
  lemma EulerSquare(p: nat, q: nat, t: int)
    requires IsPrime(p) && IsPrime(q) && p != q
    requires Coprime(t, p * q)
    ensures (p * q) * ((p - 1) * (q - 1)) >= 0 && (p * q) * (p * q) > 0
    ensures Pow(t, (p * q) * ((p - 1) * (q - 1))) % ((p * q) * (p * q)) == 1
  {
    var e := (p * q) * ((p - 1) * (q - 1));
    var ep, eq := p * (p - 1), q * (q - 1);
    ExponentSplit(p, q);
    assert Pow(t, e) % (p * p) == 1 by {
      CoprimeNotDivides(t, p, q);
      EulerFactor(p, eq, t);
    }
    assert Pow(t, e) % (q * q) == 1 by {
      assert q * p == p * q;
      CoprimeNotDivides(t, q, p);
      EulerFactor(q, ep, t);
    }
    SquaresToProduct(p, q, Pow(t, e));
  }

  /** The exponent n * lambda is a multiple of both p(p-1) and q(q-1). */
  lemma ExponentSplit(p: nat, q: nat)
    requires p > 1 && q > 1
    ensures p * (p - 1) >= 0 && q * (q - 1) >= 0
    ensures (p * q) * ((p - 1) * (q - 1)) >= 0 && (p * q) * (p * q) > 0
    ensures (p * q) * ((p - 1) * (q - 1)) == (p * (p - 1)) * (q * (q - 1))
    ensures (p * q) * ((p - 1) * (q - 1)) == (q * (q - 1)) * (p * (p - 1))
  {
    var ep, eq := p * (p - 1), q * (q - 1);
    MulAtLeast(p, p - 1);
    MulAtLeast(q, q - 1);
    MulAtLeast(p * q, p * q);
    Interchange(p, q, p - 1, q - 1);
    MulAtLeast(ep, eq);
    assert ep * eq == eq * ep;
  }

  /** x == 1 modulo p^2 and modulo q^2 makes x == 1 modulo (pq)^2. */
  lemma SquaresToProduct(p: nat, q: nat, x: int)
    requires IsPrime(p) && IsPrime(q) && p != q
    requires x % (p * p) == 1 && x % (q * q) == 1
    ensures x % ((p * q) * (p * q)) == 1
  {
    PrimeSquaresCoprime(p, q);
    MulAtLeast(p, p);
    MulAtLeast(q, q);
    Interchange(p, q, p, q);
    ChineseRemainderOne(p * p, q * q, (p * q) * (p * q), x);
  }

  lemma PrimeSquaresCoprime(p: nat, q: nat)
    requires IsPrime(p) && IsPrime(q) && p != q
    ensures Coprime(p * p, q * q)
  {
    DistinctPrimesCoprime(p, q);
    CoprimeMul(p, q, q);
    CoprimeSymmetric(p, q * q);
    CoprimeMul(q * q, p, p);
    CoprimeSymmetric(q * q, p * p);
  }

  /** x == 1 modulo two coprime moduli makes x == 1 modulo their product. */
  lemma ChineseRemainderOne(a: int, b: int, ab: int, x: int)
    requires a > 1 && b > 1 && Coprime(a, b) && ab == a * b
    requires x % a == 1 && x % b == 1
    ensures x % ab == 1
  {
    DividesFromMod(a, x);
    DividesFromMod(b, x);
    CoprimeDividesProduct(a, b, x - 1);
    MulAtLeast(a, b);
    ModFromDivides(a * b, x);
  }

  /** One prime-square half of EulerSquare: every multiple of p(p-1) is an exponent sending t to 1 modulo p^2. */
  lemma EulerFactor(p: nat, k: nat, t: int)
    requires IsPrime(p) && !Divides(p, t)
    ensures p * (p - 1) * k >= 0
    ensures Pow(t, p * (p - 1) * k) % (p * p) == 1
  {
    var ep := p * (p - 1);
    MulAtLeast(p, p - 1);
    MulAtLeast(p, p);
    EulerPrimeSquare(p, t);
    PowPow(t, ep, k);
    PowCongruentOne(Pow(t, ep), k, p * p);
  }
}
