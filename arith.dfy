/**
 * The arbitrary-precision integer operations the Paillier code takes from gmpy2:
 * powmod, f_div and f_mod, together with the modular-arithmetic facts the
 * correctness proofs rest on. Every value is an unbounded Dafny `int`, as
 * every gmpy2 `mpz` is unbounded.
 */
module Arith {

  /** b^e, the reference definition that PowMod is proved against. */
  function Pow(b: int, e: nat): int
    decreases e
  {
    if e == 0 then 1 else b * Pow(b, e - 1)
  }

  /** gmpy2.f_div for a positive divisor: the quotient rounded toward minus infinity. */
  function FloorDiv(a: int, b: int): (r: int)
    requires b > 0
    ensures b * r <= a < b * r + b
  {
    a / b
  }

  /** gmpy2.f_mod for a positive divisor: the remainder of FloorDiv, which is never negative. */
  function FloorMod(a: int, b: int): (r: int)
    requires b > 0
    ensures 0 <= r < b
    ensures a == b * FloorDiv(a, b) + r
  {
    a % b
  }

  /**
   * gmpy2.powmod for a non-negative exponent: b^e mod m, computed by
   * squaring on the halved exponent, so that no intermediate value
   * exceeds m^2.
   */
  function PowMod(b: int, e: nat, m: int): (r: int)
    requires m > 0
    ensures 0 <= r < m
    ensures r == Pow(b, e) % m
    decreases e
  {
    if e == 0 then
      1 % m
    else
      var h := PowMod(b, e / 2, m);
      PowModStep(b, e, m, h);
      if e % 2 == 0 then (h * h) % m else ((h * h) % m * (b % m)) % m
  }

  /** The step of PowMod: from b^(e/2) mod m to b^e mod m. */
  lemma PowModStep(b: int, e: nat, m: int, h: int)
    requires m > 0 && e > 0
    requires h == Pow(b, e / 2) % m
    ensures e % 2 == 0 ==> (h * h) % m == Pow(b, e) % m
    ensures e % 2 == 1 ==> ((h * h) % m * (b % m)) % m == Pow(b, e) % m
  {
    var half := Pow(b, e / 2);
    PowAdd(b, e / 2, e / 2);
    ModMul(half, half, m);
    if e % 2 == 0 {
      assert e == e / 2 + e / 2;
    } else {
      assert e == (e / 2 + e / 2) + 1;
      PowAdd(b, e / 2 + e / 2, 1);
      assert Pow(b, 1) == b;
      ModMul(half * half, b, m);
      ModMod(h * h, m);
      assert (half * half) % m == (h * h) % m;
    }
  }

  // ---------------------------------------------------------------- remainders

  /** Quotient and remainder are unique: a remainder in [0, m) pins both down. */
  lemma ModUnique(a: int, m: int, q: int, r: int)
    requires m > 0
    requires a == m * q + r
    requires 0 <= r < m
    ensures a % m == r
    ensures a / m == q
  {
    var k := q - a / m;
    assert m * k == a % m - r;
    if k > 0 {
      MulAtLeast(m, k);
      assert false;
    } else if k < 0 {
      MulAtLeast(m, -k);
      assert false;
    }
  }

  lemma MulAtLeast(m: int, k: int)
    requires m > 0 && k >= 1
    ensures m * k >= m
  {
    assert m * k == m * (k - 1) + m;
  }

  lemma ModAddMultiple(a: int, k: int, m: int)
    requires m > 0
    ensures (a + k * m) % m == a % m
  {
    ModUnique(a + k * m, m, a / m + k, a % m);
  }

  lemma ModMod(a: int, m: int)
    requires m > 0
    ensures (a % m) % m == a % m
  {
    ModUnique(a % m, m, 0, a % m);
  }

  lemma ModAdd(a: int, b: int, m: int)
    requires m > 0
    ensures (a + b) % m == (a % m + b % m) % m
  {
    var qa, qb := a / m, b / m;
    assert a + b == (a % m + b % m) + (qa + qb) * m;
    ModAddMultiple(a % m + b % m, qa + qb, m);
  }

  lemma ModSub(a: int, b: int, m: int)
    requires m > 0
    ensures (a - b) % m == (a % m - b % m) % m
  {
    var qa, qb := a / m, b / m;
    assert a - b == (a % m - b % m) + (qa - qb) * m;
    ModAddMultiple(a % m - b % m, qa - qb, m);
  }

  lemma ModMul(a: int, b: int, m: int)
    requires m > 0
    ensures (a * b) % m == ((a % m) * (b % m)) % m
  {
    var qa, ra, qb, rb := a / m, a % m, b / m, b % m;
    calc {
      a * b;
      (m * qa + ra) * (m * qb + rb);
      ra * rb + (qa * m * qb + qa * rb + ra * qb) * m;
    }
    ModAddMultiple(ra * rb, qa * m * qb + qa * rb + ra * qb, m);
  }

  lemma ModMulLeft(a: int, b: int, m: int)
    requires m > 0
    ensures (a * b) % m == ((a % m) * b) % m
  {
    ModMul(a, b, m);
    ModMul(a % m, b, m);
    ModMod(a, m);
  }

  // ---------------------------------------------------------------- powers

  lemma {:induction false} PowAdd(b: int, e1: nat, e2: nat)
    ensures Pow(b, e1 + e2) == Pow(b, e1) * Pow(b, e2)
    decreases e1
  {
    if e1 > 0 {
      PowAdd(b, e1 - 1, e2);
      assert Pow(b, e1 + e2) == b * Pow(b, (e1 - 1) + e2);
    }
  }

  lemma {:induction false} PowMulBase(a: int, b: int, e: nat)
    ensures Pow(a * b, e) == Pow(a, e) * Pow(b, e)
    decreases e
  {
    if e > 0 {
      PowMulBase(a, b, e - 1);
      var pa, pb := Pow(a, e - 1), Pow(b, e - 1);
      assert Pow(a * b, e) == (a * b) * (pa * pb);
      Interchange(a, b, pa, pb);
    }
  }

  /** Regrouping a product of four factors. */
  lemma Interchange(x1: int, y1: int, x2: int, y2: int)
    ensures (x1 * y1) * (x2 * y2) == (x1 * x2) * (y1 * y2)
  {
  }

  lemma {:induction false} PowPow(b: int, e1: nat, e2: nat)
    ensures Pow(Pow(b, e1), e2) == Pow(b, e1 * e2)
    decreases e2
  {
    if e2 > 0 {
      PowPow(b, e1, e2 - 1);
      assert e1 * e2 == e1 * (e2 - 1) + e1;
      PowAdd(b, e1 * (e2 - 1), e1);
    }
  }

  lemma {:induction false} PowOfOne(e: nat)
    ensures Pow(1, e) == 1
    decreases e
  {
    if e > 0 {
      PowOfOne(e - 1);
    }
  }

  lemma {:induction false} PowNonNegative(b: int, e: nat)
    requires b >= 0
    ensures Pow(b, e) >= 0
    decreases e
  {
    if e > 0 {
      PowNonNegative(b, e - 1);
    }
  }

  /** A power depends on its base only through the base's remainder. */
  lemma {:induction false} PowModBase(b: int, e: nat, m: int)
    requires m > 0
    ensures Pow(b, e) % m == Pow(b % m, e) % m
    decreases e
  {
    if e > 0 {
      PowModBase(b, e - 1, m);
      calc {
        Pow(b, e) % m;
        (b * Pow(b, e - 1)) % m;
        { ModMul(b, Pow(b, e - 1), m); }
        ((b % m) * (Pow(b, e - 1) % m)) % m;
        ((b % m) * (Pow(b % m, e - 1) % m)) % m;
        { ModMod(b, m); ModMul(b % m, Pow(b % m, e - 1), m); }
        ((b % m) * Pow(b % m, e - 1)) % m;
        Pow(b % m, e) % m;
      }
    }
  }

  /** Every power of a value congruent to 1 is congruent to 1. */
  lemma {:induction false} PowCongruentOne(x: int, e: nat, m: int)
    requires m > 1
    requires x % m == 1
    ensures Pow(x, e) % m == 1
  {
    PowModBase(x, e, m);
    PowOfOne(e);
  }

  /**
   * (1 + k*m)^j is congruent to 1 + j*k*m modulo m^2: the binomial terms of
   * degree two and more are multiples of m^2.
   */
  lemma {:induction false} PowOnePlusMultiple(k: int, m: int, j: nat)
    requires m > 0
    ensures Pow(1 + k * m, j) % (m * m) == (1 + j * k * m) % (m * m)
    decreases j
  {
    var mm := m * m;
    if j > 0 {
      PowOnePlusMultiple(k, m, j - 1);
      var base, prev := 1 + k * m, Pow(1 + k * m, j - 1);
      var a, target := 1 + (j - 1) * k * m, 1 + j * k * m;
      assert prev % mm == a % mm;
      assert Pow(base, j) == prev * base;
      ModMulLeft(prev, base, mm);
      ModMulLeft(a, base, mm);
      assert (prev * base) % mm == (a * base) % mm;
      OnePlusMultipleProduct(k, m, j);
      ModAddMultiple(target, (j - 1) * k * k, mm);
    }
  }

  lemma OnePlusMultipleProduct(k: int, m: int, j: nat)
    requires j > 0
    ensures (1 + (j - 1) * k * m) * (1 + k * m) == (1 + j * k * m) + ((j - 1) * k * k) * (m * m)
  {
    var i := j - 1;
    calc {
      (1 + i * k * m) * (1 + k * m);
      1 + k * m + i * k * m + (i * k * m) * (k * m);
      { assert (i * k * m) * (k * m) == (i * k * k) * (m * m); }
      1 + (i + 1) * k * m + (i * k * k) * (m * m);
    }
  }

  lemma {:induction false} PowZeroBase(b: int, e: nat)
    requires Pow(b, e) == 0
    ensures b == 0
    decreases e
  {
    if e == 0 {
      assert false;
    } else if b != 0 {
      assert b * Pow(b, e - 1) == 0;
      PowZeroBase(b, e - 1);
    }
  }

  /**
   * (b + k*m)^j is congruent to b^j + j*b^(j-1)*k*m modulo m^2: the terms with
   * (k*m)^2 or a higher power vanish.
   */
  lemma {:induction false} PowShiftedBase(b: int, k: int, m: int, j: nat)
    requires m > 0 && j >= 1
    ensures Pow(b + k * m, j) % (m * m) == (Pow(b, j) + j * Pow(b, j - 1) * k * m) % (m * m)
    decreases j
  {
    var mm := m * m;
    if j > 1 {
      PowShiftedBase(b, k, m, j - 1);
      var base, prev := b + k * m, Pow(b + k * m, j - 1);
      var bj2 := Pow(b, j - 2);
      var a := Pow(b, j - 1) + (j - 1) * bj2 * k * m;
      var target := Pow(b, j) + j * Pow(b, j - 1) * k * m;
      assert prev % mm == a % mm;
      assert Pow(b, j - 1) == b * bj2;
      assert Pow(b, j) == b * (b * bj2);
      assert Pow(base, j) == prev * base;
      ModMulLeft(prev, base, mm);
      ModMulLeft(a, base, mm);
      assert (prev * base) % mm == (a * base) % mm;
      ShiftedBaseProduct(b, bj2, k, m, j);
      assert a * base == target + ((j - 1) * bj2 * k * k) * mm;
      ModAddMultiple(target, (j - 1) * bj2 * k * k, mm);
    }
  }

  /** The algebra of one step of PowShiftedBase, with bj2 standing for b^(j-2). */
  lemma ShiftedBaseProduct(b: int, bj2: int, k: int, m: int, j: int)
    ensures (b * bj2 + (j - 1) * bj2 * k * m) * (b + k * m)
         == (b * (b * bj2) + j * (b * bj2) * k * m) + ((j - 1) * bj2 * k * k) * (m * m)
  {
    calc {
      (b * bj2 + (j - 1) * bj2 * k * m) * (b + k * m);
      b * (b * bj2) + (b * bj2) * k * m + (j - 1) * (b * bj2) * k * m + ((j - 1) * bj2 * k * m) * (k * m);
      { assert ((j - 1) * bj2 * k * m) * (k * m) == ((j - 1) * bj2 * k * k) * (m * m); }
      b * (b * bj2) + j * (b * bj2) * k * m + ((j - 1) * bj2 * k * k) * (m * m);
    }
  }

  /** a^m modulo m^2 depends on a only through a mod m. */
  lemma PowModulusSquare(a: int, m: int)
    requires m > 0
    ensures Pow(a, m) % (m * m) == Pow(a % m, m) % (m * m)
  {
    var b, k := a % m, a / m;
    assert a == b + k * m;
    PowShiftedBase(b, k, m, m);
    var c := Pow(b, m - 1);
    LastTermMultiple(c, k, m);
    ModAddMultiple(Pow(b, m), c * k, m * m);
  }

  lemma LastTermMultiple(c: int, k: int, m: int)
    ensures m * c * k * m == (c * k) * (m * m)
  {
  }
}
