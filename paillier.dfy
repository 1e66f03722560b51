/**
 * The Paillier cryptosystem of Paillier_Implementation2.py, with generator
 * g = n + 1: the two key records, key generation, encryption, decryption,
 * the homomorphic ciphertext product mul_c and the plaintext sum add_m.
 *
 * The random primes of getPrime and the random blinding values of
 * mpz_random are inputs here: each loop that redraws them runs over a
 * supplied sequence of draws.
 */
module Paillier {
  import opened Arith
  import opened NumberTheory

  /** PrivateKey: l is lambda = (p-1)(q-1), mu its inverse modulo n. */
  datatype PrivateKey = PrivateKey(l: int, mu: int)

  /** PublicKey: the modulus n, n_sq = n^2 and the generator g = n + 1. */
  datatype PublicKey = PublicKey(n: int, n_sq: int, g: int) {
    /** What PublicKey.__init__ establishes: n_sq and g are derived from n. */
    predicate Valid() {
      n_sq == n * n && g == n + 1
    }
  }

  /** The exception the code can raise: gmpy2.invert finds no inverse. */
  datatype Error = NoInverse

  datatype Result<T> = Ok(value: T) | Err(error: Error)

  /** PublicKey.__init__(n). */
  function NewPublicKey(n: int): (pub: PublicKey)
    ensures pub.Valid() && pub.n == n
  {
    PublicKey(n, n * n, n + 1)
  }

  /**
   * PrivateKey.__init__(p, q, n): lambda = (p-1)(q-1) and mu = lambda^-1 mod n.
   * It raises exactly when lambda shares a factor with n.
   */
  function NewPrivateKey(p: int, q: int, n: int): (r: Result<PrivateKey>)
    requires n > 1
    ensures r.Ok? <==> Coprime((p - 1) * (q - 1), n)
    ensures r.Ok? ==> r.value.l == (p - 1) * (q - 1)
    ensures r.Ok? ==> 0 <= r.value.mu < n && (r.value.l * r.value.mu) % n == 1
  {
    var l := (p - 1) * (q - 1);
    match Invert(l, n)
    case Some(mu) => Ok(PrivateKey(l, mu))
    case None => Err(NoInverse)
  }

  /**
   * A key pair of the modulus n = p*q: both keys are built from the same n,
   * the public key is well formed, and lambda * mu == 1 modulo n.
   */
  ghost predicate KeypairOf(priv: PrivateKey, pub: PublicKey, p: int, q: int) {
    && pub.Valid()
    && pub.n == p * q && pub.n > 1
    && priv.l == (p - 1) * (q - 1) && priv.l > 0
    && 0 <= priv.mu < pub.n
    && (priv.l * priv.mu) % pub.n == 1
  }

  /** The tail of generate_keypair, once p and q differ: n = p*q and both keys. */
  function KeypairFrom(p: int, q: int): (r: Result<(PrivateKey, PublicKey)>)
    requires p > 1 && q > 1
    ensures r.Ok? <==> Coprime((p - 1) * (q - 1), p * q)
    ensures r.Ok? ==> KeypairOf(r.value.0, r.value.1, p, q)
  {
    var n := p * q;
    MulAtLeast(p, q);
    MulAtLeast(p - 1, q - 1);
    match NewPrivateKey(p, q, n)
    case Ok(priv) => Ok((priv, NewPublicKey(n)))
    case Err(e) => Err(e)
  }

  /**
   * What getPrime(bits) returns: a prime of exactly `bits` bits. getPrime
   * sets the lowest bit of every candidate it tests, so the prime is odd.
   */
  ghost predicate PrimeOfBits(p: int, bits: nat) {
    IsPrime(p) && p % 2 == 1 && bits >= 1 && Pow(2, bits - 1) <= p < Pow(2, bits)
  }

  /** The draw at index i is the first one whose two primes differ. */
  ghost predicate FirstDistinct(draws: seq<(int, int)>, i: int) {
    && 0 <= i < |draws|
    && draws[i].0 != draws[i].1
    && forall j :: 0 <= j < i ==> draws[j].0 == draws[j].1
  }

  /**
   * generate_keypair(bits): draws pairs of primes of `bits` bits until the two
   * differ, then builds the keys of n = p*q. The draws are the successive
   * results of getPrime. For 3 or more bits key construction always
   * succeeds. For 2 bits every draw is (3, 3) (TwoBitDrawsEqual), so no
   * sequence of draws meets the second requires: generate_keypair(2) never
   * leaves its loop.
   */
  method GenerateKeypair(bits: nat, draws: seq<(int, int)>) returns (keys: Result<(PrivateKey, PublicKey)>)
    requires forall i :: 0 <= i < |draws| ==> PrimeOfBits(draws[i].0, bits) && PrimeOfBits(draws[i].1, bits)
    requires exists i :: 0 <= i < |draws| && draws[i].0 != draws[i].1
    ensures exists i :: FirstDistinct(draws, i) && draws[i].0 > 1 && draws[i].1 > 1
                        && keys == KeypairFrom(draws[i].0, draws[i].1)
    ensures bits >= 3 ==> keys.Ok?
  {
    var i := 0;
    var p, q := draws[0].0, draws[0].1;
    while p == q
      invariant 0 <= i < |draws| && p == draws[i].0 && q == draws[i].1
      invariant forall j :: 0 <= j < i ==> draws[j].0 == draws[j].1
      invariant exists k :: i <= k < |draws| && draws[k].0 != draws[k].1
      decreases |draws| - i
    {
      i := i + 1;
      p, q := draws[i].0, draws[i].1;
    }
    assert FirstDistinct(draws, i);
    keys := KeypairFrom(p, q);
    if bits >= 3 {
      SameSizePrimesCoprime(bits, p, q);
    }
  }

  /**
   * For distinct primes of the same bit length, at least three bits long,
   * lambda = (p-1)(q-1) is coprime to n = p*q, so invert always succeeds.
   */
  lemma SameSizePrimesCoprime(bits: nat, p: int, q: int)
    requires bits >= 3 && PrimeOfBits(p, bits) && PrimeOfBits(q, bits) && p != q
    ensures Coprime((p - 1) * (q - 1), p * q)
  {
    var l := (p - 1) * (q - 1);
    NotDividesLambda(bits, p, q);
    PrimeCoprime(p, l);
    NotDividesLambda(bits, q, p);
    assert (q - 1) * (p - 1) == l;
    PrimeCoprime(q, l);
    CoprimeMul(l, p, q);
  }

  /** The one half of SameSizePrimesCoprime: p does not divide (p-1)(q-1). */
  lemma NotDividesLambda(bits: nat, p: int, q: int)
    requires bits >= 3 && PrimeOfBits(p, bits) && PrimeOfBits(q, bits) && p != q
    ensures !Divides(p, (p - 1) * (q - 1))
  {
    if Divides(p, (p - 1) * (q - 1)) {
      EuclidLemma(p, p - 1, q - 1);
      if Divides(p, p - 1) {
        DividesBound(p, p - 1);
        assert false;
      }
      AtLeastFour(bits);
      assert Pow(2, bits) == 2 * Pow(2, bits - 1);
      DividesBound(p, q - 1);
      SingleMultipleBelowTwice(p, q - 1);
      ConsecutivePrimes(p, q);
      assert false;
    }
  }

  /** The only positive multiple of d below 2d is d itself. */
  lemma SingleMultipleBelowTwice(d: int, x: int)
    requires Divides(d, x) && d <= x < 2 * d
    ensures x == d
  {
    var k := x / d;
    DividesWitness(d, x);
    if k >= 2 {
      MulAtLeast(d, k - 1);
      assert false;
    }
  }

  lemma AtLeastFour(bits: nat)
    requires bits >= 3
    ensures Pow(2, bits - 1) >= 4
  {
    PowAdd(2, 2, bits - 3);
    PowNonNegative(2, bits - 3);
    if Pow(2, bits - 3) == 0 {
      PowZeroBase(2, bits - 3);
      assert false;
    }
  }

  /** Of two consecutive numbers one is even, so both prime forces 2 and 3. */
  lemma ConsecutivePrimes(p: int, q: int)
    requires IsPrime(p) && IsPrime(q) && q == p + 1
    ensures p == 2
  {
    if p > 2 {
      if p % 2 == 0 {
        DividesByWitness(2, p, p / 2);
        assert false;
      } else {
        DividesByWitness(2, q, (p + 1) / 2);
        assert false;
      }
    }
  }

  /** getPrime(2) can only return 3, so the two primes of a 2-bit draw are always equal. */
  lemma TwoBitDrawsEqual(p: int, q: int)
    requires PrimeOfBits(p, 2) && PrimeOfBits(q, 2)
    ensures p == 3 && q == 3
  {
    assert Pow(2, 2) == 4 && Pow(2, 1) == 2;
  }

  /**
   * generate_keypair(2) never leaves its loop: no draw of two 2-bit primes
   * has p != q, however many draws are made.
   */
  lemma TwoBitKeygenNeverExits(draws: seq<(int, int)>)
    requires forall i :: 0 <= i < |draws| ==> PrimeOfBits(draws[i].0, 2) && PrimeOfBits(draws[i].1, 2)
    ensures forall i :: 0 <= i < |draws| ==> draws[i].0 == draws[i].1
  {
    forall i | 0 <= i < |draws|
      ensures draws[i].0 == draws[i].1
    {
      TwoBitDrawsEqual(draws[i].0, draws[i].1);
    }
  }

  /**
   * Key construction from the distinct primes 2 and 3 raises: lambda = 2
   * shares the factor 2 with n = 6.
   */
  lemma TwoAndThreeHaveNoKey()
    ensures KeypairFrom(2, 3).Err? && KeypairFrom(3, 2).Err?
  {
    DividesByWitness(2, 2, 1);
    DividesByWitness(2, 6, 3);
    assert !Coprime((2 - 1) * (3 - 1), 2 * 3);
    assert !Coprime((3 - 1) * (2 - 1), 3 * 2);
  }

  /**
   * The arithmetic of encrypt once the blinding value r is drawn:
   * c = g^m * r^n mod n^2.
   */
  function EncryptWith(pub: PublicKey, m: nat, r: int): (c: int)
    requires pub.Valid() && 0 < r < pub.n
    ensures 0 <= c < pub.n_sq
  {
    var x := PowMod(r, pub.n, pub.n_sq);
    var y := PowMod(pub.g, m, pub.n_sq);
    FloorMod(y * x, pub.n_sq)
  }

  /** The draw at index i is the first non-zero one. */
  ghost predicate FirstNonZero(draws: seq<int>, i: int) {
    && 0 <= i < |draws|
    && draws[i] != 0
    && forall j :: 0 <= j < i ==> draws[j] == 0
  }

  /**
   * encrypt(pub, m): redraws the blinding value r while it is zero, then
   * encrypts with it. The draws are the successive results of
   * mpz_random(state, n), each in [0, n).
   */
  method Encrypt(pub: PublicKey, m: nat, draws: seq<int>) returns (c: int)
    requires pub.Valid()
    requires forall i :: 0 <= i < |draws| ==> 0 <= draws[i] < pub.n
    requires exists i :: 0 <= i < |draws| && draws[i] != 0
    ensures 0 <= c < pub.n_sq
    ensures exists i :: FirstNonZero(draws, i) && 0 < draws[i] < pub.n && c == EncryptWith(pub, m, draws[i])
  {
    var i := 0;
    var r := draws[0];
    while r == 0
      invariant 0 <= i < |draws| && r == draws[i]
      invariant forall j :: 0 <= j < i ==> draws[j] == 0
      invariant exists k :: i <= k < |draws| && draws[k] != 0
      decreases |draws| - i
    {
      i := i + 1;
      r := draws[i];
    }
    assert FirstNonZero(draws, i);
    c := EncryptWith(pub, m, r);
  }

  /** The draw at index i is the first one coprime to n. */
  ghost predicate FirstCoprime(draws: seq<int>, n: int, i: int) {
    && 0 <= i < |draws|
    && Coprime(draws[i], n)
    && forall j :: 0 <= j < i ==> !Coprime(draws[j], n)
  }

  /**
   * encrypt with the redraw condition the scheme needs: r is redrawn until it
   * is coprime to n (which also excludes r == 0), so that every ciphertext
   * decrypts to its plaintext.
   */
  method EncryptCoprime(pub: PublicKey, m: nat, draws: seq<int>) returns (c: int)
    requires pub.Valid() && pub.n > 1
    requires forall i :: 0 <= i < |draws| ==> 0 <= draws[i] < pub.n
    requires exists i :: 0 <= i < |draws| && Coprime(draws[i], pub.n)
    ensures 0 <= c < pub.n_sq
    ensures exists i :: FirstCoprime(draws, pub.n, i) && 0 < draws[i] < pub.n && c == EncryptWith(pub, m, draws[i])
  {
    var i := 0;
    var r := draws[0];
    ExtGcdCoprime(r, pub.n);
    while ExtGcd(r, pub.n).0 != 1
      invariant 0 <= i < |draws| && r == draws[i]
      invariant ExtGcd(r, pub.n).0 == 1 <==> Coprime(r, pub.n)
      invariant forall j :: 0 <= j < i ==> !Coprime(draws[j], pub.n)
      invariant exists k :: i <= k < |draws| && Coprime(draws[k], pub.n)
      decreases |draws| - i
    {
      i := i + 1;
      r := draws[i];
      ExtGcdCoprime(r, pub.n);
    }
    assert FirstCoprime(draws, pub.n, i);
    ZeroNotCoprime(pub.n);
    c := EncryptWith(pub, m, r);
  }

  /** decrypt(priv, pub, c): m = L(c^lambda mod n^2) * mu mod n, with L(u) = (u - 1) div n. */
  function Decrypt(priv: PrivateKey, pub: PublicKey, c: int): (m: int)
    requires pub.Valid() && pub.n > 0 && priv.l >= 0
    ensures 0 <= m < pub.n
  {
    var x := PowMod(c, priv.l, pub.n_sq) - 1;
    var y := FloorDiv(x, pub.n);
    var z := y * priv.mu;
    FloorMod(z, pub.n)
  }

  /** add_m(a, b): the plain sum, the reference for the homomorphic product. */
  function AddM(a: int, b: int): int {
    a + b
  }

  /** mul_c(pub, a, b): the product of two ciphertexts modulo n^2. */
  function MulC(pub: PublicKey, a: int, b: int): (c: int)
    requires pub.Valid() && pub.n > 0
    ensures 0 <= c < pub.n_sq
  {
    FloorMod(a * b, pub.n_sq)
  }
}
