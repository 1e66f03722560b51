/**
 * What the Paillier code promises, proved of the model: the shape of a
 * ciphertext, the decryption round trip, and the homomorphic law that the
 * product of two ciphertexts (mul_c) decrypts to the sum of their
 * plaintexts (add_m).
 *
 * The blinding value r of every encryption is assumed coprime to n. The
 * code only excludes r == 0; BlindingSharingAFactor shows a key and a
 * blinding value for which the round trip then fails.
 */
module PaillierLaws {
  import opened Arith
  import opened NumberTheory
  import opened Paillier

  /** Because g = n + 1, the term g^m mod n^2 of encrypt equals 1 + m*n mod n^2. */
  lemma GeneratorPower(pub: PublicKey, m: nat)
    requires pub.Valid() && pub.n > 0
    ensures PowMod(pub.g, m, pub.n_sq) == (1 + m * pub.n) % pub.n_sq
  {
    PowOnePlusMultiple(1, pub.n, m);
    assert 1 + 1 * pub.n == pub.g;
  }

  /** A ciphertext is g^m * r^n reduced modulo n^2. */
  lemma EncryptForm(pub: PublicKey, m: nat, r: int)
    requires pub.Valid() && 0 < r < pub.n
    ensures EncryptWith(pub, m, r) == (Pow(pub.g, m) * Pow(r, pub.n)) % pub.n_sq
  {
    ModMul(Pow(pub.g, m), Pow(r, pub.n), pub.n_sq);
  }

  /** mul_c of two ciphertexts in that form multiplies the powers of g and the blinding values. */
  lemma MulCForm(pub: PublicKey, m1: nat, m2: nat, r1: int, r2: int)
    requires pub.Valid() && 0 < r1 < pub.n && 0 < r2 < pub.n
    ensures MulC(pub, EncryptWith(pub, m1, r1), EncryptWith(pub, m2, r2))
         == (Pow(pub.g, m1 + m2) * Pow(r1 * r2, pub.n)) % pub.n_sq
  {
    var nn := pub.n_sq;
    var a, b := Pow(pub.g, m1) * Pow(r1, pub.n), Pow(pub.g, m2) * Pow(r2, pub.n);
    EncryptForm(pub, m1, r1);
    EncryptForm(pub, m2, r2);
    ModMul(a, b, nn);
    PowAdd(pub.g, m1, m2);
    PowMulBase(r1, r2, pub.n);
    Interchange(Pow(pub.g, m1), Pow(r1, pub.n), Pow(pub.g, m2), Pow(r2, pub.n));
  }

  /**
   * The decryption of any g^k * t^n modulo n^2, for t coprime to n, is k mod n:
   * t^n raised to lambda is 1 modulo n^2, and L strips the power of g down to
   * k * lambda mod n, which mu cancels.
   */
  lemma DecryptBlinded(priv: PrivateKey, pub: PublicKey, p: nat, q: nat, k: nat, t: int)
    requires IsPrime(p) && IsPrime(q) && p != q && KeypairOf(priv, pub, p, q)
    requires Coprime(t, pub.n)
    ensures priv.l >= 0 && pub.n > 0
    ensures Decrypt(priv, pub, (Pow(pub.g, k) * Pow(t, pub.n)) % pub.n_sq) == k % pub.n
  {
    var n, nn, l := pub.n, pub.n_sq, priv.l;
    var c := (Pow(pub.g, k) * Pow(t, n)) % nn;
    var u := PowMod(c, l, nn);
    CiphertextToLambda(priv, pub, p, q, k, t);
    assert u == (1 + (k * l) * n) % nn;
    var s := (k * l) % n;
    LFunction(n, k * l);
    assert u == 1 + s * n;
    ModUnique(s * n, n, s, 0);
    assert FloorDiv(u - 1, n) == s;
    CancelLambda(n, k, l, priv.mu);
  }

  /** c^lambda for c = g^k * t^n: the blinding vanishes and g^(k*lambda) is 1 + k*lambda*n. */
  lemma CiphertextToLambda(priv: PrivateKey, pub: PublicKey, p: nat, q: nat, k: nat, t: int)
    requires IsPrime(p) && IsPrime(q) && p != q && KeypairOf(priv, pub, p, q)
    requires Coprime(t, pub.n)
    requires priv.l >= 0 && pub.n > 0
    ensures PowMod((Pow(pub.g, k) * Pow(t, pub.n)) % pub.n_sq, priv.l, pub.n_sq)
         == (1 + (k * priv.l) * pub.n) % pub.n_sq
  {
    var n, nn, l := pub.n, pub.n_sq, priv.l;
    var gk, tn := Pow(pub.g, k), Pow(t, n);
    PowModBase(gk * tn, l, nn);
    PowMulBase(gk, tn, l);
    PowPow(pub.g, k, l);
    PowPow(t, n, l);
    assert Pow(t, n * l) % nn == 1 by {
      EulerSquare(p, q, t);
    }
    assert Pow(pub.g, k * l) % nn == (1 + (k * l) * n) % nn by {
      PowOnePlusMultiple(1, n, k * l);
      assert 1 + 1 * n == pub.g;
      assert (k * l) * 1 * n == (k * l) * n;
    }
    ModMul(Pow(pub.g, k * l), Pow(t, n * l), nn);
    ModMod(1 + (k * l) * n, nn);
  }

  /** The L function recovers e mod n from 1 + e*n reduced modulo n^2. */
  lemma LFunction(n: int, e: int)
    requires n > 1
    ensures (1 + e * n) % (n * n) == 1 + (e % n) * n
  {
    var q, s := e / n, e % n;
    LiftQuotient(n, e, q, s);
    LiftedRemainderBound(n, s);
    ModUnique(1 + e * n, n * n, q, 1 + s * n);
  }

  lemma LiftQuotient(n: int, e: int, q: int, s: int)
    requires e == q * n + s
    ensures 1 + e * n == (n * n) * q + (1 + s * n)
  {
  }

  lemma LiftedRemainderBound(n: int, s: int)
    requires n > 1 && 0 <= s < n
    ensures 0 <= 1 + s * n < n * n
  {
    var d := n - 1 - s;
    assert s * n >= 0;
    assert d * n >= 0;
    assert d * n == n * n - n - s * n;
  }

  /** mu undoes the factor lambda: (k*lambda mod n) * mu == k modulo n. */
  lemma CancelLambda(n: int, k: int, l: int, mu: int)
    requires n > 1 && (l * mu) % n == 1
    ensures (((k * l) % n) * mu) % n == k % n
  {
    ModMulLeft(k * l, mu, n);
    assert (k * l) * mu == k * (l * mu);
    ModMul(k, l * mu, n);
    ModMul(k, 1, n);
    ModUnique(1, n, 0, 1);
  }

  /** decrypt(encrypt(m)) == m for every plaintext m in [0, n) and blinding value coprime to n. */
  lemma DecryptEncrypt(priv: PrivateKey, pub: PublicKey, p: nat, q: nat, m: nat, r: int)
    requires IsPrime(p) && IsPrime(q) && p != q && KeypairFrom(p, q) == Ok((priv, pub))
    requires m < pub.n && 0 < r < pub.n && Coprime(r, pub.n)
    ensures Decrypt(priv, pub, EncryptWith(pub, m, r)) == m
  {
    EncryptForm(pub, m, r);
    DecryptBlinded(priv, pub, p, q, m, r);
    ModUnique(m, pub.n, 0, m);
  }

  /**
   * Encryption with r redrawn until it is coprime to n, followed by
   * decryption, returns the plaintext for every draw sequence.
   */
  method EncryptThenDecrypt(priv: PrivateKey, pub: PublicKey, p: nat, q: nat, m: nat, draws: seq<int>)
    returns (c: int, back: int)
    requires IsPrime(p) && IsPrime(q) && p != q && KeypairFrom(p, q) == Ok((priv, pub))
    requires m < pub.n
    requires forall i :: 0 <= i < |draws| ==> 0 <= draws[i] < pub.n
    requires exists i :: 0 <= i < |draws| && Coprime(draws[i], pub.n)
    ensures 0 <= c < pub.n_sq
    ensures back == m
  {
    c := EncryptCoprime(pub, m, draws);
    ghost var i :| FirstCoprime(draws, pub.n, i) && 0 < draws[i] < pub.n && c == EncryptWith(pub, m, draws[i]);
    DecryptEncrypt(priv, pub, p, q, m, draws[i]);
    back := Decrypt(priv, pub, c);
  }

  /**
   * The homomorphic law: mul_c of the encryptions of m1 and m2 decrypts to
   * (m1 + m2) mod n, which is add_m(m1, m2) whenever the sum stays below n.
   */
  lemma HomomorphicAdd(priv: PrivateKey, pub: PublicKey, p: nat, q: nat, m1: nat, m2: nat, r1: int, r2: int)
    requires IsPrime(p) && IsPrime(q) && p != q && KeypairFrom(p, q) == Ok((priv, pub))
    requires 0 < r1 < pub.n && Coprime(r1, pub.n)
    requires 0 < r2 < pub.n && Coprime(r2, pub.n)
    ensures Decrypt(priv, pub, MulC(pub, EncryptWith(pub, m1, r1), EncryptWith(pub, m2, r2))) == AddM(m1, m2) % pub.n
    ensures m1 + m2 < pub.n ==> Decrypt(priv, pub, MulC(pub, EncryptWith(pub, m1, r1), EncryptWith(pub, m2, r2))) == AddM(m1, m2)
  {
    MulCForm(pub, m1, m2, r1, r2);
    BlindingProductCoprime(pub.n, r1, r2);
    DecryptBlinded(priv, pub, p, q, m1 + m2, r1 * r2);
    if m1 + m2 < pub.n {
      ModUnique(m1 + m2, pub.n, 0, m1 + m2);
    }
  }

  lemma BlindingProductCoprime(n: int, r1: int, r2: int)
    requires r1 > 0 && r2 > 0 && Coprime(r1, n) && Coprime(r2, n)
    ensures Coprime(r1 * r2, n)
  {
    CoprimeSymmetric(r1, n);
    CoprimeSymmetric(r2, n);
    CoprimeMul(n, r1, r2);
    CoprimeSymmetric(n, r1 * r2);
  }

  /**
   * mul_c of two ciphertexts is itself an encryption of the sum of the
   * plaintexts, blinded by the product of the blinding values modulo n.
   */
  lemma MulCEncrypts(pub: PublicKey, m1: nat, m2: nat, r1: int, r2: int)
    requires pub.Valid() && 0 < r1 < pub.n && 0 < r2 < pub.n
    requires Coprime(r1, pub.n) && Coprime(r2, pub.n)
    ensures 0 < (r1 * r2) % pub.n < pub.n
    ensures MulC(pub, EncryptWith(pub, m1, r1), EncryptWith(pub, m2, r2)) == EncryptWith(pub, m1 + m2, (r1 * r2) % pub.n)
  {
    var n, nn := pub.n, pub.n_sq;
    var r := (r1 * r2) % n;
    BlindingProductCoprime(n, r1, r2);
    if r == 0 {
      DividesByWitness(n, r1 * r2, (r1 * r2) / n);
      DividesSelf(n);
      assert false;
    }
    MulCForm(pub, m1, m2, r1, r2);
    EncryptForm(pub, m1 + m2, r);
    PowModulusSquare(r1 * r2, n);
    var gm := Pow(pub.g, m1 + m2);
    ModMul(gm, Pow(r1 * r2, n), nn);
    ModMul(gm, Pow(r, n), nn);
  }

  /** mul_c does not depend on the order of its ciphertexts. */
  lemma MulCCommutes(pub: PublicKey, a: int, b: int)
    requires pub.Valid() && pub.n > 0
    ensures MulC(pub, a, b) == MulC(pub, b, a)
  {
  }

  /** mul_c is associative, so a chain of products does not depend on the grouping. */
  lemma MulCAssociates(pub: PublicKey, a: int, b: int, c: int)
    requires pub.Valid() && pub.n > 0
    ensures MulC(pub, MulC(pub, a, b), c) == MulC(pub, a, MulC(pub, b, c))
  {
    var nn := pub.n_sq;
    var ab, bc := a * b, b * c;
    assert MulC(pub, MulC(pub, a, b), c) == ((ab % nn) * c) % nn;
    assert MulC(pub, a, MulC(pub, b, c)) == ((bc % nn) * a) % nn by {
      assert a * (bc % nn) == (bc % nn) * a;
    }
    ModMulLeft(ab, c, nn);
    ModMulLeft(bc, a, nn);
    MulRotate(a, b, c);
  }

  lemma MulRotate(a: int, b: int, c: int)
    ensures (a * b) * c == (b * c) * a
  {
  }

  /**
   * The blinding value is only checked against zero. For p = 3 and q = 5
   * the key is lambda = 8, mu = 2, n = 15, and the first draw 3 is accepted
   * although it shares the factor 3 with n: encrypting 0 with it gives 207,
   * which decrypts to 1. A redraw until r is coprime to n rejects it.
   */
  lemma BlindingSharingAFactor()
    ensures KeypairFrom(3, 5) == Ok((PrivateKey(8, 2), PublicKey(15, 225, 16)))
    ensures FirstNonZero([3], 0) && !Coprime(3, 15)
    ensures EncryptWith(PublicKey(15, 225, 16), 0, 3) == 207
    ensures Decrypt(PrivateKey(8, 2), PublicKey(15, 225, 16), 207) == 1
  {
    var pub := PublicKey(15, 225, 16);
    InverseCoprime(8, 2, 15);
    var keys := KeypairFrom(3, 5);
    var mu := keys.value.0.mu;
    assert (8 * mu) % 15 == 1 && 0 <= mu < 15;
    assert mu == 2 by {
      ModMul(8 * mu, 2, 15);
      assert (8 * mu) * 2 == mu + 15 * mu;
      ModAddMultiple(mu, mu, 15);
    }
    DividesSelf(3);
    DividesByWitness(3, 15, 5);
    assert PowMod(3, 15, 225) == 207 by {
      assert PowMod(3, 1, 225) == 3;
      assert PowMod(3, 3, 225) == 27;
      assert PowMod(3, 7, 225) == 162;
    }
    assert PowMod(207, 8, 225) == 126 by {
      assert PowMod(207, 1, 225) == 207;
      assert PowMod(207, 2, 225) == 99;
      assert PowMod(207, 4, 225) == 126;
    }
  }

  /**
   * The round trip on the key of p = 3, q = 5 with the blinding value 2,
   * which is coprime to 15: the plaintext 7 comes back.
   */
  lemma RoundTripExample()
    ensures KeypairFrom(3, 5) == Ok((PrivateKey(8, 2), PublicKey(15, 225, 16)))
    ensures Decrypt(PrivateKey(8, 2), PublicKey(15, 225, 16), EncryptWith(PublicKey(15, 225, 16), 7, 2)) == 7
  {
    BlindingSharingAFactor();
    assert IsPrime(3) && IsPrime(5);
    BezoutCoprime(2, 15, 8, -1);
    DecryptEncrypt(PrivateKey(8, 2), PublicKey(15, 225, 16), 3, 5, 7, 2);
  }
}
