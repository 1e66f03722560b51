# Paillier cryptosystem (Paillier_Implementation2.py)

A Dafny model of a small Paillier implementation built on gmpy2, with the
generator g = n + 1. It has these parts:

- a private key (lambda = (p-1)(q-1) and mu = lambda^-1 mod n);
- a public key (n, n^2 and g);
- key generation from two distinct random primes of the same bit length;
- randomised encryption c = g^m * r^n mod n^2;
- decryption m = L(c^lambda mod n^2) * mu mod n, where L(u) = (u - 1) div n;
- the homomorphic operations: mul_c multiplies ciphertexts and add_m adds
  plaintexts.

Modules:

- `Arith`: integer powers, `PowMod` (gmpy2.powmod, by repeated squaring),
  `FloorDiv` and `FloorMod` (gmpy2.f_div and gmpy2.f_mod), and facts about
  remainders and powers.
- `NumberTheory`: divisibility, coprimality and primality, the extended
  Euclidean algorithm, `Invert` (gmpy2.invert), Euclid's lemma, binomial
  coefficients and Fermat's little theorem. It ends with the Euler-type
  fact every Paillier proof rests on: t^(n*lambda) == 1 modulo n^2 for t
  coprime to n = p*q. The proof goes through the binomial theorem, lifting
  to prime squares, and the Chinese remainder step.
- `Paillier`: the key records and the operations of the program.
- `PaillierLaws`: the promises of the scheme, proved of the model. These
  are the decryption round trip, the homomorphic law checked by the
  program's driver, and the algebra of mul_c.

Randomness becomes input:

- `getPrime` and `mpz_random` are replaced by sequences of draws supplied
  by the caller.
- `GenerateKeypair` and `Encrypt` keep the program's redraw `while` loops
  over those draws: p and q are redrawn while they are equal, and r while
  it is zero.
- `EncryptCoprime` is the corrected encryption (see Findings). Its loop
  redraws r while gcd(r, n) != 1, which is not the program's condition.
- gmpy2's `invert` raises when there is no inverse. The model returns
  `Err(NoInverse)` in that case.

Paillier's scheme with g = n + 1 is often stated as if lambda were always
coprime to n for distinct primes p and q. The code relies on this, since `invert` raises
otherwise. The claim is false in general: for p = 3, q = 7, lambda = 12
and n = 21 share the factor 3. The model follows the code, and key
construction fails there. The same happens for p = 2, q = 3
(`TwoAndThreeHaveNoKey`). generate_keypair never reaches either pair,
because getPrime's primes have equal bit length and are odd. getPrime
(Crypto.Util.number) is not part of this model. It sets the lowest bit of
every candidate, so `PrimeOfBits` includes oddness. This gives two results:

- with 3 or more bits, key generation always succeeds (`GenerateKeypair`);
- with 2 bits, getPrime always returns 3. Every draw is then (3, 3), and
  generate_keypair(2) never leaves its loop at lines 33-35
  (`TwoBitKeygenNeverExits`). No sequence of draws meets
  `GenerateKeypair`'s requires for 2 bits.

## Model

| member | source | states |
|---|---|---|
| Paillier.NewPublicKey | Paillier_Implementation2.py:20-23 | the public key holds n, n_sq = n^2 and g = n + 1 |
| Paillier.NewPrivateKey | Paillier_Implementation2.py:11-13 | lambda = (p-1)(q-1); the key exists exactly when lambda is coprime to n, and then 0 <= mu < n and lambda*mu == 1 mod n |
| NumberTheory.Invert | Paillier_Implementation2.py:13 | gmpy2.invert: returns an inverse in [0, m) exactly when a is coprime to m; otherwise no x at all has a*x == 1 mod m |
| NumberTheory.ExtGcd | Paillier_Implementation2.py:13 | the Bezout identity a*x + b*y == g, and g divides a and b |
| Paillier.KeypairFrom | Paillier_Implementation2.py:37-38 | n = p*q and both keys are built from it; it succeeds exactly when lambda is coprime to n, and the keys then form a valid key pair |
| Paillier.GenerateKeypair | Paillier_Implementation2.py:29-38 | the result is the keys of the first draw of two distinct primes; it always succeeds for primes of 3 or more bits |
| Paillier.SameSizePrimesCoprime | Paillier_Implementation2.py:29-37 | two distinct primes of the same bit length, at least 3 bits, give lambda coprime to n |
| Paillier.TwoBitDrawsEqual | Paillier_Implementation2.py:30-31 | the only odd 2-bit prime is 3, so both primes of a 2-bit draw are 3 |
| Paillier.TwoBitKeygenNeverExits | Paillier_Implementation2.py:33-35 | for 2 bits no draw has p != q, so the redraw loop never exits |
| Paillier.TwoAndThreeHaveNoKey | Paillier_Implementation2.py:11-13 | for the distinct primes 2 and 3, lambda = 2 shares the factor 2 with n = 6, so key construction raises |
| Arith.PowMod | Paillier_Implementation2.py:49-50 | gmpy2.powmod: the result is b^e mod m, in [0, m) |
| Arith.FloorDiv | Paillier_Implementation2.py:58 | gmpy2.f_div for a positive divisor: b*r <= a < b*r + b |
| Arith.FloorMod | Paillier_Implementation2.py:51 | gmpy2.f_mod for a positive modulus: a remainder in [0, b) with a == b*f_div(a, b) + r |
| Paillier.EncryptWith | Paillier_Implementation2.py:49-51 | the arithmetic of encrypt: c = g^m * r^n reduced modulo n^2, in [0, n^2); EncryptForm states the form |
| Paillier.Encrypt | Paillier_Implementation2.py:41-52 | the ciphertext is in [0, n^2) and is the encryption of m with the first non-zero draw of r |
| Paillier.EncryptCoprime | Paillier_Implementation2.py:41-52 | with r redrawn until it is coprime to n, the ciphertext is the encryption of m with the first draw coprime to n |
| PaillierLaws.GeneratorPower | Paillier_Implementation2.py:50 | because g = n + 1, g^m mod n^2 == 1 + m*n mod n^2 |
| PaillierLaws.EncryptForm | Paillier_Implementation2.py:49-51 | a ciphertext is g^m * r^n mod n^2 |
| Paillier.Decrypt | Paillier_Implementation2.py:55-63 | the plaintext is in [0, n) |
| PaillierLaws.DecryptBlinded | Paillier_Implementation2.py:55-63 | decrypting g^k * t^n mod n^2 gives k mod n, for t coprime to n |
| PaillierLaws.LFunction | Paillier_Implementation2.py:57-58 | the L function recovers e mod n from 1 + e*n mod n^2 |
| PaillierLaws.CancelLambda | Paillier_Implementation2.py:59-61 | multiplying by mu cancels lambda modulo n |
| PaillierLaws.CiphertextToLambda | Paillier_Implementation2.py:57 | for c = g^k * t^n, c^lambda mod n^2 == 1 + k*lambda*n mod n^2 |
| NumberTheory.EulerSquare | Paillier_Implementation2.py:57 | t^(n*lambda) == 1 mod n^2 for t coprime to n = p*q |
| NumberTheory.Fermat | Paillier_Implementation2.py:57 | a^(p-1) == 1 mod p for a prime p not dividing a |
| PaillierLaws.DecryptEncrypt | Paillier_Implementation2.py:41-63 | decrypt(encrypt(m)) == m for every m in [0, n), for keys of two distinct primes and r coprime to n |
| PaillierLaws.EncryptThenDecrypt | Paillier_Implementation2.py:41-63 | encrypting with r redrawn until it is coprime to n, then decrypting, gives back every plaintext m in [0, n) |
| Paillier.AddM | Paillier_Implementation2.py:66-67 | the plain sum of two plaintexts; HomomorphicAdd relates it to mul_c |
| Paillier.MulC | Paillier_Implementation2.py:70-71 | the product ciphertext is in [0, n^2) |
| PaillierLaws.MulCForm | Paillier_Implementation2.py:70-71 | mul_c of two ciphertexts is g^(m1+m2) * (r1*r2)^n mod n^2 |
| PaillierLaws.MulCEncrypts | Paillier_Implementation2.py:70-71 | mul_c of the encryptions of m1 and m2 is the encryption of m1 + m2 with blinding value r1*r2 mod n |
| PaillierLaws.MulCCommutes | Paillier_Implementation2.py:70-71 | mul_c(a, b) == mul_c(b, a) |
| PaillierLaws.MulCAssociates | Paillier_Implementation2.py:70-71 | mul_c is associative |
| PaillierLaws.HomomorphicAdd | Paillier_Implementation2.py:83-88 | decrypt(mul_c(encrypt(m1), encrypt(m2))) == add_m(m1, m2) mod n, and == add_m(m1, m2) when m1 + m2 < n |
| PaillierLaws.RoundTripExample | Paillier_Implementation2.py:41-63 | for the key of p = 3, q = 5 and a blinding value coprime to n, decrypt(encrypt(7)) == 7 |
| PaillierLaws.BlindingSharingAFactor | Paillier_Implementation2.py:46-47 | for p = 3, q = 5 the first draw r = 3 is accepted although it shares a factor with n; the encryption of 0 then decrypts to 1 |

## Left out

- Randomness: getPrime, random_state and mpz_random are not modelled. Their
  results are supplied draw sequences. Each method requires that some draw
  ends its loop, so the model does not say how likely a redraw is.
- GenerateKeypair: for 2 bits the program loops forever. A method over a
  finite draw sequence cannot, so its requires cannot be met for 2 bits,
  and TwoBitKeygenNeverExits states the non-termination instead.
- getPrime with fewer than 2 bits raises in Crypto.Util.number. This is
  not modelled; no draw meets `PrimeOfBits` for 1 bit.
- int_time and the clock seed of the random state are not modelled. They
  only seed the draws.
- `__repr__`, the printing of keys and results, and the module-level driver
  are not modelled as code. The driver's check is stated as HomomorphicAdd.
- The driver calls `add_m(pub, m1, m2)` with three arguments, which raises
  a TypeError in Python before anything is compared. AddM models the
  two-argument function that is defined.
- AddM: has no contract of its own. It is the plain sum, and HomomorphicAdd
  states its relation to mul_c.
- Older gmpy2 versions (before 2.1) return 0 from invert instead of raising
  when there is no inverse. The model follows the raising behaviour.
- Decrypt: requires lambda >= 0 and n > 0. For a negative exponent,
  gmpy2.powmod would compute a modular inverse first, and this is not
  modelled. A zero modulus makes gmpy2 raise. Neither can come from
  generate_keypair.
- MulC: requires a well-formed public key with n > 0, for the same reason.
- Paillier.EncryptWith: requires 0 < r < n, which is what the redraw loop
  of encrypt guarantees.
- DecryptEncrypt and HomomorphicAdd: require r coprime to n, which the
  code does not ensure (see Findings).
- Scalar multiplication of a ciphertext by a constant is not modelled,
  because the program has no such function.
- Semantic security and the hardness of factoring n are not stated.

## Findings

| source | as written | input that shows it | evidently intended | confidence | as-written member | corrected member |
|---|---|---|---|---|---|---|
| Paillier_Implementation2.py:46-47 | encrypt redraws r only while r == 0, so it accepts an r that shares a prime factor with n | p = 3, q = 5 (lambda = 8, mu = 2, n = 15), m = 0, r = 3: c = 207, and decrypt(c) = 1 instead of 0 | redraw r until gcd(r, n) == 1, after which decrypt(encrypt(m)) == m for every m in [0, n) | not executed | PaillierLaws.BlindingSharingAFactor | Paillier.EncryptCoprime |
