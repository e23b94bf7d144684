# A verified model of HEU's homomorphic encryption core

HEU encrypts numbers so that others can add and scale them without seeing them. This project models, in
Dafny, the parts of HEU where an error would silently give a wrong number, and proves that they do not:

* the number-theoretic cryptosystems of `heu/library/algorithms/dj`, `heu/algorithms/paillier_zahlen`,
  `heu/algorithms/ou` and `heu/library/algorithms/dgk`: key tables, encryption, the homomorphic evaluator
  and decryption, and the mutex-protected H^r cache;
* the lattice code of `heu/experimental/gemini-rlwe`: modulus switching between Z_Q in residues and Z_2^k,
  LWE extraction, the lazily reduced LWE accumulator, tiled matrix-vector products, decryption and
  conversion to additive shares;
* two imperative algorithms of the Python binding: breadth-first tree prediction and chunk-parallel,
  feature-wise bucket sums.

The main results speak about whole computations: every finite expression over ciphertexts decrypts to the
centred residue of its plaintext value, and its word is exactly the product of the powers of
the two public bases that its steps add up to (four schemes); every sequence of accumulator operations, calls that
throw included, stays inside its 64-bit budget and holds the exact signed sum of what was added; every
interleaving of threads over the H^r cache returns powers of H; decrypting the tiled product of a matrix and
an encrypted vector gives the plain product modulo 2^k under an explicit noise bound.

## How it is built

Objects whose methods update fields are classes, tables and buffers are filled by loops with invariants, and
each such method is proved against a specification function or a relation about which the lemmas reason.
Congruence is an existential quotient (`Arith.Cong`), invertibility an existential inverse (`Arith.Unit`).

* `Arith`, `NumberTheory`: congruences, Chinese remaindering, the binomial series for negative exponents,
  Fermat, lifting to prime powers.
* `BigNum`: big-integer operations (non-negative residues, inverse for negative exponents, division toward
  zero) and the Montgomery space x -> x*R mod M.
* `Encryption`, `Stored`, `Lifting`, `Dj*`, `Paillier*`: the Damgard-Jurik and Paillier schemes share what
  "c encrypts x" means: c = (1+n)^x * y^(n^s) modulo n^(s+1) for some unit y.
* `Powers`: what every word of a computation is made of, value exponent and noise exponent together.
* `OuCipher`, `OuScheme`, `HrCache`, `DgkCipher`, `DgkScheme`: here a ciphertext of x is a number
  whose secret power is the x-th power of a known element.
* `Rns`, `Rounding`, `TwoAdic`, `ModSwitch`, `ModSwitchHelper`, `UpWrap`: modulus switching.
* `Negacyclic`, `LweWords`, `LweSample`, `LweCt`, `LweRun`, `Sharing`: LWE ciphertexts and shares.
* `PolyEncoder`, `MatVec`, `MatVecProtocol`, `MatVecCorrect`: the matrix-vector protocol.
* `TreePaths`, `TreePredict`, `BucketSum`: the Python binding's algorithms.

`dafny verify dfyconfig.toml` checks everything.

## What the proofs found

The code is modelled as written. Where it differs from its comments, or where a promise holds only under a
condition, the condition is proved:

* In the Damgard-Jurik and Paillier generators lambda is invertible if and only if neither prime is 1 modulo the
  other (`DjKeys.LambdaInvertible`). It is the equal size of the two primes that guarantees this, so the generators
  never fail here (`DjKeys.GeneratedKeysWork`); the test gcd(p-1, q-1) = 2 only keeps the primes distinct and would
  not do alone (`DjKeys.GcdTestAlone`).
* The Okamoto-Uchiyama generator repeats its draw of g while `check != 1`; `check` is always 1. The inverse
  taken next exists if and only if g^(p-1) is not 1 modulo p^2 (`OuCipher.LogOfGenerator`), and g = 1 shows
  that the loop does not ensure it.
* The Okamoto-Uchiyama generator tests g' modulo p only. If q divides g', H has no inverse: everything still
  decrypts, but a ciphertext made with a power of H cannot be negated (`OuScheme.GenPkSk`, `OuScheme.FreshUnit`).
* The DGK generator checks wq against vp but not against u, and its loops accept gp = 0 and gq = 0. If u divides wq,
  g^vp is 1 modulo p and every message decrypts to 0. If gp is 0, g^vp is 0 and every message decrypts to 1, but for
  message 0 without noise. So a message other than 0 and 1 comes back if and only if p does not divide gp and u does
  not divide wq (`DgkScheme.GeneratedRoundTrip`). If only gq is 0, messages come back, but g has no inverse and
  ciphertexts cannot be scaled by negative numbers (`DgkScheme.Generate`, `DgkScheme.FreshUnit`).
* `PowModNSquareCrt` reduces its exponent modulo p(p-1) and q(q-1). It computes the power for all exponents if
  and only if the base is coprime to n (`PaillierKeys.SecretKey.PowModNSquareCrtDomain`).
* The modulus-up word sum u + v is not reduced before it is stored: it is right if and only if it fits the
  word (`ModSwitchHelper.Helper.UpExact`). With 64-bit plaintexts and two 60-bit primes that SEAL accepts at ring
  degree 4096, the word 2^64 - 1 is scaled wrongly for both primes (`UpWrap.WrongWords`).
* `DoBackward` means to mask -v[i] to k bits; the test (`heu/experimental/gemini-rlwe/poly_encoder.cc:69`)
  asks for a word narrower than k, which never happens, so the reversed words are residues modulo the word
  size. They are still right modulo 2^k (`PolyEncoder.BackwardIsReversed`).
* `CenteralizeAt` is documented as mapping to [-2^(k-1), 2^(k-1)); it keeps 2^(k-1) positive.
* The comment at `heu/experimental/gemini-rlwe/lwe_decryptor.cc:65` gives 2 to 32 bits to 32-bit words; the
  comparison of bit_ceil with 32 accepts 17 to 32.
* Modulus-down rounds t*x/Q to the nearest integer or one below it. With f = t*x mod Q it is the nearest if and only
  if 2f < Q or floor(gamma*f/Q) less the overshoot of the base conversion exceeds gamma/2 (`ModSwitch.DownNearest`).
  As soon as Q exceeds gamma some x in [0, Q) comes out one too small (`ModSwitch.DownMisses`).
* `DoH2A` throws when the mask's modulus-down is 2^k - 1, after it has masked the ciphertext.
* `AddPlainInplace` and `SubPlainInplace` throw at the first word out of range, after the constants of the
  moduli before it have changed.

## Model

| member | source | states |
|---|---|---|
| `DjPublicKey.PublicKey.Init` | heu/library/algorithms/dj/public_key.cc:23-55 | sets every field and both tables so that `n_pow[i]` is n^i and `precomp[i]` stores n^i/i! modulo n^(s+1); fails exactly when an index up to s has no inverse; a zero `hs` becomes (-x^2)^(n^s) modulo n^(s+1), any other is taken as it is, and the key is valid exactly when that encrypts zero |
| `DjPublicKey.FreshNoise` | heu/library/algorithms/dj/public_key.cc:31-39 | the generated hs is an encryption of zero whatever unit x was drawn |
| `Powers.PowLift` | heu/library/algorithms/dj/public_key.cc:36-38 | bases equal modulo n have n^s-th powers equal modulo n^(s+1), so reducing x^2 modulo n first changes nothing |
| `DjPublicKey.PublicKey.Encrypt` | heu/library/algorithms/dj/public_key.cc:76-84 | the loop over falling factorials with shrinking moduli returns exactly the stored form of (1+n)^m modulo n^(s+1), for every integer m and every s whose numbers 1..s are units modulo n |
| `DjPublicKey.TermStored` | heu/library/algorithms/dj/public_key.cc:79-81 | a falling factorial known only modulo n^(s-i+1) still gives the i-th binomial term modulo n^(s+1) |
| `NumberTheory.SeriesIsPower` | heu/library/algorithms/dj/public_key.cc:76-84 | the sum of the first s+1 binomial terms equals (1+x)^m modulo x^(s+1) for every integer m, negative included |
| `DjPublicKey.PublicKey.RandomHsR` | heu/library/algorithms/dj/public_key.cc:70-74 | hs^r, exactly, and so a stored encryption of zero, for every r |
| `DjSecretKey.SecretKey.Init` | heu/library/algorithms/dj/secret_key.cc:19-35 | establishes the key invariant: powers of p and q, lambda with its inverse modulo n^s, the remaindering constants |
| `DjSecretKey.SecretKey.InitFactors` | heu/library/algorithms/dj/secret_key.cc:36-50 | every table entry read later is n^(i-1)/i! modulo p^s and modulo q^s |
| `DjSecretKey.NextFactor` | heu/library/algorithms/dj/secret_key.cc:45-48 | one table step turns n^(i-2)/(i-1)! into n^(i-1)/i! |
| `DjSecretKey.SecretKey.LogResidues` | heu/library/algorithms/dj/secret_key.cc:66-73 | for every ciphertext of x the two residues are the logarithm series of x*lambda modulo p^s and q^s |
| `Lifting.TakeLog` | heu/library/algorithms/dj/secret_key.cc:69-73 | from ct^lambda = (1+n)^e the division by p and multiplication by 1/q leave the logarithm series of e modulo p^s |
| `Lifting.FirstDigit` | heu/library/algorithms/dj/secret_key.cc:75 | the first index is the exponent modulo p |
| `Lifting.RoundStart` | heu/library/algorithms/dj/secret_key.cc:79-81 | a round starts from the loop invariant of the inner loop |
| `Lifting.RoundStep` | heu/library/algorithms/dj/secret_key.cc:82-87 | one inner step, with its shrinking modulus, removes exactly the i-th term of the logarithm series |
| `Lifting.RoundEnd` | heu/library/algorithms/dj/secret_key.cc:88 | after the inner loop the index is right modulo one more power of p |
| `DjSecretKey.SecretKey.LiftRound` | heu/library/algorithms/dj/secret_key.cc:77-88 | round j lifts the recovered exponent from modulo p^(j-1), q^(j-1) to modulo p^j, q^j |
| `DjSecretKey.LogOfCiphertext` | heu/library/algorithms/dj/secret_key.cc:66-73 | for any ciphertext of x, whatever its noise, one prime's half of that |
| `DjSecretKey.Recombine` | heu/library/algorithms/dj/secret_key.cc:90-91 | remaindering and the product with mu give x modulo n^s |
| `DjSecretKey.SecretKey.Decrypt` | heu/library/algorithms/dj/secret_key.cc:65-92 | decrypts every encryption of x, with any noise, to x mod n^s, for every s |
| `DjScheme.EncryptMessage` | heu/library/algorithms/dj/encryptor.cc:25-32 | fails exactly outside the plaintext bound, otherwise encrypts m, with the word exactly (1+n)^m * hs^r modulo n^(s+1) |
| `DjScheme.AddCiphertexts` | heu/library/algorithms/dj/evaluator.cc:30-36 | fails exactly on words out of range, otherwise the product of the two words, which encrypts the sum |
| `DjScheme.MulPlain` | heu/library/algorithms/dj/evaluator.cc:38-45 | hs^r for 0 and otherwise exactly the k-th power, negative k through the inverse, which encrypts the product; fails exactly on words out of range and on a negative power of a word without inverse |
| `Powers.Product` | heu/library/algorithms/dj/evaluator.cc:30-36 | multiplying two words adds their exponents of the base and of the noise base |
| `Powers.Power` | heu/library/algorithms/dj/evaluator.cc:38-45 | raising a word to any integer power multiplies both exponents |
| `DjScheme.Eval` | heu/library/algorithms/dj/evaluator.h:27-87 | every finite computation whose encryptions are in range succeeds and yields exactly (1+n)^value * hs^noise, with the noise exponent counted through every step |
| `DjScheme.Decrypt` | heu/library/algorithms/dj/decryptor.cc:21-26 | fails exactly on words out of range, otherwise returns the centred residue modulo n^s |
| `DjScheme.DecryptEval` | heu/library/algorithms/dj/decryptor.cc:21-26 | any computation decrypts to the centred residue of its value, and to the value itself when that is within the bound |
| `DjScheme.DecryptsFormula` | heu/library/algorithms/dj/evaluator.h:27-87 | m5 - (m1*k + m2 + m3 - m4), built from all evaluator operations, comes back whenever it is in range |
| `DjScheme.RoundTrip` | heu/library/algorithms/dj/secret_key.cc:65-92 | keys made by the two Init methods give back every message of absolute value at most n^s/2, for every s and all randomness |
| `DjKeys.LambdaInvertible` | heu/library/algorithms/dj/secret_key.cc:24-25 | lambda is invertible modulo pq if and only if neither prime is 1 modulo the other |
| `DjKeys.GeneratedKeysWork` | heu/library/algorithms/dj/key_generator.cc:23-29 | two odd primes of one bit size, larger than 3, with gcd(p-1, q-1) = 2, give a working key |
| `DjKeys.SameSizeGood` | heu/library/algorithms/dj/key_generator.cc:24-28 | distinct odd primes of which neither is twice the other always have an invertible lambda |
| `DjKeys.GcdTestAlone` | heu/library/algorithms/dj/key_generator.cc:27-28 | the gcd test by itself, without the equal sizes, admits 3 and 7, whose lambda has no inverse |
| `Centring.CentreResidue` | heu/library/algorithms/dj/decryptor.cc:25 | subtracting the modulus above its half recovers every number of absolute value at most half an odd modulus |
| `PaillierKeys.SecretKey.Init` | heu/algorithms/paillier_zahlen/base.cc:37-61 | establishes the remaindering constants and that hp, hq invert (p-1)q and (q-1)p |
| `PaillierKeys.LogScale` | heu/algorithms/paillier_zahlen/base.cc:51-60 | ((n+1)^(p-1) mod p^2 - 1)/p is (p-1)q modulo p, hence invertible |
| `PaillierKeys.SecretKey.PowModNSquareCrtCorrect` | heu/algorithms/paillier_zahlen/base.cc:63-80 | for a base coprime to n and every integer exponent the reduced-exponent computation is base^exp modulo n^2 |
| `PaillierKeys.SecretKey.CrtAtOrder` | heu/algorithms/paillier_zahlen/base.cc:63-80 | at the exponent p(p-1)q(q-1) it answers 1 for every base, unit or not |
| `PaillierKeys.SecretKey.PowModNSquareCrtDomain` | heu/algorithms/paillier_zahlen/base.cc:63-80 | it agrees with base^e for all e if and only if the base is coprime to n |
| `PaillierKeys.EulerReduce` | heu/algorithms/paillier_zahlen/base.cc:65-75 | exponents of units modulo p^2 only matter modulo p(p-1) |
| `PaillierScheme.PublicKey.Init` | heu/algorithms/paillier_zahlen/base.cc:23-35 | sets n^2, n/2 and the Montgomery space modulo n^2, takes `hs` as it is, and yields a valid key exactly when that encrypts zero |
| `PaillierScheme.ShortcutIsPower` | heu/algorithms/paillier_zahlen/encryptor.cc:50-54 | 1 + n*m equals (1+n)^m modulo n^2 for every integer m |
| `PaillierScheme.PublicKey.GetRn` | heu/algorithms/paillier_zahlen/encryptor.cc:36-41 | hs^r, exactly, and so a stored encryption of zero |
| `PaillierScheme.PublicKey.Encrypt` | heu/algorithms/paillier_zahlen/encryptor.cc:44-64 | fails exactly outside the bound, otherwise encrypts m, with the word exactly (1 + n*m) * hs^r modulo n^2 |
| `PaillierScheme.PublicKey.Negate` | heu/algorithms/paillier_zahlen/evaluator.cc:29-38 | fails exactly out of range or without an inverse, otherwise is the inverse word, which encrypts -x for every x the argument encrypts |
| `PaillierScheme.PublicKey.AddPlain` | heu/algorithms/paillier_zahlen/evaluator.cc:46-60 | checks both arguments, otherwise the word times 1 + n*m, which encrypts x + m |
| `PaillierScheme.PublicKey.Add` | heu/algorithms/paillier_zahlen/evaluator.cc:62-69 | checks both words, otherwise their product, which encrypts the sum |
| `PaillierScheme.PublicKey.Mul` | heu/algorithms/paillier_zahlen/evaluator.cc:86-110 | exactly the k-th power for every integer k, through the shortcuts for 0, 1 and -1, which encrypts x * k; fails exactly out of range or on a negative power of a word without inverse |
| `PaillierScheme.PublicKey.Randomize` | heu/algorithms/paillier_zahlen/evaluator.cc:116-119 | is addition of an encryption of zero |
| `PaillierScheme.Eval` | heu/algorithms/paillier_zahlen/evaluator.cc:25-119 | a computation succeeds exactly when its checked plaintexts are in range, and then yields exactly (1+n)^value * hs^noise |
| `PaillierScheme.HalfDecrypt` | heu/algorithms/paillier_zahlen/decryptor.cc:39-43 | one prime's half gives the plaintext modulo that prime, whatever the noise |
| `PaillierScheme.JoinHalves` | heu/algorithms/paillier_zahlen/decryptor.cc:45-48 | the two halves combine to the residue in [0, n) |
| `PaillierScheme.Decrypt` | heu/algorithms/paillier_zahlen/decryptor.cc:33-54 | fails exactly out of range, otherwise returns the centred residue modulo n |
| `PaillierScheme.DecryptEval` | heu/algorithms/paillier_zahlen/decryptor.cc:33-54 | every computation decrypts to the centred residue modulo n of its plaintext value |
| `PaillierScheme.DecryptsFormula` | heu/algorithms/paillier_zahlen/evaluator.cc:25-119 | m1*k + m2 + m3 - m4, built from all evaluator operations, comes back whenever it is in range |
| `PaillierScheme.GenPkSk` | heu/algorithms/paillier_zahlen/he_kit.cc:83-119 | from the draws the loops accept, inverting lambda fails exactly when one prime is 1 modulo the other; otherwise mu is the inverse of lambda = (p-1)(q-1)/2, hs is (-x^2)^n modulo n^2, and the keys are paired and valid |
| `OuCipher.CheckAlwaysOne` | heu/algorithms/ou/he_kit.cc:133-135 | the loop condition check == 1 holds for every g coprime to p, so the loop rejects nothing |
| `OuCipher.LogOfGenerator` | heu/algorithms/ou/he_kit.cc:133-137 | gp is 1 + l*p with l in [0, p), and l is invertible if and only if gp is not 1 |
| `OuCipher.CheckAcceptsOne` | heu/algorithms/ou/he_kit.cc:128-137 | g = 1 passes every check of the loop and leaves (gp-1)/p without an inverse |
| `OuScheme.GenPkSk` | heu/algorithms/ou/he_kit.cc:91-160 | for every candidate the loops accept, key generation fails exactly when g^(p-1) is 1 modulo p^2 or g is not coprime to q; otherwise G = g^u and H = g'^(n*u) modulo n, the keys work with the stated plaintext bound, and H is invertible exactly when g' is coprime to q |
| `OuCipher.HoldsGenerator` | heu/algorithms/ou/he_kit.cc:143 | G = g^u is a ciphertext of 1 |
| `OuCipher.HoldsNoise` | heu/algorithms/ou/he_kit.cc:144 | H = g'^(n*u) is a ciphertext of 0 for every g' coprime to p |
| `OuCipher.HoldsZPow` | heu/algorithms/ou/evaluator.cc:87-111 | any integer power of a ciphertext of x is a ciphertext of the multiple |
| `OuCipher.ReadsPlaintext` | heu/algorithms/ou/decryptor.cc:38-40 | the t-th power modulo p^2, its logarithm and gp_inv give x mod p |
| `OuScheme.PublicKey.Init` | heu/algorithms/ou/base.cc:25-41 | computes the inverse of G and the Montgomery space |
| `OuScheme.PublicKey.PlainPowerOk` | heu/algorithms/ou/encryptor.cc:106-112 | either sign of m, through G or its inverse, gives a ciphertext of m |
| `OuScheme.PublicKey.Encrypt` | heu/algorithms/ou/encryptor.cc:100-122 | fails exactly outside the bound, otherwise encrypts m, with the word exactly G^m * H^r modulo n |
| `OuScheme.PublicKey.Negate` | heu/algorithms/ou/evaluator.cc:29-37 | fails exactly out of range or without an inverse, otherwise is the inverse word, which encrypts -x |
| `OuScheme.PublicKey.AddPlain` | heu/algorithms/ou/evaluator.cc:45-61 | checks both arguments, otherwise the word times G^m, which encrypts x + m |
| `OuScheme.PublicKey.Add` | heu/algorithms/ou/evaluator.cc:63-70 | checks both words, otherwise their product, which encrypts the sum |
| `OuScheme.PublicKey.Mul` | heu/algorithms/ou/evaluator.cc:87-111 | exactly the k-th power, through the shortcuts for 0, 1 and -1, which encrypts the product; fails exactly out of range or on a negative power of a word without inverse |
| `OuScheme.PublicKey.Randomize` | heu/algorithms/ou/evaluator.cc:117-120 | is addition of H^r |
| `OuScheme.Eval` | heu/algorithms/ou/evaluator.cc:25-120 | a computation that succeeds has its checked plaintexts in range and encrypts its value, and with H invertible is exactly G^value * H^noise; one with plaintexts in range succeeds, unless it inverts a ciphertext while H has no inverse |
| `OuScheme.FreshUnit` | heu/algorithms/ou/evaluator.cc:29-37 | a fresh ciphertext can be negated if and only if H is invertible modulo n or no power of it was used |
| `OuScheme.Decrypt` | heu/algorithms/ou/decryptor.cc:33-46 | fails exactly out of range, otherwise returns the centred residue modulo p |
| `OuScheme.DecryptEval` | heu/algorithms/ou/decryptor.cc:33-46 | every computation that succeeds decrypts to the centred residue modulo p of its value, and success is as for Eval |
| `OuScheme.DecryptsFormula` | heu/algorithms/ou/evaluator.cc:25-120 | with H invertible, m1*k + m2 + m3 - m4, built from all evaluator operations, comes back whenever it is in range |
| `OuScheme.RoundTrip` | heu/algorithms/ou/decryptor.cc:33-46 | every message of absolute value at most the bound comes back, either sign, for every H^r |
| `HrCache.StepInv` | heu/algorithms/ou/encryptor.cc:53-97 | every step of every thread keeps the invariant: a cached exponent of 128 bits or more has its power beside it |
| `HrCache.RunInv` | heu/algorithms/ou/encryptor.cc:53-97 | so does every run of any number of threads in any interleaving |
| `HrCache.ReturnsPowers` | heu/algorithms/ou/encryptor.cc:53-97 | every value any call returned is H^r, with r below n once n has 130 bits |
| `HrCache.ReturnsSums` | heu/algorithms/ou/encryptor.cc:53-97 | in every run a returned exponent is the sum of the numbers drawn along its chain of snapshots back to the last reset, its own call's number included |
| `HrCache.OneCall` | heu/algorithms/ou/encryptor.cc:53-97 | an undisturbed call that drew x returns and caches H^x after a reset and the cached power times H^x otherwise |
| `HrCache.NeverExtendsInitial` | heu/algorithms/ou/encryptor.cc:57-66 | the initial pair 0, 0 is never extended |
| `HrCache.SmallModulusResets` | heu/algorithms/ou/encryptor.cc:60-61 | for n of at most 129 bits the cache is always reset |
| `HrCache.ReturnsZeroEncryptions` | heu/algorithms/ou/encryptor.cc:39-46 | every value returned is an encryption of zero for the scheme |
| `HrCache.Encryptor.Read` | heu/algorithms/ou/encryptor.cc:57-66 | the first locked section is the Read step |
| `HrCache.Encryptor.Draw` | heu/algorithms/ou/encryptor.cc:68-92 | the unlocked arithmetic uses only the thread's snapshot |
| `HrCache.Encryptor.Publish` | heu/algorithms/ou/encryptor.cc:75-96 | the second locked section writes both fields together |
| `HrCache.Encryptor.Execute` | heu/algorithms/ou/encryptor.cc:53-97 | any schedule drives the object through the specified states |
| `DgkScheme.SecretKey.Init` | heu/library/algorithms/dgk/secret_key.cc:19-35 | the loop maps every one of the first u powers of g^vp to its least exponent, and nothing else |
| `DgkScheme.SecretKey.Decrypt` | heu/library/algorithms/dgk/secret_key.cc:53-57 | throws exactly when ct^vp mod p is no power of g^vp, otherwise returns the least exponent with that power; for a ciphertext of x this is x modulo u, or 0 when g^vp is 1 |
| `DgkCipher.PrimeOrder` | heu/library/algorithms/dgk/secret_key.cc:29-34 | an element other than 1 whose u-th power is 1, u prime, has u distinct powers |
| `DgkCipher.TableInverts` | heu/library/algorithms/dgk/secret_key.cc:29-34 | with g^vp of order u the table is the inverse of exponentiation on 0..u-1 |
| `DgkCipher.DegenerateTable` | heu/library/algorithms/dgk/secret_key.cc:29-34 | with g^vp equal to 1 every lookup answers 0 |
| `DgkCipher.LookupKey` | heu/library/algorithms/dgk/secret_key.cc:54 | for a ciphertext of x the key looked up is the power with exponent x mod u |
| `DgkCipher.GeneratorOrder` | heu/library/algorithms/dgk/key_generator.cc:32-56 | for gp not divisible by p, the generated g^vp has order u if and only if u does not divide wq, which no loop checks |
| `DgkScheme.JoinGenerators` | heu/library/algorithms/dgk/key_generator.cc:44-53 | gn agrees with gp modulo p and with gq modulo q |
| `DgkScheme.Generate` | heu/library/algorithms/dgk/key_generator.cc:26-59 | for every draw the loops accept, g is gp^(wp*wq) modulo p and gq^(wp*wq) modulo q and h is g^u; if p divides gp, g, h and g^vp vanish modulo p; otherwise the keys are valid, g^vp is 1 exactly when u divides wq, and g is invertible exactly when q does not divide gq |
| `DgkScheme.ZeroKeyExponent` | heu/library/algorithms/dgk/key_generator.cc:46-55 | when g and h vanish modulo p, every fresh ciphertext is looked up as exponent 1, but for message 0 without noise, which is looked up as 0 |
| `DgkScheme.PublicKey.Init` | heu/library/algorithms/dgk/public_key.cc:30-37 | sets the key fields over the Montgomery space modulo n |
| `DgkScheme.PublicKey.Encrypt` | heu/library/algorithms/dgk/public_key.cc:58-60 | exactly g^(m mod u), a ciphertext of m mod u |
| `DgkScheme.PublicKey.RandomHr` | heu/library/algorithms/dgk/public_key.cc:53-56 | exactly h^r, a ciphertext of 0 |
| `DgkScheme.EncryptMessage` | heu/library/algorithms/dgk/encryptor.cc:23-30 | fails exactly outside u/2, otherwise encrypts m, with the word exactly g^(m mod u) * h^r modulo n |
| `DgkScheme.AddCiphertexts` | heu/library/algorithms/dgk/evaluator.cc:30-36 | fails exactly on words out of range, otherwise the product of the two words, which encrypts the sum |
| `DgkScheme.MulPlain` | heu/library/algorithms/dgk/evaluator.cc:38-45 | h^r for 0 and otherwise exactly the power, which encrypts the product; fails exactly on words out of range and on a negative power of a word without inverse |
| `DgkScheme.Eval` | heu/library/algorithms/dgk/evaluator.cc:25-45 | a computation that succeeds has its messages in range and encrypts its value, and with g invertible is exactly the product of the powers of g and h its steps add up to; one with messages in range succeeds, unless it inverts a ciphertext while g has no inverse |
| `DgkScheme.FreshUnit` | heu/library/algorithms/dgk/evaluator.cc:38-45 | a fresh ciphertext is invertible, as negative factors need, if and only if g is or it encrypts zero without noise |
| `DgkScheme.Decrypt` | heu/library/algorithms/dgk/decryptor.cc:21-26 | refuses words out of range; the least exponent of the looked-up power comes back centred, which for a ciphertext of x is the centred residue of x modulo u, or 0 when g^vp is 1 |
| `DgkScheme.DecryptEval` | heu/library/algorithms/dgk/decryptor.cc:21-26 | every computation that succeeds decrypts so, and success is as for Eval |
| `DgkScheme.DecryptsFormula` | heu/library/algorithms/dgk/evaluator.cc:25-45 | m1*k + m2, built from all evaluator operations, comes back whenever it is in range and g^vp has order u |
| `DgkScheme.GeneratedRoundTrip` | heu/library/algorithms/dgk/key_generator.cc:19-60 | what a message in range comes back as, for every draw the loops accept: other than 0 and 1 it comes back if and only if p does not divide gp and u does not divide wq |
| `TwoAdic.InvU64` | heu/experimental/gemini-rlwe/modswitch_helper.cc:50-58 | the loop returns the inverse modulo 2^64 of every odd x |
| `TwoAdic.InvU128` | heu/experimental/gemini-rlwe/modswitch_helper.cc:60-68 | the loop returns the inverse modulo 2^128 of every odd x |
| `TwoAdic.ModLimbsRing2k` | heu/experimental/gemini-rlwe/modswitch_helper.cc:115-130 | masking two limbs gives the limb vector's value modulo 2^k for every k from 2 to 128 |
| `ModSwitchHelper.Helper.Init` | heu/experimental/gemini-rlwe/modswitch_helper.cc:343-450 | establishes every constant: Q mod and div 2^k, -1/Q and 1/gamma modulo 2^k, -1/Q modulo gamma, gamma*2^k modulo each prime |
| `ModSwitchHelper.InverseModT` | heu/experimental/gemini-rlwe/modswitch_helper.cc:401-418 | both widths give -1/Q and 1/gamma modulo 2^k |
| `Rns.ConvSumBound` | heu/experimental/gemini-rlwe/modswitch_helper.cc:258-262 | fast base conversion overshoots by fewer than L multiples of Q |
| `Rns.OwnRemainders` | heu/experimental/gemini-rlwe/modswitch_helper.cc:231-256 | an integer is represented by its own remainders, modulus by modulus |
| `ModSwitch.ConvSumIs` | heu/experimental/gemini-rlwe/modswitch_helper.cc:250-275 | the conversion sum is gamma*t*x minus Q times the scaled value, with the same overshoot for gamma and for t |
| `ModSwitch.Correction` | heu/experimental/gemini-rlwe/modswitch_helper.cc:295-318 | subtracting the centred gamma residue and dividing by gamma rounds the scaled value |
| `ModSwitch.DownWord` | heu/experimental/gemini-rlwe/modswitch_helper.cc:231-319 | the word computed from the gamma and t residues is the modulus-down of x modulo 2^k |
| `ModSwitch.DownNearest` | heu/experimental/gemini-rlwe/modswitch_helper.cc:231-319 | with f = t*x mod Q, modulus-down is the nearest integer to t*x/Q exactly when 2f < Q or floor(gamma*f/Q) minus the overshoot exceeds gamma/2, and otherwise one less; it is the nearest whenever f/Q is not within L/gamma above a half |
| `ModSwitch.DownMisses` | heu/experimental/gemini-rlwe/modswitch_helper.cc:231-319 | for odd moduli with product above gamma there is always an x in [0, Q) whose modulus-down is one below the nearest integer |
| `ModSwitch.DownExample` | heu/experimental/gemini-rlwe/modswitch_helper.cc:231-319 | 4*2/15 is nearest to 1 and comes out as 0 with gamma = 7 |
| `ModSwitchHelper.Helper.ModulusDownRNS` | heu/experimental/gemini-rlwe/modswitch_helper.cc:231-319 | throws exactly on a wrong word size or buffer length, leaving the output alone; otherwise every coefficient of the output buffer is the modulus-down of every integer with the given residues |
| `ModSwitchHelper.Helper.ScaleRows` | heu/experimental/gemini-rlwe/modswitch_helper.cc:250-256 | every row is multiplied by gamma*t |
| `ModSwitchHelper.Helper.ConvertToGamma` | heu/experimental/gemini-rlwe/modswitch_helper.cc:258-266 | the gamma buffer holds -1/Q times the conversion sum |
| `ModSwitchHelper.Helper.ConvertToT` | heu/experimental/gemini-rlwe/modswitch_helper.cc:268-292 | the t buffer holds -1/Q times the same sum modulo 2^k, in words of any of the three sizes |
| `ModSwitchHelper.Helper.Correct` | heu/experimental/gemini-rlwe/modswitch_helper.cc:307-318 | the centred difference times 1/gamma is the modulus-down |
| `ModSwitchHelper.Helper.ModulusUpAt` | heu/experimental/gemini-rlwe/modswitch_helper.cc:132-158 | throws exactly on a wrong length, word size or modulus index; otherwise each word is the reduced wrapped sum u + v of the two parts of round(Q*x/t) |
| `ModSwitchHelper.Helper.ModulusUpAt128` | heu/experimental/gemini-rlwe/modswitch_helper.cc:160-200 | the same for 128-bit words, through the four-limb path |
| `ModSwitchHelper.LimbPath` | heu/experimental/gemini-rlwe/modswitch_helper.cc:184-198 | multiplying, adding, dropping a limb and shifting by k - 64 is division by 2^k |
| `ModSwitch.UpSumCong` | heu/experimental/gemini-rlwe/modswitch_helper.cc:146-156 | the unwrapped sum is round(Q*x/2^k) modulo each prime |
| `ModSwitchHelper.Helper.UpExact` | heu/experimental/gemini-rlwe/modswitch_helper.cc:146-156 | the word is right if and only if u + v fits the word size |
| `ModSwitchHelper.Helper.UpFits` | heu/experimental/gemini-rlwe/modswitch_helper.cc:146-156 | with k below the word size it always fits |
| `UpWrap.UpWraps` | heu/experimental/gemini-rlwe/modswitch_helper.cc:146-156 | for every valid helper with k = 64 over the primes 816286092460892161 and 989927860681203713, x = 2^64 - 1 gets a wrong residue for both |
| `UpWrap.WrongWords` | heu/experimental/gemini-rlwe/modswitch_helper.cc:132-158 | such a helper is what Init builds, and its modulus-up puts the wrong residues into its buffers |
| `ModSwitchHelper.Helper.CenteralizeAt` | heu/experimental/gemini-rlwe/modswitch_helper.cc:202-229 | throws exactly on a wrong length, word size or modulus index; otherwise each output is the residue of the signed value of its word |
| `ModSwitchHelper.SignedWordIs` | heu/experimental/gemini-rlwe/modswitch_helper.cc:217-228 | the signed value is the word modulo 2^k: the word itself up to 2^(k-1), and above it the representative in (-2^k, 0], which for words below 2^k is the word minus 2^k |
| `ModSwitch.UpDownTolerates` | heu/experimental/gemini-rlwe/modswitch_helper.cc:231-319 | scaling up, adding noise e with 2^k(2|e|+1)gamma <= Q(gamma-2L) and scaling down gives the message |
| `ModSwitchHelper.Helper.UpThenDown` | heu/experimental/gemini-rlwe/modswitch_helper.cc:231-319 | the same for the words the helper computes |
| `LweWords.ExtractCorrect` | heu/experimental/gemini-rlwe/lwe_ct.cc:61-79 | for every index k the extracted sample's phase is coefficient k of b + a*s in Z[X]/(X^N+1) |
| `LweWords.ExtractRowOk` | heu/experimental/gemini-rlwe/lwe_ct.cc:61-79 | the reversed and negated words are that sample modulo q, reduced |
| `LweWords.AddLazyRowOk` | heu/experimental/gemini-rlwe/lwe_ct.cc:239-259 | the lazy addition uses the constructor's index pattern and keeps words within one more multiple of q |
| `LweWords.SubLazyRowOk` | heu/experimental/gemini-rlwe/lwe_ct.cc:293-315 | the lazy subtraction likewise, with the signs exchanged |
| `LweSample.ComputeMaximumLazy` | heu/experimental/gemini-rlwe/lwe_ct.cc:23-36 | the loop computes the bound from the largest bit count |
| `LweSample.MaximumExact` | heu/experimental/gemini-rlwe/lwe_ct.cc:23-36 | the bound is the largest power of two up to 2^16 whose product with 2^b, b the longest modulus, stays within 2^62 |
| `LweSample.BudgetFits` | heu/experimental/gemini-rlwe/lwe_ct.cc:23-36 | below the bound one more lazy addition keeps (n+2)*q within 64 bits |
| `LweCt.LWECt.Extract` | heu/experimental/gemini-rlwe/lwe_ct.cc:42-86 | fails exactly on invalid metadata, format, size or index, changing nothing, and otherwise holds the extracted samples |
| `LweCt.LWECt.NegateInplace` | heu/experimental/gemini-rlwe/lwe_ct.cc:88-108 | throws exactly on an empty object; negates the exact samples and leaves reduced words |
| `LweCt.LWECt.AddInplace` | heu/experimental/gemini-rlwe/lwe_ct.cc:110-138 | adds the exact samples, copies words, counter and degree into an empty object, and refuses an unreduced or mismatched operand; adding an object to itself works |
| `LweCt.LWECt.SubInplace` | heu/experimental/gemini-rlwe/lwe_ct.cc:161-189 | the same for subtraction |
| `LweCt.LWECt.AddPlainInplace` | heu/experimental/gemini-rlwe/lwe_ct.cc:191-209 | adds to the constants; when a word is out of range the call throws after the constants before it have changed |
| `LweCt.LWECt.SubPlainInplace` | heu/experimental/gemini-rlwe/lwe_ct.cc:140-159 | the same for subtraction |
| `LweCt.LWECt.AddLazyInplace` | heu/experimental/gemini-rlwe/lwe_ct.cc:211-263 | adds the extracted sample without reducing, after reducing at the bound; states the new counter |
| `LweCt.LWECt.SubLazyInplace` | heu/experimental/gemini-rlwe/lwe_ct.cc:265-319 | the same for subtraction |
| `LweCt.LWECt.Reduce` | heu/experimental/gemini-rlwe/lwe_ct.cc:321-344 | brings every word below its modulus without changing the exact samples; its counter check never throws |
| `LweRun.Execute` | heu/experimental/gemini-rlwe/lwe_ct.cc:42-344 | every sequence of operations, throwing calls included, keeps the invariant and holds exactly the signed sum of what was added |
| `LweRun.WordsFit` | heu/experimental/gemini-rlwe/lwe_ct.cc:23-36 | in every reachable state words are below (lazy_counter+1)*q, which fits 64 bits |
| `LweRun.WordsPhase` | heu/experimental/gemini-rlwe/lwe_ct.cc:211-344 | the stored words decrypt to the exact samples' phase modulo each prime |
| `LweRun.NextMeaning` | heu/experimental/gemini-rlwe/lwe_ct.cc:88-344 | each operation acts on level and phase as one step of that total |
| `LweRun.OperationMeans` | heu/experimental/gemini-rlwe/lwe_ct.cc:88-344 | in plain terms: an accepted call adds or subtracts the coefficient of b + a*s, the operand's phase or the plaintext word, doubles, cancels, negates, or leaves the phase |
| `LweRun.RunPhase` | heu/experimental/gemini-rlwe/lwe_ct.cc:42-344 | for every sequence of operations, refused calls and self-addition included, the phase is the signed running total of the coefficients, ciphertexts and plaintexts accepted |
| `Negacyclic.MulCommutes` | heu/experimental/gemini-rlwe/matvec.cc:157-165 | multiplication by a plaintext and by the secret commute in Z[X]/(X^N+1) |
| `Negacyclic.MulComm` | heu/experimental/gemini-rlwe/lwe_ct.cc:61-79 | negacyclic multiplication is commutative |
| `Sharing.PhaseResidues` | heu/experimental/gemini-rlwe/lwe_decryptor.cc:51-57 | the loop computes the phase modulo each prime from the unreduced words |
| `Sharing.ReducedSecret` | heu/experimental/gemini-rlwe/lwe_decryptor.cc:51-57 | the secret reduced modulo each prime is a key the decryption theorem applies to |
| `Sharing.Decrypt` | heu/experimental/gemini-rlwe/lwe_decryptor.cc:32-62 | fails exactly on a wrong word size, an unreduced, empty or lower-level ciphertext; otherwise outputs the modulus-down of the phase |
| `Sharing.DecryptCorrect` | heu/experimental/gemini-rlwe/lwe_decryptor.cc:32-62 | a phase that is the scaled message plus noise within the bound decrypts to the message |
| `Sharing.H2A` | heu/experimental/gemini-rlwe/a2h.cc:35-61 | masks the ciphertext, returns minus the mask's modulus-down, and throws exactly when that is 2^k - 1, after the masking |
| `Sharing.SharesAddUp` | heu/experimental/gemini-rlwe/a2h.cc:35-61 | the masked decryption plus the share is the message modulo 2^k up to an error in {-1, 0, 1} |
| `Sharing.ShareAndOpen` | heu/experimental/gemini-rlwe/a2h.cc:35-61 | the same for the two calls in sequence, whatever the mask |
| `PolyEncoder.DoForward` | heu/experimental/gemini-rlwe/poly_encoder.cc:32-56 | coefficient i of the result stands for word i: scaled it is round(Q*v[i]/2^k) modulo each prime if and only if the word sum does not wrap, unscaled it is congruent to the signed word, and above the vector it is 0; refuses empty and oversized vectors and wrong word sizes |
| `PolyEncoder.DoBackward` | heu/experimental/gemini-rlwe/poly_encoder.cc:58-101 | the reversed negated layout, scaled or centred; refuses empty and oversized vectors |
| `PolyEncoder.BackwardIsReversed` | heu/experimental/gemini-rlwe/poly_encoder.cc:75-80 | the reversed words are v[0] - sum v[i]X^(N-i) modulo 2^k |
| `PolyEncoder.ScaledBackward` | heu/experimental/gemini-rlwe/poly_encoder.cc:86-95 | a scaled reversed word holds round(Q*p/2^k) for the signed coefficient p if and only if its word sum does not wrap |
| `PolyEncoder.CentredBackward` | heu/experimental/gemini-rlwe/poly_encoder.cc:75-95 | unscaled, words below 2^(k-1) come out as the reversed polynomial modulo each prime |
| `PolyEncoder.WordFitsIs` | heu/experimental/gemini-rlwe/modswitch_helper.cc:136-138 | the accepted word size is the smallest power of two not below k |
| `MatVec.ShapeFits` | heu/experimental/gemini-rlwe/matvec.cc:26-37 | a tile fits the ring and either holds all rows or could not be twice as high |
| `MatVec.ShapeExact` | heu/experimental/gemini-rlwe/matvec.cc:26-37 | a tile is min(ncols, N) wide and a power of two high: the first that holds all rows if it fits, and else the last that fits |
| `MatVec.RowDotIsSlice` | heu/experimental/gemini-rlwe/matvec.cc:85-88 | the matrix is read row by row: row r times v is the product of the slice at r*ncols with v |
| `MatVec.BitCeilPower` | heu/experimental/gemini-rlwe/matvec.cc:32 | rounding up gives a power of two |
| `MatVec.TileProduct` | heu/experimental/gemini-rlwe/matvec.cc:105-186 | coefficient k of a tile times a reversed piece is their plain product: no term wraps around |
| `MatVec.TileRow` | heu/experimental/gemini-rlwe/matvec.cc:130-165 | coefficient r*subcols is one piece of row r's product, partial tiles included |
| `MatVec.TiledIsPlain` | heu/experimental/gemini-rlwe/matvec.cc:125-185 | for all shapes and ring degrees coefficient r*subcols of a strip's sum is the whole row times the vector, plus the tiles' action on the noise |
| `MatVecProtocol.ConcatSubMatrix` | heu/experimental/gemini-rlwe/matvec.cc:66-90 | copies a tile row by row into a zeroed buffer, zero beyond the matrix |
| `MatVecProtocol.Strip` | heu/experimental/gemini-rlwe/matvec.cc:129-170 | accumulates the tiles' products, skipping exactly the zero tiles; fails exactly when all are zero or a needed piece is missing |
| `MatVecProtocol.StripPhase` | heu/experimental/gemini-rlwe/matvec.cc:155-165 | the phase of a strip's accumulated ciphertext is the strip's sum of phases, for every secret |
| `MatVecProtocol.PhasesAre` | heu/experimental/gemini-rlwe/matvec.cc:163-165 | phase b is c0 + c1*s of the b-th ciphertext itself |
| `MatVecProtocol.ExtractRows` | heu/experimental/gemini-rlwe/matvec.cc:172-184 | one LWE ciphertext for each row of the strip |
| `MatVecProtocol.DoMatVec` | heu/experimental/gemini-rlwe/matvec.cc:125-186 | one ciphertext for every row, with its phase for every secret and modulus, or a refusal in exactly the stated cases |
| `MatVecCorrect.DoEncodeVector` | heu/experimental/gemini-rlwe/matvec.cc:105-123 | each plaintext is the lifted reversed piece of the vector |
| `MatVecCorrect.EncodedRows` | heu/experimental/gemini-rlwe/matvec.cc:105-123 | when no word sum wraps, each plaintext is the reversed piece of the scaled vector plus a rounding term, at every modulus |
| `MatVecCorrect.RoundingNoiseSmall` | heu/experimental/gemini-rlwe/poly_encoder.cc:75-95 | that rounding term is 0 or 1 everywhere |
| `MatVecCorrect.NarrowWordsFit` | heu/experimental/gemini-rlwe/modswitch_helper.cc:146-156 | with 32-bit words no word sum wraps |
| `MatVecCorrect.EncodedPiecesHold` | heu/experimental/gemini-rlwe/matvec.cc:105-123 | encrypting the encoder's plaintexts gives pieces whose phases are the scaled reversed pieces plus noise and rounding |
| `MatVecCorrect.MatVecDecrypts` | heu/experimental/gemini-rlwe/matvec.cc:125-186 | decrypting output i gives the dot product of mat[i*ncols .. (i+1)*ncols] with the vector modulo 2^k within a stated noise bound, when the pieces' phases are the scaled reversed pieces plus noise |
| `MatVecCorrect.EncodedDecrypts` | heu/experimental/gemini-rlwe/matvec.cc:105-186 | from the encoder's plaintexts, encrypted with any noise within the bound, to the decrypted row: output i is the dot product of mat[i*ncols .. (i+1)*ncols] with the vector modulo 2^k |
| `TreePredict.TreePredict` | heu/pylib/numpy_binding/extension_functions.cc:156-192 | cell (i, j) is 1 exactly when a path of row i leads to leaf j, and 0 otherwise |
| `TreePredict.PredictRow` | heu/pylib/numpy_binding/extension_functions.cc:163-189 | the queue loop ends, writes in bounds and in its own row only |
| `TreePaths.QueueShrinks` | heu/pylib/numpy_binding/extension_functions.cc:168-183 | replacing a node by its children decreases the measure |
| `TreePaths.QueueKeeps` | heu/pylib/numpy_binding/extension_functions.cc:168-183 | no leaf still to be found is lost when a node is replaced |
| `TreePredict.OneHot` | heu/pylib/numpy_binding/extension_functions.cc:156-192 | without -1 exactly one leaf is hit |
| `TreePaths.BothChildren` | heu/pylib/numpy_binding/extension_functions.cc:174-176 | a node with feature -1 reaches exactly what either child reaches |
| `TreePaths.OneChild` | heu/pylib/numpy_binding/extension_functions.cc:178-182 | any other node reaches what its left child reaches when the row is below the threshold, and what its right child reaches otherwise |
| `TreePaths.LeafHitsItself` | heu/pylib/numpy_binding/extension_functions.cc:184-186 | a leaf reaches itself only |
| `TreePredict.SplitDescends` | heu/pylib/numpy_binding/extension_functions.cc:168-183 | the same in the caller's terms: node i compares feature features[i] of the row with points[i] |
| `TreePredict.BuildTreeMap` | heu/pylib/numpy_binding/extension_functions.cc:198-210 | fails exactly on unequal lengths; the last of a repeated index wins |
| `TreePredict.LastWins` | heu/pylib/numpy_binding/extension_functions.cc:205-208 | an index added last is found at its last position and nowhere else |
| `TreePredict.PredictIndexedRow` | heu/pylib/numpy_binding/extension_functions.cc:231-256 | fails exactly when the row hits an index that is no leaf; otherwise marks exactly the leaves hit |
| `TreePredict.TreePredictWithIndices` | heu/pylib/numpy_binding/extension_functions.cc:213-259 | the same for all rows, with the length checks |
| `TreePredict.ClosedNeverMisses` | heu/pylib/numpy_binding/extension_functions.cc:252 | when nodes and leaves are closed under children no lookup fails |
| `BucketSum.SumSplits` | heu/library/numpy/evaluator.cc:426-443 | splitting a range splits its sum |
| `BucketSum.EntryOfRow` | heu/library/numpy/evaluator.cc:431-432 | one row contributes its own value of that column to its bucket, with cumsum to its bucket and all later ones, and nothing elsewhere |
| `BucketSum.EntryOfNextRow` | heu/library/numpy/evaluator.cc:431-432 | entries of no rows are zero and one row more adds exactly that, which determines every entry |
| `BucketSum.Reduce` | heu/library/numpy/evaluator.cc:426-443 | every way of splitting and combining the range gives each bucket the sum of its rows |
| `BucketSum.NextPrefix` | heu/library/numpy/evaluator.cc:444-449 | adding bucket b to the sums below it gives the sum of the rows up to b |
| `BucketSum.FeatureSums` | heu/library/numpy/evaluator.cc:426-455 | the buckets of one feature, or with cumsum their prefix sums |
| `BucketSum.WriteFeature` | heu/library/numpy/evaluator.cc:444-455 | writes the feature's rows and nothing else |
| `BucketSum.RowIndex` | heu/library/numpy/evaluator.cc:425-453 | the result's row divided by bucket_num is the feature and its remainder the bucket |
| `BucketSum.RowsDisjoint` | heu/library/numpy/evaluator.cc:425-453 | different features write different rows |
| `BucketSum.RowsCover` | heu/library/numpy/evaluator.cc:425-453 | together they cover the result |
| `BucketSum.FeatureWiseBucketSumInplace` | heu/library/numpy/evaluator.cc:404-458 | every entry is right for every schedule of features and every chunking; fails exactly on the shape checks |
| `BucketSum.SelectRows` | heu/pylib/numpy_binding/extension_functions.cc:96-101 | the indices of the subgroup, in order |
| `BucketSum.SelectedAll` | heu/pylib/numpy_binding/extension_functions.cc:96-101 | exactly the positions with positive entries, each once and in order |
| `BucketSum.PickedSum` | heu/pylib/numpy_binding/extension_functions.cc:102-105 | summing over the picked rows is summing over the subgroup's rows |
| `BucketSum.FeatureWiseBucketSum` | heu/pylib/numpy_binding/extension_functions.cc:90-107 | the entries of one subgroup, for maps of any length whose selected rows exist; fails exactly when nothing is selected or there are no columns |
| `BucketSum.BatchFeatureWiseBucketSum` | heu/pylib/numpy_binding/extension_functions.cc:110-151 | the entries of many such subgroups, zeros for an empty one; fails exactly when one selects rows and there are no columns |

## Left out

- Serialization, factories, Python bindings, audit strings and command-line tools: input and output around the
  modelled core.
- Prime generation and randomness: the draws are parameters, constrained by what the rejection loops accept.
  `RandPrimeOver`, which is not part of this model, is taken to draw primes of the size asked for.
  `UniformOverPrime` (`heu/experimental/gemini-rlwe/a2h.cc:76-92`) is represented by words below each modulus.
- Montgomery tables and their exponent limits, SEAL's number-theoretic transform and Barrett reduction: used
  through the residues they compute. Polynomials are kept in coefficient form, and the transformed format is a
  flag that is only checked.
- SEAL's parameter chain: a ciphertext's level is the number of its moduli.
- Flat L*N buffers are sequences of rows, one row per modulus, and an LWE row is rewritten as a whole.
- Matrix-vector products with `transposed = true`, whose tile shape and loop bounds disagree.
- `DoA2H` (`heu/experimental/gemini-rlwe/a2h.cc:63-74`): one scaled encoding followed by a SEAL addition.
- `heu/library/algorithms/ou`, the ElGamal, iSHE and mock schemes, and the GPU and FPGA variants: copies,
  foreign code, or code whose intended homomorphism does not hold.
- `SelectSum`, `Sum`, `MatMul` and the other numpy evaluator functions: simpler loops of the same kind.
- Floating-point comparison in tree prediction: thresholds are real numbers, so NaN and infinities are missing;
  node indices are unbounded, so the narrowing of `size_t` to `int` is missing.
- Memory models: a locked section of the H^r cache is one atomic step, and unlocked work is a step of its own.
  In tree prediction rows are taken in order; each call is proved to write its own row only.
- BucketSum.FeatureWiseBucketSumInplace: addition is any commutative monoid; for ciphertexts this speaks about
  the numbers they encrypt, since sums in different orders are different ciphertexts of equal numbers. An order
  entry outside 0..bucket_num-1 is excluded, as the code would write out of bounds.
- BucketSum.FeatureWiseBucketSum: a subgroup map that selects a row the matrix or the order map does not have is
  excluded, here and in the batch version, as the code would read out of bounds.
- LweCt.LWECt.AddLazyInplace: for moduli below 62 bits, the largest SEAL allows being 61; with larger ones the
  lazy bound would be 0 and the second lazy operation would throw. RLWE words must be reduced, as SEAL's own
  operations leave them; the metadata check does not test it, and larger words would break the 64-bit budget.
- LweCt.LWECt.Extract: the same demand on RLWE words.
- LweCt.LWECt.SubLazyInplace: the same demand on RLWE words.
- MatVecProtocol.DoMatVec: pieces are two-polynomial ciphertexts of the first level in transformed format; SEAL
  throws on anything else. SEAL is taken as this repository builds it (`third_party/bazel_cpp/seal.BUILD:31`,
  `third_party/build_seal.sh:13`), with the refusal of transparent ciphertexts switched off; a build with it on
  would also refuse a product or sum whose second polynomial vanishes.
- MatVecProtocol.Strip: the same build of SEAL.
- MatVecCorrect.EncodedDecrypts: encryption is SEAL's; it enters as the relation between plaintexts and phases.
- ModSwitchHelper.Helper.Init: for odd, pairwise coprime moduli below 2^63 and an odd auxiliary prime larger than
  twice their number and coprime to them, which SEAL's parameters guarantee.
