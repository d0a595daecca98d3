# RSA with Blakley multiplication, modelled in Dafny

This project models the arithmetic core of `RSA.py`, a small RSA script whose
multiplication is meant to move into hardware (VHDL):

- **Blakley multiplication** (`blakley_mul`): `(a * b) mod n` computed bit by
  bit from the most significant bit of `b`, doubling and conditionally adding
  while the accumulator stays below `n`. Modelled as the method
  `Blakley.BlakleyMul` with its `for … downto` loop.
- **Right-to-left square-and-multiply** (`modexp_RL_method`): `base^exponent mod n`
  on top of Blakley multiplication. This is the RSAEP/RSADP primitive of
  RFC 8017, sections 5.1.1 and 5.1.2. Modelled as the method `ModExp.ModExpRL`
  with its `while` loop.
- **Key derivation** (`rsa_key_generation`): `n = p*q`, `phi_n = (p-1)(q-1)`,
  `e = 65537` and `d = pow(e, -1, phi_n)`. The two primes are parameters.
  This part is pure arithmetic and is modelled as functions: `KeyGen.KeyGeneration`
  on top of Euclid's algorithm and the extended Euclidean algorithm
  (`Euclid.Gcd`, `Euclid.ExtGcd`, `Euclid.ModInverse`). These replace the
  library calls `math.gcd` and `pow(e, -1, phi_n)`.
- **The driver** (encrypt, decrypt, compare with `M % n`): the lemma
  `Rsa.RoundTrip` and the method `Rsa.RunRsa`. The round trip is proved for
  distinct primes `p` and `q`. The proof goes through Fermat's little theorem
  (module `NumberTheory`: binomial theorem, Euclid's lemma, the step from two
  prime moduli to their product).

Files: `wrappers.dfy` (Option/Result), `mod_arith.dfy` (powers, shifts,
bit length, facts about `%`), `blakley.dfy`, `modexp.dfy`, `euclid.dfy`,
`keygen.dfy`, `number_theory.dfy` and `rsa.dfy`.

Python's `%` and `//` floor their results. Dafny's are Euclidean. The two agree
for a positive modulus, which is the only case the model uses. Python integers
are unbounded, so there is no wrap-around to model. `b >> i` is `ModArith.Shr`,
`b.bit_length()` is `ModArith.BitLength`, `r << 1` is `2 * r`, and `x & 1` is `x % 2`.

Points where the model states what the code does rather than what a reader
might assume:

- `blakley_mul` (RSA.py:34-40) does not need `a < n` or `b < n`, because line
  39 reduces `r + a`. `BlakleyMul` holds for every integer `a` and every `b >= 0`.
- `modexp_RL_method` with `exponent == 0` returns `1` without reducing it
  (lines 46 and 51). For `n == 1` that is `1`, not `0`. `ModExpRL` states this.
- The gcd test at lines 22-23 only prints. Key generation fails only when
  `pow(e, -1, phi_n)` raises at line 24. `KeyGeneration` returns
  `Failure(NotInvertible)` in exactly that case, which is also exactly the case
  in which the print fires. The failure is reachable with prime inputs: any
  prime `p` with 65537 dividing `p - 1` (for example 917519) triggers it.
- The inverse property is `(e*d) % phi_n == 1 % phi_n`, not `== 1`. When
  `p = q = 2` we get `phi_n == 1`, and Python's `pow(e, -1, 1)` is `0`.
- Lines 17-18 draw `p` and `q` independently, so `p == q` happens when the two
  draws coincide, and nothing in key generation rejects it
  (`Rsa.EqualPrimesExample` shows keys for `p = q = 7`). With `p == q` the
  comparison at line 74 fails for `M = p` (`Rsa.EqualPrimesBreakRoundTrip`,
  and the last clause of `Rsa.RunRsa`). Line 6 says `n` is a product of
  primes so that `M < n`; the model makes no such assumption and compares
  `M % n`, as line 74 does.

## Model

| member | source | states |
|---|---|---|
| `Blakley.BlakleyMul` | RSA.py:34-40 | For n > 0, any integer a and b >= 0, the result is (a*b) mod n and lies in [0, n). The loop invariant keeps r in [0, n) and equal to a*(b >> i) mod n. b == 0 gives 0, and n == 1 gives 0. |
| `Blakley.DoubleAndAddStep` | RSA.py:37-39 | One iteration (double mod n, then add a mod n when the low bit of s is set) takes a*(s >> 1) mod n to a*s mod n. |
| `ModArith.ShrIsDivision` | RSA.py:38 | `b >> i` equals floor(b / 2^i). |
| `ModArith.ShrBitLength` | RSA.py:36 | `b >> b.bit_length()` is 0, so the accumulator 0 starts the loop consistent with the invariant. |
| `ModArith.BitLengthBounds` | RSA.py:36 | bit_length satisfies 2^(L-1) <= b < 2^L for b > 0, and b < 2^L always. |
| `ModArith.PowMod` | RSA.py:47 | Reducing the base modulo n first does not change base^k mod n. |
| `ModExp.ModExpRL` | RSA.py:43-56 | For exponent > 0 the result is base^exponent mod n, in [0, n). For exponent <= 0 it is 1 unreduced. For n > 1 it is always base^exponent mod n. For n == 1 it is 0, or 1 when exponent <= 0. The loop runs bit_length(exponent) times. |
| `ModExp.SquareAndMultiplyStep` | RSA.py:52-55 | One iteration (multiply if the low bit is set, square, shift) preserves result * base^e mod n. |
| `Euclid.GcdDivides` | RSA.py:22 | Euclid's gcd divides both arguments. |
| `Euclid.GcdGreatest` | RSA.py:22 | Every common divisor divides Euclid's gcd, so it is the greatest common divisor that math.gcd returns. |
| `Euclid.ExtGcd` | RSA.py:24 | Extended Euclid returns the gcd together with Bezout coefficients: a*x + b*y == gcd(a, b). |
| `Euclid.ModInverse` | RSA.py:24 | `pow(a, -1, m)` for m > 0. An inverse exists exactly when gcd(a, m) == 1. It then lies in [0, m) and satisfies a*d == 1 modulo m. Otherwise the result is None, where Python raises ValueError. |
| `Euclid.InverseUnique` | RSA.py:24 | Two inverses of a in [0, m) are equal. So ModInverse returns the same value as Python's pow. |
| `Euclid.NoInverseUnlessCoprime` | RSA.py:22-24 | If a*d == 1 modulo m for some integer d, then gcd(a, m) == 1. |
| `Euclid.CoprimeIffInvertible` | RSA.py:22-24 | gcd(a, m) == 1 holds if and only if some d has a*d == 1 modulo m. |
| `KeyGen.KeyGeneration` | RSA.py:16-28 | For p, q >= 2, key generation fails exactly when gcd(65537, (p-1)(q-1)) != 1. On success, e == 65537, n == p*q, d < phi_n and e*d == 1 modulo phi_n. |
| `KeyGen.FailureMeansNoInverse` | RSA.py:22-24 | When key generation fails, no integer d satisfies e*d == 1 modulo phi_n. |
| `KeyGen.PrivateExponentUnique` | RSA.py:24 | The d of a successful key generation is the only inverse of e in [0, phi_n). |
| `KeyGen.SmallPrimesExample` | RSA.py:19-24 | p = 7 and q = 11 give (e, d, n) = (65537, 53, 77). |
| `KeyGen.ExponentDividesPMinusOne` | RSA.py:20-24 | Whenever 65537 divides p - 1, gcd(e, phi_n) is not 1 and key generation fails, for every q >= 2. |
| `KeyGen.SharedFactorExample` | RSA.py:17-24 | The prime p = 917519 = 14 * 65537 + 1 makes key generation fail for every q >= 2. |
| `Rsa.KeyEquation` | RSA.py:20-24 | For distinct primes, e*d == 1 + k*phi_n for some k >= 0, and d > 0. |
| `Rsa.ExponentIdentity` | RSA.py:74 | For distinct primes p and q and every m >= 0, m^(1 + k(p-1)(q-1)) == m modulo p*q. |
| `Rsa.RoundTrip` | RSA.py:62-74 | For distinct primes and a successful key generation, decrypting the encryption of any m >= 0 gives m mod n, which is the comparison at line 74. |
| `Rsa.EqualPrimesBreakRoundTrip` | RSA.py:17-18 | If p == q (never excluded by the code), message M = p does not survive the round trip. |
| `Rsa.EqualPrimesExample` | RSA.py:17-24 | p = q = 7 yields the key pair (65537, 17, 49), so the previous case arises. |
| `Rsa.RunRsa` | RSA.py:62-74 | A run fails exactly when key generation fails. Otherwise it returns the keys from key generation, C = M^e mod n, M' = C^d mod n and the flag M % n == M'. The flag is true whenever p and q are distinct primes, and false for p == q prime with M = p. |

## Left out

- Prime generation with `sympy.randprime` (lines 17-18) is a foreign library. `p` and `q` are parameters, and primality is the predicate `NumberTheory.IsPrime`, used only as a hypothesis of the round trip.
- `secrets.randbits` (line 12) is a randomness source. The message is a parameter `m >= 0`.
- All `print` calls are diagnostic output. The module-level `M` and `C` are a parameter and a local of `Rsa.RunRsa`.
- Blakley.BlakleyMul: requires `n > 0` and takes `b >= 0`. The driver always passes `n = p*q >= 4` and `b >= 0`. Python's behaviour for a negative `b`, for `n < 0`, and for `n == 0` is not modelled. With `n == 0` the code raises ZeroDivisionError when `b > 0` and returns 0 when `b == 0`, since the loop never runs.
- Blakley.BlakleyMul: the hardware property that every value before a reduction is below `2n` (or `n + a`) is carried by the invariant `0 <= r < n`. It is not stated as a separate contract.
- ModExp.ModExpRL: requires `n > 0`. Python raises ZeroDivisionError at `base % n` when `n == 0`, and for `n < 0` it uses floor-modulo results. Neither case is modelled.
- KeyGen.KeyGeneration: requires `p, q >= 2`, which every prime that randprime returns satisfies. Neither the code nor the model checks primality or `p != q`.
- The source uses phi(n) where RFC 8017 (section 3.2) uses lambda(n). The model follows the source.
