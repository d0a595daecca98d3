/**
 * The script part of RSA.py (lines 62-77): generate keys, encrypt M with
 * (e, n), decrypt with (d, n) and compare the result with M % n. The global
 * variables M and C become a parameter and a local; the prints are dropped,
 * and the success flag that decides which message is printed is returned.
 */
module Rsa {
  import opened ModArith
  import opened Wrappers
  import opened Euclid
  import opened NumberTheory
  import opened KeyGen
  import opened ModExp

  /**
   * For distinct primes the key equation e * d == 1 modulo phi_n means
   * e * d == 1 + k * phi_n for some k >= 0, and in particular d != 0.
   */
  lemma KeyEquation(p: nat, q: nat, keys: KeyPair) returns (k: nat)
    requires IsPrime(p) && IsPrime(q) && p != q
    requires KeyGeneration(p, q) == Success(keys)
    ensures keys.d > 0
    ensures keys.e * keys.d == 1 + k * ((p - 1) * (q - 1))
  {
    var phi := Totient(p, q);
    TotientAtLeastTwo(p, q);
    ModUnique(1, phi, 0, 1);
    k := QuotientOfOne(keys.e * keys.d, phi);
  }

  lemma TotientAtLeastTwo(p: nat, q: nat)
    requires p >= 2 && q >= 2 && p != q
    ensures (p - 1) * (q - 1) >= 2
  {
    if p == 2 {
      assert (p - 1) * (q - 1) == q - 1;
    } else {
      MulAtLeast(q - 1, p - 1);
    }
  }

  /** x == 1 modulo phi, x >= 0, writes x as 1 + k * phi with k >= 0. */
  lemma QuotientOfOne(x: nat, phi: nat) returns (k: nat)
    requires phi >= 2 && x % phi == 1
    ensures x == 1 + k * phi
  {
    k := x / phi;
    assert x == k * phi + 1;
  }

  /**
   * Euler's theorem in the form RSA needs: m^(1 + k(p-1)(q-1)) == m modulo
   * p * q for distinct primes p and q and every m >= 0, m not necessarily
   * coprime to p * q.
   */
  lemma ExponentIdentity(p: nat, q: nat, m: nat, k: nat, x: nat)
    requires IsPrime(p) && IsPrime(q) && p != q
    requires x == 1 + k * ((p - 1) * (q - 1))
    ensures Pow(m, x) % (p * q) == m % (p * q)
  {
    var kp, kq := Regroup(k, p - 1, q - 1, x);
    var a := Pow(m, x);
    assert a % p == m % p by {
      FermatPower(m, p, kq);
    }
    assert a % q == m % q by {
      FermatPower(m, q, kp);
    }
    CombineModuli(p, q, a, m);
  }

  /** 1 + k(p-1)(q-1) grouped around either factor, with every part a natural number. */
  lemma Regroup(k: nat, a: nat, b: nat, x: int) returns (ka: nat, kb: nat)
    requires x == 1 + k * (a * b)
    ensures x == 1 + kb * a && x == 1 + ka * b
  {
    MulNonNegative(k, a);
    MulNonNegative(k, b);
    ka, kb := k * a, k * b;
  }

  /** Agreement modulo two distinct primes is agreement modulo their product. */
  lemma CombineModuli(p: int, q: int, a: int, m: int)
    requires IsPrime(p) && IsPrime(q) && p != q
    requires a % p == m % p && a % q == m % q
    ensures a % (p * q) == m % (p * q)
  {
    CongruentIffDivides(a, m, p);
    CongruentIffDivides(a, m, q);
    DistinctPrimesDivide(p, q, a - m);
    CongruentIffDivides(a, m, p * q);
  }

  /**
   * RSA correctness: for distinct primes p and q with a successful key
   * generation, decrypting the encryption of any m >= 0 gives m mod n. d is
   * never 0, so decryption goes through the reducing branch of the
   * exponentiation. Primality and p != q are not checked by the source.
   */
  lemma RoundTrip(p: nat, q: nat, m: nat, keys: KeyPair)
    requires IsPrime(p) && IsPrime(q) && p != q
    requires KeyGeneration(p, q) == Success(keys)
    ensures keys.d > 0
    ensures Pow(Pow(m, keys.e) % keys.n, keys.d) % keys.n == m % keys.n
  {
    var k := KeyEquation(p, q, keys);
    ExponentIdentity(p, q, m, k, keys.e * keys.d);
    PowMod(Pow(m, keys.e), keys.d, keys.n);
    PowMul(m, keys.e, keys.d);
  }

  /**
   * With p == q, which the source does not rule out, the round trip fails
   * for M = p: p^e is a multiple of n = p^2, so the ciphertext is 0 and it
   * decrypts to 0 (or to 1 if d were 0), never to p.
   */
  lemma EqualPrimesBreakRoundTrip(p: nat, keys: KeyPair)
    requires IsPrime(p) && KeyGeneration(p, p) == Success(keys)
    ensures Pow(Pow(p, keys.e) % keys.n, keys.d) % keys.n != p % keys.n
  {
    SquareModulusLosesFactor(p, keys.e, keys.d);
  }

  /** Modulo n = p * p, p^e for e >= 2 is 0, and every power of 0 differs from p. */
  lemma SquareModulusLosesFactor(p: nat, e: nat, d: nat)
    requires p >= 2 && e >= 2
    ensures Pow(Pow(p, e) % (p * p), d) % (p * p) != p % (p * p)
  {
    var n := p * p;
    assert p % n == p by {
      MulAtLeast(p, p);
      ModUnique(p, n, 0, p);
    }
    assert Pow(p, e) % n == 0 by {
      var rest := Pow(p, e - 2);
      PowAdd(p, 2, e - 2);
      PowTwo(p);
      assert Pow(p, e) == rest * n;
      ModOfMultiple(rest, n);
    }
    if d == 0 {
      ModUnique(1, n, 0, 1);
    } else {
      PowZero(d);
      ModOfMultiple(0, n);
    }
  }

  /** p = q = 7 gives a key pair, so the case above does arise. */
  lemma EqualPrimesExample()
    ensures KeyGeneration(7, 7) == Success(KeyPair(65537, 17, 49))
  {
    assert Totient(7, 7) == 36;
    assert ExtGcd(65537, 36) == Bezout(1, 17, -30948);
  }

  /** What one run of the script computes. */
  datatype Transcript = Transcript(keys: KeyPair, ciphertext: int, decrypted: int, success: bool)

  /**
   * Lines 62-74: keys from (p, q), C = M^e mod n, M' = C^d mod n, and the
   * comparison M % n == M'. A failed key generation ends the run, as the
   * exception from pow(e, -1, phi_n) does in the script.
   */
  method RunRsa(p: nat, q: nat, m: nat) returns (r: Result<Transcript, KeyError>)
    requires p >= 2 && q >= 2
    ensures r.Failure? <==> Gcd(PublicExponent, Totient(p, q)) != 1
    ensures r.Success? ==> KeyGeneration(p, q) == Success(r.value.keys)
    ensures r.Success? ==> r.value.ciphertext == Pow(m, PublicExponent) % (p * q)
    ensures r.Success? ==> r.value.decrypted == Pow(r.value.ciphertext, r.value.keys.d) % (p * q)
    ensures r.Success? ==> r.value.success == (m % (p * q) == r.value.decrypted)
    ensures r.Success? && IsPrime(p) && IsPrime(q) && p != q ==>
              r.value.success && r.value.decrypted == m % (p * q)
    ensures r.Success? && IsPrime(p) && p == q && m == p ==> !r.value.success
  {
    var generated := KeyGeneration(p, q);
    if generated.Failure? {
      return Failure(generated.error);
    }
    var keys := generated.value;
    MulAtLeast(p, q);
    ghost var rounds: nat;
    var c: int;
    c, rounds := ModExpRL(m, keys.e, keys.n);
    var decrypted: int;
    decrypted, rounds := ModExpRL(c, keys.d, keys.n);
    assert IsPrime(p) && IsPrime(q) && p != q ==> decrypted == m % keys.n by {
      if IsPrime(p) && IsPrime(q) && p != q {
        RoundTrip(p, q, m, keys);
      }
    }
    assert IsPrime(p) && p == q && m == p ==> decrypted != m % keys.n by {
      if IsPrime(p) && p == q && m == p {
        EqualPrimesBreakRoundTrip(p, keys);
      }
    }
    r := Success(Transcript(keys, c, decrypted, m % keys.n == decrypted));
  }
}
