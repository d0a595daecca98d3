/**
 * The arithmetic of rsa_key_generation (RSA.py lines 16-28) with the two
 * primes taken as parameters instead of drawn by randprime.
 */
module KeyGen {
  import opened ModArith
  import opened Wrappers
  import opened Euclid

  /** The fixed public exponent e (RSA.py line 21). */
  const PublicExponent: nat := 65537

  /** phi_n = (p - 1) * (q - 1), the totient the source uses in place of lambda(n). */
  function Totient(p: nat, q: nat): (phi: nat)
    requires p >= 2 && q >= 2
    ensures phi >= 1
  {
    MulAtLeast(p - 1, q - 1);
    (p - 1) * (q - 1)
  }

  /** The triple (e, d, n) returned by rsa_key_generation. */
  datatype KeyPair = KeyPair(e: nat, d: nat, n: nat)

  /** Why key generation fails: Python's pow(e, -1, phi_n) raises ValueError. */
  datatype KeyError = NotInvertible

  /**
   * n = p * q, phi_n = (p - 1)(q - 1), e = 65537 and d = pow(e, -1, phi_n).
   * The gcd test of line 22 only prints, so it does not decide anything; the
   * failure comes from the inverse at line 24, which exists exactly when the
   * tested gcd is 1. p, q >= 2 holds for every prime randprime can return.
   */
  function KeyGeneration(p: nat, q: nat): (r: Result<KeyPair, KeyError>)
    requires p >= 2 && q >= 2
    ensures r.Failure? <==> Gcd(PublicExponent, Totient(p, q)) != 1
    ensures r.Success? ==> r.value.e == PublicExponent && r.value.n == p * q
    ensures r.Success? ==> r.value.d < Totient(p, q)
                           && (r.value.e * r.value.d) % Totient(p, q) == 1 % Totient(p, q)
  {
    var n := p * q;
    var phi := Totient(p, q);
    match ModInverse(PublicExponent, phi)
    case None => Failure(NotInvertible)
    case Some(d) => Success(KeyPair(PublicExponent, d, n))
  }

  /** When key generation fails, no d at all has e * d == 1 modulo phi_n. */
  lemma FailureMeansNoInverse(p: nat, q: nat, d: int)
    requires p >= 2 && q >= 2
    requires KeyGeneration(p, q).Failure?
    ensures (PublicExponent * d) % Totient(p, q) != 1 % Totient(p, q)
  {
    var phi := Totient(p, q);
    assert Gcd(PublicExponent, phi) != 1;
    NotCoprimeNoInverse(PublicExponent, phi, d);
  }

  /** The d of a successful key generation is the only inverse of e in [0, phi_n). */
  lemma PrivateExponentUnique(p: nat, q: nat, d': int)
    requires p >= 2 && q >= 2
    requires KeyGeneration(p, q).Success?
    requires 0 <= d' < Totient(p, q)
    requires (PublicExponent * d') % Totient(p, q) == 1 % Totient(p, q)
    ensures KeyGeneration(p, q).value.d == d'
  {
    var keys := KeyGeneration(p, q).value;
    InverseUnique(PublicExponent, Totient(p, q), keys.d, d');
  }

  /** p = 7, q = 11: n = 77, phi_n = 60, and d = 53 since 65537 * 53 == 1 modulo 60. */
  lemma SmallPrimesExample()
    ensures KeyGeneration(7, 11) == Success(KeyPair(65537, 53, 77))
  {
    assert Totient(7, 11) == 60;
    assert ExtGcd(65537, 60) == Bezout(1, -7, 7646);
  }

  /**
   * When e divides p - 1 it divides phi_n, so gcd(e, phi_n) is e itself and
   * key generation fails, whatever q is.
   */
  lemma ExponentDividesPMinusOne(p: nat, q: nat)
    requires p >= 2 && q >= 2 && Divides(PublicExponent, p - 1)
    ensures KeyGeneration(p, q) == Failure(NotInvertible)
  {
    var phi := Totient(p, q);
    var k := (p - 1) / PublicExponent;
    assert Divides(PublicExponent, phi) by {
      assert p - 1 == k * PublicExponent;
      var c := FactorOut(k, q - 1, PublicExponent);
      ModOfMultiple(c, PublicExponent);
    }
    assert Divides(PublicExponent, PublicExponent) by {
      ModOfMultiple(1, PublicExponent);
    }
    GcdGreatest(PublicExponent, phi, PublicExponent);
    GcdDivides(PublicExponent, phi);
    DivisorBound(PublicExponent, Gcd(PublicExponent, phi));
  }

  /** (k * e) * b == c * e with c == k * b. */
  lemma FactorOut(k: int, b: int, e: int) returns (c: int)
    ensures (k * e) * b == c * e
  {
    c := k * b;
  }

  /**
   * 917519 == 14 * 65537 + 1 is prime, and key generation fails for it with
   * every q: the failure does not need a non-prime input. Primes of this
   * form exist in randprime's range too; primality of 917519 is not part of
   * the lemma.
   */
  lemma SharedFactorExample(q: nat)
    requires q >= 2
    ensures KeyGeneration(917519, q) == Failure(NotInvertible)
  {
    assert 917519 - 1 == 14 * PublicExponent;
    ExponentDividesPMinusOne(917519, q);
  }
}
