/**
 * The number theory behind the RSA round trip: primes, Euclid's lemma,
 * the binomial theorem, Fermat's little theorem and the step from two
 * distinct prime moduli to their product. The driver in RSA.py relies on
 * all of this without stating it; none of it is in the source as code.
 */
module NumberTheory {
  import opened ModArith
  import opened Euclid

  /** p is prime: above 1, with no divisor strictly between 1 and p. */
  predicate IsPrime(p: int)
  {
    p > 1 && forall d :: 1 < d < p ==> !Divides(d, p)
  }

  // ---------------------------------------------------------------------
  // Divisibility and congruence

  lemma DividesMultiple(d: int, a: int, x: int)
    requires Divides(d, a)
    ensures Divides(d, a * x)
  {
    DividesCombination(d, a, a, x, 0);
  }

  lemma DividesSum(d: int, a: int, b: int)
    requires Divides(d, a) && Divides(d, b)
    ensures Divides(d, a + b)
  {
    DividesCombination(d, a, b, 1, 1);
  }

  /** d divides a - b exactly when a and b agree modulo d. */
  lemma CongruentIffDivides(a: int, b: int, d: int)
    requires d > 0
    ensures a % d == b % d <==> Divides(d, a - b)
  {
    var qa, qb := a / d, b / d;
    assert a == qa * d + a % d && b == qb * d + b % d;
    if a % d == b % d {
      assert a - b == (qa - qb) * d;
      ModOfMultiple(qa - qb, d);
    }
    if Divides(d, a - b) {
      var k := (a - b) / d;
      assert a - b == k * d;
      assert a == (qb + k) * d + b % d;
      ModUnique(a, d, qb + k, b % d);
    }
  }

  /** A prime p that does not divide a is coprime to it. */
  lemma PrimeCoprime(p: int, a: nat)
    requires IsPrime(p) && !Divides(p, a)
    ensures Gcd(a, p) == 1
  {
    GcdDivides(a, p);
    DivisorBound(Gcd(a, p), p);
  }

  /** Euclid's lemma: a prime dividing a product divides one of the factors. */
  lemma EuclidLemma(p: int, a: int, b: int)
    requires IsPrime(p) && Divides(p, a * b)
    ensures Divides(p, a) || Divides(p, b)
  {
    if !Divides(p, a) {
      var ar := a % p;
      assert Gcd(ar, p) == 1 by {
        ModIdempotent(a, p);
        PrimeCoprime(p, ar);
      }
      var bz := ExtGcd(ar, p);
      assert Divides(p, ar * b) by {
        MulModLeft(a, b, p);
      }
      assert Divides(p, p) by {
        ModOfMultiple(1, p);
      }
      DividesCombination(p, ar * b, p, bz.x, b * bz.y);
      BezoutScale(ar, p, b, bz.x, bz.y);
    }
  }

  /** A Bezout identity for 1, multiplied through by b. */
  lemma BezoutScale(a: int, m: int, b: int, x: int, y: int)
    requires a * x + m * y == 1
    ensures (a * b) * x + m * (b * y) == b
  {
    assert (a * b) * x + m * (b * y) == b * (a * x + m * y);
  }

  /** Two distinct primes that both divide x: their product divides x. */
  lemma DistinctPrimesDivide(p: int, q: int, x: int)
    requires IsPrime(p) && IsPrime(q) && p != q
    requires Divides(p, x) && Divides(q, x)
    ensures Divides(p * q, x)
  {
    var s := x / p;
    assert x == p * s;
    EuclidLemma(q, p, s);
    if Divides(q, p) {
      DivisorBound(q, p);
      assert false;
    }
    var t := s / q;
    assert s == q * t;
    assert x == t * (p * q);
    ModOfMultiple(t, p * q);
  }

  // ---------------------------------------------------------------------
  // Binomial coefficients

  /** n choose k, by Pascal's rule. */
  function Binom(n: nat, k: nat): nat
  {
    if k == 0 then 1
    else if n == 0 then 0
    else Binom(n - 1, k - 1) + Binom(n - 1, k)
  }

  lemma {:induction false} BinomAbove(n: nat, k: nat)
    requires k > n
    ensures Binom(n, k) == 0
  {
    if n > 0 {
      BinomAbove(n - 1, k - 1);
      BinomAbove(n - 1, k);
    }
  }

  lemma {:induction false} BinomDiagonal(n: nat)
    ensures Binom(n, n) == 1
  {
    if n > 0 {
      BinomDiagonal(n - 1);
      BinomAbove(n - 1, n);
    }
  }

  /** The absorption identity k * C(n, k) == n * C(n - 1, k - 1). */
  lemma {:induction false} BinomAbsorb(n: nat, k: nat)
    requires 1 <= k && 1 <= n
    ensures k * Binom(n, k) == n * Binom(n - 1, k - 1)
  {
    if n == 1 {
      if k > 1 {
        BinomAbove(0, k - 1);
        BinomAbove(0, k);
      }
    } else if k == 1 {
      BinomAbsorb(n - 1, 1);
    } else {
      BinomAbsorb(n - 1, k);
      BinomAbsorb(n - 1, k - 1);
      AbsorbStep(n, k, Binom(n - 2, k - 2), Binom(n - 2, k - 1), Binom(n - 1, k - 1),
                 Binom(n - 1, k), Binom(n, k));
    }
  }

  /** The arithmetic of one step of BinomAbsorb, over plain integers. */
  lemma AbsorbStep(n: int, k: int, a: int, b: int, c: int, below: int, here: int)
    requires here == c + below && c == a + b
    requires k * below == (n - 1) * b && (k - 1) * c == (n - 1) * a
    ensures k * here == n * c
  {
    calc {
      k * here;
      k * c + k * below;
      (k - 1) * c + c + (n - 1) * b;
      (n - 1) * a + c + (n - 1) * b;
      (n - 1) * (a + b) + c;
      n * c;
    }
  }

  /** A prime p divides C(p, k) for 0 < k < p. */
  lemma PrimeDividesBinom(p: nat, k: nat)
    requires IsPrime(p) && 0 < k < p
    ensures Divides(p, Binom(p, k))
  {
    BinomAbsorb(p, k);
    PrimeDividesCofactor(p, k, Binom(p, k), Binom(p - 1, k - 1));
  }

  /** k * c == p * b with p prime and 0 < k < p: p divides c. */
  lemma PrimeDividesCofactor(p: int, k: int, c: int, b: int)
    requires IsPrime(p) && 0 < k < p && k * c == p * b
    ensures Divides(p, c)
  {
    assert k * c == b * p;
    ModOfMultiple(b, p);
    EuclidLemma(p, k, c);
    if Divides(p, k) {
      DivisorBound(p, k);
      assert false;
    }
  }

  /** The first j + 1 terms of the expansion of (x + 1)^n: sum of C(n, i) * x^i for i <= j. */
  function BinomSum(x: int, n: nat, j: nat): int
  {
    (if j == 0 then 0 else BinomSum(x, n, j - 1)) + Binom(n, j) * Pow(x, j)
  }

  /** Pascal's rule lifted to the partial sums. */
  lemma {:induction false} BinomSumPascal(x: int, n: nat, j: nat)
    requires j >= 1
    ensures BinomSum(x, n + 1, j) == BinomSum(x, n, j) + x * BinomSum(x, n, j - 1)
  {
    var t2 := if j == 1 then 0 else BinomSum(x, n, j - 2);
    if j > 1 {
      BinomSumPascal(x, n, j - 1);
    }
    PascalArith(x, Pow(x, j - 1), Pow(x, j), Binom(n, j - 1), Binom(n, j), Binom(n + 1, j),
                BinomSum(x, n + 1, j - 1), BinomSum(x, n, j - 1), t2);
  }

  /** The arithmetic of one step of BinomSumPascal, over plain integers. */
  lemma PascalArith(x: int, xj1: int, xj: int, left: int, right: int, both: int,
                    s1: int, t1: int, t2: int)
    requires xj == x * xj1 && both == left + right
    requires t1 == t2 + left * xj1 && s1 == t1 + x * t2
    ensures s1 + both * xj == (t1 + right * xj) + x * t1
  {
    calc {
      s1 + both * xj;
      t1 + x * t2 + left * xj + right * xj;
      t1 + x * t2 + x * (left * xj1) + right * xj;
      (t1 + right * xj) + x * (t2 + left * xj1);
    }
  }

  /** The binomial theorem for (x + 1)^n. */
  lemma {:induction false} BinomialTheorem(x: int, n: nat)
    ensures Pow(x + 1, n) == BinomSum(x, n, n)
  {
    if n > 0 {
      var s := BinomSum(x, n - 1, n - 1);
      BinomialTheorem(x, n - 1);
      BinomSumPascal(x, n - 1, n);
      BinomAbove(n - 1, n);
      assert BinomSum(x, n - 1, n) == s + 0 * Pow(x, n);
      PowSucc(x + 1, n - 1);
      SuccTimes(x, s);
    }
  }

  lemma SuccTimes(x: int, s: int)
    ensures (x + 1) * s == s + x * s
  {
  }

  /** For 1 <= j < p every term after the first is a multiple of p. */
  lemma {:induction false} BinomSumPrime(x: int, p: nat, j: nat)
    requires IsPrime(p) && 1 <= j < p
    ensures Divides(p, BinomSum(x, p, j) - 1)
  {
    PrimeDividesBinom(p, j);
    DividesMultiple(p, Binom(p, j), Pow(x, j));
    if j > 1 {
      BinomSumPrime(x, p, j - 1);
      DividesSum(p, BinomSum(x, p, j - 1) - 1, Binom(p, j) * Pow(x, j));
    }
  }

  /** (x + 1)^p == x^p + 1 modulo a prime p. */
  lemma FreshmansDream(x: int, p: nat)
    requires IsPrime(p)
    ensures Divides(p, Pow(x + 1, p) - Pow(x, p) - 1)
  {
    BinomialTheorem(x, p);
    BinomSumPrime(x, p, p - 1);
    BinomDiagonal(p);
    assert BinomSum(x, p, p) == BinomSum(x, p, p - 1) + Binom(p, p) * Pow(x, p);
    assert Pow(x + 1, p) - Pow(x, p) - 1 == BinomSum(x, p, p - 1) - 1;
  }

  /** Fermat's little theorem: x^p == x modulo a prime p. */
  lemma {:induction false} Fermat(x: nat, p: nat)
    requires IsPrime(p)
    ensures Pow(x, p) % p == x % p
  {
    if x == 0 {
      PowZero(p);
    } else {
      var y: int := x - 1;
      assert Pow(y, p) % p == y % p by {
        Fermat(x - 1, p);
      }
      assert Divides(p, Pow(y + 1, p) - Pow(y, p) - 1) by {
        FreshmansDream(y, p);
      }
      FermatStep(p, y, Pow(y + 1, p), Pow(y, p));
      assert y + 1 == x;
    }
  }

  /** The inductive step of Fermat, over plain integers: before == y and now == before + 1 modulo p. */
  lemma FermatStep(p: int, y: int, now: int, before: int)
    requires p > 0
    requires before % p == y % p
    requires Divides(p, now - before - 1)
    ensures now % p == (y + 1) % p
  {
    CongruentIffDivides(before, y, p);
    DividesSum(p, now - before - 1, before - y);
    assert (now - before - 1) + (before - y) == now - (y + 1);
    CongruentIffDivides(now, y + 1, p);
  }

  /** x^(1 + k(p - 1)) == x modulo a prime p, for every k >= 0. */
  lemma {:induction false} FermatPower(x: nat, p: nat, k: nat)
    requires IsPrime(p)
    ensures Pow(x, 1 + k * (p - 1)) % p == x % p
  {
    if k > 0 {
      var m := ExponentSplit(k, p);
      FermatPower(x, p, k - 1);
      Fermat(x, p);
      PowAdd(x, m, p);
      PowSucc(x, m);
      CongruentFactor(Pow(x, m), Pow(x, p), x, p);
    }
  }

  lemma ExponentSplit(k: nat, p: nat) returns (m: nat)
    requires k >= 1 && p >= 1
    ensures m == (k - 1) * (p - 1) && 1 + k * (p - 1) == m + p
  {
    var a: nat, b: nat := k - 1, p - 1;
    MulNonNegative(a, b);
    m := a * b;
  }

  /** Replacing a factor by a congruent one keeps a product's residue. */
  lemma CongruentFactor(a: int, b: int, c: int, n: int)
    requires n > 0 && b % n == c % n
    ensures (a * b) % n == (c * a) % n
  {
    MulModRight(a, b, n);
    MulModRight(a, c, n);
    assert a * c == c * a;
  }
}
