/**
 * Greatest common divisor and modular inverse: the model's own definitions of
 * the two library calls in rsa_key_generation, `math.gcd(e, phi_n)` and
 * `pow(e, -1, phi_n)` (RSA.py lines 22 and 24).
 */
module Euclid {
  import opened ModArith
  import opened Wrappers

  /** Euclid's algorithm on non-negative integers, as math.gcd computes it. */
  function Gcd(a: nat, b: nat): nat
    decreases b
  {
    if b == 0 then a else Gcd(b, a % b)
  }

  /** A gcd g with Bezout coefficients: a * x + b * y == g. */
  datatype Bezout = Bezout(g: nat, x: int, y: int)

  /** The extended Euclidean algorithm. */
  function ExtGcd(a: nat, b: nat): (r: Bezout)
    ensures r.g == Gcd(a, b)
    ensures a * r.x + b * r.y == r.g
    decreases b
  {
    if b == 0 then Bezout(a, 1, 0)
    else
      var r' := ExtGcd(b, a % b);
      var k := a / b;
      BezoutStep(a, b, k, a % b, r'.x, r'.y, r'.g);
      Bezout(r'.g, r'.y, r'.x - k * r'.y)
  }

  /** The coefficient update of one step of ExtGcd, over plain integers. */
  lemma BezoutStep(a: int, b: int, k: int, rem: int, x: int, y: int, g: int)
    requires a == b * k + rem && b * x + rem * y == g
    ensures a * y + b * (x - k * y) == g
  {
    calc {
      a * y + b * (x - k * y);
      (b * k + rem) * y + b * x - b * (k * y);
      b * k * y + rem * y + b * x - b * k * y;
      g;
    }
  }

  // ---------------------------------------------------------------------
  // Divisibility facts

  /** A common divisor of a and b divides every integer combination of them. */
  lemma DividesCombination(d: int, a: int, b: int, x: int, y: int)
    requires Divides(d, a) && Divides(d, b)
    ensures Divides(d, a * x + b * y)
  {
    var ka, kb := a / d, b / d;
    assert a == d * ka && b == d * kb;
    assert a * x + b * y == (ka * x + kb * y) * d;
    ModOfMultiple(ka * x + kb * y, d);
  }

  /** The only positive divisor of 1 is 1. */
  lemma DividesOne(d: int)
    requires Divides(d, 1)
    ensures d == 1
  {
    if d > 1 {
      ModUnique(1, d, 0, 1);
    }
  }

  /** A positive divisor of a positive number is not larger than it. */
  lemma DivisorBound(d: int, x: int)
    requires Divides(d, x) && x > 0
    ensures d <= x
  {
    var k := x / d;
    assert x == k * d;
    MulAtLeast(k, d);
  }

  /** Gcd(a, b) divides both a and b (when not both are 0). */
  lemma {:induction false} GcdDivides(a: nat, b: nat)
    requires a > 0 || b > 0
    ensures Divides(Gcd(a, b), a) && Divides(Gcd(a, b), b)
    decreases b
  {
    if b == 0 {
      ModOfMultiple(1, a);
    } else {
      GcdDivides(b, a % b);
      var g := Gcd(a, b);
      assert a == (a / b) * b + (a % b);
      DividesCombination(g, b, a % b, a / b, 1);
    }
  }

  /** Every common divisor of a and b divides Gcd(a, b): it is the greatest. */
  lemma {:induction false} GcdGreatest(a: nat, b: nat, d: int)
    requires Divides(d, a) && Divides(d, b)
    ensures Divides(d, Gcd(a, b))
    decreases b
  {
    if b > 0 {
      assert a % b == a * 1 + b * (-(a / b));
      DividesCombination(d, a, b, 1, -(a / b));
      GcdGreatest(b, a % b, d);
    }
  }

  /** Gcd(a, m) == 1 is exactly the case in which a has an inverse modulo m. */
  lemma CoprimeIffInvertible(a: nat, m: nat)
    requires m > 0
    ensures Gcd(a, m) == 1 <==> exists d: int :: (a * d) % m == 1 % m
  {
    if Gcd(a, m) == 1 {
      var r := ExtGcd(a, m);
      BezoutInverse(a, m, r.x, r.y);
    }
    if d: int :| (a * d) % m == 1 % m {
      NoInverseUnlessCoprime(a, m, d);
    }
  }

  /** If a * d is 1 modulo m then Gcd(a, m) is 1. */
  lemma NoInverseUnlessCoprime(a: nat, m: nat, d: int)
    requires m > 0
    requires (a * d) % m == 1 % m
    ensures Gcd(a, m) == 1
  {
    GcdDivides(a, m);
    var g := Gcd(a, m);
    var k := (a * d) / m;
    assert a * d == k * m + (a * d) % m;
    if m == 1 {
      assert g == Gcd(1, 0);
    } else {
      ModUnique(1, m, 0, 1);
      assert 1 == a * d + m * (-k);
      DividesCombination(g, a, m, d, -k);
      DividesOne(g);
    }
  }

  /** The contrapositive: when Gcd(a, m) != 1, no d makes a * d one modulo m. */
  lemma NotCoprimeNoInverse(a: nat, m: nat, d: int)
    requires m > 0 && Gcd(a, m) != 1
    ensures (a * d) % m != 1 % m
  {
    if (a * d) % m == 1 % m {
      NoInverseUnlessCoprime(a, m, d);
    }
  }

  // ---------------------------------------------------------------------
  // Modular inverse

  /** Bezout coefficients for 1 give an inverse: a * x + m * y == 1 makes a * x one modulo m. */
  lemma BezoutInverse(a: int, m: int, x: int, y: int)
    requires m > 0 && a * x + m * y == 1
    ensures (a * x) % m == 1 % m
  {
    if m == 1 {
      ModUnique(a * x, 1, a * x, 0);
      ModUnique(1, 1, 1, 0);
    } else {
      assert a * x == (-y) * m + 1;
      ModUnique(a * x, m, -y, 1);
      ModUnique(1, m, 0, 1);
    }
  }

  /**
   * Python's `pow(a, -1, m)` for m > 0: the inverse of a modulo m in the
   * range [0, m), or None where Python raises ValueError because a and m are
   * not coprime. For m == 1 the inverse is 0, as in Python.
   */
  function ModInverse(a: nat, m: nat): (r: Option<nat>)
    requires m > 0
    ensures r.Some? <==> Gcd(a, m) == 1
    ensures r.Some? ==> r.value < m && (a * r.value) % m == 1 % m
  {
    var b := ExtGcd(a, m);
    if b.g != 1 then None
    else
      assert (a * (b.x % m)) % m == 1 % m by {
        MulModRight(a, b.x, m);
        BezoutInverse(a, m, b.x, b.y);
      }
      Some(b.x % m)
  }

  /** An inverse modulo m in [0, m) is unique, so ModInverse is the value Python returns. */
  lemma InverseUnique(a: nat, m: nat, d1: int, d2: int)
    requires m > 0
    requires 0 <= d1 < m && 0 <= d2 < m
    requires (a * d1) % m == 1 % m && (a * d2) % m == 1 % m
    ensures d1 == d2
  {
    // d1 == d1 * (a * d2) == (d1 * a) * d2 == d2, all modulo m
    calc {
      d1;
      { ModUnique(d1, m, 0, d1); }
      d1 % m;
      { MulModRight(d1, 1, m); }
      (d1 * (1 % m)) % m;
      { MulModRight(d1, a * d2, m); }
      (d1 * (a * d2)) % m;
      { assert d1 * (a * d2) == (a * d1) * d2; }
      ((a * d1) * d2) % m;
      { MulModLeft(a * d1, d2, m); }
      ((1 % m) * d2) % m;
      { MulModLeft(1, d2, m); }
      d2 % m;
      { ModUnique(d2, m, 0, d2); }
      d2;
    }
  }
}
