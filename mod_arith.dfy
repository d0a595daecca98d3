/**
 * Integer arithmetic shared by the multiplier, the exponentiator and the key
 * generator: powers, Python's shift and bit_length on non-negative integers,
 * divisibility, and the facts about `%` that the proofs build on.
 *
 * Dafny's `/` and `%` are Euclidean. For a positive modulus they agree with
 * Python's floor division and modulo, which is the only case the model uses.
 */
module ModArith {

  /** x to the power k, k >= 0. */
  function Pow(x: int, k: nat): int
  {
    if k == 0 then 1 else x * Pow(x, k - 1)
  }

  /** d > 0 divides x. */
  predicate Divides(d: int, x: int)
  {
    d > 0 && x % d == 0
  }

  /** Python's `b >> i` for b >= 0. */
  function Shr(b: nat, i: nat): nat
  {
    if i == 0 then b else Shr(b / 2, i - 1)
  }

  /** Python's `b.bit_length()` for b >= 0. */
  function BitLength(b: nat): nat
  {
    if b == 0 then 0 else 1 + BitLength(b / 2)
  }

  // ---------------------------------------------------------------------
  // Division with remainder

  /** The quotient and remainder of a positive modulus are unique. */
  lemma ModUnique(x: int, n: int, q: int, r: int)
    requires n > 0 && 0 <= r < n && x == q * n + r
    ensures x / n == q && x % n == r
  {
    var q0, r0 := x / n, x % n;
    assert x == q0 * n + r0;
    assert (q - q0) * n == r0 - r;
    if q > q0 {
      MulAtLeast(q - q0, n);
    } else if q < q0 {
      MulAtLeast(q0 - q, n);
    }
  }

  lemma MulAtLeast(k: int, n: int)
    requires k >= 1 && n > 0
    ensures k * n >= n
  {
    assert k * n == (k - 1) * n + n;
    assert (k - 1) * n >= 0;
  }

  lemma MulNonNegative(a: int, b: int)
    requires a >= 0 && b >= 0
    ensures a * b >= 0
  {
    if a > 0 && b > 0 {
      MulAtLeast(a, b);
    }
  }

  lemma ModOfMultiple(k: int, n: int)
    requires n > 0
    ensures (k * n) % n == 0
  {
    ModUnique(k * n, n, k, 0);
  }

  lemma ModIdempotent(x: int, n: int)
    requires n > 0
    ensures (x % n) % n == x % n
  {
    ModUnique(x % n, n, 0, x % n);
  }

  /** Reducing the summands first does not change a sum modulo n. */
  lemma ModAdd(x: int, y: int, n: int)
    requires n > 0
    ensures (x + y) % n == (x % n + y % n) % n
  {
    var qx, rx := x / n, x % n;
    var qy, ry := y / n, y % n;
    var s, t := (rx + ry) / n, (rx + ry) % n;
    assert rx + ry == s * n + t;
    assert x + y == (qx + qy + s) * n + t;
    ModUnique(x + y, n, qx + qy + s, t);
  }

  /** Reducing the factors first does not change a product modulo n. */
  lemma ModMul(x: int, y: int, n: int)
    requires n > 0
    ensures (x * y) % n == ((x % n) * (y % n)) % n
  {
    var qx, rx := x / n, x % n;
    var qy, ry := y / n, y % n;
    var s, t := (rx * ry) / n, (rx * ry) % n;
    var q := qx * qy * n + qx * ry + rx * qy + s;
    assert x * y == q * n + t by {
      assert x == qx * n + rx && y == qy * n + ry;
      ProductExpansion(qx, rx, qy, ry, n, s, t);
    }
    ModUnique(x * y, n, q, t);
  }

  /** The polynomial identity behind ModMul. */
  lemma ProductExpansion(qx: int, rx: int, qy: int, ry: int, n: int, s: int, t: int)
    requires rx * ry == s * n + t
    ensures (qx * n + rx) * (qy * n + ry) == (qx * qy * n + qx * ry + rx * qy + s) * n + t
  {
  }

  lemma MulModRight(x: int, y: int, n: int)
    requires n > 0
    ensures (x * (y % n)) % n == (x * y) % n
  {
    ModMul(x, y % n, n);
    ModIdempotent(y, n);
    ModMul(x, y, n);
  }

  lemma MulModLeft(x: int, y: int, n: int)
    requires n > 0
    ensures ((x % n) * y) % n == (x * y) % n
  {
    MulModRight(y, x, n);
  }

  lemma AddModLeft(x: int, y: int, n: int)
    requires n > 0
    ensures (x % n + y) % n == (x + y) % n
  {
    ModAdd(x % n, y, n);
    ModIdempotent(x, n);
    ModAdd(x, y, n);
  }

  /** Halving after dividing by m is dividing by 2m. */
  lemma DivHalf(x: nat, m: nat)
    requires m > 0
    ensures (x / m) / 2 == x / (m * 2)
  {
    var q, r := x / m, x % m;
    var q2, s := q / 2, q % 2;
    assert x == q * m + r;
    assert q == q2 * 2 + s;
    HalvingRegroup(q, q2, s, m, r);
    assert 0 <= s * m + r < m * 2 by {
      if s == 1 {
        assert s * m == m;
      }
    }
    ModUnique(x, m * 2, q2, s * m + r);
  }

  /** The polynomial identity behind DivHalf. */
  lemma HalvingRegroup(q: int, q2: int, s: int, m: int, r: int)
    requires q == q2 * 2 + s
    ensures q * m + r == q2 * (m * 2) + (s * m + r)
  {
  }

  // ---------------------------------------------------------------------
  // Powers

  lemma {:induction false} PowAdd(x: int, a: nat, b: nat)
    ensures Pow(x, a + b) == Pow(x, a) * Pow(x, b)
    decreases a
  {
    if a > 0 {
      PowAdd(x, a - 1, b);
      assert Pow(x, a + b) == x * Pow(x, (a - 1) + b);
    }
  }

  lemma {:induction false} PowMul(x: int, a: nat, b: nat)
    ensures Pow(x, a * b) == Pow(Pow(x, a), b)
    decreases b
  {
    if b > 0 {
      PowMul(x, a, b - 1);
      assert a * b == a * (b - 1) + a;
      PowAdd(x, a * (b - 1), a);
    }
  }

  lemma PowSucc(x: int, m: nat)
    ensures Pow(x, 1 + m) == x * Pow(x, m)
  {
  }

  lemma PowTwo(x: int)
    ensures Pow(x, 2) == x * x
  {
    assert Pow(x, 1) == x;
  }

  /** 0^k == 0 for k >= 1. */
  lemma PowZero(k: nat)
    requires k >= 1
    ensures Pow(0, k) == 0
  {
    assert Pow(0, k) == 0 * Pow(0, k - 1);
  }

  lemma {:induction false} PowNonNegative(x: int, k: nat)
    requires x >= 0
    ensures Pow(x, k) >= 0
  {
    if k > 0 {
      PowNonNegative(x, k - 1);
    }
  }

  lemma {:induction false} PowPositive(x: int, k: nat)
    requires x > 0
    ensures Pow(x, k) > 0
  {
    if k > 0 {
      PowPositive(x, k - 1);
    }
  }

  /** Reducing the base first does not change a power modulo n. */
  lemma {:induction false} PowMod(x: int, k: nat, n: int)
    requires n > 0
    ensures Pow(x % n, k) % n == Pow(x, k) % n
  {
    if k > 0 {
      calc {
        Pow(x % n, k) % n;
        ((x % n) * Pow(x % n, k - 1)) % n;
        { MulModRight(x % n, Pow(x % n, k - 1), n); }
        ((x % n) * (Pow(x % n, k - 1) % n)) % n;
        { PowMod(x, k - 1, n); }
        ((x % n) * (Pow(x, k - 1) % n)) % n;
        { MulModRight(x % n, Pow(x, k - 1), n); }
        ((x % n) * Pow(x, k - 1)) % n;
        { MulModLeft(x, Pow(x, k - 1), n); }
        (x * Pow(x, k - 1)) % n;
      }
    }
  }

  // ---------------------------------------------------------------------
  // Shifts and bit length

  /** Shifting one place further halves the value. */
  lemma {:induction false} ShrSucc(b: nat, i: nat)
    ensures Shr(b, i + 1) == Shr(b, i) / 2
    decreases i
  {
    if i > 0 {
      ShrSucc(b / 2, i - 1);
    }
  }

  /** `b >> i` is floor division by 2^i. */
  lemma {:induction false} ShrIsDivision(b: nat, i: nat)
    ensures Pow(2, i) > 0 && Shr(b, i) == b / Pow(2, i)
    decreases i
  {
    PowPositive(2, i);
    if i > 0 {
      ShrIsDivision(b, i - 1);
      ShrSucc(b, i - 1);
      DivHalf(b, Pow(2, i - 1));
    }
  }

  /** Shifting b right by its bit length leaves nothing. */
  lemma {:induction false} ShrBitLength(b: nat)
    ensures Shr(b, BitLength(b)) == 0
  {
    if b > 0 {
      ShrBitLength(b / 2);
    }
  }

  /** Python's definition of bit_length: 2^(L-1) <= b < 2^L, and L == 0 for b == 0. */
  lemma {:induction false} BitLengthBounds(b: nat)
    ensures b < Pow(2, BitLength(b))
    ensures b > 0 ==> BitLength(b) >= 1 && Pow(2, BitLength(b) - 1) <= b
  {
    if b > 0 {
      BitLengthBounds(b / 2);
    }
  }
}
