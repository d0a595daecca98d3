/**
 * Blakley's bit-serial modular multiplication (RSA.py, blakley_mul).
 *
 * The bits of b are consumed from the most significant down. At each bit the
 * accumulator is doubled modulo n and, when the bit is set, a is added modulo
 * n. The accumulator stays below n throughout, so before each reduction the
 * value is below 2n (doubling) or n + a (addition): this bounded headroom is
 * what makes the routine suitable for a fixed-width hardware datapath.
 */
module Blakley {
  import opened ModArith

  /**
   * One iteration of the loop: if r is a * (s / 2) modulo n, then doubling r
   * and, when the low bit of s is set, adding a gives a * s modulo n.
   */
  lemma DoubleAndAddStep(a: int, s: nat, r: int, n: int)
    requires n > 0
    requires r == (a * (s / 2)) % n
    ensures (if s % 2 == 1 then ((2 * r) % n + a) % n else (2 * r) % n) == (a * s) % n
  {
    var t, bit := s / 2, s % 2;
    assert (2 * r) % n == (a * (2 * t)) % n by {
      MulModRight(2, a * t, n);
      DoublingRegroup(a, t);
    }
    DoubleAndAddRegroup(a, t, bit, s);
    if bit == 1 {
      AddModLeft(a * (2 * t), a, n);
    }
  }

  /** 2 * (a * t) == a * (2 * t). */
  lemma DoublingRegroup(a: int, t: int)
    ensures 2 * (a * t) == a * (2 * t)
  {
  }

  /** With s == 2t + bit, a * s == a * (2t) + a * bit, and a * bit is a or 0. */
  lemma DoubleAndAddRegroup(a: int, t: int, bit: int, s: int)
    requires s == 2 * t + bit && (bit == 0 || bit == 1)
    ensures bit == 1 ==> a * (2 * t) + a == a * s
    ensures bit == 0 ==> a * (2 * t) == a * s
  {
  }

  /**
   * blakley_mul(a, b, n): returns (a * b) mod n. The loop index i runs over
   * range(b.bit_length() - 1, -1, -1); before the iteration for bit i - 1 the
   * accumulator holds a * (b >> i) modulo n, below n.
   */
  method BlakleyMul(a: int, b: nat, n: int) returns (r: int)
    requires n > 0
    ensures 0 <= r < n
    ensures r == (a * b) % n
    ensures b == 0 ==> r == 0
    ensures n == 1 ==> r == 0
  {
    r := 0;
    ShrBitLength(b);
    assert a * Shr(b, BitLength(b)) == 0;
    for i := BitLength(b) downto 0
      invariant 0 <= r < n
      invariant r == (a * Shr(b, i)) % n
    {
      ShrSucc(b, i);
      DoubleAndAddStep(a, Shr(b, i), r, n);
      r := (2 * r) % n;
      if Shr(b, i) % 2 == 1 {
        r := (r + a) % n;
      }
    }
    if b == 0 {
      assert a * b == 0;
    }
  }
}
