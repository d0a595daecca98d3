/**
 * Right-to-left square-and-multiply exponentiation on top of the Blakley
 * multiplier (RSA.py, modexp_RL_method): the RSAEP / RSADP primitive of
 * RFC 8017 (sections 5.1.1 and 5.1.2), without the message range check that
 * the standard asks for.
 */
module ModExp {
  import opened ModArith
  import opened Blakley

  /**
   * One iteration: multiplying result by base when the low bit of e is set,
   * squaring base and halving e keep result * base^e fixed modulo n.
   */
  lemma SquareAndMultiplyStep(result: int, base: int, e: nat, n: int)
    requires n > 0
    ensures ((if e % 2 == 1 then (result * base) % n else result) * Pow((base * base) % n, e / 2)) % n
            == (result * Pow(base, e)) % n
  {
    var rest := Pow(base * base, e / 2);
    calc {
      Pow(base, e);
      { PowAdd(base, e % 2, 2 * (e / 2)); }
      Pow(base, e % 2) * Pow(base, 2 * (e / 2));
      { PowMul(base, 2, e / 2); }
      Pow(base, e % 2) * Pow(Pow(base, 2), e / 2);
      { assert Pow(base, 1) == base; assert Pow(base, 2) == base * base; }
      Pow(base, e % 2) * rest;
    }
    PowMod(base * base, e / 2, n);
    var sq := Pow((base * base) % n, e / 2);
    assert sq % n == rest % n;
    if e % 2 == 1 {
      calc {
        (((result * base) % n) * sq) % n;
        { MulModLeft(result * base, sq, n); }
        ((result * base) * sq) % n;
        { MulModRight(result * base, sq, n); }
        ((result * base) * (rest % n)) % n;
        { MulModRight(result * base, rest, n); }
        ((result * base) * rest) % n;
        { assert (result * base) * rest == result * (Pow(base, e % 2) * rest); }
        (result * Pow(base, e)) % n;
      }
    } else {
      calc {
        (result * sq) % n;
        { MulModRight(result, sq, n); }
        (result * (rest % n)) % n;
        { MulModRight(result, rest, n); }
        (result * rest) % n;
      }
    }
  }

  /**
   * modexp_RL_method(base, exponent, n). For exponent > 0 the result is
   * base^exponent mod n. For exponent <= 0 the loop never runs and the
   * result is the initial 1, unreduced: for n == 1 this is 1, where
   * Python's pow(base, 0, 1) is 0. The loop runs bit_length(exponent) times.
   */
  method ModExpRL(base: int, exponent: int, n: int) returns (result: int, ghost rounds: nat)
    requires n > 0
    ensures exponent <= 0 ==> result == 1 && rounds == 0
    ensures exponent > 0 ==> 0 <= result < n && result == Pow(base, exponent) % n
                             && rounds == BitLength(exponent)
    ensures n > 1 ==> 0 <= result < n
    ensures n > 1 && exponent >= 0 ==> result == Pow(base, exponent) % n
    ensures n == 1 ==> result == if exponent > 0 then 0 else 1
  {
    result := 1;
    var b := base % n;
    var e := exponent;
    rounds := 0;
    if exponent > 0 {
      PowMod(base, exponent, n);
    }
    while e > 0
      invariant 0 <= b < n
      invariant exponent <= 0 ==> e == exponent && result == 1 && rounds == 0
      invariant exponent > 0 ==> e >= 0
      invariant e > 0 ==> exponent > 0 && rounds + BitLength(e) == BitLength(exponent)
      invariant e > 0 ==> (result * Pow(b, e)) % n == Pow(base, exponent) % n
      invariant result == 1 || 0 <= result < n
      invariant e == 0 && exponent > 0 ==> 0 <= result < n && result == Pow(base, exponent) % n
                                           && rounds == BitLength(exponent)
      decreases e
    {
      SquareAndMultiplyStep(result, b, e, n);
      if e % 2 == 1 {
        result := BlakleyMul(result, b, n);
      }
      b := BlakleyMul(b, b, n);
      e := e / 2;
      rounds := rounds + 1;
      if e == 0 {
        ModIdempotent(result, n);
      }
    }
    if n > 1 {
      ModUnique(1, n, 0, 1);
    }
  }
}
