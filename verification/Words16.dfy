/** Sums and shifts of 16 bit words, read as polynomials over GF(2). */
module Words16 {

  function Xor16(a: bv16, b: bv16): bv16 { a ^ b }

  /** The word a if the condition holds, else zero. */
  function Pick16(c: bool, a: bv16): bv16 { if c then a else 0 }

  /** Multiplication by x, without any reduction. */
  function Double16(a: bv16): bv16 { a << 1 }

  lemma Xor16Comm(a: bv16, b: bv16)
    ensures Xor16(a, b) == Xor16(b, a)
  {
    assert a ^ b == b ^ a;
  }

  lemma Xor16Assoc(a: bv16, b: bv16, c: bv16)
    ensures Xor16(Xor16(a, b), c) == Xor16(a, Xor16(b, c))
  {
    assert (a ^ b) ^ c == a ^ (b ^ c);
  }

  lemma Xor16Units(a: bv16)
    ensures Xor16(a, 0) == a && Xor16(0, a) == a && Xor16(a, a) == 0
  {
    assert a ^ 0 == a && 0 ^ a == a && a ^ a == 0;
  }

  lemma Xor16Swap(a: bv16, b: bv16, c: bv16, d: bv16)
    ensures Xor16(Xor16(a, b), Xor16(c, d)) == Xor16(Xor16(a, c), Xor16(b, d))
  {
    hide Xor16;
    Xor16Assoc(Xor16(a, b), c, d);
    Xor16Assoc(a, b, c);
    Xor16Comm(b, c);
    Xor16Assoc(a, c, b);
    Xor16Assoc(Xor16(a, c), b, d);
  }

  lemma Double16Xor(a: bv16, b: bv16)
    ensures Double16(Xor16(a, b)) == Xor16(Double16(a), Double16(b))
  {
    assert (a ^ b) << 1 == (a << 1) ^ (b << 1);
  }
}
