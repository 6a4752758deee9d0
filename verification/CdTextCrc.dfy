/** The checksum of CD-TEXT packs in libburn/cdtext.c: division of bit strings, read as
    polynomials over GF(2), by x^16 + x^12 + x^5 + 1. */
module CdTextCrc {
  import opened Words16

  /** One round of the division: shift a bit in and cancel x^16 if it appears. */
  function Step(acc: bv16, bit: bool): bv16
  {
    Xor16(ShiftIn(acc, bit), Pick16(Top(acc), 0x1021))
  }

  function ShiftIn(acc: bv16, bit: bool): bv16 { Xor16(Double16(acc), Unit(bit)) }
  function Unit(bit: bool): bv16 { if bit then 1 else 0 }
  predicate Top(acc: bv16) { acc & 0x8000 != 0 }

  /** The register after all bits, most significant first. */
  function Rem(bits: seq<bool>): bv16
  {
    if bits == [] then 0 else Step(Rem(bits[..|bits| - 1]), bits[|bits| - 1])
  }

  // --------------------------------------------------------------- bit level

  lemma UnitXor(x: bool, y: bool)
    ensures Unit(x != y) == Xor16(Unit(x), Unit(y))
  {
    Xor16Units(0);
    Xor16Units(1);
  }

  lemma ShiftInXor(a: bv16, b: bv16, x: bool, y: bool)
    ensures ShiftIn(Xor16(a, b), x != y) == Xor16(ShiftIn(a, x), ShiftIn(b, y))
  {
    hide Xor16; hide Double16; hide Unit;
    Double16Xor(a, b);
    UnitXor(x, y);
    Xor16Swap(Double16(a), Double16(b), Unit(x), Unit(y));
  }

  lemma TopXor(a: bv16, b: bv16)
    ensures Top(Xor16(a, b)) <==> Top(a) != Top(b)
  {
    assert (a ^ b) & 0x8000 == (a & 0x8000) ^ (b & 0x8000);
  }

  lemma PickTopXor(a: bv16, b: bv16, g: bv16)
    ensures Pick16(Top(Xor16(a, b)), g) == Xor16(Pick16(Top(a), g), Pick16(Top(b), g))
  {
    hide Xor16; hide Top;
    TopXor(a, b);
    Xor16Units(g);
    Xor16Units(0);
  }

  lemma StepXor(a: bv16, b: bv16, x: bool, y: bool)
    ensures Step(Xor16(a, b), x != y) == Xor16(Step(a, x), Step(b, y))
  {
    hide Xor16; hide ShiftIn; hide Pick16; hide Top;
    ShiftInXor(a, b, x, y);
    PickTopXor(a, b, 0x1021);
    Xor16Swap(ShiftIn(a, x), ShiftIn(b, y), Pick16(Top(a), 0x1021), Pick16(Top(b), 0x1021));
  }

  // ------------------------------------------------------------- linearity

  function XorBits(a: seq<bool>, b: seq<bool>): (c: seq<bool>)
    requires |a| == |b|
    ensures |c| == |a| && forall i | 0 <= i < |a| :: c[i] == (a[i] != b[i])
  {
    seq(|a|, i requires 0 <= i < |a| => a[i] != b[i])
  }

  /** The remainder is linear in the bits. */
  lemma {:induction false} RemXor(a: seq<bool>, b: seq<bool>)
    requires |a| == |b|
    ensures Rem(XorBits(a, b)) == Xor16(Rem(a), Rem(b))
    decreases |a|
  {
    hide Xor16; hide Step;
    if a == [] {
      Xor16Units(0);
    } else {
      var n := |a| - 1;
      assert XorBits(a, b)[..n] == XorBits(a[..n], b[..n]);
      RemXor(a[..n], b[..n]);
      StepXor(Rem(a[..n]), Rem(b[..n]), a[n], b[n]);
    }
  }

  // --------------------------------------------------------- burst detection

  function ZeroBits(n: nat): (z: seq<bool>)
    ensures |z| == n && forall i | 0 <= i < n :: !z[i]
  {
    seq(n, _ => false)
  }

  lemma StepZero(acc: bv16)
    requires acc != 0
    ensures Step(acc, false) != 0
    ensures Step(0, false) == 0
  {
    StepZeroBits(acc);
  }

  lemma StepZeroBits(acc: bv16)
    requires acc != 0
    ensures ((acc << 1) | 0) ^ (if acc & 0x8000 != 0 then 0x1021 else 0) != 0
    ensures ((0 as bv16 << 1) | 0) ^ (if 0 as bv16 & 0x8000 != 0 then 0x1021 else 0) == 0
  {
  }

  /** Zero bits neither create nor destroy a nonzero register. */
  lemma {:induction false} RemZeros(bits: seq<bool>, n: nat)
    ensures Rem(bits + ZeroBits(n)) == 0 <==> Rem(bits) == 0
    decreases n
  {
    hide Step;
    if n == 0 {
      assert bits + ZeroBits(0) == bits;
    } else {
      var b := bits + ZeroBits(n);
      assert b[..|b| - 1] == bits + ZeroBits(n - 1);
      RemZeros(bits, n - 1);
      StepZero(if Rem(bits + ZeroBits(n - 1)) == 0 then 1 else Rem(bits + ZeroBits(n - 1)));
    }
  }

  lemma {:induction false} RemLeadingZeros(n: nat, bits: seq<bool>)
    ensures Rem(ZeroBits(n) + bits) == Rem(bits)
    decreases |bits|
  {
    hide Step;
    if bits == [] {
      RemZeros([], n);
      assert [] + ZeroBits(n) == ZeroBits(n) + [];
    } else {
      var b := ZeroBits(n) + bits;
      assert b[..|b| - 1] == ZeroBits(n) + bits[..|bits| - 1];
      RemLeadingZeros(n, bits[..|bits| - 1]);
    }
  }

  // -------------------------------------------------- the result is the remainder

  function And(a: bv16, b: bv16): bv16 { a & b }

  /** The register value x^k. */
  function Mask(k: nat): bv16
    requires k < 16
  {
    if k == 0 then 1 else Double16(Mask(k - 1))
  }

  /** Coefficient of x^k in the register. */
  predicate Coefficient(acc: bv16, k: nat)
    requires k < 16
  {
    And(acc, Mask(k)) != 0
  }

  predicate SingleBit(m: bv16) { m != 0 && m & (m - 1) == 0 }

  lemma {:induction false} MaskIsSingle(k: nat)
    requires k < 16
    ensures SingleBit(Mask(k)) && (k < 15 ==> Mask(k) < 0x8000)
  {
    assert Mask(3) == 8 && Mask(7) == 0x80 && Mask(11) == 0x800 && Mask(15) == 0x8000;
  }

  predicate At(q: seq<bool>, j: int) { 0 <= j < |q| && q[j] }

  /** Position i, most significant first, of q * (x^16 + x^12 + x^5 + 1). */
  predicate TimesG(q: seq<bool>, i: int)
  {
    ((At(q, i) != At(q, i - 4)) != At(q, i - 11)) != At(q, i - 16)
  }

  /** bits = q * G + r with r of degree below 16. */
  ghost predicate Division(bits: seq<bool>, q: seq<bool>, r: bv16)
  {
    && |bits| == |q| + 16
    && forall i | 0 <= i < |bits| :: bits[i] == (TimesG(q, i) != RemainderAt(r, |bits|, i))
  }

  /** Position i of n bits that hold r at their end. */
  predicate RemainderAt(r: bv16, n: nat, i: nat)
    requires i < n
  {
    n - 16 <= i && Coefficient(r, n - 1 - i)
  }

  function Quotient(bits: seq<bool>): seq<bool>
  {
    if |bits| <= 16 then [] else Quotient(bits[..|bits| - 1]) + [Top(Rem(bits[..|bits| - 1]))]
  }

  lemma AndXor(a: bv16, b: bv16, m: bv16)
    ensures And(Xor16(a, b), m) == Xor16(And(a, m), And(b, m))
  {
  }

  lemma AndSingle(a: bv16, m: bv16)
    requires SingleBit(m)
    ensures And(a, m) == 0 || And(a, m) == m
  {
  }

  lemma SingleXor(a: bv16, b: bv16, m: bv16)
    requires SingleBit(m)
    ensures And(Xor16(a, b), m) != 0 <==> (And(a, m) != 0) != (And(b, m) != 0)
  {
    hide And; hide Xor16;
    AndXor(a, b, m);
    AndSingle(a, m);
    AndSingle(b, m);
    Xor16Units(0);
    Xor16Units(m);
  }

  lemma CoefficientXor(a: bv16, b: bv16, k: nat)
    requires k < 16
    ensures Coefficient(Xor16(a, b), k) <==> Coefficient(a, k) != Coefficient(b, k)
  {
    hide Mask; hide And; hide Xor16;
    MaskIsSingle(k);
    SingleXor(a, b, Mask(k));
  }

  lemma CoefficientDouble(a: bv16, k: nat)
    requires k < 16
    ensures Coefficient(Double16(a), k) <==> k > 0 && Coefficient(a, k - 1)
  {
    hide Mask; hide Double16; hide And;
    if k == 0 {
      LowBitOfDouble(a);
    } else {
      MaskIsSingle(k - 1);
      MaskNext(k);
      DoubleMask(a, Mask(k - 1));
    }
  }

  lemma MaskNext(k: nat)
    requires 0 < k < 16
    ensures Mask(k) == Double16(Mask(k - 1))
  {
  }

  lemma LowBitOfDouble(a: bv16)
    ensures And(Double16(a), Mask(0)) == 0
  {
  }

  lemma AndDouble(a: bv16, m: bv16)
    ensures And(Double16(a), Double16(m)) == Double16(And(a, m))
  {
  }

  lemma AndBelow(a: bv16, m: bv16)
    requires m < 0x8000
    ensures And(a, m) < 0x8000
  {
  }

  lemma DoubleNonzero(x: bv16)
    requires x < 0x8000
    ensures Double16(x) != 0 <==> x != 0
  {
  }

  lemma DoubleMask(a: bv16, m: bv16)
    requires m < 0x8000
    ensures And(Double16(a), Double16(m)) != 0 <==> And(a, m) != 0
  {
    hide And; hide Double16;
    AndDouble(a, m);
    AndBelow(a, m);
    DoubleNonzero(And(a, m));
  }

  lemma Coefficients(bit: bool, c: bool, k: nat)
    requires k < 16
    ensures Coefficient(Unit(bit), k) <==> bit && k == 0
    ensures Coefficient(Pick16(c, 0x1021), k) <==> c && (k == 0 || k == 5 || k == 12)
  {
    MaskValue(k);
  }

  const POWERS: seq<bv16> := [1, 2, 4, 8, 0x10, 0x20, 0x40, 0x80, 0x100, 0x200, 0x400, 0x800, 0x1000, 0x2000, 0x4000,
      0x8000]

  lemma MaskValue(k: nat)
    requires k < 16
    ensures Mask(k) == POWERS[k]
  {
    assert Mask(3) == 8 && Mask(7) == 0x80 && Mask(11) == 0x800 && Mask(15) == 0x8000;
  }

  lemma StepCoefficient(acc: bv16, bit: bool, k: nat)
    requires k < 16
    ensures Coefficient(Step(acc, bit), k) <==>
            (if k == 0 then bit else Coefficient(acc, k - 1)) != (Coefficient(acc, 15) && (k == 0 || k == 5 || k == 12))
  {
    hide Xor16; hide Double16; hide Unit; hide Pick16; hide Coefficient; hide Top;
    TopCoefficient(acc);
    CoefficientXor(ShiftIn(acc, bit), Pick16(Top(acc), 0x1021), k);
    CoefficientXor(Double16(acc), Unit(bit), k);
    CoefficientDouble(acc, k);
    Coefficients(bit, Top(acc), k);
  }

  lemma TopCoefficient(acc: bv16)
    ensures Top(acc) <==> Coefficient(acc, 15)
  {
    MaskValue(15);
  }

  lemma ZeroCoefficient(k: nat)
    requires k < 16
    ensures !Coefficient(0, k)
  {
  }

  /** Short inputs pass unreduced. */
  lemma {:induction false} ShortCoefficient(bits: seq<bool>, k: nat)
    requires |bits| <= 16 && k < 16
    ensures Coefficient(Rem(bits), k) <==> k < |bits| && bits[|bits| - 1 - k]
    decreases |bits|
  {
    hide Step; hide Coefficient;
    if bits == [] {
      ZeroCoefficient(k);
    } else {
      var m := |bits| - 1;
      StepCoefficient(Rem(bits[..m]), bits[m], k);
      ShortCoefficient(bits[..m], 15);
      if k > 0 {
        ShortCoefficient(bits[..m], k - 1);
      }
    }
  }

  /** A nonzero pattern of at most 16 bits, anywhere among zeros, leaves a remainder. */
  lemma BurstHasRemainder(before: nat, burst: seq<bool>, after: nat)
    requires |burst| <= 16 && burst != ZeroBits(|burst|)
    ensures Rem(ZeroBits(before) + burst + ZeroBits(after)) != 0
  {
    hide Rem; hide Coefficient;
    var i :| 0 <= i < |burst| && burst[i];
    ShortCoefficient(burst, |burst| - 1 - i);
    ZeroCoefficient(|burst| - 1 - i);
    RemLeadingZeros(before, burst);
    RemZeros(ZeroBits(before) + burst, after);
  }

  /** Rem and Quotient are the division with remainder of the bit string by G. */
  lemma {:induction false} RemDivides(bits: seq<bool>)
    requires |bits| >= 16
    ensures Division(bits, Quotient(bits), Rem(bits))
    decreases |bits|
  {
    hide Step; hide Coefficient;
    var n := |bits| - 1;
    if n == 15 {
      forall i | 0 <= i < 16
        ensures bits[i] == (TimesG([], i) != RemainderAt(Rem(bits), 16, i))
      {
        ShortCoefficient(bits, 15 - i);
      }
    } else {
      var oldBits := bits[..n];
      RemDivides(oldBits);
      var q, r := Quotient(oldBits), Rem(oldBits);
      TopCoefficient(r);
      forall i | 0 <= i < n + 1
        ensures bits[i] == (TimesG(Quotient(bits), i) != RemainderAt(Rem(bits), n + 1, i))
      {
        DivisionStep(oldBits, q, r, bits[n], i);
        assert bits == oldBits + [bits[n]];
      }
    }
  }

  lemma DivisionStep(bits: seq<bool>, q: seq<bool>, r: bv16, bit: bool, i: nat)
    requires Division(bits, q, r) && i <= |bits|
    ensures var c := Coefficient(r, 15);
            (bits + [bit])[i] == (TimesG(q + [c], i) != RemainderAt(Step(r, bit), |bits| + 1, i))
  {
    hide Step; hide Coefficient;
    var n, c := |bits|, Coefficient(r, 15);
    var q' := q + [c];
    assert forall j: int | j != |q| :: At(q', j) == At(q, j);
    if n - 16 < i {
      StepCoefficient(r, bit, n - i);
    }
  }

  /** There is only one such division. */
  lemma RemainderUnique(bits: seq<bool>, q: seq<bool>, r: bv16, q': seq<bool>, r': bv16)
    requires Division(bits, q, r) && Division(bits, q', r')
    ensures q == q' && forall k: nat | k < 16 :: Coefficient(r, k) == Coefficient(r', k)
  {
    hide Coefficient;
    forall i | 0 <= i < |q|
      ensures q[i] == q'[i]
    {
      QuotientUnique(bits, q, r, q', r', i);
    }
    var n := |bits|;
    forall k: nat | k < 16
      ensures Coefficient(r, k) == Coefficient(r', k)
    {
      assert RemainderAt(r, n, n - 1 - k) == RemainderAt(r', n, n - 1 - k);
    }
  }

  lemma {:induction false} QuotientUnique(bits: seq<bool>, q: seq<bool>, r: bv16, q': seq<bool>, r': bv16, i: nat)
    requires Division(bits, q, r) && Division(bits, q', r') && i < |q|
    ensures q[i] == q'[i]
    decreases i
  {
    hide Coefficient;
    if i >= 4 {
      QuotientUnique(bits, q, r, q', r', i - 4);
    }
    if i >= 11 {
      QuotientUnique(bits, q, r, q', r', i - 11);
    }
    if i >= 16 {
      QuotientUnique(bits, q, r, q', r', i - 16);
    }
    assert bits[i] == TimesG(q, i) == TimesG(q', i);
  }
}
