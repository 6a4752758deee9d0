/** The byte arithmetic of poler_core.h: products in GF(2^8) modulo 0x11b, inverses, S-boxes. */
module PolerSbox {
  import Gf256
  import ByteOrbit

  const AES: bv8 := 0x1B

  /** ct_gf256_mul: eight rounds of add, shift and reduce, without branches on data. */
  method CtGf256Mul(a: bv8, b: bv8) returns (p: bv8)
    ensures p == Gf256.Mul(AES, a, b)
  {
    hide Gf256.Xor; hide Gf256.Pick; hide Gf256.Xtime; hide Gf256.Half; hide Gf256.Odd;
    p := 0;
    var aa, bb := a, b;
    Gf256.XorUnits(Gf256.Mul(AES, a, b));
    for i := 0 to 8
      invariant Gf256.Xor(p, Gf256.MulFrom(AES, aa, bb, 8 - i)) == Gf256.Mul(AES, a, b)
    {
      Gf256.XorAssoc(p, Gf256.Pick(Gf256.Odd(bb), aa), Gf256.MulFrom(AES, Gf256.Xtime(AES, aa), Gf256.Half(bb), 7 - i));
      p := Gf256.Xor(p, Gf256.Pick(Gf256.Odd(bb), aa));
      aa := Gf256.Xtime(AES, aa);
      bb := Gf256.Half(bb);
    }
    Gf256.XorUnits(p);
  }

  /** x^254 by repeated squaring. */
  function CtGf256Inverse(x: bv8): bv8
  {
    var x2 := Gf256.Mul(AES, x, x);
    var x4 := Gf256.Mul(AES, x2, x2);
    var x8 := Gf256.Mul(AES, x4, x4);
    var x16 := Gf256.Mul(AES, x8, x8);
    var x32 := Gf256.Mul(AES, x16, x16);
    var x64 := Gf256.Mul(AES, x32, x32);
    var x128 := Gf256.Mul(AES, x64, x64);
    var x192 := Gf256.Mul(AES, x128, x64);
    var x224 := Gf256.Mul(AES, x192, x32);
    var x240 := Gf256.Mul(AES, x224, x16);
    var x248 := Gf256.Mul(AES, x240, x8);
    var x252 := Gf256.Mul(AES, x248, x4);
    Gf256.Mul(AES, x252, x2)
  }

  function Rotl8(v: bv8, s: bv8): bv8
    requires 0 < s < 8
  {
    (v << s) | (v >> (8 - s))
  }

  function CtSbox(x: bv8): bv8
  {
    var inv := CtGf256Inverse(x);
    inv ^ Rotl8(inv, 1) ^ Rotl8(inv, 2) ^ Rotl8(inv, 3) ^ Rotl8(inv, 4) ^ 0x63
  }

  function Affine(v: bv8): bv8 { v ^ Rotl8(v, 1) ^ Rotl8(v, 2) ^ Rotl8(v, 3) ^ Rotl8(v, 4) ^ 0x63 }

  function InverseAffine(x: bv8): bv8 { Rotl8(x, 1) ^ Rotl8(x, 3) ^ Rotl8(x, 6) ^ 0x05 }

  function CtInvSbox(x: bv8): bv8 { CtGf256Inverse(InverseAffine(x)) }

  // ----------------------------------------- x + 1 generates the multiplicative group

  function TimesThree(a: bv8): bv8 { Gf256.Xor(Gf256.Xtime(AES, a), a) }

  /** (x + 1)^n */
  function Power(n: nat): bv8 { ByteOrbit.Iterate(TimesThree, n, 1) }

  lemma MulTimesThree(a: bv8, b: bv8)
    ensures Gf256.Mul(AES, TimesThree(a), b) == TimesThree(Gf256.Mul(AES, a, b))
  {
    hide Gf256.Xor; hide Gf256.Xtime; hide Gf256.MulFrom; hide Gf256.Mul;
    Gf256.MulXorLeft(AES, Gf256.Xtime(AES, a), a, b);
    Gf256.MulFromXtime(AES, a, b, 8);
    Gf256.MulIs(AES, Gf256.Xtime(AES, a), b);
    Gf256.MulIs(AES, a, b);
  }

  lemma {:induction false} PowerSum(m: nat, n: nat)
    ensures Gf256.Mul(AES, Power(m), Power(n)) == Power(m + n)
    decreases m
  {
    hide TimesThree; hide Gf256.Mul;
    if m == 0 {
      Gf256.MulOne(AES, Power(n));
    } else {
      PowerSum(m - 1, n);
      MulTimesThree(Power(m - 1), Power(n));
    }
  }

  lemma PowerOfSum(m: nat, n: nat, a: bv8, b: bv8)
    requires Power(m) == a && Power(n) == b
    ensures Power(m + n) == Gf256.Mul(AES, a, b)
  {
    hide *;
    PowerSum(m, n);
  }

  lemma FirstPower()
    ensures Power(1) == 3
  {
    assert ByteOrbit.Iterate(TimesThree, 0, 1) == 1;
  }

  lemma SmallProducts()
    ensures Gf256.Mul(AES, 3, 3) == 5 && Gf256.Mul(AES, 5, 5) == 17 && Gf256.Mul(AES, 17, 17) == 26
              && Gf256.Mul(AES, 26, 26) == 95
    ensures Gf256.Mul(AES, 26, 17) == 161 && Gf256.Mul(AES, 161, 5) == 19 && Gf256.Mul(AES, 19, 3) == 53
  {
    hide Gf256.MulFrom; hide Gf256.Mul;
    Gf256.MulUnfold(AES, 3, 3);
    Gf256.MulUnfold(AES, 5, 5);
    Gf256.MulUnfold(AES, 17, 17);
    Gf256.MulUnfold(AES, 26, 26);
    Gf256.MulUnfold(AES, 26, 17);
    Gf256.MulUnfold(AES, 161, 5);
    Gf256.MulUnfold(AES, 19, 3);
  }

  lemma LargeProducts()
    ensures Gf256.Mul(AES, 95, 3) == 225 && Gf256.Mul(AES, 225, 225) == 92 && Gf256.Mul(AES, 92, 225) == 12
    ensures Gf256.Mul(AES, 12, 92) == 189 && Gf256.Mul(AES, 189, 189) == 188 && Gf256.Mul(AES, 188, 189) == 1
  {
    hide Gf256.MulFrom; hide Gf256.Mul;
    Gf256.MulUnfold(AES, 95, 3);
    Gf256.MulUnfold(AES, 225, 225);
    Gf256.MulUnfold(AES, 92, 225);
    Gf256.MulUnfold(AES, 12, 92);
    Gf256.MulUnfold(AES, 189, 189);
    Gf256.MulUnfold(AES, 188, 189);
  }

  lemma KeyPowers()
    ensures Power(15) == 53 && Power(51) == 12 && Power(85) == 189 && Power(255) == 1
  {
    hide *;
    FirstPower();
    SmallProducts();
    LargeProducts();
    PowerOfSum(1, 1, 3, 3);
    PowerOfSum(2, 2, 5, 5);
    PowerOfSum(4, 4, 17, 17);
    PowerOfSum(8, 8, 26, 26);
    PowerOfSum(8, 4, 26, 17);
    PowerOfSum(12, 2, 161, 5);
    PowerOfSum(14, 1, 19, 3);
    PowerOfSum(16, 1, 95, 3);
    PowerOfSum(17, 17, 225, 225);
    PowerOfSum(34, 17, 92, 225);
    PowerOfSum(51, 34, 12, 92);
    PowerOfSum(85, 85, 189, 189);
    PowerOfSum(170, 85, 188, 189);
  }

  lemma TimesThreeInjective(a: bv8, b: bv8)
    requires TimesThree(a) == TimesThree(b)
    ensures a == b
  {
  }

  lemma TimesThreeZero()
    ensures TimesThree(0) == 0
  {
  }

  lemma Generates()
    ensures ByteOrbit.Generator(TimesThree)
  {
    hide TimesThree; hide ByteOrbit.Iterate;
    KeyPowers();
    TimesThreeZero();
    forall a, b | TimesThree(a) == TimesThree(b)
      ensures a == b
    {
      TimesThreeInjective(a, b);
    }
  }

  lemma {:induction false} PowerPeriod(l: nat, k: nat)
    ensures Power(l + 255 * k) == Power(l)
    decreases k
  {
    hide TimesThree; hide ByteOrbit.Iterate;
    if k > 0 {
      PowerPeriod(l, k - 1);
      KeyPowers();
      ByteOrbit.IterateAdd(TimesThree, l + 255 * (k - 1), 255, 1);
    }
  }

  // -------------------------------------------------------------- inverses

  /** The chain of squarings and products is the 254th power. */
  lemma InverseOfPower(l: nat)
    ensures CtGf256Inverse(Power(l)) == Power(254 * l)
  {
    hide Gf256.Mul; hide Power;
    PowerSum(l, l);
    PowerSum(2 * l, 2 * l);
    PowerSum(4 * l, 4 * l);
    PowerSum(8 * l, 8 * l);
    PowerSum(16 * l, 16 * l);
    PowerSum(32 * l, 32 * l);
    PowerSum(64 * l, 64 * l);
    PowerSum(128 * l, 64 * l);
    PowerSum(192 * l, 32 * l);
    PowerSum(224 * l, 16 * l);
    PowerSum(240 * l, 8 * l);
    PowerSum(248 * l, 4 * l);
    PowerSum(252 * l, 2 * l);
  }

  lemma InverseOfZero()
    ensures CtGf256Inverse(0) == 0
  {
    hide Gf256.Mul;
    ZeroTimes(0);
  }

  lemma ZeroTimes(b: bv8)
    ensures Gf256.Mul(AES, 0, b) == 0
  {
    hide Gf256.Mul; hide Gf256.Xor;
    Gf256.XorUnits(0);
    Gf256.MulXorLeft(AES, 0, 0, b);
    Gf256.XorUnits(Gf256.Mul(AES, 0, b));
  }

  lemma InverseTimes(l: nat)
    ensures Gf256.Mul(AES, CtGf256Inverse(Power(l)), Power(l)) == 1
  {
    hide *;
    InverseOfPower(l);
    PowerSum(254 * l, l);
    PowerPeriod(0, l);
    PowerIs(0);
    ByteOrbit.NoRounds(TimesThree);
  }

  lemma InverseTwice(l: nat)
    ensures CtGf256Inverse(CtGf256Inverse(Power(l))) == Power(l)
  {
    hide *;
    InverseOfPower(l);
    InverseOfPower(254 * l);
    PowerPeriod(l, 253 * l);
    assert 254 * (254 * l) == l + 255 * (253 * l);
  }

  /** ct_gf256_inverse is the multiplicative inverse, with 0 for 0, and undoes itself. */
  lemma InverseIsInverse(x: bv8)
    ensures x != 0 ==> Gf256.Mul(AES, CtGf256Inverse(x), x) == 1
    ensures x == 0 ==> CtGf256Inverse(x) == 0
    ensures CtGf256Inverse(CtGf256Inverse(x)) == x
  {
    hide *;
    if x == 0 {
      InverseOfZero();
    } else {
      Generates();
      var l := ByteOrbit.Reaches(TimesThree, x);
      PowerIs(l);
      InverseTimes(l);
      InverseTwice(l);
    }
  }

  lemma PowerIs(n: nat)
    ensures Power(n) == ByteOrbit.Iterate(TimesThree, n, 1)
  {
  }

  lemma AffineInverts(v: bv8)
    ensures InverseAffine(Affine(v)) == v && Affine(InverseAffine(v)) == v
  {
  }

  lemma SboxIs(x: bv8)
    ensures CtSbox(x) == Affine(CtGf256Inverse(x))
  {
    hide CtGf256Inverse;
  }

  /** The two S-boxes undo each other. */
  lemma SboxInverts(x: bv8)
    ensures CtInvSbox(CtSbox(x)) == x && CtSbox(CtInvSbox(x)) == x
  {
    hide CtGf256Inverse; hide Affine; hide InverseAffine; hide CtSbox;
    SboxIs(x);
    SboxIs(CtInvSbox(x));
    AffineInverts(CtGf256Inverse(x));
    AffineInverts(x);
    InverseIsInverse(x);
    InverseIsInverse(InverseAffine(x));
  }
}
