/** Power and logarithm tables of libburn/ecma130ab.c, and products by table lookup. */
module RspcTables {
  import opened Gf256
  import ByteOrbit

  /** The low byte of the generator polynomial 0x11d of ECMA-130 Annex A. */
  const RED: bv8 := 0x1d

  function Power(n: nat): bv8 { Pow(RED, n) }

  lemma PowerIs(n: nat)
    ensures Power(n) == Pow(RED, n) == XPow(RED, n, 1)
  {
  }

  // ---------------------------------------------------------- the order of x

  lemma PowerSum(m: nat, n: nat, a: bv8, b: bv8)
    requires Power(m) == a && Power(n) == b
    ensures Power(m + n) == Mul(RED, a, b)
  {
    hide *;
    PowerIs(m);
    PowerIs(n);
    PowerIs(m + n);
    PowAdd(RED, m, n);
  }

  lemma LowPowers()
    ensures Power(0) == 1 && Power(1) == 2
  {
    assert XPow(RED, 0, 1) == 1;
  }

  lemma SmallProducts()
    ensures Mul(RED, 2, 2) == 4 && Mul(RED, 4, 2) == 8 && Mul(RED, 8, 8) == 64 && Mul(RED, 64, 64) == 205
    ensures Mul(RED, 205, 8) == 38 && Mul(RED, 205, 205) == 143 && Mul(RED, 143, 2) == 3
  {
    hide MulFrom; hide Mul;
    MulUnfold(RED, 2, 2);
    MulUnfold(RED, 4, 2);
    MulUnfold(RED, 8, 8);
    MulUnfold(RED, 64, 64);
    MulUnfold(RED, 205, 8);
    MulUnfold(RED, 205, 205);
    MulUnfold(RED, 143, 2);
  }

  lemma LargeProducts()
    ensures Mul(RED, 3, 3) == 5 && Mul(RED, 5, 2) == 10 && Mul(RED, 3, 10) == 30 && Mul(RED, 30, 64) == 211
    ensures Mul(RED, 211, 8) == 214 && Mul(RED, 214, 214) == 215 && Mul(RED, 215, 214) == 1
  {
    hide MulFrom; hide Mul;
    MulUnfold(RED, 3, 3);
    MulUnfold(RED, 5, 2);
    MulUnfold(RED, 3, 10);
    MulUnfold(RED, 30, 64);
    MulUnfold(RED, 211, 8);
    MulUnfold(RED, 214, 214);
    MulUnfold(RED, 215, 214);
  }

  lemma KeyPowers()
    ensures Power(15) == 38 && Power(25) == 3 && Power(51) == 10 && Power(85) == 214 && Power(255) == 1
  {
    hide *;
    LowPowers();
    SmallProducts();
    LargeProducts();
    PowerSum(1, 1, 2, 2);
    PowerSum(2, 1, 4, 2);
    PowerSum(3, 3, 8, 8);
    PowerSum(6, 6, 64, 64);
    PowerSum(12, 3, 205, 8);
    PowerSum(12, 12, 205, 205);
    PowerSum(24, 1, 143, 2);
    PowerSum(25, 25, 3, 3);
    PowerSum(50, 1, 5, 2);
    PowerSum(25, 51, 3, 10);
    PowerSum(76, 6, 30, 64);
    PowerSum(82, 3, 211, 8);
    PowerSum(85, 85, 214, 214);
    PowerSum(170, 85, 215, 214);
  }

  function TimesX(a: bv8): bv8 { Xtime(RED, a) }

  lemma {:induction false} PowerIsIterate(n: nat)
    ensures Power(n) == ByteOrbit.Iterate(TimesX, n, 1)
  {
    hide Xtime;
    if n != 0 {
      PowerIsIterate(n - 1);
    }
  }

  lemma XtimeInjective(a: bv8, b: bv8)
    requires Xtime(RED, a) == Xtime(RED, b)
    ensures a == b
  {
  }

  /** x generates all nonzero bytes. */
  lemma Generates()
    ensures ByteOrbit.Generator(TimesX)
  {
    hide Xtime; hide Power; hide ByteOrbit.Iterate;
    XtimeZero(RED);
    KeyPowers();
    PowerIsIterate(255);
    PowerIsIterate(85);
    PowerIsIterate(51);
    PowerIsIterate(15);
    forall a, b | TimesX(a) == TimesX(b)
      ensures a == b
    {
      XtimeInjective(a, b);
    }
  }

  /** x generates 255 different powers: no power below the 255th is 1. */
  lemma OrderOfX(k: nat)
    requires 0 < k < 255
    ensures Power(k) != 1
  {
    hide *;
    Generates();
    PowerIsIterate(k);
    ByteOrbit.Order(TimesX, k);
  }

  lemma PowerDistinct(i: nat, j: nat)
    requires i < j < 255
    ensures Power(i) != Power(j)
  {
    hide *;
    Generates();
    PowerIsIterate(i);
    PowerIsIterate(j);
    ByteOrbit.Distinct(TimesX, i, j);
  }

  lemma PowerNonzero(i: nat)
    ensures Power(i) != 0
  {
    hide *;
    Generates();
    PowerIsIterate(i);
    ByteOrbit.Nonzero(TimesX, i);
  }

  /** Every nonzero byte is a power of x. */
  lemma PowerReaches(b: bv8) returns (l: nat)
    requires b != 0
    ensures l < 255 && Power(l) == b
  {
    hide *;
    Generates();
    l := ByteOrbit.Reaches(TimesX, b);
    PowerIsIterate(l);
  }

  // ------------------------------------------------------------- the tables

  /** gflog[b]: the exponent below 255 that the generator loop recorded for b; 0 for b = 0. */
  function GfLog(b: bv8): nat { FindLog(b, 255) }

  function FindLog(b: bv8, l: nat): nat
  {
    if l == 0 then 0 else if Power(l - 1) == b then l - 1 else FindLog(b, l - 1)
  }

  /** gfpow[i]: one period of powers, unrolled to 509 entries. */
  function GfPow(i: nat): bv8
    requires i < 509
  {
    Power(if i < 255 then i else i - 255)
  }

  lemma GfPowIsPower(i: nat)
    requires i < 509
    ensures GfPow(i) == Power(i)
  {
    hide XPow;
    KeyPowers();
    if i >= 255 {
      XPowAdd(RED, i - 255, 255, 1);
    }
  }

  lemma {:induction false} FindLogFinds(b: bv8, k: nat, l: nat)
    requires k < l <= 255 && Power(k) == b
    ensures FindLog(b, l) == k
    decreases l
  {
    hide Power;
    if Power(l - 1) == b {
      if k < l - 1 {
        PowerDistinct(k, l - 1);
      }
    } else {
      FindLogFinds(b, k, l - 1);
    }
  }

  /** The two tables are inverse to each other on the nonzero bytes. */
  lemma LogInvertsPower(b: bv8)
    requires b != 0
    ensures GfLog(b) < 255 && Power(GfLog(b)) == b
    ensures forall k: nat | k < 255 && Power(k) == b :: k == GfLog(b)
  {
    hide Power; hide FindLog;
    forall k: nat | k < 255 && Power(k) == b
      ensures k == GfLog(b)
    {
      FindLogFinds(b, k, 255);
    }
    var l := PowerReaches(b);
  }

  // ------------------------------------------------- arithmetic by table

  function RspcMult(a: bv8, b: bv8): bv8
  {
    if a == 0 || b == 0 then 0
    else
      LogInvertsPower(a);
      LogInvertsPower(b);
      GfPow(GfLog(a) + GfLog(b))
  }

  function RspcDiv3(a: bv8): bv8
  {
    if a == 0 then 0
    else
      LogInvertsPower(a);
      GfPow(230 + GfLog(a))
  }

  /** The table product is the product of polynomials modulo 0x11d. */
  lemma RspcMultIsProduct(a: bv8, b: bv8)
    ensures RspcMult(a, b) == Mul(RED, a, b)
  {
    hide Mul; hide Power; hide GfLog; hide GfPow;
    if a == 0 {
      MulZeroLeft(b);
    } else if b == 0 {
      MulZeroRight(a);
    } else {
      LogInvertsPower(a);
      LogInvertsPower(b);
      GfPowIsPower(GfLog(a) + GfLog(b));
      PowerSum(GfLog(a), GfLog(b), a, b);
    }
  }

  lemma MulZeroLeft(b: bv8)
    ensures Mul(RED, 0, b) == 0
  {
    hide Mul; hide Xor;
    XorUnits(0);
    MulXorLeft(RED, 0, 0, b);
    XorUnits(Mul(RED, 0, b));
  }

  lemma MulZeroRight(a: bv8)
    ensures Mul(RED, a, 0) == 0
  {
    hide Mul; hide Xor;
    XorUnits(0);
    MulXorRight(RED, a, 0, 0);
    XorUnits(Mul(RED, a, 0));
  }

  /** Division by x + 1 (0x03) undoes multiplication by it. */
  lemma Div3IsQuotient(a: bv8)
    ensures Mul(RED, 3, RspcDiv3(a)) == a
  {
    hide Mul; hide Power; hide GfLog; hide GfPow;
    if a == 0 {
      MulZeroRight(3);
    } else {
      LogInvertsPower(a);
      var l := GfLog(a);
      GfPowIsPower(230 + l);
      KeyPowers();
      PowerSum(25, 230 + l, 3, RspcDiv3(a));
      PowerPeriod(l);
    }
  }

  lemma PowerPeriod(l: nat)
    ensures Power(255 + l) == Power(l)
  {
    hide XPow;
    KeyPowers();
    XPowAdd(RED, l, 255, 1);
  }

  /** The field has no zero divisors. */
  lemma MulNonzero(a: bv8, b: bv8)
    requires a != 0 && b != 0
    ensures Mul(RED, a, b) != 0
  {
    hide Mul; hide Power; hide GfLog;
    LogInvertsPower(a);
    LogInvertsPower(b);
    PowerSum(GfLog(a), GfLog(b), a, b);
    PowerNonzero(GfLog(a) + GfLog(b));
  }

  // --------------------------------------------------------- table generator

  /** Shifting left and cancelling bit 8 with 0x11d is multiplication by x. */
  lemma GeneratorStep(b: bv16)
    requires b < 256
    ensures var c := b << 1; var d := if c & 256 != 0 then c ^ 0x11d else c;
            d < 256 && d as bv8 == Xtime(RED, b as bv8)
  {
  }

  method SetupTables(gflog: array<nat>, gfpow: array<bv8>)
    requires gflog.Length == 256 && gfpow.Length == 509
    modifies gflog, gfpow
    ensures forall l: nat | l < 255 :: gfpow[l] == GfPow(l)
    ensures forall b: bv8 :: gflog[b as int] == GfLog(b)
  {
    hide Power; hide Xtime;
    forall i | 0 <= i < 256 {
      gflog[i] := 0;
    }
    forall i | 0 <= i < 509 {
      gfpow[i] := 0;
    }
    var b: bv16 := 1;
    LowPowers();
    forall c: bv8
      ensures gflog[c as int] == FindLog(c, 0)
    {
      assert (c as int) < 256;
    }
    for l := 0 to 255
      invariant b < 256 && b as bv8 == Power(l)
      invariant forall k: nat | k < l :: gfpow[k] == Power(k)
      invariant forall c: bv8 :: gflog[c as int] == FindLog(c, l)
    {
      gfpow[l] := b as bv8;
      gflog[b as int] := l;
      ghost var next := l + 1;
      forall c: bv8
        ensures gflog[c as int] == FindLog(c, next)
      {
        WidenByte(c, b);
      }
      GeneratorStep(b);
      PowerNext(l);
      b := b << 1;
      if b & 256 != 0 {
        b := b ^ 0x11d;
      }
    }
  }

  lemma WidenByte(c: bv8, b: bv16)
    requires b < 256
    ensures c as int == b as int <==> c == b as bv8
  {
    assert (b as bv8) as int == b as int;
  }

  lemma PowerNext(l: nat)
    ensures Power(l + 1) == Xtime(RED, Power(l))
  {
    hide Xtime;
  }
}
