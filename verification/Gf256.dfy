/** GF(2^8): bytes as polynomials over GF(2), multiplied modulo x^8 + red.
    The byte `red` holds the low part of the reduction polynomial: 0x1d for the
    RSPC code of ECMA-130 (0x11d), 0x1b for the AES field (0x11b). */
module Gf256 {
  import opened Words16

  function Xor(a: bv8, b: bv8): bv8 { a ^ b }

  /** The byte a if the condition holds, else zero. */
  function Pick(c: bool, a: bv8): bv8 { if c then a else 0 }

  /** Multiplication by x. */
  function Xtime(red: bv8, a: bv8): bv8 { Xor(Double(a), Pick(High(a), red)) }

  function Double(a: bv8): bv8 { a << 1 }

  predicate High(a: bv8) { a & 0x80 != 0 }

  predicate Odd(b: bv8) { b & 1 != 0 }

  function Half(b: bv8): bv8 { b >> 1 }

  /** Sum of the first n bit products b_i * x^i * a. */
  function MulFrom(red: bv8, a: bv8, b: bv8, n: nat): bv8
    decreases n
  {
    if n == 0 then 0
    else Xor(Pick(Odd(b), a), MulFrom(red, Xtime(red, a), Half(b), n - 1))
  }

  /** Shift-and-add product. */
  function Mul(red: bv8, a: bv8, b: bv8): bv8 { MulFrom(red, a, b, 8) }

  // ---------------------------------------------------------------- bit level

  lemma XorAssoc(a: bv8, b: bv8, c: bv8)
    ensures Xor(Xor(a, b), c) == Xor(a, Xor(b, c))
  {
    assert (a ^ b) ^ c == a ^ (b ^ c);
  }

  lemma XorUnits(a: bv8)
    ensures Xor(a, 0) == a && Xor(0, a) == a && Xor(a, a) == 0
  {
    assert a ^ 0 == a && 0 ^ a == a && a ^ a == 0;
  }

  lemma XorSwap(a: bv8, b: bv8, c: bv8, d: bv8)
    ensures Xor(Xor(a, b), Xor(c, d)) == Xor(Xor(a, c), Xor(b, d))
  {
    assert (a ^ b) ^ (c ^ d) == (a ^ c) ^ (b ^ d);
  }

  lemma XorEqualsZero(a: bv8, b: bv8)
    ensures Xor(a, b) == 0 <==> a == b
  {
    assert a ^ b == 0 <==> a == b;
  }

  lemma PickXor(c: bool, a: bv8, b: bv8)
    ensures Pick(c, Xor(a, b)) == Xor(Pick(c, a), Pick(c, b))
  {
    assert 0 as bv8 ^ 0 == 0;
  }

  lemma PickXorBits(b: bv8, d: bv8, a: bv8)
    ensures Pick(Odd(Xor(b, d)), a) == Xor(Pick(Odd(b), a), Pick(Odd(d), a))
  {
    assert (b ^ d) & 1 == (b & 1) ^ (d & 1);
    assert a ^ 0 == a && 0 ^ a == a && a ^ a == 0;
  }

  lemma HalfXor(b: bv8, d: bv8)
    ensures Half(Xor(b, d)) == Xor(Half(b), Half(d))
  {
    assert (b ^ d) >> 1 == (b >> 1) ^ (d >> 1);
  }

  lemma DoubleXor(a: bv8, b: bv8)
    ensures Double(Xor(a, b)) == Xor(Double(a), Double(b))
  {
    assert (a ^ b) << 1 == (a << 1) ^ (b << 1);
  }

  lemma PickHighXor(a: bv8, b: bv8, red: bv8)
    ensures Pick(High(Xor(a, b)), red) == Xor(Pick(High(a), red), Pick(High(b), red))
  {
    assert (a ^ b) & 0x80 == (a & 0x80) ^ (b & 0x80);
    assert red ^ 0 == red && 0 ^ red == red && red ^ red == 0;
  }

  lemma XtimeXor(red: bv8, a: bv8, b: bv8)
    ensures Xtime(red, Xor(a, b)) == Xor(Xtime(red, a), Xtime(red, b))
  {
    hide Xor; hide Pick; hide Double; hide High;
    DoubleXor(a, b);
    PickHighXor(a, b, red);
    XorSwap(Double(a), Double(b), Pick(High(a), red), Pick(High(b), red));
  }

  lemma XtimeZero(red: bv8)
    ensures Xtime(red, 0) == 0
  {
  }

  // ------------------------------------------------------------ ring structure

  lemma {:induction false} MulFromXorLeft(red: bv8, a: bv8, c: bv8, b: bv8, n: nat)
    ensures MulFrom(red, Xor(a, c), b, n) == Xor(MulFrom(red, a, b, n), MulFrom(red, c, b, n))
    decreases n
  {
    hide Xor; hide Pick; hide Xtime; hide Odd; hide Half;
    if n == 0 {
      XorUnits(0);
    } else {
      XtimeXor(red, a, c);
      PickXor(Odd(b), a, c);
      MulFromXorLeft(red, Xtime(red, a), Xtime(red, c), Half(b), n - 1);
      XorSwap(Pick(Odd(b), a), Pick(Odd(b), c), MulFrom(red, Xtime(red, a), Half(b), n - 1),
              MulFrom(red, Xtime(red, c), Half(b), n - 1));
    }
  }

  lemma {:induction false} MulFromXorRight(red: bv8, a: bv8, b: bv8, d: bv8, n: nat)
    ensures MulFrom(red, a, Xor(b, d), n) == Xor(MulFrom(red, a, b, n), MulFrom(red, a, d, n))
    decreases n
  {
    hide Xor; hide Pick; hide Xtime; hide Odd; hide Half;
    if n == 0 {
      XorUnits(0);
    } else {
      HalfXor(b, d);
      PickXorBits(b, d, a);
      MulFromXorRight(red, Xtime(red, a), Half(b), Half(d), n - 1);
      XorSwap(Pick(Odd(b), a), Pick(Odd(d), a), MulFrom(red, Xtime(red, a), Half(b), n - 1),
              MulFrom(red, Xtime(red, a), Half(d), n - 1));
    }
  }

  lemma {:induction false} MulFromXtime(red: bv8, a: bv8, b: bv8, n: nat)
    ensures MulFrom(red, Xtime(red, a), b, n) == Xtime(red, MulFrom(red, a, b, n))
    decreases n
  {
    hide Xor; hide Xtime; hide Odd; hide Half;
    XtimeZero(red);
    if n != 0 {
      MulFromXtime(red, Xtime(red, a), Half(b), n - 1);
      XtimeXor(red, Pick(Odd(b), a), MulFrom(red, Xtime(red, a), Half(b), n - 1));
    }
  }

  lemma MulXorLeft(red: bv8, a: bv8, c: bv8, b: bv8)
    ensures Mul(red, Xor(a, c), b) == Xor(Mul(red, a, b), Mul(red, c, b))
  {
    hide *;
    MulFromXorLeft(red, a, c, b, 8);
    MulIs(red, Xor(a, c), b);
    MulIs(red, a, b);
    MulIs(red, c, b);
  }

  lemma MulXorRight(red: bv8, a: bv8, b: bv8, d: bv8)
    ensures Mul(red, a, Xor(b, d)) == Xor(Mul(red, a, b), Mul(red, a, d))
  {
    hide *;
    MulFromXorRight(red, a, b, d, 8);
    MulIs(red, a, Xor(b, d));
    MulIs(red, a, b);
    MulIs(red, a, d);
  }

  lemma MulIs(red: bv8, a: bv8, b: bv8)
    ensures Mul(red, a, b) == MulFrom(red, a, b, 8)
  {
  }

  lemma MulUnfold(red: bv8, a: bv8, b: bv8)
    ensures var a1 := Xtime(red, a); var a2 := Xtime(red, a1); var a3 := Xtime(red, a2); var a4 := Xtime(red, a3);
            var a5 := Xtime(red, a4); var a6 := Xtime(red, a5); var a7 := Xtime(red, a6);
            var b1 := Half(b); var b2 := Half(b1); var b3 := Half(b2); var b4 := Half(b3);
            var b5 := Half(b4); var b6 := Half(b5); var b7 := Half(b6);
            Mul(red, a, b) ==
            Xor(Pick(Odd(b), a), Xor(Pick(Odd(b1), a1), Xor(Pick(Odd(b2), a2), Xor(Pick(Odd(b3), a3),
            Xor(Pick(Odd(b4), a4), Xor(Pick(Odd(b5), a5), Xor(Pick(Odd(b6), a6), Xor(Pick(Odd(b7), a7), 0))))))))
  {
    hide Xor; hide Pick; hide Xtime; hide Odd; hide Half;
    var a1 := Xtime(red, a); var a2 := Xtime(red, a1); var a3 := Xtime(red, a2); var a4 := Xtime(red, a3);
    var b1 := Half(b); var b2 := Half(b1); var b3 := Half(b2); var b4 := Half(b3);
    assert MulFrom(red, a4, b4, 4) == Xor(Pick(Odd(b4), a4), MulFrom(red, Xtime(red, a4), Half(b4), 3));
    assert MulFrom(red, a2, b2, 6) == Xor(Pick(Odd(b2), a2), MulFrom(red, a3, b3, 5));
    assert MulFrom(red, a, b, 8) == Xor(Pick(Odd(b), a), MulFrom(red, a1, b1, 7));
  }

  // ------------------------------------------------------------- powers of x

  /** x^n * a */
  function XPow(red: bv8, n: nat, a: bv8): bv8
    decreases n
  {
    if n == 0 then a else Xtime(red, XPow(red, n - 1, a))
  }

  function Pow(red: bv8, n: nat): bv8 { XPow(red, n, 1) }

  lemma {:induction false} XPowAdd(red: bv8, m: nat, n: nat, a: bv8)
    ensures XPow(red, m, XPow(red, n, a)) == XPow(red, m + n, a)
    decreases m
  {
    hide Xtime;
    if m != 0 {
      XPowAdd(red, m - 1, n, a);
    }
  }

  lemma {:induction false} XPowXor(red: bv8, n: nat, a: bv8, b: bv8)
    ensures XPow(red, n, Xor(a, b)) == Xor(XPow(red, n, a), XPow(red, n, b))
    decreases n
  {
    hide Xtime; hide Xor;
    if n != 0 {
      XPowXor(red, n - 1, a, b);
      XtimeXor(red, XPow(red, n - 1, a), XPow(red, n - 1, b));
    }
  }

  lemma {:induction false} MulXPow(red: bv8, n: nat, a: bv8, b: bv8)
    ensures Mul(red, XPow(red, n, a), b) == XPow(red, n, Mul(red, a, b))
    decreases n
  {
    hide Xtime; hide MulFrom;
    if n != 0 {
      MulXPow(red, n - 1, a, b);
      MulFromXtime(red, XPow(red, n - 1, a), b, 8);
    }
  }

  /** With a = x^s, the s-fold shift never leaves the byte, so no reduction happens. */
  lemma {:induction false} MulFromUnit(red: bv8, s: bv8, b: bv8, n: nat)
    requires s <= 8 && n == (8 - s) as int
    ensures MulFrom(red, 1 << s, b, n) == b << s
    decreases n
  {
    hide Xor; hide Pick; hide Xtime; hide Odd; hide Half;
    if n != 0 {
      UnitStep(s, b);
      if n == 1 {
        assert MulFrom(red, Xtime(red, 1 << s), Half(b), 0) == 0;
      } else {
        XtimeUnit(red, s);
        MulFromUnit(red, s + 1, Half(b), n - 1);
      }
    }
  }

  lemma UnitStep(s: bv8, b: bv8)
    requires s < 8
    ensures Xor(Pick(Odd(b), 1 << s), Half(b) << (s + 1)) == b << s
    ensures s == 7 ==> Xor(Pick(Odd(b), 1 << s), 0) == b << s
  {
  }

  lemma XtimeUnit(red: bv8, s: bv8)
    requires s < 7
    ensures Xtime(red, 1 << s) == 1 << (s + 1)
  {
  }

  lemma MulOne(red: bv8, b: bv8)
    ensures Mul(red, 1, b) == b
  {
    hide MulFrom;
    MulFromUnit(red, 0, b, 8);
  }

  /** Multiplying by x^n is shifting n times. */
  lemma MulPow(red: bv8, n: nat, b: bv8)
    ensures Mul(red, Pow(red, n), b) == XPow(red, n, b)
  {
    hide MulFrom; hide XPow; hide Mul;
    MulXPow(red, n, 1, b);
    MulOne(red, b);
  }

  lemma PowAdd(red: bv8, m: nat, n: nat)
    ensures Mul(red, Pow(red, m), Pow(red, n)) == Pow(red, m + n)
  {
    hide MulFrom; hide XPow; hide Mul;
    MulPow(red, m, Pow(red, n));
    XPowAdd(red, m, n, 1);
  }

  // ------------------------------- reference: polynomial product and remainder

  function Wide(a: bv8): bv16 { a as bv16 }

  /** Plain polynomial product over GF(2), without any reduction. */
  function ProductFrom(a: bv16, b: bv8, n: nat): bv16
    decreases n
  {
    if n == 0 then 0
    else Xor16(Pick16(Odd(b), a), ProductFrom(Double16(a), Half(b), n - 1))
  }

  function Product(a: bv8, b: bv8): bv16 { ProductFrom(Wide(a), b, 8) }

  /** q * (x^8 + red) */
  function MultipleWide(red: bv8, q: bv16): bv16 { Xor16(Shift8(q), ProductFrom(q, red, 8)) }

  function Shift8(q: bv16): bv16 { q << 8 }

  lemma Pick16Xor(c: bool, a: bv16, b: bv16)
    ensures Pick16(c, Xor16(a, b)) == Xor16(Pick16(c, a), Pick16(c, b))
    ensures Double16(Pick16(c, a)) == Pick16(c, Double16(a))
  {
    assert 0 as bv16 ^ 0 == 0;
    assert 0 as bv16 << 1 == 0;
  }

  lemma Shift8Xor(a: bv16, b: bv16)
    ensures Shift8(Xor16(a, b)) == Xor16(Shift8(a), Shift8(b))
    ensures Shift8(Double16(a)) == Double16(Shift8(a))
  {
    assert (a ^ b) << 8 == (a << 8) ^ (b << 8);
    assert (a << 1) << 8 == (a << 8) << 1;
  }

  lemma {:induction false} ProductFromXor(a: bv16, c: bv16, b: bv8, n: nat)
    ensures ProductFrom(Xor16(a, c), b, n) == Xor16(ProductFrom(a, b, n), ProductFrom(c, b, n))
    decreases n
  {
    hide Xor16; hide Pick16; hide Double16; hide Odd; hide Half;
    Xor16Units(0);
    if n != 0 {
      Pick16Xor(Odd(b), a, c);
      Double16Xor(a, c);
      ProductFromXor(Double16(a), Double16(c), Half(b), n - 1);
      Xor16Swap(Pick16(Odd(b), a), Pick16(Odd(b), c), ProductFrom(Double16(a), Half(b), n - 1),
                ProductFrom(Double16(c), Half(b), n - 1));
    }
  }

  lemma {:induction false} ProductFromDouble(a: bv16, b: bv8, n: nat)
    ensures ProductFrom(Double16(a), b, n) == Double16(ProductFrom(a, b, n))
    decreases n
  {
    hide Xor16; hide Pick16; hide Odd; hide Half; hide Double16;
    DoubleZero();
    if n != 0 {
      Pick16Xor(Odd(b), a, a);
      ProductFromDouble(Double16(a), Half(b), n - 1);
      Double16Xor(Pick16(Odd(b), a), ProductFrom(Double16(a), Half(b), n - 1));
    }
  }

  lemma DoubleZero()
    ensures Double16(0) == 0
  {
  }

  lemma MultipleXor(red: bv8, p: bv16, q: bv16)
    ensures MultipleWide(red, Xor16(p, q)) == Xor16(MultipleWide(red, p), MultipleWide(red, q))
    ensures MultipleWide(red, Double16(p)) == Double16(MultipleWide(red, p))
  {
    hide Xor16; hide ProductFrom; hide Shift8; hide Double16;
    Shift8Xor(p, q);
    ProductFromXor(p, q, red, 8);
    ProductFromDouble(p, red, 8);
    Double16Xor(Shift8(p), ProductFrom(p, red, 8));
    Xor16Swap(Shift8(p), Shift8(q), ProductFrom(p, red, 8), ProductFrom(q, red, 8));
  }

  lemma {:induction false} ProductFromUnit(s: bv16, b: bv8, n: nat)
    requires s <= 8 && n == (8 - s) as int
    requires b >> (8 - s) == 0
    ensures ProductFrom(1 << s, b, n) == Wide(b) << s
    decreases n
  {
    hide Xor16; hide Pick16; hide Odd; hide Half; hide Wide; hide Double16;
    if n == 0 {
      assert b == 0;
      WideZero();
    } else {
      ProductUnitStep(s, b);
      ProductFromUnit(s + 1, Half(b), n - 1);
    }
  }

  lemma WideZero()
    ensures Wide(0) << 8 == 0
  {
  }

  lemma ProductUnitStep(s: bv16, b: bv8)
    requires s < 8 && b >> (8 - s) == 0
    ensures Double16(1 << s) == 1 << (s + 1)
    ensures Half(b) >> (8 - (s + 1)) == 0
    ensures Xor16(Pick16(Odd(b), 1 << s), Wide(Half(b)) << (s + 1)) == Wide(b) << s
  {
  }

  lemma MultipleOne(red: bv8)
    ensures MultipleWide(red, 1) == Xor16(0x100, Wide(red))
  {
    hide ProductFrom;
    ProductFromUnit(0, red, 8);
  }

  /** Doubling p = q * (x^8 + red) + r keeps that form; the new remainder is Xtime. */
  lemma DoubleStep(red: bv8, q: bv16, r: bv8)
    ensures Double16(Xor16(MultipleWide(red, q), Wide(r)))
         == Xor16(MultipleWide(red, Xor16(Double16(q), Pick16(High(r), 1))), Wide(Xtime(red, r)))
  {
    hide Xor16; hide MultipleWide; hide Double16; hide High; hide Wide; hide Xtime; hide Pick16;
    Double16Xor(MultipleWide(red, q), Wide(r));
    MultipleXor(red, q, q);
    MultipleXor(red, Double16(q), Pick16(High(r), 1));
    var m := MultipleWide(red, Pick16(High(r), 1));
    Xor16Assoc(Double16(MultipleWide(red, q)), m, Wide(Xtime(red, r)));
    assert Double16(Wide(r)) == Xor16(m, Wide(Xtime(red, r))) by {
      MultipleOne(red);
      MultipleZero(red);
      PickOne(High(r));
      DoubleWide(red, r);
    }
  }

  lemma PickOne(c: bool)
    ensures Pick16(c, 1) == if c then 1 else 0
  {
  }

  lemma MultipleZero(red: bv8)
    ensures MultipleWide(red, 0) == 0
  {
    hide ProductFrom;
    ProductFromZero(red, 8);
  }

  lemma {:induction false} ProductFromZero(b: bv8, n: nat)
    ensures ProductFrom(0, b, n) == 0
    decreases n
  {
    if n != 0 {
      assert Double16(0) == 0;
      ProductFromZero(Half(b), n - 1);
    }
  }

  lemma DoubleWide(red: bv8, r: bv8)
    ensures Double16(Wide(r)) == Xor16(if High(r) then Xor16(0x100, Wide(red)) else 0, Wide(Xtime(red, r)))
  {
  }

  /** The shift-and-add loop keeps product = quotient * (x^8 + red) + result,
      and after s of its 8 rounds the quotient has degree below s. */
  lemma {:induction false} MulFromQuotient(red: bv8, s: bv16, q: bv16, a: bv8, b: bv8, n: nat) returns (quotient: bv16)
    requires s <= 8 && n == (8 - s) as int && q >> s == 0
    ensures quotient < 0x100
    ensures ProductFrom(Xor16(MultipleWide(red, q), Wide(a)), b, n)
         == Xor16(MultipleWide(red, quotient), Wide(MulFrom(red, a, b, n)))
    decreases n
  {
    hide Xor16; hide MultipleWide; hide Double16; hide High; hide Wide; hide Xtime; hide Pick16; hide Odd; hide Half;
    hide Pick; hide Xor;
    if n == 0 {
      quotient := 0;
      MultipleZero(red);
      WideXor(0, 0);
    } else {
      var q' := Xor16(Double16(q), Pick16(High(a), 1));
      DoubleStep(red, q, a);
      QuotientGrows(s, q, High(a));
      var t := MulFromQuotient(red, s + 1, q', Xtime(red, a), Half(b), n - 1);
      var m := MulFrom(red, Xtime(red, a), Half(b), n - 1);
      var c := Odd(b);
      quotient := Xor16(Pick16(c, q), t);
      QuotientSum(s, c, q, t);
      PickMultiple(red, c, q, a);
      Xor16Swap(MultipleWide(red, Pick16(c, q)), Wide(Pick(c, a)), MultipleWide(red, t), Wide(m));
      MultipleXor(red, Pick16(c, q), t);
      WideXor(Pick(c, a), m);
    }
  }

  lemma QuotientGrows(s: bv16, q: bv16, c: bool)
    requires s < 8 && q >> s == 0
    ensures Xor16(Double16(q), Pick16(c, 1)) >> (s + 1) == 0
  {
  }

  lemma QuotientSum(s: bv16, c: bool, q: bv16, t: bv16)
    requires s < 8 && q >> s == 0 && t < 0x100
    ensures Xor16(Pick16(c, q), t) < 0x100
  {
  }

  lemma PickMultiple(red: bv8, c: bool, q: bv16, a: bv8)
    ensures Pick16(c, Xor16(MultipleWide(red, q), Wide(a)))
         == Xor16(MultipleWide(red, Pick16(c, q)), Wide(Pick(c, a)))
  {
    hide Xor16; hide MultipleWide; hide Wide;
    MultipleZero(red);
    WideXor(0, 0);
  }

  lemma WideXor(a: bv8, b: bv8)
    ensures Wide(Xor(a, b)) == Xor16(Wide(a), Wide(b))
    ensures Xor16(0, Wide(0)) == 0
  {
  }

  /** Mul is the remainder of the polynomial product on division by x^8 + red:
      the two differ by a multiple of x^8 + red, and a byte has degree below 8. */
  lemma MulIsProductModulo(red: bv8, a: bv8, b: bv8) returns (q: bv16)
    ensures q < 0x100
    ensures Product(a, b) == Xor16(MultipleWide(red, q), Wide(Mul(red, a, b)))
  {
    hide MultipleWide; hide Xor16; hide MulFrom; hide ProductFrom; hide Wide;
    MultipleZero(red);
    Xor16Units(Wide(a));
    q := MulFromQuotient(red, 0, 0, a, b, 8);
  }

  lemma {:induction false} ProductFromBound(m: bv16, d: bv16, a: bv16, b: bv8, n: nat)
    requires m < 16 && d <= m + 1 && n == (m + 1 - d) as int
    requires a >> d == 0
    ensures ProductFrom(a, b, n) >> m == 0
    decreases n
  {
    hide Xor16; hide Pick16; hide Odd; hide Half; hide Double16;
    if n != 0 {
      BoundStep(m, d, a, Odd(b), ProductFrom(Double16(a), Half(b), n - 1));
      ProductFromBound(m, d + 1, Double16(a), Half(b), n - 1);
      BoundSum(m, d, a, Odd(b), ProductFrom(Double16(a), Half(b), n - 1));
    }
  }

  lemma BoundStep(m: bv16, d: bv16, a: bv16, c: bool, t: bv16)
    requires d <= m < 16 && a >> d == 0
    ensures Double16(a) >> (d + 1) == 0
  {
  }

  lemma BoundSum(m: bv16, d: bv16, a: bv16, c: bool, t: bv16)
    requires d <= m < 16 && a >> d == 0 && t >> m == 0
    ensures Xor16(Pick16(c, a), t) >> m == 0
  {
  }

  /** A multiple of x^8 + red other than zero has degree 8 or more. */
  lemma MultipleDegree(red: bv8, q: bv16)
    requires 0 < q < 0x100
    ensures MultipleWide(red, q) >= 0x100
  {
    hide ProductFrom;
    var d := DegreeAbove(q);
    ProductFromBound(d + 7, d, q, red, 8);
    TopBitStays(d, q, ProductFrom(q, red, 8));
  }

  lemma DegreeAbove(q: bv16) returns (d: bv16)
    requires 0 < q < 0x100
    ensures 1 <= d <= 8 && q >> d == 0 && q >> (d - 1) == 1
  {
    d := if q < 2 then 1 else if q < 4 then 2 else if q < 8 then 3 else if q < 16 then 4
         else if q < 32 then 5 else if q < 64 then 6 else if q < 128 then 7 else 8;
  }

  lemma TopBitStays(d: bv16, q: bv16, t: bv16)
    requires 1 <= d <= 8 && q >> d == 0 && q >> (d - 1) == 1 && t >> (d + 7) == 0
    ensures Xor16(Shift8(q), t) >= 0x100
  {
  }

  /** Hence the remainder is unique: a byte r that differs from the product of a
      and b by a multiple of x^8 + red is Mul(red, a, b). */
  lemma MulIsTheOnlyRemainder(red: bv8, a: bv8, b: bv8, q: bv16, r: bv8)
    requires q < 0x100
    requires Product(a, b) == Xor16(MultipleWide(red, q), Wide(r))
    ensures r == Mul(red, a, b)
  {
    hide MultipleWide; hide Mul; hide Product; hide Xor16; hide Wide;
    var q' := MulIsProductModulo(red, a, b);
    var s := Mul(red, a, b);
    CrossSum(MultipleWide(red, q), MultipleWide(red, q'), r, s);
    MultipleXor(red, q, q');
    QuotientDifference(q, q');
    if q != q' {
      MultipleDegree(red, Xor16(q, q'));
    } else {
      MultipleZero(red);
      SameWide(r, s);
      Xor16Units(MultipleWide(red, q));
    }
  }

  lemma CrossSum(m: bv16, m': bv16, r: bv8, s: bv8)
    requires Xor16(m, Wide(r)) == Xor16(m', Wide(s))
    ensures Xor16(m, m') == Wide(Xor(r, s)) < 0x100
    ensures m == m' ==> r == s
  {
  }

  lemma QuotientDifference(q: bv16, q': bv16)
    requires q < 0x100 && q' < 0x100
    ensures Xor16(q, q') < 0x100
    ensures Xor16(q, q') == 0 <==> q == q'
  {
  }

  lemma SameWide(r: bv8, s: bv8)
    ensures Wide(Xor(r, s)) == 0 ==> r == s
  {
  }
}
