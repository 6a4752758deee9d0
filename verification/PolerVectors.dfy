/** Sample values of the cipher of poler_core.h, as its arithmetic yields them. Words are taken
    apart into hexadecimal digits, so that sums of words and steps of the automaton can be
    computed digit by digit. */
module PolerVectors {
  import opened Arithmetic
  import opened PolerWord
  import opened PolerSbox
  import opened PolerCipher
  import opened PolerRound
  import ByteOrbit
  import Gf256

  type digit = bv4

  /** A word by its digits, the most significant one first. */
  datatype Hex = Hex(d7: digit, d6: digit, d5: digit, d4: digit, d3: digit, d2: digit, d1: digit, d0: digit)

  function Value(d: digit): (v: nat)
    ensures v < 16
  {
    (if d & 8 != 0 then 8 else 0) + (if d & 4 != 0 then 4 else 0) + (if d & 2 != 0 then 2 else 0)
    + if d & 1 != 0 then 1 else 0
  }

  function Num(h: Hex): word
  {
    0x1000_0000 * Value(h.d7) + 0x100_0000 * Value(h.d6) + 0x10_0000 * Value(h.d5) + 0x1_0000 * Value(h.d4)
    + 0x1000 * Value(h.d3) + 0x100 * Value(h.d2) + 0x10 * Value(h.d1) + Value(h.d0)
  }

  function Digit(h: Hex, k: nat): digit
    requires k < 8
  {
    match k
    case 0 => h.d0
    case 1 => h.d1
    case 2 => h.d2
    case 3 => h.d3
    case 4 => h.d4
    case 5 => h.d5
    case 6 => h.d6
    case _ => h.d7
  }

  /** Bit j of a digit. */
  predicate Has(d: digit, j: nat)
    requires j < 4
  {
    (if j == 0 then d & 1 else if j == 1 then d & 2 else if j == 2 then d & 4 else d & 8) != 0
  }

  /** Bit j of a digit, as a number. */
  predicate HasValue(v: nat, j: nat)
    requires j < 4
  {
    if j == 0 then v % 2 >= 1 else if j == 1 then v % 4 >= 2 else if j == 2 then v % 8 >= 4 else v >= 8
  }

  lemma DigitValues(d: digit, j: nat)
    requires j < 4
    ensures HasValue(Value(d), j) == Has(d, j)
  {
  }

  lemma DigitBits(d: digit, j: nat)
    requires j < 4
    ensures BitOf(Value(d), j) == 1 <==> Has(d, j)
  {
    hide BitOf; hide Pow2; hide Value; hide Has;
    DigitValues(d, j);
    BitIsBitOf(Value(d), j);
    SmallPowers();
  }

  lemma SmallPowers()
    ensures Pow2(0) == 1 && Pow2(1) == 2 && Pow2(2) == 4 && Pow2(3) == 8
  {
  }

  /** The upper digits from number k on. */
  function Upper(h: Hex, k: nat): nat
    requires k < 8
    decreases 8 - k
  {
    Value(Digit(h, k)) + if k == 7 then 0 else 0x10 * Upper(h, k + 1)
  }

  lemma NextDigit(i: nat)
    requires i >= 4
    ensures i / 4 == (i - 4) / 4 + 1 && i % 4 == (i - 4) % 4
  {
  }

  lemma {:induction false} UpperBits(h: Hex, k: nat, i: nat)
    requires k < 8 && i < 32 - 4 * k
    ensures BitOf(Upper(h, k), i) == 1 <==> Has(Digit(h, k + i / 4), i % 4)
    decreases 8 - k
  {
    hide BitOf; hide Has; hide Digit; hide Value;
    assert Pow2(4) == 0x10;
    if k == 7 {
      DigitBits(Digit(h, 7), i);
    } else {
      BitOfParts(Value(Digit(h, k)), Upper(h, k + 1), 4, i);
      if i < 4 {
        DigitBits(Digit(h, k), i);
      } else {
        UpperBits(h, k + 1, i - 4);
        NextDigit(i);
      }
    }
  }

  lemma UpperAll(h: Hex)
    ensures Upper(h, 0) == Num(h)
  {
    hide Value; hide Upper;
    UpperStep(h, 0);
    UpperStep(h, 1);
    UpperStep(h, 2);
    UpperStep(h, 3);
    UpperStep(h, 4);
    UpperStep(h, 5);
    UpperStep(h, 6);
    UpperStep(h, 7);
  }

  lemma UpperStep(h: Hex, k: nat)
    requires k < 8
    ensures Upper(h, k) == Value(Digit(h, k)) + if k == 7 then 0 else 0x10 * Upper(h, k + 1)
  {
  }

  lemma NumBits(h: Hex, i: nat)
    requires i < 32
    ensures On(Num(h), i) == Has(Digit(h, i / 4), i % 4)
  {
    hide BitOf; hide Has; hide Digit; hide Num; hide Bit; hide Upper;
    UpperAll(h);
    UpperBits(h, 0, i);
    IsBit(Num(h), i);
  }

  // ------------------------------------------------------------ sums of words

  function XorDigit(x: digit, y: digit): digit { x ^ y }

  lemma HasXor(x: digit, y: digit, j: nat)
    requires j < 4
    ensures Has(XorDigit(x, y), j) == (Has(x, j) != Has(y, j))
  {
  }

  function XorHex(a: Hex, b: Hex): Hex
  {
    Hex(XorDigit(a.d7, b.d7), XorDigit(a.d6, b.d6), XorDigit(a.d5, b.d5), XorDigit(a.d4, b.d4),
        XorDigit(a.d3, b.d3), XorDigit(a.d2, b.d2), XorDigit(a.d1, b.d1), XorDigit(a.d0, b.d0))
  }

  lemma XorNum(a: Hex, b: Hex)
    ensures Xor(Num(a), Num(b)) == Num(XorHex(a, b))
  {
    hide Xor; hide Num; hide On; hide XorHex; hide Digit; hide Has;
    forall i: nat | i < 32
      ensures On(Xor(Num(a), Num(b)), i) == On(Num(XorHex(a, b)), i)
    {
      NumBits(a, i);
      NumBits(b, i);
      NumBits(XorHex(a, b), i);
      OnXor(Num(a), Num(b), i);
      XorHexDigit(a, b, i / 4, i % 4);
    }
    SameCells(Xor(Num(a), Num(b)), Num(XorHex(a, b)));
  }

  lemma OnXor(a: word, b: word, i: nat)
    requires i < 32
    ensures On(Xor(a, b), i) == (On(a, i) != On(b, i))
  {
    hide Xor; hide Bit;
    BitXor(a, b, i);
    BitBelow2(a, i);
    BitBelow2(b, i);
  }

  lemma XorHexDigit(a: Hex, b: Hex, k: nat, j: nat)
    requires k < 8 && j < 4
    ensures Has(Digit(XorHex(a, b), k), j) == (Has(Digit(a, k), j) != Has(Digit(b, k), j))
  {
    hide Has; hide XorDigit;
    var x, y := Digit(a, k), Digit(b, k);
    assert Digit(XorHex(a, b), k) == XorDigit(x, y);
    HasXor(x, y, j);
  }

  // ------------------------------------------------------- steps of the automaton

  /** The cells 4 k to 4 k + 3, with their neighbours l below and u above. */
  function StepDigit(l: digit, d: digit, u: digit, even: bool): digit
  {
    ((d << 1) | (l >> 3)) ^ (d & (if even then 0xC else 0xA)) ^ ((d >> 1) | (u << 3))
  }

  lemma HasStep(l: digit, d: digit, u: digit, even: bool, j: nat)
    requires j < 4
    ensures Has(StepDigit(l, d, u, even), j)
         == (((if j > 0 then Has(d, j - 1) else Has(l, 3)) != ((j == 3 || j == if even then 2 else 1) && Has(d, j)))
             != if j < 3 then Has(d, j + 1) else Has(u, 0))
  {
  }

  function StepHex(a: Hex): Hex
  {
    Hex(StepDigit(a.d6, a.d7, a.d0, false), StepDigit(a.d5, a.d6, a.d7, true),
        StepDigit(a.d4, a.d5, a.d6, false), StepDigit(a.d3, a.d4, a.d5, true),
        StepDigit(a.d2, a.d3, a.d4, false), StepDigit(a.d1, a.d2, a.d3, true),
        StepDigit(a.d0, a.d1, a.d2, false), StepDigit(a.d7, a.d0, a.d1, true))
  }

  lemma StepHexDigit(a: Hex, k: nat, j: nat)
    requires k < 8 && j < 4
    ensures Has(Digit(StepHex(a), k), j)
         == (((if j > 0 then Has(Digit(a, k), j - 1) else Has(Digit(a, if k == 0 then 7 else k - 1), 3))
              != (Centre(4 * k + j) && Has(Digit(a, k), j)))
             != if j < 3 then Has(Digit(a, k), j + 1) else Has(Digit(a, if k == 7 then 0 else k + 1), 0))
  {
    hide Has; hide StepDigit; hide StepHex; hide Centre; hide Digit;
    var l, d, u := Digit(a, if k == 0 then 7 else k - 1), Digit(a, k), Digit(a, if k == 7 then 0 else k + 1);
    DigitOfStep(a, k);
    CentreDigit(k, j);
    HasStep(l, d, u, k % 2 == 0, j);
  }

  lemma DigitOfStep(a: Hex, k: nat)
    requires k < 8
    ensures Digit(StepHex(a), k)
         == StepDigit(Digit(a, if k == 0 then 7 else k - 1), Digit(a, k), Digit(a, if k == 7 then 0 else k + 1),
             k % 2 == 0)
  {
    hide StepDigit;
  }

  lemma CentreDigit(k: nat, j: nat)
    requires j < 4
    ensures Centre(4 * k + j) <==> j == 3 || j == if k % 2 == 0 then 2 else 1
  {
  }

  lemma StepNum(a: Hex)
    ensures LhcaStep(Num(a), LHCA_DEFAULT_RULE) == Num(StepHex(a))
  {
    hide LhcaStep; hide Num; hide On; hide StepHex; hide Digit; hide Has; hide Centre;
    forall i: nat | i < 32
      ensures On(LhcaStep(Num(a), LHCA_DEFAULT_RULE), i) == On(Num(StepHex(a)), i)
    {
      NumBits(a, i);
      NumBits(a, if i == 0 then 31 else i - 1);
      NumBits(a, if i == 31 then 0 else i + 1);
      NumBits(StepHex(a), i);
      CellOn(Num(a), i);
      StepHexDigit(a, i / 4, i % 4);
    }
    SameCells(LhcaStep(Num(a), LHCA_DEFAULT_RULE), Num(StepHex(a)));
  }

  // --------------------------------------------------------------- stages by digits

  /** The digits of a word plus those of its upper half. */
  function ShiftHex(h: Hex): Hex
  {
    Hex(h.d7, h.d6, h.d5, h.d4, XorDigit(h.d3, h.d7), XorDigit(h.d2, h.d6), XorDigit(h.d1, h.d5), XorDigit(h.d0, h.d4))
  }

  lemma {:induction false} XorBitsParts(a: nat, h: nat, b: nat, m: nat, n: nat)
    requires a < Pow2(m) && b < Pow2(m) && h < Pow2(n) && a + h * Pow2(m) < Pow2(m + n) && b < Pow2(m + n)
    ensures XorBits(a + h * Pow2(m), b, m + n) == XorBits(a, b, m) + h * Pow2(m)
    decreases m
  {
    Pow2Sum(m, n);
    if m == 0 {
      XorBitsZero(h, n);
    } else {
      var g := h * Pow2(m - 1);
      assert h * Pow2(m) == 2 * g;
      assert (a + 2 * g) / 2 == a / 2 + g && (a + 2 * g) % 2 == a % 2;
      XorBitsParts(a / 2, h, b / 2, m - 1, n);
    }
  }

  lemma XorShiftNum(h: Hex)
    ensures XorShift16(Num(h)) == Num(ShiftHex(h))
  {
    hide XorDigit; hide Value; hide Num;
    var g := Hex(0, 0, 0, 0, h.d7, h.d6, h.d5, h.d4);
    XorShiftIs(Num(h));
    UpperHalf(h);
    XorNum(h, g);
    XorDigitZero(h.d7);
    XorDigitZero(h.d6);
    XorDigitZero(h.d5);
    XorDigitZero(h.d4);
  }

  lemma XorShiftIs(y: word)
    ensures XorShift16(y) == Xor(y, y / 0x1_0000)
  {
    hide XorBits; hide Pow2;
    Pow2At32();
    XorBitsParts(y % 0x1_0000, y / 0x1_0000, y / 0x1_0000, 16, 16);
  }

  lemma UpperHalf(h: Hex)
    ensures Num(Hex(0, 0, 0, 0, h.d7, h.d6, h.d5, h.d4)) == Num(h) / 0x1_0000
  {
    hide Value;
    ZeroValue();
  }

  lemma ZeroValue()
    ensures Value(0) == 0
  {
  }

  lemma XorDigitZero(d: digit)
    ensures XorDigit(d, 0) == d
  {
  }

  /** A word of a high part and a low part below g is rotated by exchanging them. */
  lemma RotlAt(v: word, s: nat, f: nat, g: nat, high: nat, low: nat)
    requires 0 < s < 32 && f == Pow2(s) && g == Pow2(32 - s) && v == high * g + low && low < g
    ensures Rotl(v, s) == low * f + high
  {
    hide Pow2;
    DivisionUnique(high, g, low);
  }

  lemma Powers()
    ensures Pow2(5) == 0x20 && Pow2(7) == 0x80 && Pow2(13) == 0x2000 && Pow2(15) == 0x8000
    ensures Pow2(17) == 0x2_0000 && Pow2(19) == 0x8_0000 && Pow2(25) == 0x200_0000 && Pow2(27) == 0x800_0000
  {
    assert Pow2(5) == 0x20 && Pow2(7) == 0x80 && Pow2(13) == 0x2000 && Pow2(15) == 0x8000;
    assert Pow2(17) == 0x2_0000 && Pow2(19) == 0x8_0000;
    assert Pow2(25) == 0x200_0000;
  }

  lemma Rotl5(v: word, high: nat, low: nat)
    requires v == high * 0x800_0000 + low && low < 0x800_0000
    ensures Rotl(v, 5) == low * 0x20 + high
  {
    hide Rotl; hide Pow2;
    Powers();
    RotlAt(v, 5, 0x20, 0x800_0000, high, low);
  }

  lemma Rotl7(v: word, high: nat, low: nat)
    requires v == high * 0x200_0000 + low && low < 0x200_0000
    ensures Rotl(v, 7) == low * 0x80 + high
  {
    hide Rotl; hide Pow2;
    Powers();
    RotlAt(v, 7, 0x80, 0x200_0000, high, low);
  }

  lemma Rotl13(v: word, high: nat, low: nat)
    requires v == high * 0x8_0000 + low && low < 0x8_0000
    ensures Rotl(v, 13) == low * 0x2000 + high
  {
    hide Rotl; hide Pow2;
    Powers();
    RotlAt(v, 13, 0x2000, 0x8_0000, high, low);
  }

  lemma Rotl17(v: word, high: nat, low: nat)
    requires v == high * 0x8000 + low && low < 0x8000
    ensures Rotl(v, 17) == low * 0x2_0000 + high
  {
    hide Rotl; hide Pow2;
    Powers();
    RotlAt(v, 17, 0x2_0000, 0x8000, high, low);
  }

  lemma AddAt(x: word, y: word, z: word)
    requires z == x + y || z == x + y - WRAP
    ensures Add(x, y) == z
  {
    WrapNear(x + y);
  }

  lemma MulAt(x: word, y: word, q: nat, z: word)
    requires x * y == q * WRAP + z
    ensures Mul(x, y) == z
  {
    DivisionUnique(q, WRAP, z);
  }

  /** The ARX box on x: a is the first sum, n with the digits h what the first rotation makes of
      it, k with the digits g what the shift makes of that, and m is the product. */
  lemma PhiAt(x: word, a: word, high: nat, low: nat, n: word, h: Hex, k: word, g: Hex, q: nat, m: word,
              high': nat, low': nat, y: word)
    requires a == x + 0x9E3779B9 || a == x + 0x9E3779B9 - 0x1_0000_0000
    requires a == high * 0x8_0000 + low && low < 0x8_0000 && n == low * 0x2000 + high && Num(h) == n
    requires g == ShiftHex(h) && Num(g) == k && k * 0x517CC1B7 == q * 0x1_0000_0000 + m
    requires m == high' * 0x200_0000 + low' && low' < 0x200_0000 && y == low' * 0x80 + high' + 1
    ensures Phi(x) == y
  {
    hide XorShift16; hide ShiftHex; hide Num; hide Rotl; hide Add; hide Mul;
    AddAt(x, PHI_C1, a);
    Rotl13(a, high, low);
    XorShiftNum(h);
    MulAt(k, PHI_C2, q, m);
    Rotl7(m, high', low');
    AddAt(y - 1, 1, y);
  }

  lemma XorAt(a: Hex, b: Hex, c: Hex)
    requires c == XorHex(a, b)
    ensures Xor(Num(a), Num(b)) == Num(c)
  {
    hide Xor; hide XorHex; hide Num;
    XorNum(a, b);
  }

  /** The round function on the bytes b: s behind the S-boxes, p behind the product, m behind the
      matrix, y behind the automaton. */
  lemma RoundAt(b: Bytes, s: Bytes, k: word, epsilon: word, p: Bytes, m: Bytes, x: Hex, y: Hex)
    requires s == SubBytes(b) && FromBytes(p) == PndMix(FromBytes(s), k, epsilon)
    requires m == MixBytes(p) && Num(x) == FromBytes(m) && y == StepHex(x)
    ensures FeistelF(FromBytes(b), k, epsilon) == Num(y)
  {
    hide LhcaStep; hide MixBytes; hide PndMix; hide ToBytes; hide FromBytes; hide Num; hide StepHex; hide CtSbox;
    WordBack(b);
    WordBack(p);
    StepNum(x);
  }

  // ------------------------------------------------------------------ the samples

  /** Whoever meets the inverse of a byte has found the result of the chain of squarings. */
  lemma InverseFound(x: bv8, inverse: bv8)
    requires Gf256.Mul(AES, inverse, x) == 1
    ensures CtGf256Inverse(x) == inverse
  {
    hide *;
    if x == 0 {
      TimesZero(inverse);
    } else if inverse == 0 {
      ZeroTimes(x);
    } else {
      Generates();
      var l := ByteOrbit.Reaches(TimesThree, x);
      var m := ByteOrbit.Reaches(TimesThree, inverse);
      PowerIs(l);
      PowerIs(m);
      PowerIs(0);
      ByteOrbit.NoRounds(TimesThree);
      InverseOfPower(l);
      PowerSum(m, l);
      PowerSum(254 * l, m + l);
      PowerSum(254 * l, 0);
      PowerPeriod(m, l);
      assert 254 * l + (m + l) == m + 255 * l;
    }
  }

  lemma TimesZero(a: bv8)
    ensures Gf256.Mul(AES, a, 0) == 0
  {
    hide Gf256.Mul; hide Gf256.Xor;
    Gf256.XorUnits(0);
    Gf256.MulXorRight(AES, a, 0, 0);
    Gf256.XorUnits(Gf256.Mul(AES, a, 0));
  }

  /** Values of the S-box of AES. */
  lemma SboxValues()
    ensures CtSbox(0x00) == 0x63 && CtSbox(0x01) == 0x7C && CtSbox(0x53) == 0xED && CtSbox(0xCA) == 0x74
  {
    hide CtSbox; hide CtGf256Inverse;
    SboxIs(0x00);
    SboxIs(0x01);
    SboxIs(0x53);
    SboxIs(0xCA);
    InverseOfZero();
    Inverses();
    InverseFound(0x01, 0x01);
    InverseFound(0x53, 0xCA);
    InverseFound(0xCA, 0x53);
  }

  lemma Inverses()
    ensures Gf256.Mul(AES, 0x01, 0x01) == 1 && Gf256.Mul(AES, 0xCA, 0x53) == 1 && Gf256.Mul(AES, 0x53, 0xCA) == 1
  {
    hide Gf256.MulFrom; hide Gf256.Mul;
    Gf256.MulUnfold(AES, 0x01, 0x01);
    Gf256.MulUnfold(AES, 0xCA, 0x53);
    Gf256.MulUnfold(AES, 0x53, 0xCA);
  }

  lemma Phi1()
    ensures Phi(0x00000000) == 0x1E50A3B3
  {
    hide Phi;
    PhiAt(0x00000000, 0x9E3779B9, 0x13C6, 0x779B9, 0xEF3733C6, Hex(0xE, 0xF, 0x3, 0x7, 0x3, 0x3, 0xC, 0x6),
          0xEF37DCF1, Hex(0xE, 0xF, 0x3, 0x7, 0xD, 0xC, 0xF, 0x1), 0x4C2540FB, 0x643CA147, 0x32, 0x3CA147, 0x1E50A3B3);
  }

  lemma Phi2()
    ensures Phi(0x63636363) == 0x34C1F87B
  {
    hide Phi;
    PhiAt(0x63636363, 0x019ADD1C, 0x33, 0x2DD1C, 0x5BA38033, Hex(0x5, 0xB, 0xA, 0x3, 0x8, 0x0, 0x3, 0x3),
          0x5BA3DB90, Hex(0x5, 0xB, 0xA, 0x3, 0xD, 0xB, 0x9, 0x0), 0x1D2B812E, 0xF46983F0, 0x7A, 0x6983F0, 0x34C1F87B);
  }

  lemma Product1()
    ensures PndMix(0x63636363, 0x00000000, 0) == 0x53129C2E
  {
    hide Phi; hide Xor;
    Phi1();
    Phi2();
    ProductZero(0x63636363);
  }

  lemma Mix1()
    ensures MixBytes(Bytes(0x2E, 0x9C, 0x12, 0x53)) == Bytes(0xA2, 0x68, 0x63, 0x5A)
  {
    hide MixBytes;
    MixBytesIs(Bytes(0x2E, 0x9C, 0x12, 0x53));
  }

  lemma Step1()
    ensures StepHex(Hex(0x5, 0xA, 0x6, 0x3, 0x6, 0x8, 0xA, 0x2))
         == Hex(0x9, 0x1, 0xD, 0x7, 0x4, 0xD, 0xB, 0x5)
  {
  }

  lemma Round1()
    ensures FeistelF(0x00000000, 0x00000000, 0) == 0x91D74DB5
  {
    hide CtSbox; hide PndMix; hide MixBytes; hide StepHex; hide FeistelF; hide LhcaStep;
    SboxValues();
    Product1();
    Mix1();
    Step1();
    RoundAt(Bytes(0x00, 0x00, 0x00, 0x00), Bytes(0x63, 0x63, 0x63, 0x63), 0x00000000, 0, Bytes(0x2E, 0x9C, 0x12, 0x53),
            Bytes(0xA2, 0x68, 0x63, 0x5A), Hex(0x5, 0xA, 0x6, 0x3, 0x6, 0x8, 0xA, 0x2),
            Hex(0x9, 0x1, 0xD, 0x7, 0x4, 0xD, 0xB, 0x5));
  }

  lemma Phi3()
    ensures Phi(0xA1D98ADB) == 0xD5877808
  {
    hide Phi;
    PhiAt(0xA1D98ADB, 0x40110494, 0x802, 0x10494, 0x20928802, Hex(0x2, 0x0, 0x9, 0x2, 0x8, 0x8, 0x0, 0x2),
          0x2092A890, Hex(0x2, 0x0, 0x9, 0x2, 0xA, 0x8, 0x9, 0x0), 0xA5E4705, 0x0FAB0EF0, 0x7, 0x1AB0EF0, 0xD5877808);
  }

  lemma Coupled1()
    ensures Couple(0x91D74DB5, 0x91D74DB5) == (0x5BEBC418, 0x5593521F)
  {
    hide Phi; hide Xor; hide Rotl;
    ZeroSum(0x91D74DB5);
    XorAt(Hex(0x9, 0x1, 0xD, 0x7, 0x4, 0xD, 0xB, 0x5), Hex(0x3, 0x0, 0x0, 0xE, 0xC, 0x7, 0x6, 0xE),
        Hex(0xA, 0x1, 0xD, 0x9, 0x8, 0xA, 0xD, 0xB));
    Phi1();
    Phi3();
    Rotl5(0x1E50A3B3, 0x3, 0x650A3B3);
    Rotl7(0xD5877808, 0x6A, 0x1877808);
  }

  lemma Phi4()
    ensures Phi(0x53EDBAD5) == 0x20FAA1D6
  {
    hide Phi;
    PhiAt(0x53EDBAD5, 0xF225348E, 0x1E44, 0x5348E, 0xA691DE44, Hex(0xA, 0x6, 0x9, 0x1, 0xD, 0xE, 0x4, 0x4),
          0xA69178D5, Hex(0xA, 0x6, 0x9, 0x1, 0x7, 0x8, 0xD, 0x5), 0x350533BC, 0xAA41F543, 0x55, 0x41F543, 0x20FAA1D6);
  }

  lemma Phi5()
    ensures Phi(0xEC573904) == 0x0715A576
  {
    hide Phi;
    PhiAt(0xEC573904, 0x8A8EB2BD, 0x1151, 0x6B2BD, 0xD657B151, Hex(0xD, 0x6, 0x5, 0x7, 0xB, 0x1, 0x5, 0x1),
          0xD6576706, Hex(0xD, 0x6, 0x5, 0x7, 0x6, 0x7, 0x0, 0x6), 0x443A1C1F, 0xEA0E2B4A, 0x75, 0xE2B4A, 0x0715A576);
  }

  lemma Product2()
    ensures PndMix(0xED747C63, 0x01234567, 46) == 0x66DE5D0A
  {
    hide Phi; hide Xor;
    Phi4();
    Phi5();
    XorAt(Hex(0xE, 0xD, 0x7, 0x4, 0x7, 0xC, 0x6, 0x3), Hex(0x0, 0x1, 0x2, 0x3, 0x4, 0x5, 0x6, 0x7),
        Hex(0xE, 0xC, 0x5, 0x7, 0x3, 0x9, 0x0, 0x4));
  }

  lemma Mix2()
    ensures MixBytes(Bytes(0x0A, 0x5D, 0xDE, 0x66)) == Bytes(0x4B, 0xAF, 0x5A, 0x51)
  {
    hide MixBytes;
    MixBytesIs(Bytes(0x0A, 0x5D, 0xDE, 0x66));
  }

  lemma Step2()
    ensures StepHex(Hex(0x5, 0x1, 0x5, 0xA, 0xA, 0xF, 0x4, 0xB))
         == Hex(0x0, 0xA, 0x1, 0x0, 0xA, 0x5, 0x3, 0xB)
  {
  }

  lemma Round2()
    ensures FeistelF(0x53CA0100, 0x01234567, 46) == 0x0A10A53B
  {
    hide CtSbox; hide PndMix; hide MixBytes; hide StepHex; hide FeistelF; hide LhcaStep;
    SboxValues();
    Product2();
    Mix2();
    Step2();
    RoundAt(Bytes(0x00, 0x01, 0xCA, 0x53), Bytes(0x63, 0x7C, 0x74, 0xED), 0x01234567, 46, Bytes(0x0A, 0x5D, 0xDE, 0x66),
            Bytes(0x4B, 0xAF, 0x5A, 0x51), Hex(0x5, 0x1, 0x5, 0xA, 0xA, 0xF, 0x4, 0xB),
            Hex(0x0, 0xA, 0x1, 0x0, 0xA, 0x5, 0x3, 0xB));
  }

  lemma Phi6()
    ensures Phi(0x9BCB0BC4) == 0x3CB56C88
  {
    hide Phi;
    PhiAt(0x9BCB0BC4, 0x3A02857D, 0x740, 0x2857D, 0x50AFA740, Hex(0x5, 0x0, 0xA, 0xF, 0xA, 0x7, 0x4, 0x0),
          0x50AFF7EF, Hex(0x5, 0x0, 0xA, 0xF, 0xF, 0x7, 0xE, 0xF), 0x19AEFFBD, 0x0E796AD9, 0x7, 0x796AD9, 0x3CB56C88);
  }

  lemma Phi7()
    ensures Phi(0xEA46B993) == 0xCCAFF56E
  {
    hide Phi;
    PhiAt(0xEA46B993, 0x887E334C, 0x110F, 0x6334C, 0xC669910F, Hex(0xC, 0x6, 0x6, 0x9, 0x9, 0x1, 0x0, 0xF),
          0xC6695766, Hex(0xC, 0x6, 0x6, 0x9, 0x5, 0x7, 0x6, 0x6), 0x3F2805D0, 0xDB995FEA, 0x6D, 0x1995FEA, 0xCCAFF56E);
  }

  lemma Product3()
    ensures PndMix(0x63ED747C, 0x89ABCDEF, 46) == 0x0453864C
  {
    hide Phi; hide Xor;
    Phi6();
    Phi7();
    XorAt(Hex(0x6, 0x3, 0xE, 0xD, 0x7, 0x4, 0x7, 0xC), Hex(0x8, 0x9, 0xA, 0xB, 0xC, 0xD, 0xE, 0xF),
        Hex(0xE, 0xA, 0x4, 0x6, 0xB, 0x9, 0x9, 0x3));
  }

  lemma Mix3()
    ensures MixBytes(Bytes(0x4C, 0x86, 0x53, 0x04)) == Bytes(0x5E, 0xAA, 0x60, 0x09)
  {
    hide MixBytes;
    MixBytesIs(Bytes(0x4C, 0x86, 0x53, 0x04));
  }

  lemma Step3()
    ensures StepHex(Hex(0x0, 0x9, 0x6, 0x0, 0xA, 0xA, 0x5, 0xE))
         == Hex(0x1, 0xE, 0x5, 0x1, 0xA, 0x9, 0x9, 0xF)
  {
  }

  lemma Round3()
    ensures FeistelF(0x0053CA01, 0x89ABCDEF, 46) == 0x1E51A99F
  {
    hide CtSbox; hide PndMix; hide MixBytes; hide StepHex; hide FeistelF; hide LhcaStep;
    SboxValues();
    Product3();
    Mix3();
    Step3();
    RoundAt(Bytes(0x01, 0xCA, 0x53, 0x00), Bytes(0x7C, 0x74, 0xED, 0x63), 0x89ABCDEF, 46, Bytes(0x4C, 0x86, 0x53, 0x04),
            Bytes(0x5E, 0xAA, 0x60, 0x09), Hex(0x0, 0x9, 0x6, 0x0, 0xA, 0xA, 0x5, 0xE),
            Hex(0x1, 0xE, 0x5, 0x1, 0xA, 0x9, 0x9, 0xF));
  }

  lemma Phi8()
    ensures Phi(0x14410CA4) == 0x06C62E7C
  {
    hide Phi;
    PhiAt(0x14410CA4, 0xB278865D, 0x164F, 0x865D, 0x10CBB64F, Hex(0x1, 0x0, 0xC, 0xB, 0xB, 0x6, 0x4, 0xF),
          0x10CBA684, Hex(0x1, 0x0, 0xC, 0xB, 0xA, 0x6, 0x8, 0x4), 0x5589F09, 0xF60D8C5C, 0x7B, 0xD8C5C, 0x06C62E7C);
  }

  lemma Phi9()
    ensures Phi(0xB619B76B) == 0x574F314F
  {
    hide Phi;
    PhiAt(0xB619B76B, 0x54513124, 0xA8A, 0x13124, 0x26248A8A, Hex(0x2, 0x6, 0x2, 0x4, 0x8, 0xA, 0x8, 0xA),
          0x2624ACAE, Hex(0x2, 0x6, 0x2, 0x4, 0xA, 0xC, 0xA, 0xE), 0xC243143, 0x9CAE9E62, 0x4E, 0xAE9E62, 0x574F314F);
  }

  lemma Coupled2()
    ensures Couple(0x0A10A53B, 0x1E51A99F) == (0xE2D674BB, 0xC5EA514A)
  {
    hide Phi; hide Xor; hide Rotl;
    XorAt(Hex(0x0, 0xA, 0x1, 0x0, 0xA, 0x5, 0x3, 0xB), Hex(0x1, 0xE, 0x5, 0x1, 0xA, 0x9, 0x9, 0xF),
        Hex(0x1, 0x4, 0x4, 0x1, 0x0, 0xC, 0xA, 0x4));
    XorAt(Hex(0x1, 0xE, 0x5, 0x1, 0xA, 0x9, 0x9, 0xF), Hex(0xA, 0x8, 0x4, 0x8, 0x1, 0xE, 0xF, 0x4),
        Hex(0xB, 0x6, 0x1, 0x9, 0xB, 0x7, 0x6, 0xB));
    Phi8();
    Phi9();
    Rotl5(0x06C62E7C, 0x0, 0x6C62E7C);
    Rotl7(0x574F314F, 0x2B, 0x14F314F);
  }

  lemma ZeroSum(a: word)
    ensures Xor(a, a) == 0 && Xor(0, a) == a
  {
    hide Xor;
    ProductZero(a);
    XorSolve(a, 0, a);
  }

  /** Two rounds with different keys, on the block of zeros. The first round turns the words of
      the left half into known ones, and the last key is what the second round leaves: in this
      way the result is zero again, and any other outcome of a stage would show. */
  lemma SampleEncryption(k: Keys)
    requires KeysOk(k) && k.rounds == 2 && k.epsilon[1] == 0 && k.epsilon[2] == 0x2e
    requires k.key[0] == Block(0x0821C518, 0x55C0981E, 0, 0)
    requires k.key[1].l0 == 0 && k.key[1].l1 == 0 && k.key[2].l0 == 0x01234567 && k.key[2].l1 == 0x89ABCDEF
    requires k.key[3] == Block(0x53CA0100, 0x0053CA01, 0xE2D674BB, 0xC5EA514A)
    ensures Encrypt(k, Block(0, 0, 0, 0)) == Block(0, 0, 0, 0)
  {
    hide Xor; hide FeistelF; hide Couple; hide Num;
    Whitening();
    Round1();
    Coupled1();
    assert Forward(k, Block(0x0821C518, 0x55C0981E, 0, 0), 1) == Block(0, 0, 0x53CA0100, 0x0053CA01);
    Round2();
    Round3();
    Coupled2();
    assert Forward(k, Block(0x0821C518, 0x55C0981E, 0, 0), 2)
        == Block(0x53CA0100, 0x0053CA01, 0xE2D674BB, 0xC5EA514A);
  }

  /** The sums of words in the sample. */
  lemma Whitening()
    ensures Xor(0, 0x0821C518) == 0x0821C518 && Xor(0, 0x55C0981E) == 0x55C0981E && Xor(0, 0) == 0
    ensures Xor(0x0821C518, 0x5BEBC418) == 0x53CA0100 && Xor(0x55C0981E, 0x5593521F) == 0x0053CA01
    ensures Xor(0, 0xE2D674BB) == 0xE2D674BB && Xor(0, 0xC5EA514A) == 0xC5EA514A
    ensures Xor(0x53CA0100, 0x53CA0100) == 0 && Xor(0x0053CA01, 0x0053CA01) == 0
    ensures Xor(0xE2D674BB, 0xE2D674BB) == 0 && Xor(0xC5EA514A, 0xC5EA514A) == 0
  {
    hide Xor;
    ZeroSum(0x0821C518);
    ZeroSum(0x55C0981E);
    ZeroSum(0);
    XorAt(Hex(0x0, 0x8, 0x2, 0x1, 0xC, 0x5, 0x1, 0x8), Hex(0x5, 0xB, 0xE, 0xB, 0xC, 0x4, 0x1, 0x8),
        Hex(0x5, 0x3, 0xC, 0xA, 0x0, 0x1, 0x0, 0x0));
    XorAt(Hex(0x5, 0x5, 0xC, 0x0, 0x9, 0x8, 0x1, 0xE), Hex(0x5, 0x5, 0x9, 0x3, 0x5, 0x2, 0x1, 0xF),
        Hex(0x0, 0x0, 0x5, 0x3, 0xC, 0xA, 0x0, 0x1));
    ZeroSum(0xE2D674BB);
    ZeroSum(0xC5EA514A);
    ZeroSum(0x53CA0100);
    ZeroSum(0x0053CA01);
  }

  lemma Phi10()
    ensures Phi(0x1ABCCCCF) == 0x4C25FCE0
  {
    hide Phi;
    PhiAt(0x1ABCCCCF, 0xB8F44688, 0x171E, 0x44688, 0x88D1171E, Hex(0x8, 0x8, 0xD, 0x1, 0x1, 0x7, 0x1, 0xE),
          0x88D19FCF, Hex(0x8, 0x8, 0xD, 0x1, 0x9, 0xF, 0xC, 0xF), 0x2B8D00A1, 0xBE984BF9, 0x5F, 0x984BF9, 0x4C25FCE0);
  }

  lemma SafeKeySample()
    ensures SafeKey(1) == 0x9E357999
  {
    hide Rotl; hide Xor;
    Rotl5(1, 0, 1);
    Rotl17(1, 0, 1);
    XorAt(Hex(0x0, 0x0, 0x0, 0x0, 0x0, 0x0, 0x2, 0x0), Hex(0x0, 0x0, 0x0, 0x2, 0x0, 0x0, 0x0, 0x0),
        Hex(0x0, 0x0, 0x0, 0x2, 0x0, 0x0, 0x2, 0x0));
    XorAt(Hex(0x0, 0x0, 0x0, 0x2, 0x0, 0x0, 0x2, 0x0), Hex(0x0, 0x0, 0x0, 0x0, 0x0, 0x0, 0x0, 0x1),
        Hex(0x0, 0x0, 0x0, 0x2, 0x0, 0x0, 0x2, 0x1));
    XorAt(Hex(0x0, 0x0, 0x0, 0x2, 0x0, 0x0, 0x2, 0x1), Hex(0x9, 0xE, 0x3, 0x7, 0x7, 0x9, 0xB, 0x9),
        Hex(0x9, 0xE, 0x3, 0x5, 0x7, 0x9, 0x9, 0x8));
  }

  lemma OperatorTurns()
    ensures Rotl(0x9E357999, 7) == 0x1ABCCCCF && Rotl(0x9E357998, 13) == 0xAF3313C6
  {
    Rotl7(0x9E357999, 0x4F, 0x357999);
    Rotl13(0x9E357998, 0x13C6, 0x57998);
  }

  lemma LastTurn()
    ensures Rotl(0x3F4CB1A6, 13) == 0x9634C7E9
  {
    Rotl13(0x3F4CB1A6, 0x7E9, 0x4B1A6);
  }

  lemma OperatorKey()
    ensures Xor(0x9E357999, 1) == 0x9E357998 && Xor(0x9E357999, 0x9E357999) == 0
  {
    hide Xor;
    ZeroSum(0x9E357999);
    XorAt(Hex(0x9, 0xE, 0x3, 0x5, 0x7, 0x9, 0x9, 0x9), Hex(0x0, 0x0, 0x0, 0x0, 0x0, 0x0, 0x0, 0x1),
        Hex(0x9, 0xE, 0x3, 0x5, 0x7, 0x9, 0x9, 0x8));
  }

  lemma OperatorSums()
    ensures Add(Mul(0, 0x9E357999), Mul(1, 0x1ABCCCCF)) == 0x1ABCCCCF
    ensures Add(Mul(0x4C25FCE0, GOLDEN), 0xAF3313C6) == 0x3F4CB1A6
  {
  }

  /** The keyed operator with key 1 and epsilon 1, on the word that its first step turns to 0. */
  lemma SampleOperator()
    ensures NilpotentOperator(0x9E357999, 1, 1) == 0x9634C7E9
  {
    hide Rotl; hide Xor; hide Phi; hide SafeKey; hide Add; hide Mul;
    SafeKeySample();
    OperatorKey();
    OperatorTurns();
    OperatorSums();
    Phi10();
    LastTurn();
  }
}
