/** Word operations of poler_core.h: modular inverse by Hensel lifting, the ARX box phi
    and the keyed operator. A word is an unsigned 32-bit number; sums and products wrap. */
module PolerWord {
  import opened Arithmetic

  const WRAP: int := 0x1_0000_0000

  type word = x: int | 0 <= x < 0x1_0000_0000

  const GOLDEN: word := 0x9E3779B9
  const PHI_C1: word := 0x9E3779B9
  const PHI_C2: word := 0x517CC1B7
  const PHI_C2_INV: word := 0x38D5EA1B

  function Wrap(x: int): word { x % WRAP }

  function Mul(a: word, b: word): word { Wrap(a * b) }
  function Add(a: word, b: word): word { Wrap(a + b) }
  function Sub(a: word, b: word): word { Wrap(a - b) }

  /** Bitwise exclusive or of two numbers of n bits. */
  function XorBits(a: nat, b: nat, n: nat): (r: nat)
    requires a < Pow2(n) && b < Pow2(n)
    ensures r < Pow2(n)
    decreases n
  {
    if n == 0 then 0
    else (if a % 2 == b % 2 then 0 else 1) + 2 * XorBits(a / 2, b / 2, n - 1)
  }

  function Pow2(n: nat): nat { if n == 0 then 1 else 2 * Pow2(n - 1) }

  lemma Pow2At32()
    ensures Pow2(16) == 0x1_0000 && Pow2(32) == WRAP
  {
    assert Pow2(8) == 256;
    assert Pow2(16) == 0x1_0000;
    assert Pow2(24) == 0x100_0000;
  }

  function Xor(a: word, b: word): word { Pow2At32(); XorBits(a, b, 32) }

  function Xor16(a: nat, b: nat): (r: nat)
    requires a < 0x1_0000 && b < 0x1_0000
    ensures r < 0x1_0000
  {
    Pow2At32();
    XorBits(a, b, 16)
  }

  lemma {:induction false} XorBitsTwice(a: nat, b: nat, n: nat)
    requires a < Pow2(n) && b < Pow2(n)
    ensures XorBits(XorBits(a, b, n), b, n) == a
    decreases n
  {
    if n > 0 {
      XorBitsTwice(a / 2, b / 2, n - 1);
      var x, h := XorBits(a, b, n), XorBits(a / 2, b / 2, n - 1);
      assert x % 2 == (if a % 2 == b % 2 then 0 else 1) && x / 2 == h;
      XorBitsUnfold(x, b, n);
    }
  }

  lemma XorBitsUnfold(a: nat, b: nat, n: nat)
    requires a < Pow2(n) && b < Pow2(n) && n > 0
    ensures XorBits(a, b, n) == (if a % 2 == b % 2 then 0 else 1) + 2 * XorBits(a / 2, b / 2, n - 1)
  {
  }

  lemma XorTwice(a: word, b: word)
    ensures Xor(Xor(a, b), b) == a
  {
    Pow2At32();
    XorBitsTwice(a, b, 32);
  }

  // ---------------------------------------------------------------- rotations

  lemma {:induction false} Pow2Sum(m: nat, n: nat)
    ensures Pow2(m) * Pow2(n) == Pow2(m + n)
    decreases m
  {
    if m > 0 {
      Pow2Sum(m - 1, n);
      assert Pow2(m) * Pow2(n) == 2 * (Pow2(m - 1) * Pow2(n));
    }
  }

  /** The number v of f * g values, as high part and low part with g values, exchanged. */
  function Swap(v: nat, f: nat, g: nat): nat
    requires g > 0
  {
    (v % g) * f + v / g
  }

  lemma SwapBound(v: nat, f: nat, g: nat)
    requires g > 0 && f > 0 && v < f * g
    ensures Swap(v, f, g) < f * g
    ensures Swap(v, f, g) / f == v % g && Swap(v, f, g) % f == v / g
  {
    var hi, lo := v / g, v % g;
    assert v == hi * g + lo;
    if hi >= f {
      Monotone(f, hi, g);
    }
    Monotone(lo + 1, g, f);
    assert (lo + 1) * f == lo * f + f;
    DivisionUnique(lo, f, hi);
  }

  /** rotl32 for the shift amounts 1 to 31; all places of use pass a constant in this range. */
  function Rotl(v: word, s: nat): word
    requires 0 < s < 32
  {
    Pow2Sum(s, 32 - s);
    Pow2At32();
    Pow2Positive(s);
    Pow2Positive(32 - s);
    SwapBound(v, Pow2(s), Pow2(32 - s));
    Swap(v, Pow2(s), Pow2(32 - s))
  }

  function Rotr(v: word, s: nat): word
    requires 0 < s < 32
  {
    Rotl(v, 32 - s)
  }

  lemma Pow2Positive(n: nat)
    ensures Pow2(n) > 0
  {
  }

  lemma RotateBack(v: word, s: nat)
    requires 0 < s < 32
    ensures Rotr(Rotl(v, s), s) == v && Rotl(Rotr(v, s), s) == v
  {
    RotateOther(v, s);
    RotateOther(v, 32 - s);
  }

  lemma SwapBack(v: nat, f: nat, g: nat)
    requires g > 0 && f > 0 && v < f * g
    ensures Swap(Swap(v, f, g), g, f) == v
  {
    SwapBound(v, f, g);
    assert v == (v / g) * g + v % g;
  }

  lemma RotateOther(v: word, s: nat)
    requires 0 < s < 32
    ensures Rotl(Rotl(v, s), 32 - s) == v
  {
    hide Pow2; hide Swap;
    Pow2Sum(s, 32 - s);
    Pow2At32();
    Pow2Positive(s);
    Pow2Positive(32 - s);
    SwapBack(v, Pow2(s), Pow2(32 - s));
  }

  // ------------------------------------------------------- arithmetic that wraps

  lemma WrapPlus(k: int, x: int)
    ensures (x + k * WRAP) % WRAP == x % WRAP
  {
  }

  lemma WrapMul(x: int, c: int)
    ensures ((x % WRAP) * c) % WRAP == (x * c) % WRAP
  {
    var q := x / WRAP;
    assert x == q * WRAP + x % WRAP;
    assert x * c == (x % WRAP) * c + (q * c) * WRAP;
    WrapPlus(q * c, (x % WRAP) * c);
  }

  lemma MulAssoc(a: word, b: word, c: word)
    ensures Mul(Mul(a, b), c) == Mul(a, Mul(b, c))
  {
    WrapMul(a * b, c);
    WrapMul(b * c, a);
    assert (a * b) * c == a * (b * c);
    assert ((b * c) % WRAP) * a == a * ((b * c) % WRAP);
    assert (b * c) * a == a * (b * c);
  }

  lemma MulComm(a: word, b: word)
    ensures Mul(a, b) == Mul(b, a)
  {
    assert a * b == b * a;
  }

  lemma MulUnit(a: word)
    ensures Mul(a, 1) == a
  {
  }

  lemma AddSub(a: word, b: word)
    ensures Sub(Add(a, b), b) == a && Add(Sub(a, b), b) == a
  {
    WrapNear(a + b);
    WrapNear(a - b);
    hide Wrap;
    WrapNear(Add(a, b) - b);
    WrapNear(Sub(a, b) + b);
  }

  lemma WrapNear(v: int)
    requires -WRAP <= v < 2 * WRAP
    ensures Wrap(v) == if v < 0 then v + WRAP else if v < WRAP then v else v - WRAP
  {
  }

  // ------------------------------------------------------- inverse modulo 2^32

  /** x after i rounds of Hensel lifting. */
  function Lifted(a: word, i: nat): word
  {
    if i == 0 then 1 else var x := Lifted(a, i - 1); Mul(x, Sub(2, Mul(a, x)))
  }

  function ModInverse32(a: word): word
  {
    if a % 2 == 0 then 0 else Lifted(a, 5)
  }

  method ComputeModInverse32(a: word) returns (x: word)
    ensures x == ModInverse32(a)
  {
    if a % 2 == 0 {
      return 0;
    }
    x := 1;
    for i := 0 to 5
      invariant x == Lifted(a, i)
    {
      var ax := Mul(a, x);
      var twoMinusAx := Sub(Add(0, 2), ax);
      x := Mul(x, twoMinusAx);
    }
  }

  /** 2^(2^i) */
  function Precision(i: nat): (m: nat)
    ensures m > 0
  {
    if i == 0 then 2
    else
      var h := Precision(i - 1);
      PositiveSquare(h);
      h * h
  }

  lemma PositiveSquare(h: nat)
    requires h > 0
    ensures h * h > 0
  {
  }

  lemma PrecisionDividesWrap(i: nat) returns (k: nat)
    requires i <= 5
    ensures Precision(i) * k == WRAP && Precision(i) >= 2
    ensures i == 5 ==> k == 1
  {
    assert Precision(1) == 4 && Precision(2) == 16 && Precision(3) == 256;
    assert Precision(4) == 65536;
    assert Precision(5) == WRAP;
    k := [0x8000_0000, 0x4000_0000, 0x1000_0000, 0x100_0000, 0x1_0000, 1][i];
  }

  /** One round in plain integers: with p = 1 + m * t the new product p * (2 - p) is 1 - (m * t)^2. */
  lemma LiftStep(a: word, x: word, m: nat, t: int, k: nat) returns (t': int)
    requires a * x == 1 + m * t && (m * m) * k == WRAP
    ensures a * Mul(x, Sub(2, Mul(a, x))) == 1 + (m * m) * t'
  {
    hide Mul; hide Sub;
    var p := a * x;
    var y := Sub(2, Mul(a, x));
    var u := SubWraps(a, x);
    var w := MulWraps(x, y);
    var mm, tt, pu, aw := m * m, t * t, p * u, a * w;
    LiftExpand(a, x, y, u, w);
    SquaredRest(m, t);
    t' := -tt - k * pu - k * aw;
    Collect(mm, k, tt, pu, aw);
    LiftSum(a * Mul(x, y), p * (2 - p), mm * tt, mm * t', pu, aw);
  }

  lemma MulWraps(x: word, y: word) returns (w: int)
    ensures Mul(x, y) == x * y - WRAP * w
  {
    w := (x * y) / WRAP;
  }

  lemma SubWraps(a: word, x: word) returns (u: int)
    ensures Sub(2, Mul(a, x)) == 2 - a * x - WRAP * u
  {
    var q := MulWraps(a, x);
    var v := 2 - Mul(a, x);
    u := v / WRAP - q;
    assert Wrap(v) == v - WRAP * (v / WRAP);
  }

  lemma LiftSum(left: int, square: int, rest: int, sum: int, pu: int, aw: int)
    requires left == square - WRAP * pu - WRAP * aw && square == 1 - rest && sum == -rest - WRAP * pu - WRAP * aw
    ensures left == 1 + sum
  {
  }

  lemma LiftExpand(a: int, x: int, y: int, u: int, w: int)
    requires y == 2 - a * x - WRAP * u
    ensures a * (x * y - WRAP * w) == (a * x) * (2 - a * x) - WRAP * ((a * x) * u) - WRAP * (a * w)
  {
    var p := a * x;
    Distribute(a, x, y, w);
    Distribute(p, 1, 2 - p, u);
    assert p * y == p * (2 - p - WRAP * u);
  }

  lemma SquaredRest(m: int, t: int)
    ensures (1 + m * t) * (2 - (1 + m * t)) == 1 - (m * m) * (t * t)
  {
    var r := m * t;
    assert (1 + r) * (1 - r) == 1 - r * r;
    assert (m * t) * (m * t) == (m * m) * (t * t);
  }

  lemma Distribute(a: int, x: int, y: int, w: int)
    ensures a * (x * y - WRAP * w) == (a * x) * y - WRAP * (a * w)
  {
  }

  lemma Collect(mm: int, k: int, tt: int, pu: int, aw: int)
    requires mm * k == WRAP
    ensures mm * (-tt - k * pu - k * aw) == -mm * tt - WRAP * pu - WRAP * aw
  {
    assert mm * (k * pu) == (mm * k) * pu;
    assert mm * (k * aw) == (mm * k) * aw;
  }

  lemma {:induction false} LiftQuotient(a: word, i: nat) returns (t: int)
    requires a % 2 == 1 && i <= 5
    ensures a * Lifted(a, i) == 1 + Precision(i) * t
  {
    if i == 0 {
      t := a / 2;
    } else {
      var t0 := LiftQuotient(a, i - 1);
      var k := PrecisionDividesWrap(i);
      t := LiftStep(a, Lifted(a, i - 1), Precision(i - 1), t0, k);
    }
  }

  /** After i rounds of the loop a * x = 1 modulo 2^(2^i). */
  lemma LiftPrecision(a: word, i: nat)
    requires a % 2 == 1 && i <= 5
    ensures (a * Lifted(a, i)) % Precision(i) == 1
  {
    var k := PrecisionDividesWrap(i);
    var t := LiftQuotient(a, i);
    hide Lifted; hide Precision;
    ProductNatural(a, Lifted(a, i));
    RemainderOne(a * Lifted(a, i), Precision(i), t);
  }

  lemma ProductNatural(a: word, b: word)
    ensures a * b >= 0
  {
  }

  lemma RemainderOne(n: nat, m: nat, t: int)
    requires n == 1 + m * t && m >= 2
    ensures n % m == 1
  {
    assert t >= 0;
    DivisionUnique(t, m, 1);
  }

  /** The result is the inverse for odd a; for even a there is none. */
  lemma ModInverse32Correct(a: word)
    ensures a % 2 == 1 ==> Mul(a, ModInverse32(a)) == 1
    ensures a % 2 == 0 ==> ModInverse32(a) == 0 && forall x: word :: Mul(a, x) != 1
  {
    if a % 2 == 1 {
      var k := PrecisionDividesWrap(5);
      LiftPrecision(a, 5);
    } else {
      forall x: word
        ensures Mul(a, x) != 1
      {
        EvenProduct(a, x);
      }
    }
  }

  lemma EvenProduct(a: word, x: word)
    requires a % 2 == 0
    ensures Mul(a, x) != 1
  {
    assert a * x == 2 * ((a / 2) * x);
  }

  /** Multiplication by an odd word and by its inverse undo each other. */
  lemma OddMultiplication(y: word, k: word)
    requires k % 2 == 1
    ensures Mul(Mul(y, k), ModInverse32(k)) == y && Mul(Mul(y, ModInverse32(k)), k) == y
  {
    hide Mul; hide ModInverse32;
    var v := ModInverse32(k);
    ModInverse32Correct(k);
    MulAssoc(y, k, v);
    MulAssoc(y, v, k);
    MulComm(v, k);
    MulUnit(y);
  }

  /** The constant PHI_C2_INV is not the inverse of PHI_C2 that its comment announces. */
  lemma StatedInverseIsWrong()
    ensures Mul(PHI_C2, PHI_C2_INV) != 1 && ModInverse32(PHI_C2) != PHI_C2_INV
  {
    ModInverse32Correct(PHI_C2);
    assert PHI_C2 * PHI_C2_INV != 1;
  }

  // ----------------------------------------------------------------- ARX box

  /** y ^ (y >> 16): the high half stays, the low half is combined with it. */
  function XorShift16(y: word): word
  {
    (y / 0x1_0000) * 0x1_0000 + Xor16(y % 0x1_0000, y / 0x1_0000)
  }

  function Phi(x: word): word
  {
    Add(Rotl(Mul(XorShift16(Rotl(Add(x, PHI_C1), 13)), PHI_C2), 7), 1)
  }

  function PhiInverse(y: word): word
  {
    Sub(Rotr(XorShift16(Mul(Rotr(Sub(y, 1), 7), ModInverse32(PHI_C2))), 13), PHI_C1)
  }

  lemma XorShiftTwice(y: word)
    ensures XorShift16(XorShift16(y)) == y
  {
    hide XorBits;
    Pow2At32();
    XorBitsTwice(y % 0x1_0000, y / 0x1_0000, 16);
  }

  lemma PhiBijective(x: word)
    ensures PhiInverse(Phi(x)) == x && Phi(PhiInverse(x)) == x
  {
    hide Mul; hide Add; hide Sub; hide Rotl; hide Rotr; hide XorShift16; hide ModInverse32;
    assert PHI_C2 % 2 == 1;
    var a := Rotl(Add(x, PHI_C1), 13);
    var m := Mul(XorShift16(a), PHI_C2);
    AddSub(Rotl(m, 7), 1);
    RotateBack(m, 7);
    OddMultiplication(XorShift16(a), PHI_C2);
    XorShiftTwice(a);
    RotateBack(Add(x, PHI_C1), 13);
    AddSub(x, PHI_C1);

    var r := Rotr(Sub(x, 1), 7);
    var w := Mul(r, ModInverse32(PHI_C2));
    AddSub(Rotr(XorShift16(w), 13), PHI_C1);
    RotateBack(XorShift16(w), 13);
    XorShiftTwice(w);
    OddMultiplication(r, PHI_C2);
    RotateBack(Sub(x, 1), 7);
    AddSub(x, 1);
  }

  // ------------------------------------------------------------ keyed operator

  function SetLowBit(x: word): word { if x % 2 == 0 then x + 1 else x }

  function SafeKey(key: word): word
  {
    SetLowBit(Xor(Xor(Xor(Rotl(key, 5), Rotl(key, 17)), key), GOLDEN))
  }

  function NilpotentOperator(y: word, key: word, epsilon: word): word
  {
    var k := SafeKey(key);
    var x := Add(Mul(Xor(y, k), k), Mul(epsilon, Rotl(k, 7)));
    Rotl(Add(Mul(Phi(x), GOLDEN), Rotl(Xor(k, epsilon), 13)), 13)
  }

  function OperatorInverse(z: word, key: word, epsilon: word): word
  {
    var k := SafeKey(key);
    var x := PhiInverse(Mul(Sub(Rotr(z, 13), Rotl(Xor(k, epsilon), 13)), ModInverse32(GOLDEN)));
    Xor(Mul(Sub(x, Mul(epsilon, Rotl(k, 7))), ModInverse32(k)), k)
  }

  lemma SafeKeyOdd(key: word)
    ensures SafeKey(key) % 2 == 1
  {
    hide Xor; hide Rotl;
  }

  /** For every key and epsilon the operator is a bijection on words. */
  lemma OperatorBijective(y: word, key: word, epsilon: word)
    ensures OperatorInverse(NilpotentOperator(y, key, epsilon), key, epsilon) == y
    ensures NilpotentOperator(OperatorInverse(y, key, epsilon), key, epsilon) == y
  {
    hide Mul; hide Add; hide Sub; hide Xor; hide Rotl; hide Rotr; hide Phi; hide PhiInverse; hide ModInverse32;
    hide SafeKey;
    var k := SafeKey(key);
    SafeKeyOdd(key);
    assert GOLDEN % 2 == 1;
    var c, d := Mul(epsilon, Rotl(k, 7)), Rotl(Xor(k, epsilon), 13);

    var m := Mul(Xor(y, k), k);
    var x := Add(m, c);
    RotateBack(Add(Mul(Phi(x), GOLDEN), d), 13);
    AddSub(Mul(Phi(x), GOLDEN), d);
    OddMultiplication(Phi(x), GOLDEN);
    PhiBijective(x);
    AddSub(m, c);
    OddMultiplication(Xor(y, k), k);
    XorTwice(y, k);

    var u := Sub(Rotr(y, 13), d);
    var v := Mul(u, ModInverse32(GOLDEN));
    var w := Sub(PhiInverse(v), c);
    XorTwice(Mul(w, ModInverse32(k)), k);
    OddMultiplication(w, k);
    AddSub(PhiInverse(v), c);
    PhiBijective(v);
    OddMultiplication(u, GOLDEN);
    AddSub(Rotr(y, 13), d);
    RotateBack(y, 13);
  }
}
