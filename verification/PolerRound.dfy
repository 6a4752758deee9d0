/** What one application of the round function of poler_core.h does: each of its stages can be
    undone, and undoing them one after the other gives the word back. */
module PolerRound {
  import opened PolerWord
  import opened PolerSbox
  import opened PolerCipher
  import Gf256
  import Octets

  // ------------------------------------------------------------ bytes and words

  lemma ByteBack(x: octet, b: bv8)
    ensures ValueOf(ByteOf(x)) == x && ByteOf(ValueOf(b)) == b
  {
    hide Octets.Narrow;
    Octets.NarrowBack(x);
    Octets.NarrowTo(b as int, b);
  }

  lemma BytesBack(w: word)
    ensures FromBytes(ToBytes(w)) == w
  {
    hide ByteOf; hide ValueOf;
    var q := w / 0x100;
    var r := q / 0x100;
    ByteBack(w % 0x100, 0);
    ByteBack(q % 0x100, 0);
    ByteBack(r % 0x100, 0);
    ByteBack(r / 0x100, 0);
    assert w / 0x1_0000 == r && w / 0x100_0000 == r / 0x100;
  }

  lemma WordBack(b: Bytes)
    ensures ToBytes(FromBytes(b)) == b
  {
    hide ByteOf; hide ValueOf;
    ByteBack(0, b.b0);
    ByteBack(0, b.b1);
    ByteBack(0, b.b2);
    ByteBack(0, b.b3);
    OctetsOf(ValueOf(b.b0), ValueOf(b.b1), ValueOf(b.b2), ValueOf(b.b3), FromBytes(b));
  }

  lemma OctetsOf(b0: octet, b1: octet, b2: octet, b3: octet, w: word)
    requires w == b0 + 0x100 * b1 + 0x1_0000 * b2 + 0x100_0000 * b3
    ensures w % 0x100 == b0 && (w / 0x100) % 0x100 == b1 && (w / 0x1_0000) % 0x100 == b2 && w / 0x100_0000 == b3
  {
  }

  // ------------------------------------------------------------------ S-box layer

  function SubBytes(b: Bytes): Bytes { Bytes(CtSbox(b.b0), CtSbox(b.b1), CtSbox(b.b2), CtSbox(b.b3)) }

  function InvSubBytes(b: Bytes): Bytes { Bytes(CtInvSbox(b.b0), CtInvSbox(b.b1), CtInvSbox(b.b2), CtInvSbox(b.b3)) }

  lemma SubBytesBack(b: Bytes)
    ensures InvSubBytes(SubBytes(b)) == b
  {
    hide CtSbox; hide CtInvSbox;
    SboxInverts(b.b0);
    SboxInverts(b.b1);
    SboxInverts(b.b2);
    SboxInverts(b.b3);
  }

  // ------------------------------------------------------------------- mix columns

  lemma TimesTwoAndThree(a: bv8)
    ensures Gf256.Mul(AES, 2, a) == Gf256.Xtime(AES, a)
    ensures Gf256.Mul(AES, 3, a) == Gf256.Xor(Gf256.Xtime(AES, a), a)
  {
    hide Gf256.Mul; hide Gf256.MulFrom;
    Gf256.MulFromXtime(AES, 1, a, 8);
    Gf256.MulIs(AES, 2, a);
    Gf256.MulIs(AES, 1, a);
    Gf256.MulOne(AES, a);
    MulTimesThree(1, a);
  }

  /** The sum of five bytes. */
  function Sum5(a: bv8, b: bv8, c: bv8, d: bv8, e: bv8): bv8 { a ^ b ^ c ^ d ^ e }

  function X(a: bv8): bv8 { Gf256.Xtime(AES, a) }

  lemma MixRowIs(p: bv8, q: bv8, r: bv8, s: bv8)
    ensures MixRow(p, q, r, s) == Sum5(X(p), X(q), q, r, s)
  {
    hide Gf256.Mul; hide Gf256.Xtime; hide Gf256.Xor; hide Sum5;
    TimesTwoAndThree(p);
    TimesTwoAndThree(q);
    Sum5Groups(X(p), X(q), q, r, s);
  }

  lemma Sum5Groups(a: bv8, b: bv8, c: bv8, d: bv8, e: bv8)
    ensures Sum5(a, b, c, d, e) == a ^ Gf256.Xor(b, c) ^ d ^ e
  {
  }

  lemma MixBytesIs(a: Bytes)
    ensures MixBytes(a) == Bytes(Sum5(X(a.b0), X(a.b1), a.b1, a.b2, a.b3), Sum5(X(a.b1), X(a.b2), a.b2, a.b3, a.b0),
                                 Sum5(X(a.b2), X(a.b3), a.b3, a.b0, a.b1), Sum5(X(a.b3), X(a.b0), a.b0, a.b1, a.b2))
  {
    hide MixRow; hide X; hide Sum5;
    MixRowIs(a.b0, a.b1, a.b2, a.b3);
    MixRowIs(a.b1, a.b2, a.b3, a.b0);
    MixRowIs(a.b2, a.b3, a.b0, a.b1);
    MixRowIs(a.b3, a.b0, a.b1, a.b2);
  }

  lemma Sum5Is(a: bv8, b: bv8, c: bv8, d: bv8, e: bv8)
    ensures Sum5(a, b, c, d, e) == Gf256.Xor(Gf256.Xor(Gf256.Xor(Gf256.Xor(a, b), c), d), e)
  {
  }

  lemma XSum5(a: bv8, b: bv8, c: bv8, d: bv8, e: bv8)
    ensures X(Sum5(a, b, c, d, e)) == Sum5(X(a), X(b), X(c), X(d), X(e))
  {
    hide Gf256.Xor; hide Gf256.Xtime; hide Sum5;
    Sum5Is(a, b, c, d, e);
    Sum5Is(X(a), X(b), X(c), X(d), X(e));
    Gf256.XtimeXor(AES, a, b);
    Gf256.XtimeXor(AES, Gf256.Xor(a, b), c);
    Gf256.XtimeXor(AES, Gf256.Xor(Gf256.Xor(a, b), c), d);
    Gf256.XtimeXor(AES, Gf256.Xor(Gf256.Xor(Gf256.Xor(a, b), c), d), e);
  }

  /** The byte a, plus 4 times the sum of a and the opposite byte c. */
  function Quad(a: bv8, c: bv8): bv8 { Gf256.Xor(a, X(X(Gf256.Xor(a, c)))) }

  /** Products by x, once and twice, of the bytes a0 to a3; the products of mixed bytes are mixtures again. */
  lemma MixTwiceSum(a0: bv8, a1: bv8, a2: bv8, a3: bv8, y0: bv8, y1: bv8, y2: bv8, y3: bv8,
                    z0: bv8, z1: bv8, z2: bv8, z3: bv8)
    ensures Sum5(Sum5(z0, z1, y1, y2, y3), Sum5(z1, z2, y2, y3, y0), Sum5(y1, y2, a2, a3, a0),
                 Sum5(y2, y3, a3, a0, a1), Sum5(y3, y0, a0, a1, a2))
         == Gf256.Xor(a0, Gf256.Xor(z0, z2))
  {
    hide Sum5;
    var c, d, e := Sum5(y1, y2, a2, a3, a0), Sum5(y2, y3, a3, a0, a1), Sum5(y3, y0, a0, a1, a2);
    TwoSums(y0, y1, y2, y3, z0, z1, z2);
    ThreeSums(a0, a1, a2, a3, y0, y1, y2, y3);
    FiveSum(Sum5(z0, z1, y1, y2, y3), Sum5(z1, z2, y2, y3, y0), c, d, e, a0, y0 ^ y1, z0 ^ z2);
  }

  lemma TwoSums(y0: bv8, y1: bv8, y2: bv8, y3: bv8, z0: bv8, z1: bv8, z2: bv8)
    ensures Sum5(z0, z1, y1, y2, y3) ^ Sum5(z1, z2, y2, y3, y0) == (z0 ^ z2) ^ (y0 ^ y1)
  {
  }

  lemma ThreeSums(a0: bv8, a1: bv8, a2: bv8, a3: bv8, y0: bv8, y1: bv8, y2: bv8, y3: bv8)
    ensures Sum5(y1, y2, a2, a3, a0) ^ Sum5(y2, y3, a3, a0, a1) ^ Sum5(y3, y0, a0, a1, a2) == a0 ^ (y0 ^ y1)
  {
  }

  lemma FiveSum(a: bv8, b: bv8, c: bv8, d: bv8, e: bv8, a0: bv8, y: bv8, z: bv8)
    requires a ^ b == z ^ y && c ^ d ^ e == a0 ^ y
    ensures Sum5(a, b, c, d, e) == Gf256.Xor(a0, z)
  {
    assert Sum5(a, b, c, d, e) == (a ^ b) ^ (c ^ d ^ e);
    assert (z ^ y) ^ (a0 ^ y) == a0 ^ z;
  }

  lemma MixTwiceByte(a0: bv8, a1: bv8, a2: bv8, a3: bv8)
    ensures var m0, m1 := Sum5(X(a0), X(a1), a1, a2, a3), Sum5(X(a1), X(a2), a2, a3, a0);
            var m2, m3 := Sum5(X(a2), X(a3), a3, a0, a1), Sum5(X(a3), X(a0), a0, a1, a2);
            Sum5(X(m0), X(m1), m1, m2, m3) == Quad(a0, a2)
  {
    hide Gf256.Xor; hide Gf256.Xtime; hide Sum5; hide X;
    XSum5(X(a0), X(a1), a1, a2, a3);
    XSum5(X(a1), X(a2), a2, a3, a0);
    MixTwiceSum(a0, a1, a2, a3, X(a0), X(a1), X(a2), X(a3), X(X(a0)), X(X(a1)), X(X(a2)), X(X(a3)));
    XLinear(a0, a2);
    XLinear(X(a0), X(a2));
  }

  lemma XLinear(a: bv8, b: bv8)
    ensures X(Gf256.Xor(a, b)) == Gf256.Xor(X(a), X(b))
  {
    hide Gf256.Xor; hide Gf256.Xtime;
    Gf256.XtimeXor(AES, a, b);
  }

  lemma MixTwice(a: Bytes)
    ensures MixBytes(MixBytes(a)) == Bytes(Quad(a.b0, a.b2), Quad(a.b1, a.b3), Quad(a.b2, a.b0), Quad(a.b3, a.b1))
  {
    hide MixBytes; hide Sum5; hide X; hide Quad;
    MixBytesIs(a);
    MixBytesIs(MixBytes(a));
    MixTwiceByte(a.b0, a.b1, a.b2, a.b3);
    MixTwiceByte(a.b1, a.b2, a.b3, a.b0);
    MixTwiceByte(a.b2, a.b3, a.b0, a.b1);
    MixTwiceByte(a.b3, a.b0, a.b1, a.b2);
  }

  lemma QuadTwice(a: bv8, c: bv8)
    ensures Quad(Quad(a, c), Quad(c, a)) == a
  {
    hide X;
    QuadSum(a, c, X(X(Gf256.Xor(a, c))));
  }

  lemma QuadSum(a: bv8, c: bv8, u: bv8)
    ensures Gf256.Xor(a, c) == Gf256.Xor(c, a) && Gf256.Xor(Gf256.Xor(a, u), u) == a
    ensures Gf256.Xor(Gf256.Xor(a, u), Gf256.Xor(c, u)) == Gf256.Xor(a, c)
  {
  }

  /** poler_mix_columns has order 4. */
  lemma MixColumnsOrder(w: word)
    ensures MixColumns(MixColumns(MixColumns(MixColumns(w)))) == w
  {
    hide FromBytes; hide ToBytes; hide MixBytes; hide Quad;
    var a := ToBytes(w);
    var b := MixBytes(a);
    var c := MixBytes(b);
    var d := MixBytes(c);
    WordBack(b);
    WordBack(c);
    WordBack(d);
    MixTwice(a);
    MixTwice(c);
    QuadTwice(a.b0, a.b2);
    QuadTwice(a.b1, a.b3);
    QuadTwice(a.b2, a.b0);
    QuadTwice(a.b3, a.b1);
    BytesBack(w);
  }

  // --------------------------------------------------------- the automaton backwards

  predicate On(w: word, i: nat)
    requires i < 32
  {
    Bit(w, i) == 1
  }

  /** The rule of the round function, 0xACACACAC: the centre counts in cells 2, 3, 5, 7 of each byte. */
  predicate Centre(i: nat) { i % 8 == 2 || i % 8 == 3 || i % 8 == 5 || i % 8 == 7 }

  lemma RuleByte(i: nat)
    requires i < 8
    ensures BitOf(0xAC, i) == 1 <==> Centre(i)
  {
    hide BitOf;
    RuleNibble(i % 4);
    assert Pow2(4) == 16;
    BitOfParts(0xC, 0xA, 4, i);
  }

  lemma RuleNibble(i: nat)
    requires i < 4
    ensures BitOf(0xC, i) == 1 <==> i >= 2
    ensures BitOf(0xA, i) == 1 <==> i % 2 == 1
  {
    if i == 0 {
    } else if i == 1 {
    } else if i == 2 {
    } else {
    }
  }

  lemma {:induction false} RuleBits(w: nat, n: nat, i: nat)
    requires 1 <= n <= 4 && i < 8 * n
    requires w == if n == 1 then 0xAC else if n == 2 then 0xACAC else if n == 3 then 0xACACAC else LHCA_DEFAULT_RULE
    ensures BitOf(w, i) == 1 <==> Centre(i)
    decreases n
  {
    hide BitOf;
    assert Pow2(8) == 0x100;
    BitOfParts(0xAC, w / 0x100, 8, i);
    if i < 8 {
      RuleByte(i);
    } else {
      RuleBits(w / 0x100, n - 1, i - 8);
    }
  }

  /** One cell of the automaton of the round function. */
  lemma CellOn(s: word, i: nat)
    requires i < 32
    ensures On(LhcaStep(s, LHCA_DEFAULT_RULE), i)
        <==> ((On(s, if i == 0 then 31 else i - 1) != (Centre(i) && On(s, i))) != On(s, if i == 31 then 0 else i + 1))
  {
    hide Bit; hide LhcaStep; hide BitOf; hide Pow2;
    StepHasBits(s, LHCA_DEFAULT_RULE, i);
    RuleBits(LHCA_DEFAULT_RULE, 4, i);
    BitIsBitOf(LHCA_DEFAULT_RULE, i);
    BitBelow2(LHCA_DEFAULT_RULE, i);
    BitBelow2(s, i);
    BitBelow2(s, if i == 0 then 31 else i - 1);
    BitBelow2(s, if i == 31 then 0 else i + 1);
    IsBit(LHCA_DEFAULT_RULE, i);
  }

  lemma IsBit(w: word, i: nat)
    requires i < 32
    ensures Bit(w, i) == BitOf(w, i)
  {
    hide BitOf;
    BitIsBitOf(w, i);
  }

  /** Cell i of the state in front of step t, if its cells 31 and 0 are a and b. The cells are
      found one after the other; numbers 32 and 33 lead round the ring. */
  predicate Cell(t: word, a: bool, b: bool, i: nat)
    requires i <= 32
  {
    if i == 0 then b
    else
      var j := i - 1;
      ((if j == 0 then a else Cell(t, a, b, j - 1)) != (Centre(j) && Cell(t, a, b, j))) != On(t, j)
  }

  /** The part of a cell that depends on the two start cells: its pattern repeats after three bytes. */
  predicate Free(a: bool, b: bool, i: nat)
    decreases i
  {
    if i >= 8 then Free(a != b, a, i - 8)
    else if i == 0 || i == 2 || i == 6 then b
    else if i == 1 || i == 4 then a
    else a != b
  }

  lemma {:induction false} FreeStep(a: bool, b: bool, i: nat)
    ensures Free(a, b, i + 1) == ((if i == 0 then a else Free(a, b, i - 1)) != (Centre(i) && Free(a, b, i)))
    decreases i
  {
    if i >= 8 {
      FreeStep(a != b, a, i - 8);
    }
  }

  lemma {:induction false} CellFree(t: word, a: bool, b: bool, i: nat)
    requires i <= 32
    ensures Cell(t, a, b, i) == (Cell(t, false, false, i) != Free(a, b, i))
    decreases i
  {
    hide On; hide Centre;
    if i > 0 {
      FreeStep(a, b, i - 1);
      CellFree(t, a, b, i - 1);
      if i > 1 {
        CellFree(t, a, b, i - 2);
      }
    }
  }

  /** The first n cells as a number. */
  function Cells(t: word, a: bool, b: bool, n: nat): (r: nat)
    requires n <= 32
    ensures r < Pow2(n)
  {
    if n == 0 then 0 else Cells(t, a, b, n - 1) + if Cell(t, a, b, n - 1) then Pow2(n - 1) else 0
  }

  /** The automaton backwards: a trial run round the ring tells how the start cells must be set. */
  function LhcaInverse(t: word): word
  {
    Pow2At32();
    var b := Cell(t, false, false, 31);
    Cells(t, b != Cell(t, false, false, 32), b, 32)
  }

  lemma {:induction false} CellsHave(t: word, a: bool, b: bool, n: nat, i: nat)
    requires i < n <= 32
    ensures BitOf(Cells(t, a, b, n), i) == if Cell(t, a, b, i) then 1 else 0
    decreases n
  {
    hide Cell; hide BitOf;
    var c := if Cell(t, a, b, n - 1) then 1 else 0;
    BitOfSum(Cells(t, a, b, n - 1), c, n - 1, i);
    assert c * Pow2(n - 1) == if c == 1 then Pow2(n - 1) else 0;
    if i < n - 1 {
      CellsHave(t, a, b, n - 1, i);
    }
  }

  /** The two start cells found in the trial run meet themselves behind the ring. */
  lemma RoundTheRing(t: word, a: bool, b: bool)
    ensures (Cell(t, a, b, 31) == a && Cell(t, a, b, 32) == b)
        <==> b == Cell(t, false, false, 31) && a == (b != Cell(t, false, false, 32))
  {
    hide Cell;
    CellFree(t, a, b, 31);
    CellFree(t, a, b, 32);
    assert Free(a, b, 24) == b && Free(a, b, 31) == (a != b);
    assert Free(a, b, 32) == a;
  }

  lemma {:induction false} CellsOfState(s: word, t: word, i: nat)
    requires t == LhcaStep(s, LHCA_DEFAULT_RULE) && i <= 32
    ensures Cell(t, On(s, 31), On(s, 0), i) == On(s, if i == 32 then 0 else i)
    decreases i
  {
    hide On; hide LhcaStep; hide Centre;
    if i > 0 {
      CellOn(s, i - 1);
      CellsOfState(s, t, i - 1);
      if i > 1 {
        CellsOfState(s, t, i - 2);
      }
    }
  }

  lemma InverseHas(t: word, i: nat)
    requires i < 32
    ensures var b := Cell(t, false, false, 31); var a := b != Cell(t, false, false, 32);
            On(LhcaInverse(t), i) == Cell(t, a, b, i)
  {
    hide Cell; hide BitOf; hide Cells; hide Bit; hide Pow2;
    var b := Cell(t, false, false, 31);
    CellsHave(t, b != Cell(t, false, false, 32), b, 32, i);
    IsBit(LhcaInverse(t), i);
  }

  lemma SameCells(s: word, t: word)
    requires forall i: nat | i < 32 :: On(s, i) == On(t, i)
    ensures s == t
  {
    hide Bit;
    forall i: nat | i < 32
      ensures Bit(s, i) == Bit(t, i)
    {
      assert On(s, i) == On(t, i);
      BitBelow2(s, i);
      BitBelow2(t, i);
    }
    SameBits(s, t);
  }

  /** The automaton with the rule of the round function is a bijection on words. */
  lemma AutomatonBijective(s: word)
    ensures LhcaInverse(LhcaStep(s, LHCA_DEFAULT_RULE)) == s
    ensures LhcaStep(LhcaInverse(s), LHCA_DEFAULT_RULE) == s
  {
    hide LhcaInverse; hide LhcaStep; hide On; hide Cell;
    var t := LhcaStep(s, LHCA_DEFAULT_RULE);
    CellsOfState(s, t, 31);
    CellsOfState(s, t, 32);
    RoundTheRing(t, On(s, 31), On(s, 0));
    forall i: nat | i < 32
      ensures On(LhcaInverse(t), i) == On(s, i)
    {
      InverseHas(t, i);
      CellsOfState(s, t, i);
    }
    SameCells(LhcaInverse(t), s);
    forall i: nat | i < 32
      ensures On(LhcaStep(LhcaInverse(s), LHCA_DEFAULT_RULE), i) == On(s, i)
    {
      InverseCell(s, i);
    }
    SameCells(LhcaStep(LhcaInverse(s), LHCA_DEFAULT_RULE), s);
  }

  lemma InverseCell(t: word, i: nat)
    requires i < 32
    ensures On(LhcaStep(LhcaInverse(t), LHCA_DEFAULT_RULE), i) == On(t, i)
  {
    hide LhcaInverse; hide LhcaStep; hide On; hide Cell; hide Centre;
    var b := Cell(t, false, false, 31);
    var a := b != Cell(t, false, false, 32);
    RoundTheRing(t, a, b);
    InverseHas(t, i);
    InverseHas(t, if i == 0 then 31 else i - 1);
    InverseHas(t, if i == 31 then 0 else i + 1);
    CellOn(LhcaInverse(t), i);
    NextCell(t, a, b, i);
    FirstCell(t, a, b);
  }

  lemma NextCell(t: word, a: bool, b: bool, i: nat)
    requires i < 32
    ensures Cell(t, a, b, i + 1)
         == (((if i == 0 then a else Cell(t, a, b, i - 1)) != (Centre(i) && Cell(t, a, b, i))) != On(t, i))
  {
  }

  lemma FirstCell(t: word, a: bool, b: bool)
    ensures Cell(t, a, b, 0) == b
  {
  }

  // ----------------------------------------------------------- the round function

  /** The stages of the round function backwards, for the round key 0. */
  function UndoF(y: word, epsilon: word): word
  {
    var eps := if epsilon == 0 then 1 else epsilon;
    var mixed := MixColumns(MixColumns(MixColumns(LhcaInverse(y))));
    var subbed := PhiInverse(Mul(Sub(mixed, Phi(0)), ModInverse32(eps)));
    FromBytes(InvSubBytes(ToBytes(subbed)))
  }

  lemma ProductZero(x: word)
    ensures Mul(x, 0) == 0 && Xor(x, 0) == x
  {
    hide XorBits;
    Pow2At32();
    XorBitsZero(x, 32);
  }

  lemma PndBack(x: word, epsilon: word)
    requires epsilon == 0 || epsilon % 2 == 1
    ensures PhiInverse(Mul(Sub(PndMix(x, 0, epsilon), Phi(0)), ModInverse32(if epsilon == 0 then 1 else epsilon))) == x
  {
    hide Mul; hide Add; hide Sub; hide Xor; hide Phi; hide PhiInverse; hide ModInverse32;
    var eps := if epsilon == 0 then 1 else epsilon;
    ProductZero(x);
    MulComm(eps, Phi(x));
    AddComm(Phi(0), Mul(Phi(x), eps));
    AddSub(Mul(Phi(x), eps), Phi(0));
    OddMultiplication(Phi(x), eps);
    PhiBijective(x);
  }

  lemma AddComm(a: word, b: word)
    ensures Add(a, b) == Add(b, a)
  {
  }

  /** The round function uses each of its stages: with round key 0 and an odd epsilon, or the
      replaced epsilon 0, the word comes back when automaton, matrix, product, ARX box and
      S-boxes are undone in turn. */
  lemma RoundFunctionBack(r: word, epsilon: word)
    requires epsilon == 0 || epsilon % 2 == 1
    ensures UndoF(FeistelF(r, 0, epsilon), epsilon) == r
  {
    hide LhcaStep; hide LhcaInverse; hide MixColumns; hide PndMix; hide ToBytes; hide FromBytes;
    hide CtSbox; hide CtInvSbox; hide Mul; hide Sub; hide Phi; hide PhiInverse; hide ModInverse32;
    var subbed := SubBytes(ToBytes(r));
    var pnd := PndMix(FromBytes(subbed), 0, epsilon);
    AutomatonBijective(MixColumns(pnd));
    MixColumnsOrder(pnd);
    PndBack(FromBytes(subbed), epsilon);
    WordBack(subbed);
    SubBytesBack(ToBytes(r));
    BytesBack(r);
  }
}
