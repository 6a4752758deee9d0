/** The scrambling sequence of ECMA-130 Annex B by its feedback alone: a register of 15 bits that
    starts with the single bit 1 and obeys x^15 + x + 1. */
module RspcScrambler {
  import opened Gf256
  import opened RspcSector

  /** The bits of the sequence, in the order in which they leave the register. */
  ghost predicate AnnexSequence(b: nat -> bool)
  {
    && b(0)
    && (forall n: nat | 1 <= n < 15 :: !b(n))
    && (forall n: nat :: Feedback(b, n))
  }

  ghost predicate Feedback(b: nat -> bool, n: nat) { b(n + 15) == (b(n) != b(n + 1)) }

  ghost function Output(): nat -> bool { (n: nat) => FsrBit(n) == 1 }

  lemma OutputBits(n: nat)
    ensures FsrBit(n) == 0 || FsrBit(n) == 1
  {
    hide FsrState;
    LowBit(FsrState(n));
  }

  lemma LowBit(s: bv16)
    ensures s & 1 == 0 || s & 1 == 1
  {
  }

  /** The register puts out the sequence. */
  lemma OutputIsAnnexSequence()
    ensures AnnexSequence(Output())
  {
    hide FsrBit; hide Feedback; hide FsrState;
    forall n: nat | n < 15
      ensures Output()(n) <==> n == 0
    {
      StartBit(n);
    }
    forall n: nat
      ensures Feedback(Output(), n)
    {
      OutputFeedback(n);
    }
  }

  lemma StartBit(n: nat)
    requires n < 15
    ensures FsrBit(n) == if n == 0 then 1 else 0
  {
    hide FsrBit; hide Bit16; hide FsrState;
    FirstState();
    var k := Small(n);
    RegisterHoldsOutput(0, n, k);
    BitOfOne(k);
  }

  lemma FirstState()
    ensures FsrState(0) == 1
  {
  }

  lemma BitOfOne(k: bv16)
    requires k < 15
    ensures Bit16(1, k) == if k == 0 then 1 else 0
  {
  }

  /** A small number as a shift count. */
  lemma {:induction false} Small(n: nat) returns (k: bv16)
    requires n < 15
    ensures k < 15 && n == k as int && (n == 0 <==> k == 0)
    decreases n
  {
    k := n as bv16;
  }

  lemma OutputFeedback(n: nat)
    ensures Feedback(Output(), n)
  {
    hide FsrBit;
    ScramblerRecurrence(n);
    OutputBits(n);
    OutputBits(n + 1);
    Sums();
  }

  lemma Sums()
    ensures 0 as bv16 ^ 0 == 0 && 0 as bv16 ^ 1 == 1 && 1 as bv16 ^ 0 == 1 && 1 as bv16 ^ 1 == 0
  {
  }

  /** Start and feedback determine every bit. */
  lemma {:induction false} SequenceUnique(b: nat -> bool, c: nat -> bool, n: nat)
    requires AnnexSequence(b) && AnnexSequence(c)
    ensures b(n) == c(n)
    decreases n
  {
    if n >= 15 {
      SequenceUnique(b, c, n - 15);
      SequenceUnique(b, c, n - 14);
      assert Feedback(b, n - 15) && Feedback(c, n - 15);
    }
  }

  // -------------------------------------------------------------- bits in bytes

  predicate BitOn(a: bv8, j: bv8)
    requires j < 8
  {
    (a >> j) & 1 == 1
  }

  lemma {:induction false} AnnexByteBits(i: nat, n: nat, m: bv8, j: bv8)
    requires n <= 8 && n == m as int && j < 8
    ensures BitOn(AnnexByte(i, n), j) <==> j < m && FsrBit(8 * i + j as int) == 1
    decreases n
  {
    hide FsrBit; hide BitOn;
    if n == 0 {
      NoBits(j);
    } else {
      AnnexByteBits(i, n - 1, m - 1, j);
      OutputBits(8 * i + n - 1);
      SetBit(AnnexByte(i, n - 1), FsrBit(8 * i + n - 1), m - 1, j);
    }
  }

  lemma NoBits(j: bv8)
    requires j < 8
    ensures !BitOn(0, j)
  {
  }

  lemma SetBit(a: bv8, bit: bv16, m: bv8, j: bv8)
    requires m < 8 && j < 8 && (bit == 0 || bit == 1)
    ensures BitOn(a | ((bit as bv8) << m), j) <==> BitOn(a, j) || (j == m && bit == 1)
  {
  }

  /** Bit j of byte i is output bit 8 * i + j. */
  lemma AnnexBits(i: nat, j: bv8)
    requires j < 8
    ensures BitOn(AnnexB(i), j) <==> FsrBit(8 * i + j as int) == 1
  {
    hide FsrBit; hide BitOn;
    AnnexByteBits(i, 8, 8, j);
  }

  /** Scrambling by the feedback law alone: bytes 0 to 11 stay, and bit j of byte 12 + i is
      inverted where the sequence has a 1 at 8 * i + j. */
  lemma ScrambledBits(b: nat -> bool, s: seq<bv8>, i: nat, j: bv8)
    requires AnnexSequence(b) && |s| == SECTOR && j < 8
    ensures i < 12 ==> Scrambled(s)[i] == s[i]
    ensures i < 2340 ==> BitOn(Scrambled(s)[12 + i], j) == (BitOn(s[12 + i], j) != b(8 * i + j as int))
  {
    hide FsrBit; hide BitOn; hide AnnexB; hide Xor;
    if i < 2340 {
      OutputIsAnnexSequence();
      SequenceUnique(b, Output(), 8 * i + j as int);
      AnnexBits(i, j);
      XorBit(s[12 + i], AnnexB(i), j);
    }
  }

  lemma XorBit(a: bv8, c: bv8, j: bv8)
    requires j < 8
    ensures BitOn(Xor(a, c), j) == (BitOn(a, j) != BitOn(c, j))
  {
  }

  /** The sequence begins with 1, 128, 0, 96: so begins a scrambled sector of zeros, behind its
      sync pattern. */
  lemma ScrambledZeros(s: seq<bv8>)
    requires |s| == SECTOR && s[12] == s[13] == s[14] == s[15] == 0
    ensures Scrambled(s)[12..16] == [1, 128, 0, 96]
  {
    hide Scrambled; hide BitOn;
    FirstBytes(s, 0, 1);
    FirstBytes(s, 1, 128);
    FirstBytes(s, 2, 0);
    FirstBytes(s, 3, 96);
  }

  lemma FirstBytes(s: seq<bv8>, i: nat, a: bv8)
    requires |s| == SECTOR && i < 4 && s[12 + i] == 0
    requires a == if i == 0 then 1 else if i == 1 then 128 else if i == 2 then 0 else 96
    ensures Scrambled(s)[12 + i] == a
  {
    hide Scrambled; hide BitOn; hide AnnexSequence;
    forall j: bv8 | j < 8
      ensures BitOn(Scrambled(s)[12 + i], j) == BitOn(a, j)
    {
      OutputIsAnnexSequence();
      ScrambledBits(Output(), s, i, j);
      NoBits(j);
      FirstBits(Output(), i, a, j);
    }
    SameByte(Scrambled(s)[12 + i], a);
  }

  lemma FirstBits(b: nat -> bool, i: nat, a: bv8, j: bv8)
    requires AnnexSequence(b) && i < 4 && j < 8
    requires a == if i == 0 then 1 else if i == 1 then 128 else if i == 2 then 0 else 96
    ensures BitOn(a, j) == b(8 * i + j as int)
  {
    var n := 8 * i + j as int;
    FewOnes(b, n);
    SampleBits(i, a, j);
  }

  lemma SampleBits(i: nat, a: bv8, j: bv8)
    requires i < 4 && j < 8
    requires a == if i == 0 then 1 else if i == 1 then 128 else if i == 2 then 0 else 96
    ensures var n := 8 * i + j as int; BitOn(a, j) <==> n == 0 || n == 15 || n == 29 || n == 30
  {
    if j == 0 {
    } else if j == 1 {
    } else if j == 2 {
    } else if j == 3 {
    } else if j == 4 {
    } else if j == 5 {
    } else if j == 6 {
    } else {
      assert j == 7;
    }
  }

  lemma {:induction false} FewOnes(b: nat -> bool, n: nat)
    requires AnnexSequence(b) && n < 32
    ensures b(n) <==> n == 0 || n == 15 || n == 29 || n == 30
    decreases n
  {
    if n >= 15 {
      FewOnes(b, n - 15);
      FewOnes(b, n - 14);
      assert Feedback(b, n - 15);
    }
  }

  lemma SameByte(a: bv8, c: bv8)
    requires forall j: bv8 | j < 8 :: BitOn(a, j) == BitOn(c, j)
    ensures a == c
  {
    assert BitOn(a, 0) == BitOn(c, 0) && BitOn(a, 1) == BitOn(c, 1) && BitOn(a, 2) == BitOn(c, 2);
    assert BitOn(a, 3) == BitOn(c, 3) && BitOn(a, 4) == BitOn(c, 4) && BitOn(a, 5) == BitOn(c, 5);
    assert BitOn(a, 6) == BitOn(c, 6) && BitOn(a, 7) == BitOn(c, 7);
    EightBits(a, c);
  }

  lemma EightBits(a: bv8, c: bv8)
    requires BitOn(a, 0) == BitOn(c, 0) && BitOn(a, 1) == BitOn(c, 1) && BitOn(a, 2) == BitOn(c, 2)
    requires BitOn(a, 3) == BitOn(c, 3) && BitOn(a, 4) == BitOn(c, 4) && BitOn(a, 5) == BitOn(c, 5)
    requires BitOn(a, 6) == BitOn(c, 6) && BitOn(a, 7) == BitOn(c, 7)
    ensures a == c
  {
  }
}
