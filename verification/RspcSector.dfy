/** Parity and scrambling of one raw CD sector, in place, as in libburn/ecma130ab.c,
    and the part of sector_headers() that calls them. */
module RspcSector {
  import opened Gf256
  import opened RspcTables
  import opened RspcCode
  import Arithmetic
  import Octets

  const SECTOR: nat := 2352

  // ------------------------------------------------------- code word positions

  /** Row k of P column col: 24 payload rows, then p1 and p0. lane 0 = LSB, 1 = MSB. */
  function PPos(col: nat, lane: nat, k: nat): nat { 12 + 2 * col + lane + 86 * k }

  /** Element k of Q diagonal diag: 43 bytes of the 26 rows, then q1 and q0. */
  function QPos(diag: nat, lane: nat, k: nat): nat
  {
    if k < 43 then 12 + DiagonalIndex(diag, k) + lane
    else if k == 43 then 2248 + 2 * diag + lane
    else 2300 + 2 * diag + lane
  }

  function Column(s: seq<bv8>, col: nat, lane: nat): (v: seq<bv8>)
    requires |s| == SECTOR && col < 43 && lane < 2
    ensures |v| == 26
    ensures forall k | 0 <= k < 26 :: v[k] == s[PPos(col, lane, k)]
  {
    seq(26, k requires 0 <= k < 26 => s[PPos(col, lane, k)])
  }

  function Diagonal(s: seq<bv8>, diag: nat, lane: nat): (v: seq<bv8>)
    requires |s| == SECTOR && diag < 26 && lane < 2
    ensures |v| == 45
    ensures forall k | 0 <= k < 45 :: v[k] == s[QPos(diag, lane, k)]
  {
    seq(45, k requires 0 <= k < 45 => s[QPos(diag, lane, k)])
  }

  ghost predicate ColumnOk(s: seq<bv8>, col: nat, lane: nat)
    requires |s| == SECTOR && col < 43 && lane < 2
  {
    IsCodeword(Column(s, col, lane))
  }

  ghost predicate DiagonalOk(s: seq<bv8>, diag: nat, lane: nat)
    requires |s| == SECTOR && diag < 26 && lane < 2
  {
    IsCodeword(Diagonal(s, diag, lane))
  }

  /** H x V = 0 for all 43 P columns and all 26 Q diagonals in both lanes. */
  ghost predicate AllEquations(s: seq<bv8>)
    requires |s| == SECTOR
  {
    && (forall col, lane | 0 <= col < 43 && 0 <= lane < 2 :: ColumnOk(s, col, lane))
    && (forall diag, lane | 0 <= diag < 26 && 0 <= lane < 2 :: DiagonalOk(s, diag, lane))
  }

  // ------------------------------------------------------------------ P parity

  lemma MultCommutes(a: bv8, b: bv8)
    ensures RspcMult(a, b) == RspcMult(b, a)
  {
    hide GfLog; hide GfPow;
  }

  /** One round of the sum loops: mult(b, h[i]) is the term of row i. */
  lemma LoopTerm(b: bv8, e: nat)
    requires e < 255
    ensures RspcMult(b, GfPow(e)) == Term(e, b)
  {
    hide RspcMult; hide GfPow; hide Mul; hide Power;
    MultCommutes(b, GfPow(e));
    GfPowIsPower(e);
    RspcMultIsProduct(GfPow(e), b);
  }

  method P0P1(sector: array<bv8>, col: nat) returns (p0Lsb: bv8, p0Msb: bv8, p1Lsb: bv8, p1Msb: bv8)
    requires sector.Length == SECTOR && col < 43
    ensures var v := Column(sector[..], col, 0);
            p0Lsb == Parity0(Sum(v, 24), Dot(v, 26, 24)) && p1Lsb == Parity1(Sum(v, 24), Dot(v, 26, 24))
    ensures var v := Column(sector[..], col, 1);
            p0Msb == Parity0(Sum(v, 24), Dot(v, 26, 24)) && p1Msb == Parity1(Sum(v, 24), Dot(v, 26, 24))
  {
    hide Xor; hide RspcMult; hide RspcDiv3; hide GfPow; hide Term;
    var sumVLsb, sumVMsb: bv8 := 0, 0;
    var hxvLsb, hxvMsb: bv8 := 0, 0;
    var start := 12 + 2 * col;
    ghost var lsb, msb := Column(sector[..], col, 0), Column(sector[..], col, 1);
    for i := 0 to 24
      invariant start == PPos(col, 0, i)
      invariant sumVLsb == Sum(lsb, i) && hxvLsb == Dot(lsb, 26, i)
      invariant sumVMsb == Sum(msb, i) && hxvMsb == Dot(msb, 26, i)
    {
      var b := sector[start];
      sumVLsb := Xor(sumVLsb, b);
      hxvLsb := Xor(hxvLsb, RspcMult(b, GfPow(25 - i)));
      LoopTerm(b, 25 - i);
      assert b == lsb[i];
      b := sector[start + 1];
      sumVMsb := Xor(sumVMsb, b);
      hxvMsb := Xor(hxvMsb, RspcMult(b, GfPow(25 - i)));
      LoopTerm(b, 25 - i);
      assert start + 1 == PPos(col, 1, i) && b == msb[i];
      start := start + 86;
    }
    p0Lsb := RspcDiv3(Xor(RspcMult(2, sumVLsb), hxvLsb));
    p0Msb := RspcDiv3(Xor(RspcMult(2, sumVMsb), hxvMsb));
    p1Lsb := Xor(sumVLsb, p0Lsb);
    p1Msb := Xor(sumVMsb, p0Msb);
  }

  /** Storing a column's parity completes that column and touches no other one. */
  lemma StoreP(s: seq<bv8>, t: seq<bv8>, col: nat)
    requires |s| == |t| == SECTOR && col < 43
    requires forall k | 0 <= k < SECTOR && k !in {2162 + 2 * col, 2163 + 2 * col, 2076 + 2 * col, 2077 + 2 * col} ::
               t[k] == s[k]
    requires forall lane | 0 <= lane < 2 ::
               var v := Column(s, col, lane);
               t[2076 + 2 * col + lane] == Parity1(Sum(v, 24), Dot(v, 26, 24))
               && t[2162 + 2 * col + lane] == Parity0(Sum(v, 24), Dot(v, 26, 24))
    ensures forall lane | 0 <= lane < 2 :: ColumnOk(t, col, lane)
    ensures forall c, lane | 0 <= c < 43 && c != col && 0 <= lane < 2 :: ColumnOk(t, c, lane) <==> ColumnOk(s, c, lane)
  {
    hide Sum; hide Dot; hide Parity0; hide Parity1;
    forall lane | 0 <= lane < 2
      ensures ColumnOk(t, col, lane)
    {
      hide IsCodeword;
      var v, w := Column(s, col, lane), Column(t, col, lane);
      assert v[..24] == w[..24];
      SumPrefix(v, w, 24);
      DotPrefix(v, w, 26, 24);
      assert w[24] == t[2076 + 2 * col + lane] && w[25] == t[2162 + 2 * col + lane];
      ParityCompletes(w);
    }
    forall c, lane | 0 <= c < 43 && c != col && 0 <= lane < 2
      ensures ColumnOk(t, c, lane) <==> ColumnOk(s, c, lane)
    {
      assert Column(t, c, lane) == Column(s, c, lane);
    }
  }

  method ParityP(sector: array<bv8>)
    requires sector.Length == SECTOR
    modifies sector
    ensures forall col, lane | 0 <= col < 43 && 0 <= lane < 2 :: ColumnOk(sector[..], col, lane)
    ensures forall k | 0 <= k < SECTOR && !(2076 <= k < 2248) :: sector[k] == old(sector[k])
  {
    hide Sum; hide Dot; hide Parity0; hide Parity1; hide IsCodeword;
    for i := 0 to 43
      invariant forall col, lane | 0 <= col < i && 0 <= lane < 2 :: ColumnOk(sector[..], col, lane)
      invariant forall k | 0 <= k < SECTOR && !(2076 <= k < 2248) :: sector[k] == old(sector[k])
    {
      ghost var s := sector[..];
      var p0Lsb, p0Msb, p1Lsb, p1Msb := P0P1(sector, i);
      sector[2162 + 2 * i] := p0Lsb;
      sector[2162 + 2 * i + 1] := p0Msb;
      sector[2076 + 2 * i] := p1Lsb;
      sector[2076 + 2 * i + 1] := p1Msb;
      StoreP(s, sector[..], i);
    }
  }

  // ------------------------------------------------------------------ Q parity

  function DiagonalIndex(diag: nat, k: nat): nat { (86 * diag + 88 * k) % 2236 }

  lemma DiagonalStart(diag: nat)
    requires diag < 26
    ensures DiagonalIndex(diag, 0) == 86 * diag
  {
  }

  /** One conditional subtraction keeps the running index equal to the diagonal's index. */
  lemma DiagonalStep(diag: nat, k: nat, idx: nat)
    requires idx < 2236 + 88 && DiagonalIndex(diag, k) == idx % 2236
    ensures var j := if idx >= 2236 then idx - 2236 else idx;
            j == DiagonalIndex(diag, k) && j % 2 == 0 && DiagonalIndex(diag, k + 1) == (j + 88) % 2236
  {
    var n := 86 * diag + 88 * k;
    var q, r := n / 2236, n % 2236;
    assert n == q * 2236 + r;
    var p := idx / 2236;
    assert idx == p * 2236 + r && p <= 1;
    assert 86 * diag + 88 * (k + 1) == n + 88;
    hide DiagonalIndex;
    NextRemainder(n, q, r);
    assert n == 2 * (43 * diag + 44 * k);
    EvenRemainder(43 * diag + 44 * k, q, r);
  }

  lemma NextRemainder(n: nat, q: nat, r: nat)
    requires n == q * 2236 + r && r < 2236
    ensures (n + 88) % 2236 == (r + 88) % 2236
  {
    if r + 88 < 2236 {
      Arithmetic.DivisionUnique(q, 2236, r + 88);
    } else {
      Arithmetic.DivisionUnique(q + 1, 2236, r + 88 - 2236);
      Arithmetic.DivisionUnique(1, 2236, r + 88 - 2236);
    }
  }

  lemma EvenRemainder(h: nat, q: nat, r: nat)
    requires 2 * h == q * 2236 + r
    ensures r % 2 == 0
  {
    assert r == 2 * (h - q * 1118);
  }

  method Q0Q1(sector: array<bv8>, diag: nat) returns (q0Lsb: bv8, q0Msb: bv8, q1Lsb: bv8, q1Msb: bv8)
    requires sector.Length == SECTOR && diag < 26
    ensures var v := Diagonal(sector[..], diag, 0);
            q0Lsb == Parity0(Sum(v, 43), Dot(v, 45, 43)) && q1Lsb == Parity1(Sum(v, 43), Dot(v, 45, 43))
    ensures var v := Diagonal(sector[..], diag, 1);
            q0Msb == Parity0(Sum(v, 43), Dot(v, 45, 43)) && q1Msb == Parity1(Sum(v, 43), Dot(v, 45, 43))
  {
    hide Xor; hide RspcMult; hide RspcDiv3; hide GfPow; hide Term; hide DiagonalIndex;
    var sumVLsb, sumVMsb: bv8 := 0, 0;
    var hxvLsb, hxvMsb: bv8 := 0, 0;
    DiagonalStart(diag);
    var start: nat, idx: nat := 12, 2 * 43 * diag;
    ghost var lsb, msb := Diagonal(sector[..], diag, 0), Diagonal(sector[..], diag, 1);
    for i := 0 to 43
      invariant idx < 2236 + 88 && DiagonalIndex(diag, i) == idx % 2236
      invariant sumVLsb == Sum(lsb, i) && hxvLsb == Dot(lsb, 45, i)
      invariant sumVMsb == Sum(msb, i) && hxvMsb == Dot(msb, 45, i)
    {
      DiagonalStep(diag, i, idx);
      if idx >= 2236 {
        idx := idx - 2236;
      }
      var b := sector[start + idx];
      sumVLsb := Xor(sumVLsb, b);
      hxvLsb := Xor(hxvLsb, RspcMult(b, GfPow(44 - i)));
      LoopTerm(b, 44 - i);
      assert b == lsb[i];
      b := sector[start + idx + 1];
      sumVMsb := Xor(sumVMsb, b);
      hxvMsb := Xor(hxvMsb, RspcMult(b, GfPow(44 - i)));
      LoopTerm(b, 44 - i);
      assert b == msb[i];
      idx := idx + 88;
    }
    q0Lsb := RspcDiv3(Xor(RspcMult(2, sumVLsb), hxvLsb));
    q0Msb := RspcDiv3(Xor(RspcMult(2, sumVMsb), hxvMsb));
    q1Lsb := Xor(sumVLsb, q0Lsb);
    q1Msb := Xor(sumVMsb, q0Msb);
  }

  lemma QPosBelow(diag: nat, lane: nat, k: nat)
    requires diag < 26 && lane < 2 && k < 43
    ensures 12 <= QPos(diag, lane, k) < 2248
  {
    assert (86 * diag + 88 * k) % 2 == 0;
  }

  lemma StoreQ(s: seq<bv8>, t: seq<bv8>, diag: nat)
    requires |s| == |t| == SECTOR && diag < 26
    requires forall k | 0 <= k < SECTOR
               && k !in {2300 + 2 * diag, 2301 + 2 * diag, 2248 + 2 * diag, 2249 + 2 * diag} :: t[k] == s[k]
    requires forall lane | 0 <= lane < 2 ::
               var v := Diagonal(s, diag, lane);
               t[2248 + 2 * diag + lane] == Parity1(Sum(v, 43), Dot(v, 45, 43))
               && t[2300 + 2 * diag + lane] == Parity0(Sum(v, 43), Dot(v, 45, 43))
    ensures forall lane | 0 <= lane < 2 :: DiagonalOk(t, diag, lane)
    ensures forall d, lane | 0 <= d < 26 && d != diag && 0 <= lane < 2 :: DiagonalOk(t, d, lane)
              <==> DiagonalOk(s, d, lane)
  {
    hide Sum; hide Dot; hide Parity0; hide Parity1;
    forall lane | 0 <= lane < 2
      ensures DiagonalOk(t, diag, lane)
    {
      hide IsCodeword;
      var v, w := Diagonal(s, diag, lane), Diagonal(t, diag, lane);
      forall k | 0 <= k < 43
        ensures v[k] == w[k]
      {
        QPosBelow(diag, lane, k);
      }
      assert v[..43] == w[..43];
      SumPrefix(v, w, 43);
      DotPrefix(v, w, 45, 43);
      ParityCompletes(w);
    }
    forall d, lane | 0 <= d < 26 && d != diag && 0 <= lane < 2
      ensures DiagonalOk(t, d, lane) <==> DiagonalOk(s, d, lane)
    {
      forall k | 0 <= k < 45
        ensures Diagonal(t, d, lane)[k] == Diagonal(s, d, lane)[k]
      {
        if k < 43 {
          QPosBelow(d, lane, k);
        }
      }
      assert Diagonal(t, d, lane) == Diagonal(s, d, lane);
    }
  }

  method ParityQ(sector: array<bv8>)
    requires sector.Length == SECTOR
    modifies sector
    ensures forall diag, lane | 0 <= diag < 26 && 0 <= lane < 2 :: DiagonalOk(sector[..], diag, lane)
    ensures forall k | 0 <= k < 2248 :: sector[k] == old(sector[k])
  {
    hide Sum; hide Dot; hide Parity0; hide Parity1; hide IsCodeword;
    for i := 0 to 26
      invariant forall diag, lane | 0 <= diag < i && 0 <= lane < 2 :: DiagonalOk(sector[..], diag, lane)
      invariant forall k | 0 <= k < 2248 :: sector[k] == old(sector[k])
    {
      ghost var s := sector[..];
      var q0Lsb, q0Msb, q1Lsb, q1Msb := Q0Q1(sector, i);
      sector[2300 + 2 * i] := q0Lsb;
      sector[2300 + 2 * i + 1] := q0Msb;
      sector[2248 + 2 * i] := q1Lsb;
      sector[2248 + 2 * i + 1] := q1Msb;
      StoreQ(s, sector[..], i);
    }
  }

  // ---------------------------------------------------------------- scrambler

  /** One call of next_bit(): the register after the bit has been taken out. */
  function FsrStep(fsr: bv16): bv16
  {
    var shifted := (fsr >> 1) & 0x3fff;
    if (fsr & 1) ^ (shifted & 1) != 0 then shifted | 0x4000 else shifted
  }

  function FsrState(n: nat): bv16
  {
    if n == 0 then 1 else FsrStep(FsrState(n - 1))
  }

  function FsrBit(n: nat): bv16 { FsrState(n) & 1 }

  /** Byte i of the scrambling sequence: its bit j is output bit 8 * i + j. */
  function AnnexByte(i: nat, j: nat): bv8
    requires j <= 8
  {
    if j == 0 then 0 else AnnexByte(i, j - 1) | ((FsrBit(8 * i + j - 1) as bv8) << (j - 1))
  }

  function AnnexB(i: nat): bv8 { AnnexByte(i, 8) }

  function Bit16(s: bv16, k: bv16): bv16
    requires k < 16
  {
    (s >> k) & 1
  }

  lemma FsrShift(s: bv16, k: bv16)
    requires s < 0x8000 && k < 14
    ensures FsrStep(s) < 0x8000
    ensures Bit16(FsrStep(s), 14) == Bit16(s, 0) ^ Bit16(s, 1)
    ensures Bit16(FsrStep(s), k) == Bit16(s, k + 1)
  {
  }

  lemma {:induction false} FsrStays15Bit(n: nat)
    ensures FsrState(n) < 0x8000
    decreases n
  {
    hide FsrStep;
    if n != 0 {
      FsrStays15Bit(n - 1);
      FsrShift(FsrState(n - 1), 0);
    }
  }

  /** Register bit k is the output bit k steps ahead. */
  lemma {:induction false} RegisterHoldsOutput(n: nat, m: nat, k: bv16)
    requires k < 15 && m == k as int
    ensures Bit16(FsrState(n), k) == FsrBit(n + m)
    decreases m
  {
    hide FsrStep;
    if k != 0 {
      FsrStays15Bit(n);
      FsrShift(FsrState(n), k - 1);
      RegisterHoldsOutput(n + 1, m - 1, k - 1);
    } else {
      ShiftNone(FsrState(n));
    }
  }

  lemma ShiftNone(s: bv16)
    ensures Bit16(s, 0) == s & 1
  {
  }

  /** The output obeys the feedback of x^15 + x + 1 named in ECMA-130 Annex B. */
  lemma ScramblerRecurrence(n: nat)
    ensures FsrBit(n + 15) == FsrBit(n) ^ FsrBit(n + 1)
  {
    hide FsrStep; hide FsrState; hide FsrBit; hide Bit16;
    FsrStays15Bit(n);
    FsrShift(FsrState(n), 0);
    FsrNext(n);
    RegisterHoldsOutput(n + 1, 14, 14);
    RegisterHoldsOutput(n, 0, 0);
    RegisterHoldsOutput(n, 1, 1);
  }

  lemma FsrNext(n: nat)
    ensures FsrState(n + 1) == FsrStep(FsrState(n))
  {
  }

  /** Loops of the generator: the table it prints is AnnexB. */
  method GenerateScrambler(table: array<bv8>)
    requires table.Length == 2340
    modifies table
    ensures forall i | 0 <= i < 2340 :: table[i] == AnnexB(i)
  {
    var fsr: bv16 := 1;
    for i := 0 to 2340
      invariant fsr == FsrState(8 * i)
      invariant forall k | 0 <= k < i :: table[k] == AnnexB(k)
    {
      var b: bv8 := 0;
      for j := 0 to 8
        invariant fsr == FsrState(8 * i + j)
        invariant b == AnnexByte(i, j)
      {
        hide FsrStep;
        b := b | (((fsr & 1) as bv8) << j);
        fsr := FsrStep(fsr);
      }
      table[i] := b;
    }
  }

  /** The sector with bytes 12 to 2351 combined with the scrambling sequence. */
  function Scrambled(s: seq<bv8>): (t: seq<bv8>)
    requires |s| == SECTOR
    ensures |t| == SECTOR
    ensures forall k | 0 <= k < SECTOR :: t[k] == if k < 12 then s[k] else Xor(s[k], AnnexB(k - 12))
  {
    seq(SECTOR, k requires 0 <= k < SECTOR => if k < 12 then s[k] else Xor(s[k], AnnexB(k - 12)))
  }

  method Scramble(sector: array<bv8>)
    requires sector.Length == SECTOR
    modifies sector
    ensures sector[..] == Scrambled(old(sector[..]))
  {
    hide Xor; hide AnnexB;
    var s := 12;
    for i := 0 to 2340
      invariant forall k | 0 <= k < s + i :: sector[k] == Scrambled(old(sector[..]))[k]
      invariant forall k | s + i <= k < SECTOR :: sector[k] == old(sector[k])
    {
      sector[s + i] := Xor(sector[s + i], AnnexB(i));
    }
  }

  /** Scrambling twice gives the sector back. */
  lemma ScrambleInvolution(s: seq<bv8>)
    requires |s| == SECTOR
    ensures Scrambled(Scrambled(s)) == s
  {
    hide Xor; hide AnnexB; hide Scrambled;
    forall k | 0 <= k < SECTOR
      ensures Scrambled(Scrambled(s))[k] == s[k]
    {
      if k >= 12 {
        XorAssoc(s[k], AnnexB(k - 12), AnnexB(k - 12));
        XorUnits(AnnexB(k - 12));
        XorUnits(s[k]);
      }
    }
  }

  // ----------------------------------------------------------- sector headers

  function DecToBcd(d: int): int
  {
    var top := d / 10;
    top * 16 + (d - top * 10)
  }

  function LbaToMsf(lba: int): (msf: (int, int, int))
  {
    var base := if lba >= -150 then lba + 150 else lba + 450150;
    var m := Quot(base, 60 * 75);
    var s := Quot(base - m * 60 * 75, 75);
    (m, s, base - m * 60 * 75 - s * 75)
  }

  /** Division as in C: toward zero. */
  function Quot(a: int, b: int): int
    requires b > 0
  {
    if a >= 0 then a / b else -((-a) / b)
  }

  function MsfToLba(m: int, s: int, f: int): int
  {
    if m < 90 then (m * 60 + s) * 75 + f - 150 else (m * 60 + s) * 75 + f - 450150
  }

  /** The two address conversions are inverse exactly for the addresses of a CD. */
  lemma MsfRoundTrip(lba: int)
    ensures var (m, s, f) := LbaToMsf(lba); MsfToLba(m, s, f) == lba <==> -45150 <= lba < 404850
  {
  }

  /** The parts are a minute of two decimal digits, a second and a frame. */
  lemma MsfRanges(lba: int)
    requires -45150 <= lba < 404850
    ensures var (m, s, f) := LbaToMsf(lba);
            0 <= m < 100 && 0 <= s < 60 && 0 <= f < 75 && (60 * m + s) * 75 + f == lba + if lba >= -150 then 150
                else 450150
  {
  }

  /** Two digits read as a decimal number. */
  function BcdValue(b: int): int { 10 * (b / 16) + b % 16 }

  lemma BcdDigits(d: nat)
    requires d < 100
    ensures DecToBcd(d) / 16 == d / 10 && DecToBcd(d) % 16 == d % 10 && BcdValue(DecToBcd(d)) == d
    ensures 0 <= DecToBcd(d) < 0x9A && (d < 60 ==> DecToBcd(d) < 0x5A)
  {
    var top := d / 10;
    assert d - top * 10 == d % 10;
    Arithmetic.DivisionUnique(top, 16, d % 10);
  }

  /** A byte of the C type unsigned char. */
  function Byte(x: int): bv8 { Octets.Narrow(x % 256) }

  /** 2: this software must produce the headers, 1: the drive does, 0: not supported. */
  function HeadersIsOk(audio: bool, mode1: bool, saoOrTao: bool): int
  {
    if audio then 1 else if saoOrTao then 1 else if mode1 then 2 else 0
  }

  /** Sync pattern, address and mode byte as they stand at the start of a sector. */
  ghost predicate HeaderOf(t: seq<bv8>, address: int, leadin: bool)
    requires |t| == SECTOR
  {
    var (m, s, f) := LbaToMsf(address);
    && t[0] == 0 && t[11] == 0 && (forall k | 1 <= k < 11 :: t[k] == 0xFF)
    && t[12] == Byte(DecToBcd(m) + if leadin then 0xA0 else 0)
    && t[13] == Byte(DecToBcd(s)) && t[14] == Byte(DecToBcd(f)) && t[15] == 1
  }

  method WriteHeader(out: array<bv8>, alba: int, rlba: int, leadin: bool)
    requires out.Length == SECTOR
    modifies out
    ensures HeaderOf(out[..], if leadin then rlba else alba, leadin)
    ensures forall k | 16 <= k < SECTOR :: out[k] == old(out[k])
  {
    hide DecToBcd; hide LbaToMsf; hide Byte; hide HeaderOf;
    out[0] := 0;
    forall k | 1 <= k < 11 {
      out[k] := 0xFF;
    }
    out[11] := 0;
    if leadin {
      var (min, sec, frame) := LbaToMsf(rlba);
      out[12] := Byte(DecToBcd(min) + 0xA0);
      out[13] := Byte(DecToBcd(sec));
      out[14] := Byte(DecToBcd(frame));
    } else {
      var (min, sec, frame) := LbaToMsf(alba);
      out[12] := Byte(DecToBcd(min) + 0);
      out[13] := Byte(DecToBcd(sec));
      out[14] := Byte(DecToBcd(frame));
    }
    out[15] := 1;
    HeaderIs(out[..], if leadin then rlba else alba, leadin);
  }

  lemma HeaderIs(t: seq<bv8>, address: int, leadin: bool)
    requires |t| == SECTOR
    requires t[0] == 0 && t[11] == 0 && (forall k | 1 <= k < 11 :: t[k] == 0xFF)
    requires t[12] == Byte(DecToBcd(LbaToMsf(address).0) + if leadin then 0xA0 else 0)
    requires t[13] == Byte(DecToBcd(LbaToMsf(address).1)) && t[14] == Byte(DecToBcd(LbaToMsf(address).2)) && t[15] == 1
    ensures HeaderOf(t, address, leadin)
  {
    hide DecToBcd; hide LbaToMsf; hide Byte;
  }

  lemma ByteValue(x: int)
    requires 0 <= x < 256
    ensures Byte(x) as int == x
  {
    hide Octets.Narrow;
    Octets.NarrowBack(x);
    assert x % 256 == x;
  }

  /** The address bytes of a header, read as decimal digits, give the address back. In the lead-in
      0xA0 is to be taken off first, and the minute must leave room for it. */
  lemma HeaderTellsAddress(t: seq<bv8>, address: int, leadin: bool)
    requires |t| == SECTOR && HeaderOf(t, address, leadin) && -45150 <= address < 404850
    requires leadin ==> LbaToMsf(address).0 < 60
    ensures t[..12] == [0, 255, 255, 255, 255, 255, 255, 255, 255, 255, 255, 0] && t[15] == 1
    ensures MsfToLba(BcdValue(t[12] as int - if leadin then 0xA0 else 0), BcdValue(t[13] as int),
              BcdValue(t[14] as int)) == address
  {
    hide DecToBcd; hide LbaToMsf; hide Byte; hide BcdValue; hide MsfToLba;
    var (m, s, f) := LbaToMsf(address);
    MsfRoundTrip(address);
    MsfRanges(address);
    BcdDigits(m);
    BcdDigits(s);
    BcdDigits(f);
    ByteValue(DecToBcd(m) + if leadin then 0xA0 else 0);
    ByteValue(DecToBcd(s));
    ByteValue(DecToBcd(f));
  }

  /** The user data stand at 16 to 2063. In raw writing of mode 1 the sector becomes
      one that, once descrambled, has the header, the same user data and all parity
      equations. The EDC is the constant 0, because the CRC code is compiled out. */
  method SectorHeaders(out: array<bv8>, alba: int, rlba: int, leadin: bool, audio: bool, mode1: bool, saoOrTao: bool)
    returns (ok: bool)
    requires out.Length == SECTOR
    modifies out
    ensures ok <==> audio || saoOrTao || mode1
    ensures audio || saoOrTao || !mode1 ==> out[..] == old(out[..])
    ensures !audio && !saoOrTao && mode1 ==>
              var t := Scrambled(out[..]);
              && AllEquations(t)
              && HeaderOf(t, if leadin then rlba else alba, leadin)
              && t[16..2064] == old(out[16..2064])
              && (forall k | 2064 <= k < 2076 :: t[k] == 0)
  {
    hide Xor; hide ColumnOk; hide DiagonalOk; hide Scrambled; hide HeaderOf;
    var ret := HeadersIsOk(audio, mode1, saoOrTao);
    if ret != 2 {
      return ret != 0;
    }
    WriteHeader(out, alba, rlba, leadin);
    ghost var head := out[..];
    out[2064], out[2065], out[2066], out[2067] := 0, 0, 0, 0;
    forall k | 2068 <= k < 2076 {
      out[k] := 0;
    }
    ghost var filled := out[..];
    ParityP(out);
    ghost var s := out[..];
    ParityQ(out);
    QKeepsP(s, out[..]);
    ghost var plain := out[..];
    Scramble(out);
    ScrambleInvolution(plain);
    HeadStays(head, filled, plain, if leadin then rlba else alba, leadin);
    assert forall k | 16 <= k < SECTOR :: head[k] == old(out[k]);
    assert plain[16..2064] == head[16..2064] == old(out[16..2064]);
    return true;
  }

  lemma HeadStays(head: seq<bv8>, filled: seq<bv8>, plain: seq<bv8>, address: int, leadin: bool)
    requires |head| == |filled| == |plain| == SECTOR
    requires forall k | 0 <= k < 2064 :: head[k] == filled[k]
    requires forall k | 0 <= k < 2076 :: filled[k] == plain[k]
    requires HeaderOf(head, address, leadin)
    ensures HeaderOf(plain, address, leadin)
    ensures plain[16..2064] == head[16..2064]
  {
    hide DecToBcd; hide LbaToMsf; hide Byte;
  }

  /** Q parity writes only behind the P rows. */
  lemma QKeepsP(s: seq<bv8>, t: seq<bv8>)
    requires |s| == |t| == SECTOR && s[..2248] == t[..2248]
    requires forall col, lane | 0 <= col < 43 && 0 <= lane < 2 :: ColumnOk(s, col, lane)
    ensures forall col, lane | 0 <= col < 43 && 0 <= lane < 2 :: ColumnOk(t, col, lane)
  {
    hide IsCodeword;
    forall col, lane | 0 <= col < 43 && 0 <= lane < 2
      ensures ColumnOk(t, col, lane)
    {
      forall k | 0 <= k < 26
        ensures Column(s, col, lane)[k] == Column(t, col, lane)[k]
      {
        assert s[PPos(col, lane, k)] == s[..2248][PPos(col, lane, k)];
        assert t[PPos(col, lane, k)] == t[..2248][PPos(col, lane, k)];
      }
      assert Column(s, col, lane) == Column(t, col, lane);
      assert ColumnOk(s, col, lane);
    }
  }

  /** Two sectors that satisfy the equations and differ somewhere in a lane of a P
      column differ in at least three bytes of that column. */
  lemma SectorsDifferInThreeBytes(s: seq<bv8>, t: seq<bv8>, col: nat, lane: nat, row: nat)
    requires |s| == |t| == SECTOR && AllEquations(s) && AllEquations(t)
    requires col < 43 && lane < 2 && row < 26 && s[PPos(col, lane, row)] != t[PPos(col, lane, row)]
    ensures |Differences(Column(s, col, lane), Column(t, col, lane))| >= 3
  {
    hide IsCodeword; hide Differences;
    assert ColumnOk(s, col, lane) && ColumnOk(t, col, lane);
    assert Column(s, col, lane)[row] != Column(t, col, lane)[row];
    DistanceThree(Column(s, col, lane), Column(t, col, lane));
  }
}
