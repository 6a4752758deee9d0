/** Pack checksums: computing, checking and repairing them (libburn/cdtext.c). */
module CdTextPackCrc {
  import opened CdTextCrc
  import opened Words16

  /** Bit k of a byte, k = 0 being the most significant one. */
  predicate ByteBit(b: bv8, k: nat)
    requires k < 8
  {
    (b >> (7 - k)) & 1 != 0
  }

  function BitsOf(data: seq<bv8>): (bits: seq<bool>)
    ensures |bits| == 8 * |data| && forall i | 0 <= i < |bits| :: bits[i] == ByteBit(data[i / 8], i % 8)
  {
    seq(8 * |data|, i requires 0 <= i < 8 * |data| => ByteBit(data[i / 8], i % 8))
  }

  /** crc_11021: the remainder of data * x^16. */
  function Crc(data: seq<bv8>): bv16 { Rem(BitsOf(data) + ZeroBits(16)) }

  /** Long division of data * x^16 by the polynomial leaves Crc(data), and nothing else does. */
  lemma CrcIsTheRemainder(data: seq<bv8>, q: seq<bool>, r: bv16)
    ensures Division(BitsOf(data) + ZeroBits(16), Quotient(BitsOf(data) + ZeroBits(16)), Crc(data))
    ensures Division(BitsOf(data) + ZeroBits(16), q, r) ==> r == Crc(data)
  {
    hide Division; hide Quotient; hide Rem; hide Coefficient; hide BitsOf;
    var bits := BitsOf(data) + ZeroBits(16);
    RemDivides(bits);
    if Division(bits, q, r) {
      RemainderUnique(bits, q, r, Quotient(bits), Rem(bits));
      SameCoefficients(r, Rem(bits));
    }
  }

  // ------------------------------------------------------------- the C loop

  /** One round on the int register of the C code. */
  function IntStep(acc: bv32, bit: bool): bv32
  {
    var shifted := if bit then IntShiftOne(acc) else IntShift(acc);
    if Overflow(shifted) then IntReduce(shifted) else shifted
  }

  function IntShift(acc: bv32): bv32 { acc << 1 }
  function IntShiftOne(acc: bv32): bv32 { (acc << 1) | 1 }
  function IntReduce(acc: bv32): bv32 { acc ^ 0x11021 }
  predicate Overflow(acc: bv32) { acc & 0x10000 != 0 }

  /** The register as 16-bit word. */
  function Word(acc: bv32): bv16
    requires acc < 0x10000
  {
    acc as bv16
  }

  lemma LowZero(acc: bv32)
    requires acc < 0x8000
    ensures !Overflow(IntShift(acc)) && IntShift(acc) < 0x10000 && Word(IntShift(acc)) == Double16(Word(acc))
  {
  }

  lemma LowOne(acc: bv32)
    requires acc < 0x8000
    ensures !Overflow(IntShiftOne(acc)) && IntShiftOne(acc) < 0x10000
    ensures Word(IntShiftOne(acc)) == Xor16(Double16(Word(acc)), 1)
  {
  }

  lemma HighZero(acc: bv32)
    requires 0x8000 <= acc < 0x10000
    ensures Overflow(IntShift(acc)) && IntReduce(IntShift(acc)) < 0x10000
    ensures Word(IntReduce(IntShift(acc))) == Xor16(Double16(Word(acc)), 0x1021)
  {
  }

  lemma HighOne(acc: bv32)
    requires 0x8000 <= acc < 0x10000
    ensures Overflow(IntShiftOne(acc)) && IntReduce(IntShiftOne(acc)) < 0x10000
    ensures Word(IntReduce(IntShiftOne(acc))) == Xor16(Xor16(Double16(Word(acc)), 1), 0x1021)
  {
  }

  lemma TopOf(acc: bv32)
    requires acc < 0x10000
    ensures Top(Word(acc)) <==> acc >= 0x8000
  {
  }

  lemma IntStepIsStep(acc: bv32, bit: bool)
    requires acc < 0x10000
    ensures IntStep(acc, bit) < 0x10000 && Word(IntStep(acc, bit)) == Step(Word(acc), bit)
  {
    hide Top; hide Word; hide IntShift; hide IntShiftOne; hide IntReduce; hide Overflow; hide Xor16; hide Double16;
    TopOf(acc);
    Xor16Units(Double16(Word(acc)));
    Xor16Units(ShiftIn(Word(acc), bit));
    if acc < 0x8000 {
      LowOne(acc);
      LowZero(acc);
    } else {
      HighOne(acc);
      HighZero(acc);
    }
  }

  method Crc11021(data: seq<bv8>) returns (crc: bv16)
    ensures crc == Crc(data)
  {
    hide Step; hide IntStep; hide ByteBit;
    var acc: bv32 := 0;
    var count := |data|;
    ghost var bits := BitsOf(data) + ZeroBits(16);
    assert bits[..0] == [];
    for i := 0 to count * 8 + 16
      invariant acc < 0x10000 && Word(acc) == Rem(bits[..i])
    {
      var bit := false;
      if i < count * 8 {
        bit := ByteBit(data[i / 8], i % 8);
      }
      assert bits[i] == bit && bits[..i + 1] == bits[..i] + [bits[i]];
      IntStepIsStep(acc, bit);
      acc := IntStep(acc, bit);
    }
    assert bits[..|bits|] == bits;
    crc := Word(acc);
  }

  // ------------------------------------------------------------- the CRC field

  function CrcHigh(residue: bv16): bv8 { (((residue >> 8) & 0xff) ^ 0xff) as bv8 }
  function CrcLow(residue: bv16): bv8 { ((residue & 0xff) ^ 0xff) as bv8 }

  predicate PackOk(p: seq<bv8>)
    requires |p| == 18
  {
    p[16] == CrcHigh(Crc(p[..16])) && p[17] == CrcLow(Crc(p[..16]))
  }

  lemma HighBit(r: bv16, k: nat)
    requires k < 8
    ensures ByteBit(CrcHigh(r), k) <==> And(r, POWERS[15 - k]) == 0
  {
    if k < 4 {
      if k < 2 {
      } else {
      }
    } else if k < 6 {
    } else {
    }
  }

  lemma LowBit(r: bv16, k: nat)
    requires k < 8
    ensures ByteBit(CrcLow(r), k) <==> And(r, POWERS[7 - k]) == 0
  {
  }

  /** The field holds the remainder with all bits inverted. */
  lemma FieldBits(r: bv16, k: nat)
    requires k < 8
    ensures ByteBit(CrcHigh(r), k) <==> !Coefficient(r, 15 - k)
    ensures ByteBit(CrcLow(r), k) <==> !Coefficient(r, 7 - k)
  {
    hide And; hide CrcHigh; hide CrcLow; hide ByteBit; hide Mask;
    HighBit(r, k);
    LowBit(r, k);
    MaskValue(15 - k);
    MaskValue(7 - k);
  }

  lemma AllZero(d: bv16)
    requires forall k: nat | k < 16 :: !Coefficient(d, k)
    ensures d == 0
  {
    hide Mask; hide And;
    forall k: nat | k < 16
      ensures And(d, POWERS[k]) == 0
    {
      assert !Coefficient(d, k);
      MaskValue(k);
    }
    PowersCover(d);
  }

  lemma PowersCover(d: bv16)
    requires forall k: nat | k < 16 :: And(d, POWERS[k]) == 0
    ensures d == 0
  {
    assert And(d, POWERS[0]) == 0 && And(d, POWERS[1]) == 0 && And(d, POWERS[2]) == 0 && And(d, POWERS[3]) == 0;
    assert And(d, POWERS[4]) == 0 && And(d, POWERS[5]) == 0 && And(d, POWERS[6]) == 0 && And(d, POWERS[7]) == 0;
    assert And(d, POWERS[8]) == 0 && And(d, POWERS[9]) == 0 && And(d, POWERS[10]) == 0 && And(d, POWERS[11]) == 0;
    assert And(d, POWERS[12]) == 0 && And(d, POWERS[13]) == 0 && And(d, POWERS[14]) == 0 && And(d, POWERS[15]) == 0;
  }

  lemma SameCoefficients(a: bv16, b: bv16)
    requires forall k: nat | k < 16 :: Coefficient(a, k) == Coefficient(b, k)
    ensures a == b
  {
    var d := Xor16(a, b);
    forall k: nat | k < 16
      ensures !Coefficient(d, k)
    {
      CoefficientXor(a, b, k);
    }
    hide Coefficient; hide Xor16;
    AllZero(d);
    XorZeroEqual(a, b);
  }

  lemma XorZeroEqual(a: bv16, b: bv16)
    requires Xor16(a, b) == 0
    ensures a == b
  {
  }

  lemma SameByte(a: bv8, b: bv8)
    requires forall k: nat | k < 8 :: ByteBit(a, k) == ByteBit(b, k)
    ensures a == b
  {
    assert ByteBit(a, 0) == ByteBit(b, 0) && ByteBit(a, 1) == ByteBit(b, 1);
    assert ByteBit(a, 2) == ByteBit(b, 2) && ByteBit(a, 3) == ByteBit(b, 3);
    assert ByteBit(a, 4) == ByteBit(b, 4) && ByteBit(a, 5) == ByteBit(b, 5);
    assert ByteBit(a, 6) == ByteBit(b, 6) && ByteBit(a, 7) == ByteBit(b, 7);
  }

  // --------------------------------------------------- valid packs are code words

  type Pack = p: seq<bv8> | |p| == 18 witness seq(18, _ => 0)

  /** Bit i of a pack, in the order of transmission. */
  predicate PackBit(p: Pack, i: nat)
    requires i < 144
  {
    ByteBit(p[i / 8], i % 8)
  }

  /** The pack as polynomial, with the checksum field inverted back. */
  function Message(p: Pack): (m: seq<bool>)
    ensures |m| == 144 && forall i | 0 <= i < 144 :: m[i] == (PackBit(p, i) != (i >= 128))
  {
    seq(144, i requires 0 <= i < 144 => PackBit(p, i) != (i >= 128))
  }

  /** A pack is valid exactly if its polynomial is a multiple of the divisor. */
  lemma PackOkIsMultiple(p: Pack)
    ensures PackOk(p) <==> Rem(Message(p)) == 0
  {
    hide Rem; hide Xor16; hide Coefficient; hide ByteBit; hide CrcHigh; hide CrcLow;
    var c := Message(p)[128..];
    MessageRemainder(p);
    forall k: nat | k < 16
      ensures Coefficient(Rem(c), k) == c[15 - k]
    {
      ShortCoefficient(c, k);
    }
    if PackOk(p) {
      forall k: nat | k < 16
        ensures Coefficient(Crc(p[..16]), k) == Coefficient(Rem(c), k)
      {
        FieldCoefficient(p, k);
      }
      SameCoefficients(Crc(p[..16]), Rem(c));
      Xor16Units(Rem(c));
    }
    if Rem(Message(p)) == 0 {
      XorZeroEqual(Crc(p[..16]), Rem(c));
      forall k: nat | k < 8
        ensures ByteBit(p[16], k) == ByteBit(CrcHigh(Crc(p[..16])), k)
        ensures ByteBit(p[17], k) == ByteBit(CrcLow(Crc(p[..16])), k)
      {
        FieldBits(Crc(p[..16]), k);
        assert c[k] == (PackBit(p, 128 + k) != true) && c[8 + k] == (PackBit(p, 136 + k) != true);
      }
      SameByte(p[16], CrcHigh(Crc(p[..16])));
      SameByte(p[17], CrcLow(Crc(p[..16])));
    }
  }

  lemma FieldCoefficient(p: Pack, k: nat)
    requires PackOk(p) && k < 16
    ensures Coefficient(Crc(p[..16]), k) == Message(p)[143 - k]
  {
    hide Coefficient; hide ByteBit; hide CrcHigh; hide CrcLow; hide Crc;
    FieldBits(Crc(p[..16]), if k < 8 then 7 - k else 15 - k);
    var i := 143 - k;
    assert Message(p)[i] == (PackBit(p, i) != true);
  }

  lemma MessageRemainder(p: Pack)
    ensures Rem(Message(p)) == Xor16(Crc(p[..16]), Rem(Message(p)[128..]))
  {
    hide Rem; hide Xor16; hide ByteBit;
    var m, c := BitsOf(p[..16]), Message(p)[128..];
    RemXor(m + ZeroBits(16), ZeroBits(128) + c);
    assert XorBits(m + ZeroBits(16), ZeroBits(128) + c) == Message(p);
    RemLeadingZeros(128, c);
  }

  /** Any change confined to 16 consecutive bits of a valid pack is noticed. */
  lemma BurstDetected(p: Pack, q: Pack, start: nat)
    requires PackOk(p) && p != q && start <= 128
    requires forall i: nat | i < 144 && PackBit(p, i) != PackBit(q, i) :: start <= i < start + 16
    ensures !PackOk(q)
  {
    hide Rem; hide Xor16; hide ByteBit; hide PackOk;
    PackOkIsMultiple(p);
    PackOkIsMultiple(q);
    var d := XorBits(Message(p), Message(q));
    RemXor(Message(p), Message(q));
    Xor16Units(Rem(Message(q)));
    var burst := d[start..start + 16];
    assert d == ZeroBits(start) + burst + ZeroBits(128 - start);
    var i := DifferentBit(p, q);
    assert d[i] && burst[i - start];
    BurstHasRemainder(start, burst, 128 - start);
  }

  lemma DifferentBit(p: Pack, q: Pack) returns (i: nat)
    requires p != q
    ensures i < 144 && PackBit(p, i) != PackBit(q, i)
  {
    hide ByteBit;
    var j :| 0 <= j < 18 && p[j] != q[j];
    if forall k: nat | k < 8 :: ByteBit(p[j], k) == ByteBit(q[j], k) {
      SameByte(p[j], q[j]);
    }
    var k: nat :| k < 8 && ByteBit(p[j], k) != ByteBit(q[j], k);
    i := 8 * j + k;
  }

  // ------------------------------------------------------- burn_cdtext_crc_mismatches

  function PackAt(packs: seq<bv8>, i: nat): Pack
    requires 18 * (i + 1) <= |packs|
  {
    packs[18 * i..18 * (i + 1)]
  }

  predicate FieldZero(p: Pack) { p[16] == 0 && p[17] == 0 }

  /** The pack with the right checksum. */
  function Corrected(p: Pack): (q: Pack)
    ensures q[..16] == p[..16]
    ensures PackOk(q)
    ensures PackOk(p) ==> q == p
  {
    p[..16] + [CrcHigh(Crc(p[..16])), CrcLow(Crc(p[..16]))]
  }

  /** How many of the first n packs are invalid, and how many of these hold a nonzero field. */
  function Mismatches(packs: seq<bv8>, n: nat): nat
    requires 18 * n <= |packs|
  {
    if n == 0 then 0 else Mismatches(packs, n - 1) + if PackOk(PackAt(packs, n - 1)) then 0 else 1
  }

  function NonzeroMismatches(packs: seq<bv8>, n: nat): nat
    requires 18 * n <= |packs|
  {
    if n == 0 then 0 else
      var p := PackAt(packs, n - 1);
      NonzeroMismatches(packs, n - 1) + if PackOk(p) || FieldZero(p) then 0 else 1
  }

  /** The packs with a wrong checksum field, and those of them whose field is not zero. */
  ghost function Wrong(packs: seq<bv8>, n: nat, nonzero: bool): set<nat>
    requires 18 * n <= |packs|
  {
    set i: nat | i < n && WrongAt(packs, i, nonzero)
  }

  predicate WrongAt(packs: seq<bv8>, i: nat, nonzero: bool)
    requires 18 * (i + 1) <= |packs|
  {
    !PackOk(packs[18 * i..18 * i + 18]) && (nonzero ==> packs[18 * i + 16] != 0 || packs[18 * i + 17] != 0)
  }

  lemma {:induction false} MismatchesCount(packs: seq<bv8>, n: nat)
    requires 18 * n <= |packs|
    ensures Mismatches(packs, n) == |Wrong(packs, n, false)|
    ensures NonzeroMismatches(packs, n) == |Wrong(packs, n, true)|
    ensures AllFieldsZero(packs, n) <==> forall j: nat | j < n :: packs[18 * j + 16] == packs[18 * j + 17] == 0
  {
    hide PackOk;
    if n > 0 {
      MismatchesCount(packs, n - 1);
      WrongStep(packs, n, false);
      WrongStep(packs, n, true);
    }
  }

  lemma WrongStep(packs: seq<bv8>, n: nat, nonzero: bool)
    requires 0 < n && 18 * n <= |packs|
    ensures |Wrong(packs, n, nonzero)| == |Wrong(packs, n - 1, nonzero)| + if WrongAt(packs, n - 1, nonzero) then 1
              else 0
  {
    hide WrongAt;
    var w := Wrong(packs, n - 1, nonzero);
    assert Wrong(packs, n, nonzero) == if WrongAt(packs, n - 1, nonzero) then w + {(n - 1) as nat} else w;
  }

  lemma {:induction false} MismatchesZero(packs: seq<bv8>, n: nat)
    requires 18 * n <= |packs|
    ensures Mismatches(packs, n) == 0 <==> forall i: nat | i < n :: PackOk(PackAt(packs, i))
  {
    hide PackOk;
    if n > 0 {
      MismatchesZero(packs, n - 1);
    }
  }

  function WithPack(packs: seq<bv8>, i: nat, p: Pack): (r: seq<bv8>)
    requires 18 * (i + 1) <= |packs|
    ensures |r| == |packs|
  {
    packs[..18 * i] + p + packs[18 * (i + 1)..]
  }

  lemma WithPackAt(packs: seq<bv8>, i: nat, p: Pack, j: nat)
    requires 18 * (i + 1) <= |packs| && 18 * (j + 1) <= |packs|
    ensures PackAt(WithPack(packs, i, p), j) == if j == i then p else PackAt(packs, j)
  {
    if j < i {
      assert WithPack(packs, i, p)[..18 * i] == packs[..18 * i];
      assert WithPack(packs, i, p)[..18 * i][18 * j..18 * (j + 1)] == packs[..18 * i][18 * j..18 * (j + 1)];
    } else if j > i {
      assert WithPack(packs, i, p)[18 * (i + 1)..] == packs[18 * (i + 1)..];
    }
  }

  predicate AllFieldsZero(packs: seq<bv8>, n: nat)
    requires 18 * n <= |packs|
  {
    forall i: nat | i < n :: FieldZero(PackAt(packs, i))
  }

  method NoChecksums(packs: array<bv8>, numPacks: nat) returns (none: bool)
    requires 18 * numPacks <= packs.Length
    ensures none == AllFieldsZero(packs[..], numPacks)
  {
    var i := 0;
    while i < numPacks && packs[18 * i + 16] == 0 && packs[18 * i + 17] == 0
      invariant 0 <= i <= numPacks
      invariant AllFieldsZero(packs[..], i)
    {
      i := i + 1;
    }
    none := i == numPacks;
    assert none || !FieldZero(PackAt(packs[..], i));
  }

  /** One round of the loop over the packs. */
  method CheckPack(packs: array<bv8>, i: nat, repair: bool) returns (change: int)
    requires 18 * (i + 1) <= packs.Length
    modifies packs
    ensures var was := old(packs[..]);
            var p := PackAt(was, i);
            && packs[..] == (if repair then WithPack(was, i, Corrected(p)) else was)
            && change == (if PackOk(p) then 0 else if !repair then 1 else if FieldZero(p) then 0 else -1)
  {
    hide PackOk; hide Crc; hide CrcHigh; hide CrcLow;
    ghost var was := packs[..];
    ghost var p := PackAt(was, i);
    change := 0;
    var residue := Crc11021(packs[18 * i..18 * i + 16]);
    assert packs[18 * i..18 * i + 16] == p[..16];
    var high, low := CrcHigh(residue), CrcLow(residue);
    OkByField(p);
    if high != packs[18 * i + 16] || low != packs[18 * i + 17] {
      if repair {
        if packs[18 * i + 16] != 0 || packs[18 * i + 17] != 0 {
          change := -1;
        }
        packs[18 * i + 16] := high;
        packs[18 * i + 17] := low;
      } else {
        change := 1;
      }
    }
    if repair {
      assert packs[..] == WithPack(was, i, Corrected(p));
    }
  }

  lemma OkByField(p: Pack)
    ensures PackOk(p) <==> p[16] == CrcHigh(Crc(p[..16])) && p[17] == CrcLow(Crc(p[..16]))
  {
  }

  method CrcMismatches(packs: array<bv8>, numPacks: nat, repairMismatches: bool, repairIfAllZero: bool)
      returns (count: int)
    requires 18 * numPacks <= packs.Length
    modifies packs
    ensures var was := old(packs[..]);
            if repairMismatches || (repairIfAllZero && AllFieldsZero(was, numPacks)) then
              && count + NonzeroMismatches(was, numPacks) == 0
              && Mismatches(packs[..], numPacks) == 0
              && (forall i: nat | i < numPacks :: PackAt(packs[..], i) == Corrected(PackAt(was, i)))
              && packs[18 * numPacks..] == was[18 * numPacks..]
            else
              count == Mismatches(was, numPacks) && packs[..] == was
  {
    hide PackOk; hide Corrected; hide FieldZero; hide PackAt; hide WithPack;
    ghost var was := packs[..];
    var repair := repairMismatches;
    if repairIfAllZero {
      var none := NoChecksums(packs, numPacks);
      repair := repair || none;
    }
    count := 0;
    for i := 0 to numPacks
      invariant repair ==> count + NonzeroMismatches(was, i) == 0
      invariant forall j: nat | j < i && repair :: PackAt(packs[..], j) == Corrected(PackAt(was, j))
      invariant forall j: nat | i <= j && 18 * (j + 1) <= |was| :: PackAt(packs[..], j) == PackAt(was, j)
      invariant packs[18 * i..] == was[18 * i..]
      invariant !repair ==> count == Mismatches(was, i) && packs[..] == was
    {
      ghost var now := packs[..];
      var change := CheckPack(packs, i, repair);
      count := count + change;
      if repair {
        forall j: nat | 18 * (j + 1) <= |was|
          ensures PackAt(packs[..], j) == if j == i then Corrected(PackAt(was, i)) else PackAt(now, j)
        {
          WithPackAt(now, i, Corrected(PackAt(now, i)), j);
        }
        WithPackRest(now, i, Corrected(PackAt(now, i)));
        assert packs[18 * (i + 1)..] == now[18 * i..][18..];
      }
      assert was[18 * (i + 1)..] == was[18 * i..][18..];
    }
    if repair {
      AllCorrected(packs[..], was, numPacks);
    }
  }

  lemma WithPackRest(packs: seq<bv8>, i: nat, p: Pack)
    requires 18 * (i + 1) <= |packs|
    ensures WithPack(packs, i, p)[18 * (i + 1)..] == packs[18 * (i + 1)..]
  {
  }

  lemma AllCorrected(packs: seq<bv8>, was: seq<bv8>, n: nat)
    requires 18 * n <= |packs| == |was|
    requires forall j: nat | j < n :: PackAt(packs, j) == Corrected(PackAt(was, j))
    ensures Mismatches(packs, n) == 0
  {
    hide PackOk; hide PackAt;
    MismatchesZero(packs, n);
  }
}
