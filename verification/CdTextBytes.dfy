/** The byte form of packs: what the writer puts into the buffer and the reader finds there. */
module CdTextBytes {
  import opened Octets
  import opened CdTextPackCrc
  import opened CdTextWriter
  import opened CdTextLaws
  import opened CdTextReader

  function TypeByte(kind: nat): bv8
    requires kind < 16
  {
    ByteOf(0x80 + kind)
  }

  /** The fourth byte of a header: width flag, block number, character position. */
  function HeaderByte(double: bool, block: nat, pos: nat): bv8
    requires block < 8 && pos < 16
  {
    Combine(if double then 1 else 0, block as bv8, pos as bv8)
  }

  function Combine(double: bv8, block: bv8, pos: bv8): bv8 { (double << 7) | (block << 4) | pos }

  lemma CombineParts(double: bv8, block: bv8, pos: bv8)
    requires double < 2 && block < 8 && pos < 16
    ensures BlockOf(Combine(double, block, pos)) == block
    ensures DoubleFlag(Combine(double, block, pos)) <==> double == 1
    ensures PositionOf(Combine(double, block, pos)) == pos
  {
  }

  /** The low four bits of the fourth header byte. */
  function PositionOf(b: bv8): bv8 { b & 0x0f }

  lemma ByteValue(n: nat)
    requires n < 256
    ensures ByteOf(n) as int == n
  {
    hide Narrow; hide ByteOf;
    NarrowBack(n);
    ByteNarrow(n);
  }

  lemma ByteOfInt(n: int)
    ensures ByteOf(n) as int == n % 256
  {
    hide Narrow;
    ByteValue(n % 256);
    assert (n % 256) % 256 == n % 256;
  }

  lemma ByteNarrow(n: nat)
    requires n < 256
    ensures ByteOf(n) == Narrow(n)
  {
    hide Narrow;
    assert n % 256 == n;
  }

  lemma HeaderParts(double: bool, block: nat, pos: nat)
    requires block < 8 && pos < 16
    ensures BlockOf(HeaderByte(double, block, pos)) as int == block
    ensures DoubleFlag(HeaderByte(double, block, pos)) <==> double
    ensures PositionOf(HeaderByte(double, block, pos)) as int == pos
  {
    hide BlockOf; hide DoubleFlag; hide PositionOf; hide Combine;
    CombineParts(if double then 1 else 0, block as bv8, pos as bv8);
  }

  function Header(r: Rec): (h: seq<bv8>)
    requires HeaderOk(r)
    ensures |h| == 4
  {
    [TypeByte(r.kind), ByteOf(r.track), ByteOf(r.num), HeaderByte(r.double, r.block, r.pos)]
  }

  /** The 18 bytes of a complete pack. */
  function Encode(r: Rec): (p: Pack)
    requires HeaderOk(r) && |r.data| == 12
    ensures PackOk(p)
    ensures p[..4] == Header(r) && p[4..16] == r.data
  {
    hide PackOk; hide CrcHigh; hide CrcLow; hide Crc; hide Header;
    Corrected(Header(r) + r.data + [0, 0])
  }

  function EncodeAll(packs: seq<Rec>): (b: seq<bv8>)
    requires HeadersOk(packs) && Full(packs)
    ensures |b| == 18 * |packs|
  {
    if packs == [] then [] else EncodeAll(packs[..|packs| - 1]) + Encode(packs[|packs| - 1])
  }

  lemma {:induction false} EncodeAllAt(packs: seq<Rec>, i: nat)
    requires HeadersOk(packs) && Full(packs) && i < |packs|
    ensures PackAt(EncodeAll(packs), i) == Encode(packs[i])
  {
    hide Encode; hide PackOk; hide Header; hide PackAt;
    var n := |packs| - 1;
    var before := EncodeAll(packs[..n]);
    PackOfConcat(before, Encode(packs[n]), i);
    if i < n {
      EncodeAllAt(packs[..n], i);
    }
  }

  lemma PackOfConcat(a: seq<bv8>, p: Pack, i: nat)
    requires |a| % 18 == 0 && i <= |a| / 18
    ensures PackAt(a + p, i) == if i < |a| / 18 then PackAt(a, i) else p
  {
    var at := 18 * i;
    if i < |a| / 18 {
      assert (a + p)[at..at + 18] == a[at..at + 18];
    } else {
      assert (a + p)[at..at + 18] == p;
    }
  }

  /** All header fields can be read back. */
  lemma EncodedFields(r: Rec, kind: nat, block: nat)
    requires HeaderOk(r) && |r.data| == 12 && kind < 16 && block < 8
    ensures var p := Encode(r);
            && PackOk(p)
            && (Matches(p, 0x80 + kind, block) <==> Is(r, kind, block))
            && (DoubleFlag(p[3]) <==> r.double)
            && PositionOf(p[3]) as int == r.pos && BlockOf(p[3]) as int == r.block && p[0] as int == 0x80 + r.kind
            && p[2] as int == r.num
            && p[1] == ByteOf(r.track)
            && p[4..16] == r.data
  {
    hide Encode; hide BlockOf; hide DoubleFlag; hide PositionOf; hide HeaderByte; hide PackOk; hide ByteOf;
    var p := Encode(r);
    assert p[0] == p[..4][0] && p[1] == p[..4][1] && p[2] == p[..4][2] && p[3] == p[..4][3];
    HeaderParts(r.double, r.block, r.pos);
    ByteValue(0x80 + r.kind);
    ByteValue(r.num);
  }

  /** The reader collects exactly what the packs of that type and block hold. */
  lemma {:induction false} CollectsStream(packs: seq<Rec>, n: nat, kind: nat, block: nat)
    requires HeadersOk(packs) && Full(packs) && n <= |packs| && kind < 16 && block < 8
    ensures Payload(EncodeAll(packs), n, 0x80 + kind, block) == Stream(packs[..n], kind, block)
    ensures AnyDouble(EncodeAll(packs), n, 0x80 + kind, block) <==>
              exists i: nat | i < n :: Is(packs[i], kind, block) && packs[i].double
    decreases n
  {
    hide Encode; hide Matches; hide DoubleFlag; hide PackAt; hide PackOk; hide EncodeAll;
    if n > 0 {
      CollectsStream(packs, n - 1, kind, block);
      assert packs[..n][..n - 1] == packs[..n - 1];
      EncodeAllAt(packs, n - 1);
      EncodedFields(packs[n - 1], kind, block);
    }
  }
}
