/** Sub-channel bytes: interleaving for the drive (uncook_subs in libburn/sector.c) and
    de-interleaving of what was read (burn_packet_process in libburn/read.c). */
module Subchannel {

  /** Bit k of a byte, k = 0 being the most significant one. */
  predicate Bit(b: bv8, k: nat)
    requires k < 8
  {
    b & MaskOf(k) != 0
  }

  /** 1 << (7 - k) */
  function MaskOf(k: nat): bv8
    requires k < 8
  {
    [0x80, 0x40, 0x20, 0x10, 8, 4, 2, 1][k]
  }

  /** Channel byte n is byte n % 12 of channel n / 12 (P to W); its bit j is in raw byte
      8 * (n % 12) + j, at the place of the channel. */
  ghost predicate Interleaved(channels: seq<bv8>, raw: seq<bv8>)
    requires |channels| == |raw| == 96
  {
    forall n: nat, j: nat | n < 96 && j < 8 :: Bit(channels[n], j) == Bit(raw[8 * (n % 12) + j], n / 12)
  }

  lemma SameBits(a: bv8, b: bv8)
    requires forall k: nat | k < 8 :: Bit(a, k) == Bit(b, k)
    ensures a == b
  {
    assert Bit(a, 0) == Bit(b, 0) && Bit(a, 1) == Bit(b, 1) && Bit(a, 2) == Bit(b, 2) && Bit(a, 3) == Bit(b, 3);
    assert Bit(a, 4) == Bit(b, 4) && Bit(a, 5) == Bit(b, 5) && Bit(a, 6) == Bit(b, 6) && Bit(a, 7) == Bit(b, 7);
  }

  /** The raw bytes determine the channels. */
  lemma ChannelsUnique(a: seq<bv8>, b: seq<bv8>, raw: seq<bv8>)
    requires |a| == |b| == |raw| == 96 && Interleaved(a, raw) && Interleaved(b, raw)
    ensures a == b
  {
    hide Bit;
    forall n | 0 <= n < 96
      ensures a[n] == b[n]
    {
      SameBits(a[n], b[n]);
    }
  }

  /** The channels determine the raw bytes. */
  lemma RawUnique(channels: seq<bv8>, a: seq<bv8>, b: seq<bv8>)
    requires |channels| == |a| == |b| == 96 && Interleaved(channels, a) && Interleaved(channels, b)
    ensures a == b
  {
    hide Bit;
    forall n | 0 <= n < 96
      ensures a[n] == b[n]
    {
      var i, j := n / 8, n % 8;
      forall code: nat | code < 8
        ensures Bit(a[n], code) == Bit(b[n], code)
      {
        var m := 12 * code + i;
        assert m % 12 == i && m / 12 == code;
        assert Bit(channels[m], j) == Bit(a[8 * i + j], code) && Bit(channels[m], j) == Bit(b[8 * i + j], code);
      }
      SameBits(a[n], b[n]);
    }
  }

  // ------------------------------------------------------------- bit arithmetic

  lemma SetBit(b: bv8, k: nat, n: nat)
    requires k < 8 && n < 8
    ensures Bit(b | MaskOf(k), n) <==> n == k || Bit(b, n)
  {
  }

  lemma ClearByte(k: nat)
    requires k < 8
    ensures !Bit(0, k)
  {
  }

  /** b << n, one place at a time */
  function Shifted(b: bv8, n: nat): bv8
  {
    if n == 0 then b else Shifted(b, n - 1) << 1
  }

  lemma ShiftedBit(b: bv8, n: nat, k: nat)
    requires n < 8 && n + k < 8
    ensures Bit(Shifted(b, n), k) == Bit(b, n + k)
    decreases n
  {
    if n > 0 {
      ShiftOne(Shifted(b, n - 1), k);
      ShiftedBit(b, n - 1, k + 1);
    }
  }

  lemma ShiftOne(b: bv8, k: nat)
    requires k < 7
    ensures Bit(b << 1, k) == Bit(b, k + 1)
  {
  }

  lemma TopBit(b: bv8)
    ensures b & 0x80 != 0 <==> Bit(b, 0)
  {
  }

  lemma ShiftInBit(b: bv8, bit: bool, k: nat)
    requires k < 8
    ensures Bit((b << 1) + (if bit then 1 else 0), k) == if k == 7 then bit else Bit(b, k + 1)
  {
  }

  // -------------------------------------------------------------- uncook_subs

  /** The innermost loop of uncook_subs: take the top bit of every channel. */
  method GatherByte(dest: array<bv8>, source: array<bv8>, i: nat, j: nat)
    requires dest.Length == source.Length == 96 && dest != source && i < 12 && j < 8 && dest[8 * i + j] == 0
    modifies dest, source
    ensures forall k: nat | k < 96 && k != 8 * i + j :: dest[k] == old(dest[k])
    ensures forall code: nat | code < 8 :: Bit(dest[8 * i + j], code) == Bit(old(source[12 * code + i]), 0)
    ensures forall n: nat | n < 96 :: source[n] == if n % 12 == i then old(source[n]) << 1 else old(source[n])
  {
    hide Bit; hide MaskOf;
    ghost var was, at := source[..], 8 * i + j;
    forall c: nat | c < 8
      ensures !Bit(dest[at], c)
    {
      ClearByte(c);
    }
    for code := 0 to 8
      invariant forall k: nat | k < 96 && k != at :: dest[k] == old(dest[k])
      invariant forall c: nat | c < 8 :: Bit(dest[at], c) == (c < code && Bit(was[12 * c + i], 0))
      invariant forall n: nat | n < 96 :: source[n] == if n % 12 == i && n / 12 < code then was[n] << 1 else was[n]
    {
      ghost var m := code * 12 + i;
      assert m % 12 == i && m / 12 == code && source[m] == was[12 * code + i];
      TakeTop(dest, source, 8 * i + j, code * 12 + i, code);
    }
  }

  /** One step: move the top bit of a channel byte to its place in the raw byte. */
  method TakeTop(dest: array<bv8>, source: array<bv8>, at: nat, m: nat, code: nat)
    requires dest.Length == source.Length == 96 && dest != source && at < 96 && m < 96 && code < 8
    modifies dest, source
    ensures dest[..] == old(dest[..])[at := dest[at]] && source[..] == old(source[..])[m := old(source[m]) << 1]
    ensures forall c: nat | c < 8 :: Bit(dest[at], c) == (Bit(old(dest[at]), c)
              || (c == code && Bit(old(source[m]), 0)))
  {
    hide Bit; hide MaskOf;
    TopBit(source[m]);
    if source[m] & 0x80 != 0 {
      dest[at] := dest[at] | MaskOf(code);
    }
    forall c: nat | c < 8
      ensures Bit(dest[at], c) == (Bit(old(dest[at]), c) || (c == code && Bit(old(source[m]), 0)))
    {
      SetBit(old(dest[at]), code, c);
    }
    source[m] := source[m] << 1;
  }

  lemma ShiftedOut(b: bv8)
    ensures Shifted(b, 8) == 0
  {
    hide Shifted;
    ShiftedNone(b);
    ShiftedNext(b, 0);
    ShiftedNext(b, 1);
    ShiftedNext(b, 2);
    ShiftedNext(b, 3);
    ShiftedNext(b, 4);
    ShiftedNext(b, 5);
    ShiftedNext(b, 6);
    ShiftedNext(b, 7);
  }

  /** Raw byte 8 * i + j holds bit j of all channel bytes at i. */
  ghost predicate Gathered(channels: seq<bv8>, raw: seq<bv8>, i: nat, j: nat)
    requires |channels| == |raw| == 96 && i < 12 && j < 8
  {
    forall code: nat | code < 8 :: Bit(raw[8 * i + j], code) == Bit(channels[12 * code + i], j)
  }

  lemma GatheredAll(channels: seq<bv8>, raw: seq<bv8>)
    requires |channels| == |raw| == 96
    ensures Interleaved(channels, raw) <==> forall i: nat, j: nat | i < 12 && j < 8 :: Gathered(channels, raw, i, j)
  {
    hide Bit;
    if Interleaved(channels, raw) {
      forall i: nat, j: nat | i < 12 && j < 8
        ensures Gathered(channels, raw, i, j)
      {
        forall code: nat | code < 8
          ensures Bit(raw[8 * i + j], code) == Bit(channels[12 * code + i], j)
        {
          var m := 12 * code + i;
          assert m % 12 == i && m / 12 == code;
          assert Bit(channels[m], j) == Bit(raw[8 * i + j], code);
        }
      }
    }
    if forall i: nat, j: nat | i < 12 && j < 8 :: Gathered(channels, raw, i, j) {
      forall n: nat, j: nat | n < 96 && j < 8
        ensures Bit(channels[n], j) == Bit(raw[8 * (n % 12) + j], n / 12)
      {
        var i, code := n % 12, n / 12;
        assert n == 12 * code + i && Gathered(channels, raw, i, j);
        assert Bit(raw[8 * i + j], code) == Bit(channels[12 * code + i], j);
      }
    }
  }

  /** uncook_subs: the source is shifted out on the way. */
  method UncookSubs(dest: array<bv8>, source: array<bv8>)
    requires dest.Length == source.Length == 96 && dest != source
    modifies dest, source
    ensures Interleaved(old(source[..]), dest[..])
    ensures forall n: nat | n < 96 :: source[n] == 0
  {
    hide Bit; hide Gathered; hide Interleaved; hide Shifted;
    ghost var was := source[..];
    for k := 0 to 96
      invariant forall n: nat | n < k :: dest[n] == 0
      invariant source[..] == was
    {
      dest[k] := 0;
    }
    ghost var none: nat := 0;
    forall n: nat | n < 96
      ensures source[n] == Shifted(was[n], none)
    {
      ShiftedNone(was[n]);
    }
    for i := 0 to 12
      invariant forall k: nat | 8 * i <= k < 96 :: dest[k] == 0
      invariant forall n: nat | n < 96 :: source[n] == Shifted(was[n], if n % 12 < i then 8 else 0)
      invariant forall c: nat, b: nat | c < i && b < 8 :: Gathered(was, dest[..], c, b)
    {
      for j := 0 to 8
        invariant forall k: nat | 8 * i + j <= k < 96 :: dest[k] == 0
        invariant forall n: nat | n < 96 :: source[n] == Shifted(was[n], if n % 12 < i then 8
                    else if n % 12 == i then j else 0)
        invariant forall c: nat, b: nat | c < 12 && b < 8 && 8 * c + b < 8 * i + j :: Gathered(was, dest[..], c, b)
      {
        ghost var before := dest[..];
        GatherByte(dest, source, i, j);
        GatherStep(was, before, dest[..], i, j);
        forall n: nat | n < 96
          ensures source[n] == Shifted(was[n], if n % 12 < i then 8 else if n % 12 == i then j + 1 else 0)
        {
          ShiftedNext(was[n], j);
        }
      }
    }
    GatheredAll(was, dest[..]);
    forall n: nat | n < 96
      ensures source[n] == 0
    {
      ShiftedOut(was[n]);
    }
  }

  lemma ShiftedNone(b: bv8)
    ensures Shifted(b, 0) == b
  {
  }

  lemma ShiftedNext(b: bv8, n: nat)
    ensures Shifted(b, n + 1) == Shifted(b, n) << 1
  {
  }

  lemma GatherStep(was: seq<bv8>, before: seq<bv8>, after: seq<bv8>, i: nat, j: nat)
    requires |was| == |before| == |after| == 96 && i < 12 && j < 8
    requires forall k: nat | k < 96 && k != 8 * i + j :: after[k] == before[k]
    requires forall code: nat | code < 8 :: Bit(after[8 * i + j], code) == Bit(Shifted(was[12 * code + i], j), 0)
    ensures Gathered(was, after, i, j)
    ensures forall c: nat, b: nat | c < 12 && b < 8 && 8 * c + b < 8 * i + j
              && Gathered(was, before, c, b) :: Gathered(was, after, c, b)
  {
    hide Bit; hide Shifted;
    forall code: nat | code < 8
      ensures Bit(after[8 * i + j], code) == Bit(was[12 * code + i], j)
    {
      ShiftedBit(was[12 * code + i], j, 0);
    }
  }

  // ------------------------------------------------------- burn_packet_process

  /** The first n bits of channel `code` at i, read from the raw bytes. */
  function Collected(raw: seq<bv8>, code: nat, i: nat, n: nat): bv8
    requires |raw| == 96 && code < 8 && i < 12 && n <= 8
  {
    if n == 0 then 0 else ShiftedIn(Collected(raw, code, i, n - 1), Bit(raw[8 * i + n - 1], code))
  }

  function ShiftedIn(b: bv8, bit: bool): bv8 { (b << 1) + if bit then 1 else 0 }

  lemma ShiftedInBit(b: bv8, bit: bool, k: nat)
    requires k < 8
    ensures Bit(ShiftedIn(b, bit), k) == if k == 7 then bit else Bit(b, k + 1)
  {
    ShiftInBit(b, bit, k);
  }

  lemma {:induction false} CollectedBits(raw: seq<bv8>, code: nat, i: nat, n: nat, k: nat)
    requires |raw| == 96 && code < 8 && i < 12 && n <= 8 && k < n
    ensures Bit(Collected(raw, code, i, n), 8 - n + k) == Bit(raw[8 * i + k], code)
    decreases n
  {
    hide Bit; hide ShiftedIn;
    ShiftedInBit(Collected(raw, code, i, n - 1), Bit(raw[8 * i + n - 1], code), 8 - n + k);
    if k < n - 1 {
      CollectedBits(raw, code, i, n - 1, k);
    }
  }

  /** The de-interleaving loops of burn_packet_process on the 96 bytes at ptr */
  method Deinterleave(sub: array<bv8>, data: array<bv8>, ptr: nat)
    requires sub.Length == 96 && ptr + 96 <= data.Length && sub != data
    modifies sub
    ensures Interleaved(sub[..], data[ptr..ptr + 96])
  {
    hide Bit; hide MaskOf; hide Collected;
    ghost var raw := data[ptr..ptr + 96];
    for k := 0 to 96
      invariant forall n: nat | n < k :: sub[n] == 0
    {
      sub[k] := 0;
    }
    forall n: nat | n < 96
      ensures sub[n] == Collected(raw, n / 12, n % 12, 0)
    {
      CollectedNone(raw, n / 12, n % 12);
    }
    for i := 0 to 12
      invariant forall n: nat | n < 96 :: sub[n] == Collected(raw, n / 12, n % 12, if n % 12 < i then 8 else 0)
    {
      for j := 0 to 8
        invariant forall n: nat | n < 96 :: sub[n] == Collected(raw, n / 12, n % 12, if n % 12 < i then 8
                    else if n % 12 == i then j else 0)
      {
        ScatterByte(sub, data[ptr + j + i * 8], i);
        assert data[ptr + j + i * 8] == raw[8 * i + j];
        forall n: nat | n < 96
          ensures sub[n] == Collected(raw, n / 12, n % 12, if n % 12 < i then 8 else if n % 12 == i then j + 1 else 0)
        {
          CollectedNext(raw, n / 12, n % 12, j);
        }
      }
    }
    forall n: nat, j: nat | n < 96 && j < 8
      ensures Bit(sub[..][n], j) == Bit(raw[8 * (n % 12) + j], n / 12)
    {
      CollectedBits(raw, n / 12, n % 12, 8, j);
    }
  }

  lemma CollectedNone(raw: seq<bv8>, code: nat, i: nat)
    requires |raw| == 96 && code < 8 && i < 12
    ensures Collected(raw, code, i, 0) == 0
  {
  }

  lemma CollectedNext(raw: seq<bv8>, code: nat, i: nat, n: nat)
    requires |raw| == 96 && code < 8 && i < 12 && n < 8
    ensures Collected(raw, code, i, n + 1) == ShiftedIn(Collected(raw, code, i, n), Bit(raw[8 * i + n], code))
  {
  }

  /** The innermost loop: shift one bit of the raw byte into every channel. */
  method ScatterByte(sub: array<bv8>, byte: bv8, i: nat)
    requires sub.Length == 96 && i < 12
    modifies sub
    ensures forall n: nat | n < 96 :: sub[n] == if n % 12 == i then ShiftedIn(old(sub[n]), Bit(byte, n / 12))
              else old(sub[n])
  {
    for code := 0 to 8
      invariant forall n: nat | n < 96 ::
                  sub[n] == if n % 12 == i && n / 12 < code then ShiftedIn(old(sub[n]), Bit(byte, n / 12))
                      else old(sub[n])
    {
      ghost var m := code * 12 + i;
      assert m % 12 == i && m / 12 == code;
      sub[code * 12 + i] := sub[code * 12 + i] << 1;
      if byte & MaskOf(code) != 0 {
        sub[code * 12 + i] := sub[code * 12 + i] + 1;
      }
      assert sub[m] == ShiftedIn(old(sub[m]), Bit(byte, code));
    }
  }

  // ---------------------------------------------------------------- both ways

  /** What was interleaved for the drive and read back gives the original channels. */
  method WriteAndRead(source: array<bv8>, raw: array<bv8>, sub: array<bv8>)
    requires source.Length == raw.Length == sub.Length == 96 && source != raw && source != sub && raw != sub
    modifies source, raw, sub
    ensures sub[..] == old(source[..])
  {
    hide Interleaved;
    ghost var channels := source[..];
    UncookSubs(raw, source);
    Deinterleave(sub, raw, 0);
    assert raw[0..96] == raw[..];
    ChannelsUnique(channels, sub[..], raw[..]);
  }

  /** What was read and de-interleaved gives the raw bytes again when interleaved. */
  method ReadAndWrite(data: array<bv8>, sub: array<bv8>, dest: array<bv8>)
    requires data.Length == sub.Length == dest.Length == 96 && data != sub && sub != dest && data != dest
    modifies sub, dest
    ensures dest[..] == data[..]
  {
    hide Interleaved;
    Deinterleave(sub, data, 0);
    assert data[0..96] == data[..];
    ghost var channels := sub[..];
    UncookSubs(dest, sub);
    RawUnique(channels, dest[..], data[..]);
  }
}
