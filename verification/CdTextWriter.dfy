/** The writer of CD-TEXT packs in libburn/cdtext.c, as functions on values. */
module CdTextWriter {
  import opened Octets
  import opened Options
  import opened ZeroRuns

  const MAX_PACKS := 2048

  /** What a block of CD-TEXT holds for each of the 16 pack types 0x80 to 0x8f. */
  datatype CdText = CdText(payload: seq<seq<bv8>>, double: seq<bool>)

  predicate CdTextOk(t: Option<CdText>) { t.Some? ==> |t.value.payload| == 16 && |t.value.double| == 16 }

  /** A session: its own texts and those of its tracks, by block. */
  datatype Session = Session(
    cdtext: seq<Option<CdText>>,
    tracks: seq<seq<Option<CdText>>>,
    firstTrack: int,
    charCode: seq<bv8>,
    copyright: seq<bv8>,
    language: seq<bv8>)

  predicate SessionOk(s: Session)
  {
    && |s.cdtext| == |s.charCode| == |s.copyright| == |s.language| == 8
    && (forall b | 0 <= b < 8 :: CdTextOk(s.cdtext[b]))
    && forall i | 0 <= i < |s.tracks| :: |s.tracks[i]| == 8 && forall b | 0 <= b < 8 :: CdTextOk(s.tracks[i][b])
  }

  /** A pack: kind is the pack type minus 0x80. */
  datatype Rec = Rec(kind: nat, track: int, num: nat, block: nat, double: bool, pos: nat, data: seq<bv8>)

  /** struct burn_pack_cursor: packs that are complete, and the one being filled. */
  datatype Cursor = Cursor(done: seq<Rec>, open: Option<Rec>, hiseq: seq<nat>, count: seq<nat>)

  predicate Full(packs: seq<Rec>) { forall r | r in packs :: |r.data| == 12 }

  predicate Shaped(c: Cursor)
  {
    && Full(c.done)
    && |c.hiseq| == 8 && |c.count| == 16
    && (c.open.Some? ==> |c.open.value.data| <= 12)
  }

  const NO_COUNTS: seq<nat> := [0, 0, 0, 0, 0, 0, 0, 0, 0, 0, 0, 0, 0, 0, 0, 0]
  const EMPTY := Cursor([], None, [0, 0, 0, 0, 0, 0, 0, 0], NO_COUNTS)

  function Clamp(pos: int): (p: nat)
    ensures p < 16
  {
    if pos > 15 then 15 else if pos < 0 then 0 else pos
  }

  /** burn_create_new_pack */
  function NewPack(c: Cursor, kind: nat, track: int, double: bool, block: nat, pos: int): (r: Option<Cursor>)
    requires Shaped(c) && kind < 16 && block < 8
    ensures r.Some? ==> Shaped(r.value)
  {
    if |c.done| >= MAX_PACKS || c.hiseq[block] >= 255 then None
    else
      Some(Cursor(c.done, Some(Rec(kind, track, c.hiseq[block], block, double, Clamp(pos), [])),
                  c.hiseq[block := c.hiseq[block] + 1], c.count[kind := c.count[kind] + 1]))
  }

  /** burn_finalize_text_pack */
  function Finalize(c: Cursor): (r: Cursor)
    requires Shaped(c)
    ensures Shaped(r) && r.open.None?
  {
    if c.open.None? then c
    else
      var r := c.open.value;
      c.(done := c.done + [r.(data := r.data + Zeros(12 - |r.data|))], open := None)
  }

  function BinaryPart(kind: nat, length: nat): nat
  {
    if kind == 7 then 2 else if 8 <= kind <= 12 || kind == 15 then length else 0
  }

  /** Where a text goes: the parameters of burn_create_tybl_packs. */
  datatype Dest = Dest(kind: nat, track: int, block: nat, double: bool)

  predicate DestOk(d: Dest) { d.kind < 16 && d.block < 8 }

  /** Room for one more byte: complete a full pack, begin a new one if none is open. */
  function Prepare(c: Cursor, d: Dest, i: nat, length: nat): (r: Option<Cursor>)
    requires Shaped(c) && DestOk(d)
    ensures r.Some? ==> Shaped(r.value) && r.value.open.Some? && |r.value.open.value.data| < 12
  {
    var c1 := if c.open.Some? && |c.open.value.data| == 12 then Finalize(c) else c;
    if c1.open.Some? then Some(c1)
    else NewPack(c1, d.kind, d.track, d.double, d.block, (i - BinaryPart(d.kind, length)) / (if d.double then 2 else 1))
  }

  function Push(c: Cursor, b: bv8): (r: Cursor)
    requires Shaped(c) && c.open.Some? && |c.open.value.data| < 12
    ensures Shaped(r) && r.open.Some?
  {
    c.(open := Some(c.open.value.(data := c.open.value.data + [b])))
  }

  /** burn_create_tybl_packs, from byte i on */
  function PutText(c: Cursor, text: seq<bv8>, i: nat, d: Dest): (r: Option<Cursor>)
    requires Shaped(c) && DestOk(d) && i <= |text|
    ensures r.Some? ==> Shaped(r.value)
    decreases |text| - i
  {
    if i == |text| then Some(c)
    else
      var p :- Prepare(c, d, i, |text|);
      PutText(Push(p, text[i]), text, i + 1, d)
  }

  const TAB: bv8 := 9

  predicate IsDouble(t: Option<CdText>, kind: nat)
    requires CdTextOk(t) && kind < 16
  {
    t.Some? && t.value.double[kind]
  }

  /** burn_decide_cdtext_tab */
  predicate Repeats(curr: Option<CdText>, prev: Option<CdText>, kind: nat)
    requires CdTextOk(curr) && CdTextOk(prev) && kind < 16
  {
    && curr.Some? && prev.Some?
    && curr.value.double[kind] == prev.value.double[kind]
    && curr.value.payload[kind] == prev.value.payload[kind]
    && |curr.value.payload[kind]| > (if curr.value.double[kind] then 2 else 1)
  }

  /** What burn_create_tybl_t_packs stores for a track. */
  function TrackText(t: Option<CdText>, kind: nat, tab: bool): (text: seq<bv8>)
    requires CdTextOk(t) && kind < 16
    ensures |text| > 0
  {
    if tab then (if IsDouble(t, kind) then [TAB, TAB, 0, 0] else [TAB, 0])
    else if t.Some? && t.value.payload[kind] != [] then t.value.payload[kind]
    else [0]
  }

  predicate UsesTab(s: Session, i: nat, kind: nat, block: nat)
    requires SessionOk(s) && i < |s.tracks| && kind < 16 && block < 8
  {
    i > 0 && Repeats(s.tracks[i][block], s.tracks[i - 1][block], kind)
  }

  /** The track loop of burn_create_tybl_s_packs */
  function TrackTexts(c: Cursor, s: Session, i: nat, kind: nat, block: nat): (r: Option<Cursor>)
    requires Shaped(c) && SessionOk(s) && i <= |s.tracks| && kind < 16 && block < 8
    ensures r.Some? ==> Shaped(r.value)
    decreases |s.tracks| - i
  {
    if i == |s.tracks| then Some(c)
    else
      var t := s.tracks[i][block];
      var text := TrackText(t, kind, UsesTab(s, i, kind, block));
      var r :- PutText(c, text, 0, Dest(kind, i + s.firstTrack, block, IsDouble(t, kind)));
      TrackTexts(r, s, i + 1, kind, block)
  }

  /** Pack types that carry a text for each track. */
  predicate ForTracks(kind: nat) { kind <= 5 || kind == 14 }

  /** burn_create_tybl_s_packs */
  function SessionTexts(c: Cursor, s: Session, kind: nat, block: nat): (r: Option<Cursor>)
    requires Shaped(c) && SessionOk(s) && kind < 15 && block < 8 && s.cdtext[block].Some?
    ensures r.Some? ==> Shaped(r.value)
  {
    var cdt := s.cdtext[block].value;
    if cdt.payload[kind] == [] then Some(c)
    else
      var r :- PutText(c, cdt.payload[kind], 0, Dest(kind, 0, block, cdt.double[kind]));
      if !ForTracks(kind) then Some(Finalize(r))
      else
        var q :- TrackTexts(r, s, 0, kind, block);
        Some(Finalize(q))
  }

  /** Assignment of an int to an unsigned char */
  function ByteOf(n: int): bv8 { Narrow(n % 256) }

  function Bytes(n: seq<nat>): (b: seq<bv8>)
    ensures |b| == |n| && forall i | 0 <= i < |n| :: b[i] == ByteOf(n[i])
  {
    seq(|n|, i requires 0 <= i < |n| => ByteOf(n[i]))
  }

  const FOUR_ZEROS: seq<bv8> := [0, 0, 0, 0]

  /** The three payloads of the block summary; the last sequence numbers are still 0. */
  function SizeText(s: Session, block: nat, count: seq<nat>, part: nat): (text: seq<bv8>)
    requires SessionOk(s) && block < 8 && |count| == 16 && part < 3
    ensures |text| == 12
  {
    if part == 0 then
      [s.charCode[block], ByteOf(s.firstTrack), ByteOf(|s.tracks| + s.firstTrack - 1), s.copyright[block]]
          + Bytes(count[..8])
    else if part == 1 then Bytes(count[8..15]) + [3] + FOUR_ZEROS
    else FOUR_ZEROS + s.language
  }

  /** burn_create_bl_size_packs */
  function SizePacks(c: Cursor, s: Session, block: nat): (r: Option<Cursor>)
    requires Shaped(c) && SessionOk(s) && block < 8
    ensures r.Some? ==> Shaped(r.value)
  {
    var r0 :- PutText(c, SizeText(s, block, c.count, 0), 0, Dest(15, 0, block, false));
    var r1 :- PutText(r0, SizeText(s, block, r0.count, 1), 0, Dest(15, 1, block, false));
    var r2 :- PutText(r1, SizeText(s, block, r1.count, 2), 0, Dest(15, 2, block, false));
    Some(Finalize(r2).(count := NO_COUNTS))
  }

  /** Pack types 0x80 to 0x8e of a block, from kind on. */
  function Kinds(c: Cursor, s: Session, kind: nat, block: nat): (r: Option<Cursor>)
    requires Shaped(c) && SessionOk(s) && kind <= 15 && block < 8 && s.cdtext[block].Some?
    ensures r.Some? ==> Shaped(r.value)
    decreases 15 - kind
  {
    if kind == 15 then Some(c)
    else
      var r :- SessionTexts(c, s, kind, block);
      Kinds(r, s, kind + 1, block)
  }

  function BlockPacks(c: Cursor, s: Session, block: nat): (r: Option<Cursor>)
    requires Shaped(c) && SessionOk(s) && block < 8
    ensures r.Some? ==> Shaped(r.value)
  {
    if s.cdtext[block].None? then Some(c)
    else
      var r :- Kinds(c, s, 0, block);
      SizePacks(r, s, block)
  }

  function Blocks(c: Cursor, s: Session, block: nat): (r: Option<Cursor>)
    requires Shaped(c) && SessionOk(s) && block <= 8
    ensures r.Some? ==> Shaped(r.value)
    decreases 8 - block
  {
    if block == 8 then Some(c)
    else
      var r :- BlockPacks(c, s, block);
      Blocks(r, s, block + 1)
  }

  /** The highest sequence numbers of four blocks, 0 for an empty block. */
  function LastNumbers(hiseq: seq<nat>, from: nat): (b: seq<bv8>)
    requires from + 4 <= |hiseq|
    ensures |b| == 4
  {
    seq(4, j requires 0 <= j < 4 => ByteOf(if hiseq[from + j] > 0 then hiseq[from + j] - 1 else 0))
  }

  /** The last loop of burn_cdtext_from_session on one pack. */
  function Patched(r: Rec, hiseq: seq<nat>): (p: Rec)
    requires |r.data| == 12 && |hiseq| == 8
    ensures |p.data| == 12 && p == r.(data := p.data)
  {
    if r.kind == 15 && ByteOf(r.track) == 1 then r.(data := r.data[..8] + LastNumbers(hiseq, 0))
    else if r.kind == 15 && ByteOf(r.track) == 2 then r.(data := LastNumbers(hiseq, 4) + r.data[4..])
    else r
  }

  function PatchAll(packs: seq<Rec>, hiseq: seq<nat>): (q: seq<Rec>)
    requires |hiseq| == 8 && Full(packs)
    ensures |q| == |packs| && Full(q)
    ensures forall i | 0 <= i < |packs| :: q[i] == Patched(packs[i], hiseq)
  {
    seq(|packs|, i requires 0 <= i < |packs| => Patched(packs[i], hiseq))
  }

  /** burn_cdtext_from_session */
  function FromSession(s: Session): (r: Option<seq<Rec>>)
    requires SessionOk(s)
  {
    var c :- Blocks(EMPTY, s, 0);
    Some(PatchAll(c.done, c.hiseq))
  }
}
