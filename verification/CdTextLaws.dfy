/** What every run of the CD-TEXT writer keeps: numbering, counters, and what each
    (pack type, block) pair has collected so far. */
module CdTextLaws {
  import opened CdTextWriter
  import opened Options
  import opened ZeroRuns

  function All(c: Cursor): seq<Rec> { c.done + if c.open.Some? then [c.open.value] else [] }

  // ------------------------------------------------------------ observations

  predicate Is(r: Rec, kind: nat, block: nat) { r.kind == kind && r.block == block }

  function InBlock(packs: seq<Rec>, block: nat): nat
  {
    if packs == [] then 0
    else InBlock(packs[..|packs| - 1], block) + if packs[|packs| - 1].block == block then 1 else 0
  }

  function OfKind(packs: seq<Rec>, kind: nat, block: nat): nat
  {
    if packs == [] then 0
    else OfKind(packs[..|packs| - 1], kind, block) + if Is(packs[|packs| - 1], kind, block) then 1 else 0
  }

  /** The payload bytes of a pack type in a block, one pack after the other. */
  function Stream(packs: seq<Rec>, kind: nat, block: nat): seq<bv8>
  {
    if packs == [] then []
    else Stream(packs[..|packs| - 1], kind, block) + if Is(packs[|packs| - 1], kind, block) then
        packs[|packs| - 1].data else []
  }

  /** The packs of a pack type in a block, in order. */
  function Select(packs: seq<Rec>, kind: nat, block: nat): seq<Rec>
  {
    if packs == [] then []
    else Select(packs[..|packs| - 1], kind, block) + if Is(packs[|packs| - 1], kind, block) then [packs[|packs| - 1]]
        else []
  }

  /** Each pack carries the number of earlier packs of its block. */
  predicate Numbered(packs: seq<Rec>)
  {
    packs == [] || (Numbered(packs[..|packs| - 1]) && packs[|packs| - 1].num
        == InBlock(packs[..|packs| - 1], packs[|packs| - 1].block))
  }

  predicate HeaderOk(r: Rec) { r.kind < 16 && r.block < 8 && r.pos < 16 && r.num < 255 }

  predicate HeadersOk(packs: seq<Rec>) { forall i | 0 <= i < |packs| :: HeaderOk(packs[i]) }

  lemma Snoc(packs: seq<Rec>, r: Rec, kind: nat, block: nat)
    ensures InBlock(packs + [r], block) == InBlock(packs, block) + if r.block == block then 1 else 0
    ensures OfKind(packs + [r], kind, block) == OfKind(packs, kind, block) + if Is(r, kind, block) then 1 else 0
    ensures Stream(packs + [r], kind, block) == Stream(packs, kind, block) + if Is(r, kind, block) then r.data else []
    ensures Select(packs + [r], kind, block) == Select(packs, kind, block) + if Is(r, kind, block) then [r] else []
    ensures Numbered(packs + [r]) <==> Numbered(packs) && r.num == InBlock(packs, r.block)
  {
    var s := packs + [r];
    assert s[..|s| - 1] == packs && s[|s| - 1] == r;
  }

  // ---------------------------------------------------------- the invariant

  ghost predicate Good(c: Cursor)
  {
    && Shaped(c)
    && Numbered(All(c))
    && HeadersOk(All(c))
    && forall b: nat | b < 8 :: c.hiseq[b] == InBlock(All(c), b) <= 255
  }

  ghost predicate Counting(c: Cursor, block: nat)
    requires Shaped(c)
  {
    forall k: nat | k < 16 :: c.count[k] == OfKind(All(c), k, block)
  }

  /** An open pack belongs to the text being written and is not empty. */
  predicate Ready(c: Cursor, kind: nat, block: nat)
  {
    c.open.Some? ==> Is(c.open.value, kind, block) && |c.open.value.data| > 0
  }

  /** c' has text added to one pack type of one block, and nothing elsewhere. */
  ghost predicate Grown(c: Cursor, c': Cursor, kind: nat, block: nat, text: seq<bv8>)
  {
    && Streams(c, c', kind, block, text)
    && Others(c, c', kind, block)
  }

  /** The packs of other types and blocks are the same. */
  ghost predicate Others(c: Cursor, c': Cursor, kind: nat, block: nat)
  {
    forall k: nat, b: nat | k != kind || b != block ::
      OfKind(All(c'), k, b) == OfKind(All(c), k, b) && Select(All(c'), k, b) == Select(All(c), k, b)
  }

  ghost predicate Streams(c: Cursor, c': Cursor, kind: nat, block: nat, text: seq<bv8>)
  {
    forall k: nat, b: nat :: Stream(All(c'), k, b) == Stream(All(c), k, b) + if k == kind
        && b == block then text else []
  }

  lemma GrownNothing(c: Cursor, kind: nat, block: nat)
    ensures Grown(c, c, kind, block, [])
  {
    hide All; hide Stream; hide OfKind; hide Select;
  }

  lemma GrownChain(c: Cursor, c': Cursor, c'': Cursor, kind: nat, block: nat, text: seq<bv8>, text': seq<bv8>)
    requires Grown(c, c', kind, block, text) && Grown(c', c'', kind, block, text')
    ensures Grown(c, c'', kind, block, text + text')
  {
    hide All; hide Stream; hide OfKind; hide Select;
  }

  // ------------------------------------------------------------------ steps

  /** No pack is written past the buffer: 8 blocks of at most 255 packs are fewer than 2048. */
  lemma {:induction false} BlockSum(packs: seq<Rec>)
    requires HeadersOk(packs)
    ensures |packs| == InBlock(packs, 0) + InBlock(packs, 1) + InBlock(packs, 2) + InBlock(packs, 3)
                       + InBlock(packs, 4) + InBlock(packs, 5) + InBlock(packs, 6) + InBlock(packs, 7)
  {
    if packs != [] {
      BlockSum(packs[..|packs| - 1]);
    }
  }

  lemma BufferSuffices(c: Cursor)
    requires Good(c)
    ensures |All(c)| <= 2040 < MAX_PACKS
  {
    hide InBlock; hide All;
    BlockSum(All(c));
    assert c.hiseq[0] == InBlock(All(c), 0) && c.hiseq[1] == InBlock(All(c), 1) && c.hiseq[2] == InBlock(All(c), 2);
    assert c.hiseq[3] == InBlock(All(c), 3) && c.hiseq[4] == InBlock(All(c), 4) && c.hiseq[5] == InBlock(All(c), 5);
  }

  lemma NewPackLaw(c: Cursor, kind: nat, track: int, double: bool, block: nat, pos: int)
    requires Good(c) && c.open.None? && kind < 16 && block < 8 && Counting(c, block)
    ensures var r := NewPack(c, kind, track, double, block, pos);
            && (r.Some? <==> c.hiseq[block] < 255)
            && (r.Some? ==> Good(r.value) && Counting(r.value, block) && Grown(c, r.value, kind, block, []))
  {
    BufferSuffices(c);
    var r := NewPack(c, kind, track, double, block, pos);
    if r.Some? {
      var p := r.value.open.value;
      assert All(c) == c.done && All(r.value) == c.done + [p];
      hide InBlock; hide OfKind; hide Stream; hide Numbered; hide Select; hide All; hide NewPack;
      forall k: nat, b: nat
        ensures InBlock(c.done + [p], b) == InBlock(c.done, b) + if b == block then 1 else 0
        ensures OfKind(c.done + [p], k, b) == OfKind(c.done, k, b) + if k == kind && b == block then 1 else 0
        ensures Stream(c.done + [p], k, b) == Stream(c.done, k, b) + []
        ensures k != kind || b != block ==> Select(c.done + [p], k, b) == Select(c.done, k, b) + []
      {
        Snoc(c.done, p, k, b);
      }
      Snoc(c.done, p, 0, 0);
      var q := r.value;
      assert HeadersOk(All(q));
      forall b: nat | b < 8
        ensures q.hiseq[b] == InBlock(All(q), b) <= 255
      {
        assert InBlock(All(q), b) == InBlock(All(c), b) + if b == block then 1 else 0;
      }
      forall k: nat | k < 16
        ensures q.count[k] == OfKind(All(q), k, block)
      {
        assert OfKind(All(q), k, block) == OfKind(All(c), k, block) + if k == kind then 1 else 0;
      }
    }
  }

  function Pad(c: Cursor): nat
    requires Shaped(c)
  {
    if c.open.None? then 0 else 12 - |c.open.value.data|
  }

  /** Replacing the data of the last pack. */
  lemma LastData(packs: seq<Rec>, r: Rec, data: seq<bv8>, k: nat, b: nat)
    requires |r.data| <= |data| && data[..|r.data|] == r.data
    ensures var s, s' := packs + [r], packs + [r.(data := data)];
            && InBlock(s', b) == InBlock(s, b)
            && OfKind(s', k, b) == OfKind(s, k, b)
            && Stream(s', k, b) == Stream(s, k, b) + (if Is(r, k, b) then data[|r.data|..] else [])
            && (!Is(r, k, b) ==> Select(s', k, b) == Select(s, k, b))
            && Numbered(s') == Numbered(s)
  {
    Snoc(packs, r, k, b);
    Snoc(packs, r.(data := data), k, b);
    assert data == r.data + data[|r.data|..];
  }

  lemma SameHeader(c: Cursor, c': Cursor, kind: nat, block: nat, text: seq<bv8>)
    requires Good(c) && Counting(c, block) && Shaped(c') && c.open.Some? && Is(c.open.value, kind, block)
    requires c'.hiseq == c.hiseq && c'.count == c.count
    requires All(c') == c.done + [c.open.value.(data := c.open.value.data + text)]
    ensures Good(c') && Counting(c', block) && Grown(c, c', kind, block, text)
  {
    var r := c.open.value;
    var data := r.data + text;
    assert All(c) == c.done + [r];
    hide InBlock; hide OfKind; hide Stream; hide Numbered; hide All; hide Select;
    forall k: nat, b: nat
      ensures InBlock(All(c'), b) == InBlock(All(c), b)
      ensures OfKind(All(c'), k, b) == OfKind(All(c), k, b)
      ensures Stream(All(c'), k, b) == Stream(All(c), k, b) + if k == kind && b == block then text else []
      ensures k != kind || b != block ==> Select(All(c'), k, b) == Select(All(c), k, b)
    {
      LastData(c.done, r, data, k, b);
    }
    LastData(c.done, r, data, 0, 0);
    assert HeadersOk(All(c'));
    forall b: nat | b < 8
      ensures c'.hiseq[b] == InBlock(All(c'), b) <= 255
    {
      assert InBlock(All(c'), b) == InBlock(All(c), b);
    }
    forall k: nat | k < 16
      ensures c'.count[k] == OfKind(All(c'), k, block)
    {
      assert OfKind(All(c'), k, block) == OfKind(All(c), k, block);
    }
  }

  lemma FinalizeLaw(c: Cursor, kind: nat, block: nat)
    requires Good(c) && Counting(c, block) && Ready(c, kind, block)
    ensures var f := Finalize(c);
            Good(f) && Counting(f, block) && Grown(c, f, kind, block, Zeros(Pad(c)))
  {
    if c.open.None? {
      GrownNothing(c, kind, block);
      assert Zeros(0) == [];
    } else {
      var r := c.open.value;
      assert All(Finalize(c)) == c.done + [r.(data := r.data + Zeros(12 - |r.data|))];
      hide Stream; hide OfKind; hide InBlock; hide All; hide Grown;
      SameHeader(c, Finalize(c), kind, block, Zeros(Pad(c)));
    }
  }

  lemma PushLaw(c: Cursor, byte: bv8, kind: nat, block: nat)
    requires Good(c) && Counting(c, block)
    requires c.open.Some? && Is(c.open.value, kind, block) && |c.open.value.data| < 12
    ensures var p := Push(c, byte);
            Good(p) && Counting(p, block) && Ready(p, kind, block) && Grown(c, p, kind, block, [byte])
  {
    var r := c.open.value;
    assert All(Push(c, byte)) == c.done + [r.(data := r.data + [byte])];
    hide Stream; hide OfKind; hide InBlock; hide All; hide Grown;
    SameHeader(c, Push(c, byte), kind, block, [byte]);
  }

  /** Packs that n bytes take. */
  function PacksFor(n: nat): nat { (n + 11) / 12 }

  lemma {:induction false} StreamSize(packs: seq<Rec>, kind: nat, block: nat)
    requires Full(packs)
    ensures |Stream(packs, kind, block)| == 12 * OfKind(packs, kind, block)
  {
    if packs != [] {
      StreamSize(packs[..|packs| - 1], kind, block);
    }
  }

  /** The packs that text of one type take in all are as few as its bytes allow. */
  lemma PacksUsed(c: Cursor, kind: nat, block: nat)
    requires Good(c) && Counting(c, block) && Ready(c, kind, block) && kind < 16
    ensures c.count[kind] == PacksFor(|Stream(All(c), kind, block)|)
    ensures |Stream(All(c), kind, block)| % 12 == (if c.open.None? then 0 else |c.open.value.data| % 12)
  {
    hide Numbered; hide InBlock;
    assert c.count[kind] == OfKind(All(c), kind, block);
    StreamSize(c.done, kind, block);
    if c.open.Some? {
      Snoc(c.done, c.open.value, kind, block);
    } else {
      assert All(c) == c.done;
    }
  }

  /** Packs of the block once the pack type has received that many more bytes. */
  function Quota(c: Cursor, kind: nat, block: nat, more: nat): int
    requires Shaped(c) && kind < 16 && block < 8
  {
    c.hiseq[block] - c.count[kind] + PacksFor(|Stream(All(c), kind, block)| + more)
  }

  lemma PrepareLaw(c: Cursor, d: Dest, i: nat, length: nat)
    requires Good(c) && DestOk(d) && Counting(c, d.block) && Ready(c, d.kind, d.block)
    ensures var r := Prepare(c, d, i, length);
            && (r.None? ==> Quota(c, d.kind, d.block, 1) > 255)
            && (r.Some? ==> Good(r.value) && Counting(r.value, d.block) && Is(r.value.open.value, d.kind, d.block)
                            && Grown(c, r.value, d.kind, d.block, [])
                            && r.value.hiseq[d.block] + c.count[d.kind] == c.hiseq[d.block] + r.value.count[d.kind])
  {
    hide Stream; hide OfKind; hide InBlock; hide All; hide Grown; hide Counting; hide Good; hide Numbered;
    PacksUsed(c, d.kind, d.block);
    assert Shaped(c) by { Unwrap(c); }
    GrownNothing(c, d.kind, d.block);
    var full := c.open.Some? && |c.open.value.data| == 12;
    var c1 := if full then Finalize(c) else c;
    if full {
      FinalizeLaw(c, d.kind, d.block);
      assert Zeros(Pad(c)) == [];
    }
    if c1.open.None? {
      var pos := (i - BinaryPart(d.kind, length)) / (if d.double then 2 else 1);
      NewPackLaw(c1, d.kind, d.track, d.double, d.block, pos);
      var r := NewPack(c1, d.kind, d.track, d.double, d.block, pos);
      if r.Some? {
        GrownChain(c, c1, r.value, d.kind, d.block, [], []);
        assert Zeros(0) + Zeros(0) == Zeros(0) == [];
      } else {
        Unwrap(c);
      }
    }
  }

  lemma Unwrap(c: Cursor)
    requires Good(c)
    ensures Shaped(c) && forall b: nat | b < 8 :: c.hiseq[b] <= 255
  {
    hide InBlock; hide All;
    forall b: nat | b < 8
      ensures c.hiseq[b] <= 255
    {
      assert c.hiseq[b] == InBlock(All(c), b);
    }
  }

  /** The text was added, or the block would need more than 255 packs. */
  ghost predicate Outcome(c: Cursor, r: Option<Cursor>, kind: nat, block: nat, text: seq<bv8>)
    requires Shaped(c) && kind < 16 && block < 8
  {
    && (r.Some? <==> Quota(c, kind, block, |text|) <= 255)
    && (r.Some? ==>
          && Good(r.value) && Counting(r.value, block) && Ready(r.value, kind, block)
          && Grown(c, r.value, kind, block, text)
          && r.value.hiseq[block] + c.count[kind] == c.hiseq[block] + r.value.count[kind])
  }

  lemma OutcomeChain(c: Cursor, r: Option<Cursor>, q: Option<Cursor>, kind: nat, block: nat, text: seq<bv8>,
                     text': seq<bv8>)
    requires Shaped(c) && kind < 16 && block < 8
    requires Outcome(c, r, kind, block, text)
    requires if r.Some? then Outcome(r.value, q, kind, block, text') else q.None?
    ensures Outcome(c, q, kind, block, text + text')
  {
    hide Stream; hide All; hide Counting; hide Good; hide Grown; hide Ready;
    if r.Some? {
      GrownStream(c, r.value, kind, block, text);
      if q.Some? {
        GrownChain(c, r.value, q.value, kind, block, text, text');
      }
    }
  }

  /** burn_create_tybl_packs adds exactly the text, and gives up exactly if the block would
      need more than 255 packs. */
  lemma {:induction false} PutTextLaw(c: Cursor, text: seq<bv8>, i: nat, d: Dest)
    requires Good(c) && DestOk(d) && Counting(c, d.block) && Ready(c, d.kind, d.block) && i <= |text|
    ensures Outcome(c, PutText(c, text, i, d), d.kind, d.block, text[i..])
    decreases |text| - i
  {
    hide Stream; hide All; hide Counting; hide Good; hide Grown; hide Prepare; hide Push; hide Ready;
    PacksUsed(c, d.kind, d.block);
    Unwrap(c);
    if i == |text| {
      GrownNothing(c, d.kind, d.block);
      assert text[i..] == [];
    } else {
      PrepareLaw(c, d, i, |text|);
      var p := Prepare(c, d, i, |text|);
      if p.Some? {
        var q := Push(p.value, text[i]);
        PushLaw(p.value, text[i], d.kind, d.block);
        PushCounters(p.value, text[i]);
        GrownChain(c, p.value, q, d.kind, d.block, [], [text[i]]);
        assert [] + [text[i]] == [text[i]];
        GrownStream(c, q, d.kind, d.block, [text[i]]);
        PutTextLaw(q, text, i + 1, d);
        var r := PutText(q, text, i + 1, d);
        if r.Some? {
          GrownChain(c, q, r.value, d.kind, d.block, [text[i]], text[i + 1..]);
          assert [text[i]] + text[i + 1..] == text[i..];
        }
      }
    }
  }

  lemma PushCounters(c: Cursor, byte: bv8)
    requires Shaped(c) && c.open.Some? && |c.open.value.data| < 12
    ensures Push(c, byte).hiseq == c.hiseq && Push(c, byte).count == c.count
  {
  }

  lemma GrownStream(c: Cursor, c': Cursor, kind: nat, block: nat, text: seq<bv8>)
    requires Grown(c, c', kind, block, text)
    ensures Stream(All(c'), kind, block) == Stream(All(c), kind, block) + text
  {
    hide Stream; hide All;
  }

  // ------------------------------------------------------- all texts of a type

  /** The texts of the tracks from i on, as stored. */
  function Texts(s: Session, i: nat, kind: nat, block: nat): seq<bv8>
    requires SessionOk(s) && i <= |s.tracks| && kind < 16 && block < 8
    decreases |s.tracks| - i
  {
    if i == |s.tracks| then []
    else TrackText(s.tracks[i][block], kind, UsesTab(s, i, kind, block)) + Texts(s, i + 1, kind, block)
  }

  /** Everything that goes into the packs of a type, without the final fill bytes. */
  function Raw(s: Session, kind: nat, block: nat): seq<bv8>
    requires SessionOk(s) && kind < 15 && block < 8
  {
    if s.cdtext[block].None? || s.cdtext[block].value.payload[kind] == [] then []
    else s.cdtext[block].value.payload[kind] + if ForTracks(kind) then Texts(s, 0, kind, block) else []
  }

  function Padded(text: seq<bv8>): seq<bv8> { text + Zeros(12 * PacksFor(|text|) - |text|) }

  lemma {:induction false} TrackTextsLaw(c: Cursor, s: Session, i: nat, kind: nat, block: nat)
    requires Good(c) && SessionOk(s) && i <= |s.tracks| && kind < 16 && block < 8
    requires Counting(c, block) && Ready(c, kind, block)
    ensures Outcome(c, TrackTexts(c, s, i, kind, block), kind, block, Texts(s, i, kind, block))
    decreases |s.tracks| - i
  {
    hide Stream; hide All; hide Counting; hide Good; hide Grown; hide Ready; hide PutText; hide TrackText; hide UsesTab;
    Unwrap(c);
    if i == |s.tracks| {
      PacksUsed(c, kind, block);
      GrownNothing(c, kind, block);
    } else {
      var t := s.tracks[i][block];
      var text := TrackText(t, kind, UsesTab(s, i, kind, block));
      var d := Dest(kind, i + s.firstTrack, block, IsDouble(t, kind));
      PutTextLaw(c, text, 0, d);
      assert text[0..] == text;
      var r := PutText(c, text, 0, d);
      if r.Some? {
        TrackTextsLaw(r.value, s, i + 1, kind, block);
      }
      OutcomeChain(c, r, TrackTexts(c, s, i, kind, block), kind, block, text, Texts(s, i + 1, kind, block));
    }
  }

  /** Between pack types no pack is open. */
  ghost predicate Settled(c: Cursor, block: nat)
  {
    Good(c) && c.open.None? && Counting(c, block)
  }

  ghost predicate Finished(c: Cursor, r: Option<Cursor>, kind: nat, block: nat, raw: seq<bv8>)
    requires Shaped(c) && kind < 15 && block < 8
  {
    && (r.Some? <==> c.hiseq[block] + PacksFor(|raw|) <= 255)
    && (r.Some? ==>
          && Settled(r.value, block)
          && Grown(c, r.value, kind, block, Padded(raw))
          && r.value.hiseq[block] == c.hiseq[block] + PacksFor(|raw|))
  }

  lemma FinalizeKeeps(c: Cursor)
    requires Shaped(c)
    ensures Finalize(c).hiseq == c.hiseq && Finalize(c).count == c.count
  {
  }

  lemma Finish(c: Cursor, q: Cursor, kind: nat, block: nat, raw: seq<bv8>)
    requires kind < 15 && block < 8 && Settled(c, block)
    requires Outcome(c, Some(q), kind, block, raw)
    ensures Finished(c, Some(Finalize(q)), kind, block, raw)
  {
    hide Stream; hide All; hide Counting; hide Good; hide Grown; hide Finalize; hide PacksFor; hide Full;
    Unwrap(c);
    Unwrap(q);
    FinalizeKeeps(q);
    PacksUsed(c, kind, block);
    PacksUsed(q, kind, block);
    GrownStream(c, q, kind, block, raw);
    FinalizeLaw(q, kind, block);
    GrownChain(c, q, Finalize(q), kind, block, raw, Zeros(Pad(q)));
    FillBytes(|Stream(All(c), kind, block)|, |raw|, Pad(q));
  }

  lemma FillBytes(before: nat, n: nat, pad: nat)
    requires before % 12 == 0 && (before + n + pad) % 12 == 0 && pad < 12
    ensures pad == 12 * PacksFor(n) - n && PacksFor(before + n) == PacksFor(before) + PacksFor(n)
  {
  }

  /** All packs of a type and block: complete, and as few as possible. */
  lemma SessionTextsLaw(c: Cursor, s: Session, kind: nat, block: nat)
    requires SessionOk(s) && kind < 15 && block < 8 && s.cdtext[block].Some? && Settled(c, block)
    ensures Finished(c, SessionTexts(c, s, kind, block), kind, block, Raw(s, kind, block))
  {
    hide Stream; hide All; hide Counting; hide Good; hide Grown; hide PutText; hide TrackTexts; hide Finalize;
    hide Texts;
    Unwrap(c);
    PacksUsed(c, kind, block);
    var cdt, raw := s.cdtext[block].value, Raw(s, kind, block);
    if cdt.payload[kind] == [] {
      GrownNothing(c, kind, block);
      assert Padded(raw) == [];
    } else {
      var text, d := cdt.payload[kind], Dest(kind, 0, block, cdt.double[kind]);
      PutTextLaw(c, text, 0, d);
      assert text[0..] == text;
      var q := PutText(c, text, 0, d);
      if ForTracks(kind) {
        if q.Some? {
          TrackTextsLaw(q.value, s, 0, kind, block);
          q := TrackTexts(q.value, s, 0, kind, block);
        }
        OutcomeChain(c, PutText(c, text, 0, d), q, kind, block, text, Texts(s, 0, kind, block));
      } else {
        assert text + [] == text;
      }
      if q.Some? {
        Finish(c, q.value, kind, block, raw);
      }
    }
  }
}
