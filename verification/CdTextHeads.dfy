/** What a pack header says about its payload: the text that the first byte belongs to, its width, and
    how many of its characters stand in earlier packs. */
module CdTextHeads {
  import opened CdTextWriter
  import opened CdTextLaws
  import opened CdTextBlocks
  import opened ZeroRuns

  datatype Head = Head(track: int, pos: nat, double: bool)

  function HeadOf(r: Rec): Head { Head(r.track, r.pos, r.double) }

  /** The headers of the packs of a type in a block. */
  function Heads(packs: seq<Rec>, kind: nat, block: nat): (h: seq<Head>)
    ensures |h| == OfKind(packs, kind, block)
  {
    if packs == [] then []
    else
      var r := packs[|packs| - 1];
      Heads(packs[..|packs| - 1], kind, block) + if Is(r, kind, block) then [HeadOf(r)] else []
  }

  lemma HeadsSnoc(packs: seq<Rec>, r: Rec, kind: nat, block: nat)
    ensures Heads(packs + [r], kind, block) == Heads(packs, kind, block) + if Is(r, kind, block) then [HeadOf(r)]
              else []
  {
    var s := packs + [r];
    assert s[..|s| - 1] == packs && s[|s| - 1] == r;
  }

  lemma {:induction false} HeadsOfSelect(p: seq<Rec>, q: seq<Rec>, kind: nat, block: nat)
    requires Select(p, kind, block) == Select(q, kind, block)
    ensures Heads(p, kind, block) == Heads(q, kind, block)
  {
    HeadsSelected(p, kind, block);
    HeadsSelected(q, kind, block);
  }

  function HeadsOf(packs: seq<Rec>): (h: seq<Head>)
  {
    if packs == [] then []
    else HeadsOf(packs[..|packs| - 1]) + [HeadOf(packs[|packs| - 1])]
  }

  lemma {:induction false} HeadsSelected(p: seq<Rec>, kind: nat, block: nat)
    ensures Heads(p, kind, block) == HeadsOf(Select(p, kind, block))
  {
    if p != [] {
      var n := |p| - 1;
      HeadsSelected(p[..n], kind, block);
      if Is(p[n], kind, block) {
        var z := Select(p[..n], kind, block) + [p[n]];
        assert z[..|z| - 1] == Select(p[..n], kind, block);
      } else {
        assert Select(p[..n], kind, block) + [] == Select(p[..n], kind, block);
        assert Heads(p[..n], kind, block) + [] == Heads(p[..n], kind, block);
      }
    }
  }

  /** The position entry of a pack that begins with byte i of a text. */
  function Position(kind: nat, double: bool, i: int, length: nat): (p: nat)
  {
    Clamp((i - BinaryPart(kind, length)) / (if double then 2 else 1))
  }

  /** All packs begun between c and r tell the text at d; it started at that stream position. */
  ghost predicate Tells(c: Cursor, r: Cursor, d: Dest, length: nat, start: int)
  {
    var h, h' := Heads(All(c), d.kind, d.block), Heads(All(r), d.kind, d.block);
    && |h| <= |h'| && h'[..|h|] == h
    && forall n | |h| <= n < |h'| :: h'[n] == Head(d.track, Position(d.kind, d.double, 12 * n - start, length),
        d.double)
  }

  lemma TellsChain(c: Cursor, c': Cursor, c'': Cursor, d: Dest, length: nat, start: int)
    requires Tells(c, c', d, length, start) && Tells(c', c'', d, length, start)
    ensures Tells(c, c'', d, length, start)
  {
    hide Heads; hide All;
    var h, h', h'' := Heads(All(c), d.kind, d.block), Heads(All(c'), d.kind, d.block), Heads(All(c''), d.kind, d.block);
    assert h''[..|h|] == h''[..|h'|][..|h|];
    forall n | |h| <= n < |h''|
      ensures h''[n] == Head(d.track, Position(d.kind, d.double, 12 * n - start, length), d.double)
    {
      if n < |h'| {
        assert h''[n] == h''[..|h'|][n];
      }
    }
  }

  lemma SameHeads(c: Cursor, c': Cursor, d: Dest, length: nat, start: int)
    requires Heads(All(c'), d.kind, d.block) == Heads(All(c), d.kind, d.block)
    ensures Tells(c, c', d, length, start)
  {
    hide Heads; hide All;
  }

  lemma PushHeads(c: Cursor, byte: bv8, kind: nat, block: nat)
    requires Shaped(c) && c.open.Some? && |c.open.value.data| < 12
    ensures Heads(All(Push(c, byte)), kind, block) == Heads(All(c), kind, block)
  {
    HeadsSnoc(c.done, c.open.value, kind, block);
    HeadsSnoc(c.done, Push(c, byte).open.value, kind, block);
  }

  lemma FinalizeHeads(c: Cursor, kind: nat, block: nat)
    requires Shaped(c)
    ensures Heads(All(Finalize(c)), kind, block) == Heads(All(c), kind, block)
  {
    if c.open.Some? {
      var r := c.open.value;
      var full := r.(data := r.data + Zeros(12 - |r.data|));
      assert All(Finalize(c)) == c.done + [full];
      HeadsSnoc(c.done, r, kind, block);
      HeadsSnoc(c.done, full, kind, block);
    }
  }

  /** A pack begun for byte i of a text tells so. */
  lemma PrepareTells(c: Cursor, d: Dest, i: nat, length: nat)
    requires Good(c) && DestOk(d) && Counting(c, d.block) && Ready(c, d.kind, d.block)
    ensures var r := Prepare(c, d, i, length);
            r.Some? ==> Tells(c, r.value, d, length, |Stream(All(c), d.kind, d.block)| - i)
  {
    hide Good; hide Counting; hide Stream; hide Heads; hide All; hide BinaryPart; hide Clamp; hide Full; hide OfKind;
    Unwrap(c);
    PacksUsed(c, d.kind, d.block);
    var start := |Stream(All(c), d.kind, d.block)| - i;
    var r := Prepare(c, d, i, length);
    var c1 := if c.open.Some? && |c.open.value.data| == 12 then Finalize(c) else c;
    FinalizeHeads(c, d.kind, d.block);
    SameHeads(c, c1, d, length, start);
    if r.Some? && c1.open.None? {
      var p := r.value.open.value;
      AllOfClosed(c1);
      AllOfOpen(r.value);
      HeadsSnoc(c1.done, p, d.kind, d.block);
      HeadCount(c, d.kind, d.block);
    }
  }

  lemma AllOfClosed(c: Cursor)
    requires c.open.None?
    ensures All(c) == c.done
  {
  }

  lemma AllOfOpen(c: Cursor)
    requires c.open.Some?
    ensures All(c) == c.done + [c.open.value]
  {
  }

  /** At a pack boundary the stream fills the packs there are. */
  lemma HeadCount(c: Cursor, kind: nat, block: nat)
    requires Good(c) && Counting(c, block) && Ready(c, kind, block) && kind < 16
    ensures |Stream(All(c), kind, block)| % 12 == 0 ==>
              12 * |Heads(All(c), kind, block)| == |Stream(All(c), kind, block)|
  {
    hide Stream; hide Heads; hide All; hide OfKind;
    PacksUsed(c, kind, block);
    assert c.count[kind] == OfKind(All(c), kind, block);
  }

  lemma {:induction false} PutTextTells(c: Cursor, text: seq<bv8>, i: nat, d: Dest)
    requires Good(c) && DestOk(d) && Counting(c, d.block) && Ready(c, d.kind, d.block) && i <= |text|
    ensures var r := PutText(c, text, i, d);
            r.Some? ==> Tells(c, r.value, d, |text|, |Stream(All(c), d.kind, d.block)| - i)
    decreases |text| - i
  {
    hide Stream; hide All; hide Counting; hide Good; hide Grown; hide Prepare; hide Push; hide Ready; hide Heads;
    hide Tells;
    Unwrap(c);
    var start := |Stream(All(c), d.kind, d.block)| - i;
    if i == |text| {
      SameHeads(c, c, d, |text|, start);
    } else {
      PrepareLaw(c, d, i, |text|);
      PrepareTells(c, d, i, |text|);
      var p := Prepare(c, d, i, |text|);
      if p.Some? {
        var q := Push(p.value, text[i]);
        PushLaw(p.value, text[i], d.kind, d.block);
        PushHeads(p.value, text[i], d.kind, d.block);
        SameHeads(p.value, q, d, |text|, start);
        TellsChain(c, p.value, q, d, |text|, start);
        GrownStream(c, p.value, d.kind, d.block, []);
        GrownStream(p.value, q, d.kind, d.block, [text[i]]);
        PutTextTells(q, text, i + 1, d);
        var r := PutText(q, text, i + 1, d);
        if r.Some? {
          TellsChain(c, q, r.value, d, |text|, start);
        }
      }
    }
  }

  // ------------------------------------------------------ where packs begin

  /** Texts as the user gave them: 0 for the session, k for track k; a track without text
      counts as having the empty one. */
  function Given(s: Session, kind: nat, block: nat, k: nat): (text: seq<bv8>)
    requires SessionOk(s) && kind < 16 && block < 8 && s.cdtext[block].Some? && k <= |s.tracks|
  {
    if k == 0 then s.cdtext[block].value.payload[kind] else TrackText(s.tracks[k - 1][block], kind, false)
  }

  /** Texts as the writer stores them. */
  function Stored(s: Session, kind: nat, block: nat, k: nat): (text: seq<bv8>)
    requires SessionOk(s) && kind < 16 && block < 8 && s.cdtext[block].Some? && k <= |s.tracks|
  {
    if k == 0 then s.cdtext[block].value.payload[kind]
    else TrackText(s.tracks[k - 1][block], kind, UsesTab(s, k - 1, kind, block))
  }

  /** The first k stored texts. */
  function Prefix(s: Session, kind: nat, block: nat, k: nat): (text: seq<bv8>)
    requires SessionOk(s) && kind < 16 && block < 8 && s.cdtext[block].Some? && k <= |s.tracks| + 1
  {
    if k == 0 then [] else Prefix(s, kind, block, k - 1) + Stored(s, kind, block, k - 1)
  }

  lemma {:induction false} PrefixOfRaw(s: Session, kind: nat, block: nat, k: nat)
    requires SessionOk(s) && kind < 15 && ForTracks(kind) && block < 8 && s.cdtext[block].Some?
    requires s.cdtext[block].value.payload[kind] != [] && 1 <= k <= |s.tracks| + 1
    ensures Raw(s, kind, block) == Prefix(s, kind, block, k) + Texts(s, k - 1, kind, block)
    decreases k
  {
    hide TrackText; hide UsesTab;
    if k == 1 {
      assert Prefix(s, kind, block, 0) + Stored(s, kind, block, 0) == Stored(s, kind, block, 0);
    } else {
      PrefixOfRaw(s, kind, block, k - 1);
      assert Prefix(s, kind, block, k - 1) + (Stored(s, kind, block, k - 1) + Texts(s, k - 1, kind, block))
          == Prefix(s, kind, block, k) + Texts(s, k - 1, kind, block);
    }
  }

  /** The text that has the stream byte at an offset: 0 for the session, k for track k. */
  function Owner(s: Session, kind: nat, block: nat, k: nat, offset: nat): (o: nat)
    requires SessionOk(s) && kind < 15 && block < 8 && s.cdtext[block].Some? && k <= |s.tracks|
    ensures k <= o <= |s.tracks|
    decreases |s.tracks| - k
  {
    if k == |s.tracks| || offset < |Prefix(s, kind, block, k + 1)| then k else Owner(s, kind, block, k + 1, offset)
  }

  predicate WidthOf(s: Session, kind: nat, block: nat, k: nat)
    requires SessionOk(s) && kind < 15 && block < 8 && s.cdtext[block].Some? && k <= |s.tracks|
  {
    if k == 0 then s.cdtext[block].value.double[kind] else IsDouble(s.tracks[k - 1][block], kind)
  }

  /** The header that fits a pack whose payload begins at an offset of the stream. */
  function HeadAt(s: Session, kind: nat, block: nat, offset: nat): Head
    requires SessionOk(s) && kind < 15 && block < 8 && s.cdtext[block].Some?
  {
    var k := if ForTracks(kind) then Owner(s, kind, block, 0, offset) else 0;
    HeadFor(s, kind, block, k, offset - |Prefix(s, kind, block, k)|)
  }

  /** Track number and position for a pack that begins with byte i of text k. */
  function HeadFor(s: Session, kind: nat, block: nat, k: nat, i: int): Head
    requires SessionOk(s) && kind < 15 && block < 8 && s.cdtext[block].Some? && k <= |s.tracks|
  {
    var double := WidthOf(s, kind, block, k);
    Head(if k == 0 then 0 else k - 1 + s.firstTrack, Position(kind, double, i, |Stored(s, kind, block, k)|), double)
  }

  ghost predicate HeadsRight(packs: seq<Rec>, s: Session, kind: nat, block: nat)
    requires SessionOk(s) && kind < 15 && block < 8 && s.cdtext[block].Some?
  {
    forall n | 0 <= n < |Heads(packs, kind, block)| :: Heads(packs, kind, block)[n] == HeadAt(s, kind, block, 12 * n)
  }

  lemma {:induction false} PrefixGrows(s: Session, kind: nat, block: nat, j: nat, k: nat)
    requires SessionOk(s) && kind < 15 && block < 8 && s.cdtext[block].Some? && j <= k <= |s.tracks| + 1
    ensures |Prefix(s, kind, block, j)| <= |Prefix(s, kind, block, k)|
    decreases k
  {
    if j < k {
      PrefixGrows(s, kind, block, j, k - 1);
    }
  }

  lemma {:induction false} OwnerIs(s: Session, kind: nat, block: nat, j: nat, k: nat, offset: nat)
    requires SessionOk(s) && kind < 15 && block < 8 && s.cdtext[block].Some? && j <= k <= |s.tracks|
    requires |Prefix(s, kind, block, k)| <= offset < |Prefix(s, kind, block, k + 1)|
    ensures Owner(s, kind, block, j, offset) == k
    decreases k - j
  {
    hide Prefix;
    if j < k {
      PrefixGrows(s, kind, block, j + 1, k);
      OwnerIs(s, kind, block, j + 1, k, offset);
    }
  }

  /** One more text keeps all headers right. */
  lemma TextTells(c: Cursor, r: Cursor, s: Session, kind: nat, block: nat, k: nat, d: Dest)
    requires SessionOk(s) && kind < 15 && block < 8 && s.cdtext[block].Some? && k <= |s.tracks|
               && (k > 0 ==> ForTracks(kind))
    requires d == Dest(kind, if k == 0 then 0 else k - 1 + s.firstTrack, block, WidthOf(s, kind, block, k))
    requires Good(c) && Counting(c, block) && Ready(c, kind, block) && Good(r) && Counting(r, block)
               && Ready(r, kind, block)
    requires Stream(All(c), kind, block) == Prefix(s, kind, block, k)
               && Stream(All(r), kind, block) == Prefix(s, kind, block, k + 1)
    requires Tells(c, r, d, |Stored(s, kind, block, k)|, |Prefix(s, kind, block, k)|)
    requires HeadsRight(All(c), s, kind, block)
    ensures HeadsRight(All(r), s, kind, block)
  {
    hide Stream; hide Good; hide Counting; hide Ready; hide All; hide Heads; hide Prefix; hide Stored; hide Position;
    hide WidthOf;
    var h, h' := Heads(All(c), kind, block), Heads(All(r), kind, block);
    HeadsPacks(c, kind, block);
    HeadsPacks(r, kind, block);
    forall n | 0 <= n < |h'|
      ensures h'[n] == HeadAt(s, kind, block, 12 * n)
    {
      if n < |h| {
        assert h'[n] == h'[..|h|][n] == h[n];
      } else {
        if ForTracks(kind) {
          OwnerIs(s, kind, block, 0, k, 12 * n);
        }
        assert h'[n] == HeadFor(s, kind, block, k, 12 * n - |Prefix(s, kind, block, k)|);
      }
    }
  }

  lemma HeadsPacks(c: Cursor, kind: nat, block: nat)
    requires Good(c) && Counting(c, block) && Ready(c, kind, block) && kind < 15
    ensures |Heads(All(c), kind, block)| == PacksFor(|Stream(All(c), kind, block)|)
  {
    hide Stream; hide Heads; hide All; hide OfKind; hide PacksFor;
    PacksUsed(c, kind, block);
    assert c.count[kind] == OfKind(All(c), kind, block);
  }

  lemma {:induction false} TrackTextsTell(c: Cursor, s: Session, i: nat, kind: nat, block: nat)
    requires SessionOk(s) && i <= |s.tracks| && kind < 15 && block < 8 && s.cdtext[block].Some? && ForTracks(kind)
    requires Good(c) && Counting(c, block) && Ready(c, kind, block)
    requires Stream(All(c), kind, block) == Prefix(s, kind, block, i + 1) && HeadsRight(All(c), s, kind, block)
    ensures var r := TrackTexts(c, s, i, kind, block); r.Some? ==> HeadsRight(All(r.value), s, kind, block)
    decreases |s.tracks| - i
  {
    hide Stream; hide All; hide Counting; hide Good; hide Grown; hide Ready; hide PutText; hide TrackText;
    hide UsesTab; hide HeadsRight;
    hide Tells; hide IsDouble;
    Unwrap(c);
    if i < |s.tracks| {
      var t := s.tracks[i][block];
      var text := TrackText(t, kind, UsesTab(s, i, kind, block));
      var d := Dest(kind, i + s.firstTrack, block, IsDouble(t, kind));
      PutTextLaw(c, text, 0, d);
      assert text[0..] == text;
      PutTextTells(c, text, 0, d);
      var r := PutText(c, text, 0, d);
      if r.Some? {
        GrownStream(c, r.value, kind, block, text);
        TextTells(c, r.value, s, kind, block, i + 1, d);
        TrackTextsTell(r.value, s, i + 1, kind, block);
      }
    }
  }

  lemma SessionTextsTell(c: Cursor, s: Session, kind: nat, block: nat)
    requires SessionOk(s) && kind < 15 && block < 8 && s.cdtext[block].Some? && Settled(c, block)
    requires Select(All(c), kind, block) == []
    ensures var r := SessionTexts(c, s, kind, block); r.Some? ==> HeadsRight(All(r.value), s, kind, block)
  {
    hide Stream; hide All; hide Counting; hide Good; hide Grown; hide PutText; hide TrackTexts; hide Finalize;
    hide HeadsRight; hide Tells;
    hide Select; hide Heads; hide Prefix;
    Unwrap(c);
    NothingYet(c, s, kind, block);
    var cdt := s.cdtext[block].value;
    var r := SessionTexts(c, s, kind, block);
    if cdt.payload[kind] != [] && r.Some? {
      var text, d := cdt.payload[kind], Dest(kind, 0, block, cdt.double[kind]);
      PutTextLaw(c, text, 0, d);
      assert text[0..] == text;
      PutTextTells(c, text, 0, d);
      var q := PutText(c, text, 0, d).value;
      GrownStream(c, q, kind, block, text);
      FirstPrefix(s, kind, block);
      TextTells(c, q, s, kind, block, 0, d);
      if ForTracks(kind) {
        TrackTextsTell(q, s, 0, kind, block);
        TrackTextsLaw(q, s, 0, kind, block);
        q := TrackTexts(q, s, 0, kind, block).value;
      }
      Unwrap(q);
      FinalizeHeads(q, kind, block);
      SameRight(All(q), All(Finalize(q)), s, kind, block);
    }
  }

  lemma NothingYet(c: Cursor, s: Session, kind: nat, block: nat)
    requires SessionOk(s) && kind < 15 && block < 8 && s.cdtext[block].Some? && Select(All(c), kind, block) == []
    ensures Stream(All(c), kind, block) == [] && HeadsRight(All(c), s, kind, block)
  {
    StreamOfSelect(All(c), kind, block);
    HeadsSelected(All(c), kind, block);
  }

  lemma FirstPrefix(s: Session, kind: nat, block: nat)
    requires SessionOk(s) && kind < 15 && block < 8 && s.cdtext[block].Some?
    ensures Prefix(s, kind, block, 0) == [] && Prefix(s, kind, block, 1) == s.cdtext[block].value.payload[kind]
  {
  }

  lemma SameRight(p: seq<Rec>, q: seq<Rec>, s: Session, kind: nat, block: nat)
    requires SessionOk(s) && kind < 15 && block < 8 && s.cdtext[block].Some?
    requires Heads(p, kind, block) == Heads(q, kind, block) && HeadsRight(p, s, kind, block)
    ensures HeadsRight(q, s, kind, block)
  {
    hide Heads; hide HeadAt;
  }

  lemma {:induction false} KindsTell(c: Cursor, s: Session, from: nat, kind: nat, block: nat)
    requires SessionOk(s) && from <= kind < 15 && block < 8 && s.cdtext[block].Some? && Settled(c, block)
    requires Select(All(c), kind, block) == []
    ensures var r := Kinds(c, s, from, block); r.Some? ==> HeadsRight(All(r.value), s, kind, block)
    decreases 15 - from
  {
    hide Stream; hide OfKind; hide Select; hide All; hide Counting; hide Good; hide SessionTexts; hide Raw;
    hide HeadsRight; hide Heads; hide Padded;
    Unwrap(c);
    SessionTextsLaw(c, s, from, block);
    var q := SessionTexts(c, s, from, block);
    if q.Some? {
      Unwrap(q.value);
      var r := Kinds(q.value, s, from + 1, block);
      if r.Some? {
        if from == kind {
          SessionTextsTell(c, s, kind, block);
          KindsLaw(q.value, s, from + 1, block);
          assert Same(q.value, r.value, kind, block);
          HeadsOfSelect(All(q.value), All(r.value), kind, block);
          SameRight(All(q.value), All(r.value), s, kind, block);
        } else {
          assert Select(All(q.value), kind, block) == Select(All(c), kind, block);
          KindsTell(q.value, s, from + 1, kind, block);
        }
      }
    }
  }

  lemma BlockTells(c: Cursor, s: Session, kind: nat, block: nat)
    requires SessionOk(s) && kind < 15 && block < 8 && s.cdtext[block].Some? && Between(c, block)
    ensures var r := BlockPacks(c, s, block); r.Some? ==> HeadsRight(All(r.value), s, kind, block)
  {
    hide Stream; hide OfKind; hide Select; hide All; hide Counting; hide Good; hide Kinds; hide SizePacks;
    hide HeadsRight; hide Heads;
    hide Summarized;
    Unwrap(c);
    BetweenSettled(c, block);
    assert Empty(All(c), block);
    assert Select(All(c), kind, block) == [] && Select(All(c), 15, block) == [];
    KindsTell(c, s, 0, kind, block);
    KindsLaw(c, s, 0, block);
    var q := Kinds(c, s, 0, block);
    if q.Some? {
      Unwrap(q.value);
      assert Same(c, q.value, 15, block);
      SizePacksLaw(q.value, s, block);
      var r := SizePacks(q.value, s, block);
      if r.Some? {
        assert Select(All(r.value), kind, block) == Select(All(q.value), kind, block);
        HeadsOfSelect(All(q.value), All(r.value), kind, block);
        SameRight(All(q.value), All(r.value), s, kind, block);
      }
    }
  }

  lemma {:induction false} BlocksTell(c: Cursor, s: Session, from: nat, kind: nat, block: nat)
    requires SessionOk(s) && from <= 8 && kind < 15 && block < 8 && s.cdtext[block].Some? && Between(c, from)
    requires block < from ==> HeadsRight(All(c), s, kind, block)
    ensures var r := Blocks(c, s, from); r.Some? ==> HeadsRight(All(r.value), s, kind, block)
    decreases 8 - from
  {
    hide All; hide Good; hide BlockPacks; hide BlockDone; hide Fits; hide Empty; hide HeadsRight; hide Heads;
    hide Select;
    Unwrap(c);
    if from < 8 {
      BlockLaw(c, s, from);
      var q := BlockPacks(c, s, from);
      if q.Some? {
        if from == block {
          BlockTells(c, s, kind, block);
        } else if block < from {
          assert SameBlock(All(c), All(q.value), block);
          assert Select(All(c), kind, block) == Select(All(q.value), kind, block);
          HeadsOfSelect(All(c), All(q.value), kind, block);
          SameRight(All(c), All(q.value), s, kind, block);
        }
        BlocksTell(q.value, s, from + 1, kind, block);
      }
    }
  }

  lemma {:induction false} PatchHeads(packs: seq<Rec>, hiseq: seq<nat>, kind: nat, block: nat)
    requires |hiseq| == 8 && Full(packs)
    ensures Heads(PatchAll(packs, hiseq), kind, block) == Heads(packs, kind, block)
  {
    hide LastNumbers;
    if packs != [] {
      var n := |packs| - 1;
      var q := PatchAll(packs, hiseq);
      assert q[..n] == PatchAll(packs[..n], hiseq);
      PatchHeads(packs[..n], hiseq, kind, block);
      assert q[n] == Patched(packs[n], hiseq);
    }
  }

  lemma FinalOpen(s: Session)
    requires SessionOk(s) && Blocks(EMPTY, s, 0).Some?
    ensures Blocks(EMPTY, s, 0).value.open.None?
  {
    hide Blocks; hide Good; hide BlockDone; hide Fits; hide All; hide Empty;
    StartOk();
    BlocksLaw(EMPTY, s, 0);
  }

  /** In every finished array, pack n of a type in a block has the track number and character
      width of the text that holds stream byte 12 * n, and the number of characters of that
      text which stand in earlier packs, as far as 4 bits can tell. */
  lemma HeadersTell(s: Session, kind: nat, block: nat, n: nat)
    requires SessionOk(s) && kind < 15 && block < 8 && s.cdtext[block].Some? && FromSession(s).Some?
    requires n < OfKind(FromSession(s).value, kind, block)
    ensures Heads(FromSession(s).value, kind, block)[n] == HeadAt(s, kind, block, 12 * n)
  {
    hide Blocks; hide Good; hide Heads; hide HeadAt; hide OfKind; hide LastNumbers;
    StartOk();
    BlocksTell(EMPTY, s, 0, kind, block);
    FinalOpen(s);
    var c := Blocks(EMPTY, s, 0).value;
    AllOfClosed(c);
    PatchHeads(c.done, c.hiseq, kind, block);
  }
}
