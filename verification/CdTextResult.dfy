/** The finished pack array of burn_cdtext_from_session: what it says about itself. */
module CdTextResult {
  import opened CdTextWriter
  import opened CdTextLaws
  import opened CdTextBlocks

  // ------------------------------------------------------ patching the summaries

  lemma {:induction false} PatchKeeps(packs: seq<Rec>, hiseq: seq<nat>, kind: nat, block: nat)
    requires |hiseq| == 8 && Full(packs)
    ensures var q := PatchAll(packs, hiseq);
            && Full(Select(packs, kind, block))
            && Select(q, kind, block) == PatchAll(Select(packs, kind, block), hiseq)
            && OfKind(q, kind, block) == OfKind(packs, kind, block)
            && InBlock(q, block) == InBlock(packs, block)
            && (kind != 15 ==> Select(q, kind, block) == Select(packs, kind, block))
  {
    hide LastNumbers;
    if packs != [] {
      var n := |packs| - 1;
      var q := PatchAll(packs, hiseq);
      assert q[..n] == PatchAll(packs[..n], hiseq);
      PatchKeeps(packs[..n], hiseq, kind, block);
      var z := Select(packs[..n], kind, block);
      if Is(packs[n], kind, block) {
        assert PatchAll(z + [packs[n]], hiseq) == PatchAll(z, hiseq) + [q[n]];
      } else {
        assert z + [] == z && PatchAll(z, hiseq) + [] == PatchAll(z, hiseq);
      }
    }
  }

  lemma {:induction false} PatchNumbered(packs: seq<Rec>, hiseq: seq<nat>)
    requires |hiseq| == 8 && Full(packs) && Numbered(packs)
    ensures Numbered(PatchAll(packs, hiseq))
  {
    if packs != [] {
      var n := |packs| - 1;
      var q := PatchAll(packs, hiseq);
      assert q[..n] == PatchAll(packs[..n], hiseq);
      PatchNumbered(packs[..n], hiseq);
      PatchKeeps(packs[..n], hiseq, 0, packs[n].block);
    }
  }

  /** The number of packs in each of the eight blocks. */
  function BlockSizes(packs: seq<Rec>): (n: seq<nat>)
    ensures |n| == 8 && forall b: nat | b < 8 :: n[b] == InBlock(packs, b)
  {
    seq(8, b requires 0 <= b < 8 => InBlock(packs, b))
  }

  /** The 36 bytes of a block summary, computed from the array that holds it. */
  function Summary(packs: seq<Rec>, s: Session, block: nat): (text: seq<bv8>)
    requires SessionOk(s) && block < 8
    ensures |text| == 36
  {
    [s.charCode[block], ByteOf(s.firstTrack), ByteOf(|s.tracks| + s.firstTrack - 1), s.copyright[block]]
    + Bytes(Counts(packs, block)[..15]) + [3]
    + LastNumbers(BlockSizes(packs), 0) + LastNumbers(BlockSizes(packs), 4)
    + s.language
  }

  lemma PatchedSummary(packs: seq<Rec>, s: Session, block: nat)
    requires SessionOk(s) && block < 8 && Full(packs) && Summarized(packs, s, block)
    ensures var q := PatchAll(packs, BlockSizes(packs));
            OfKind(q, 15, block) == 3 && Stream(q, 15, block) == Summary(q, s, block)
  {
    hide Select; hide Stream; hide OfKind; hide InBlock; hide LastNumbers; hide Bytes;
    var h := BlockSizes(packs);
    var q := PatchAll(packs, h);
    PatchKeeps(packs, h, 15, block);
    StreamOfSelect(packs, 15, block);
    StreamOfSelect(q, 15, block);
    forall k: nat
      ensures OfKind(q, k, block) == OfKind(packs, k, block)
    {
      PatchKeeps(packs, h, k, block);
    }
    forall b: nat
      ensures InBlock(q, b) == InBlock(packs, b)
    {
      PatchKeeps(packs, h, 0, b);
    }
    assert Counts(q, block) == Counts(packs, block) && BlockSizes(q) == h;
    var z := Select(q, 15, block);
    DataOfThree(z);
    SmallBytes();
    ThreeTexts(packs, q, s, block);
  }

  lemma SmallBytes()
    ensures ByteOf(0) != 1 && ByteOf(1) == 1 && ByteOf(2) == 2
  {
  }

  lemma DataOfThree(z: seq<Rec>)
    requires |z| == 3
    ensures Data(z) == z[0].data + z[1].data + z[2].data
  {
    assert z[..2][..1][..0] == [];
    assert Data(z[..2][..1]) == z[0].data;
  }

  lemma ThreeTexts(packs: seq<Rec>, q: seq<Rec>, s: Session, block: nat)
    requires SessionOk(s) && block < 8 && Counts(q, block) == Counts(packs, block) && BlockSizes(q) == BlockSizes(packs)
    ensures var h, n := BlockSizes(packs), Counts(packs, block);
            Summary(q, s, block) == SizeText(s, block, n, 0) + (SizeText(s, block, n, 1)[..8] + LastNumbers(h, 0))
                                    + (LastNumbers(h, 4) + SizeText(s, block, n, 2)[4..])
  {
    hide OfKind; hide InBlock; hide LastNumbers; hide ByteOf;
    var n := Counts(packs, block);
    assert Bytes(n[..15]) == Bytes(n[..8]) + Bytes(n[8..15]);
  }

  /** Everything the finished array promises about itself. */
  ghost predicate Coherent(q: seq<Rec>, s: Session)
    requires SessionOk(s)
  {
    && Full(q) && HeadersOk(q) && |q| <= 2040
    && Numbered(q)
    && forall b: nat | b < 8 ::
         if s.cdtext[b].None? then InBlock(q, b) == 0
         else
           && InBlock(q, b) <= 255
           && OfKind(q, 15, b) == 3 && Stream(q, 15, b) == Summary(q, s, b)
           && forall k: nat | k < 15 :: Stream(q, k, b) == Padded(Raw(s, k, b))
  }

  /** Every array produced has gapless numbers, at most 255 packs a block, texts in full, and
      summaries that agree with it. */
  lemma ProducedIsCoherent(s: Session)
    requires SessionOk(s) && FromSession(s).Some?
    ensures Coherent(FromSession(s).value, s)
  {
    hide Select; hide Stream; hide OfKind; hide InBlock; hide Numbered; hide Raw; hide Padded; hide Blocks;
    hide Summary; hide LastNumbers;
    StartOk();
    BlocksLaw(EMPTY, s, 0);
    var c := Blocks(EMPTY, s, 0).value;
    var p, q := All(c), FromSession(s).value;
    assert p == c.done;
    BufferSuffices(c);
    assert c.hiseq == BlockSizes(p);
    PatchNumbered(p, c.hiseq);
    forall b: nat | b < 8
      ensures InBlock(q, b) == InBlock(p, b) <= 255
      ensures s.cdtext[b].None? ==> InBlock(q, b) == 0
      ensures s.cdtext[b].Some? ==> OfKind(q, 15, b) == 3 && Stream(q, 15, b) == Summary(q, s, b)
      ensures s.cdtext[b].Some? ==> forall k: nat | k < 15 :: Stream(q, k, b) == Padded(Raw(s, k, b))
    {
      PatchKeeps(p, c.hiseq, 0, b);
      assert BlockDone(p, s, b) && c.hiseq[b] <= 255;
      if s.cdtext[b].None? {
        NoneInBlock(p, b);
      } else {
        PatchedSummary(p, s, b);
        forall k: nat | k < 15
          ensures Stream(q, k, b) == Padded(Raw(s, k, b))
        {
          PatchKeeps(p, c.hiseq, k, b);
          SelectDecides(p, q, k, b);
        }
      }
    }
  }

  /** The headers of the three summary packs of a block: numbered 0 to 2, with single-byte
      characters and no position. */
  lemma SummaryHeaders(s: Session, block: nat)
    requires SessionOk(s) && FromSession(s).Some? && block < 8 && s.cdtext[block].Some?
    ensures var z := Select(FromSession(s).value, 15, block);
            |z| == 3 && forall i: nat | i < 3 :: z[i].track == i && !z[i].double && z[i].pos == 0
  {
    hide Select; hide Stream; hide OfKind; hide InBlock; hide Raw; hide Padded; hide Blocks; hide LastNumbers;
    hide SizeText;
    StartOk();
    BlocksLaw(EMPTY, s, 0);
    var c := Blocks(EMPTY, s, 0).value;
    assert All(c) == c.done;
    assert BlockDone(c.done, s, block);
    PatchKeeps(c.done, c.hiseq, 15, block);
  }
}
