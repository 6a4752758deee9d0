/** The character code that the printer hands back with a sheet: that of the last block which
    has a summary, whatever the blocks before it say. */
module CdTextCode {
  import opened CdTextPackCrc
  import opened CdTextWriter
  import opened Options
  import opened CdTextLaws
  import opened CdTextBlocks
  import opened CdTextBytes
  import opened CdTextRoundTrip
  import opened CdTextGaps
  import opened CdTextSheet
  import opened CdTextReport

  predicate HasSummary(p: Packs, block: nat)
    requires PacksOk(p)
  {
    Next(p, 0, 0x8f, block) < p.count
  }

  /** The character code in the first summary pack of a block */
  function SummaryCode(p: Packs, block: nat): bv8
    requires PacksOk(p) && HasSummary(p, block)
  {
    PackAt(p.bytes, Next(p, 0, 0x8f, block))[4]
  }

  /** For every pack array: the code of the highest block with a summary is left. */
  lemma {:induction false} LastCodeIs(p: Packs, block: nat, before: bv8, hi: nat)
    requires PacksOk(p) && block <= hi < 8 && HasSummary(p, hi) && forall b: nat | hi < b < 8 :: !HasSummary(p, b)
    ensures LastCode(p, block, before) == SummaryCode(p, hi)
    decreases 8 - block
  {
    hide Next; hide PackAt;
    if block < hi {
      LastCodeIs(p, block + 1, CodeOf(p, block, before), hi);
    } else {
      LastCodeStays(p, hi + 1, SummaryCode(p, hi));
    }
  }

  lemma {:induction false} LastCodeStays(p: Packs, block: nat, before: bv8)
    requires PacksOk(p) && block <= 8 && forall b: nat | block <= b < 8 :: !HasSummary(p, b)
    ensures LastCode(p, block, before) == before
    decreases 8 - block
  {
    hide Next; hide PackAt;
    if block < 8 {
      assert !HasSummary(p, block);
      LastCodeStays(p, block + 1, before);
    }
  }

  /** No block after this one is present. */
  predicate LastBlock(s: Session, block: nat)
    requires SessionOk(s) && block < 8
  {
    s.cdtext[block].Some? && forall b | block < b < 8 :: s.cdtext[b].None?
  }

  /** What the sheet's caller is told for the packs of a session. */
  lemma SheetCodeIsLast(s: Session, q: seq<Rec>, p: Packs, lo: nat, hi: nat)
    requires SessionOk(s) && Written(s, q, p) && lo < 8 && hi < 8 && FirstBlock(s, lo) && LastBlock(s, hi)
    ensures Next(p, 0, 0x8f, -1) < p.count && SheetCode(p) == s.charCode[hi]
  {
    hide FromSession; hide EncodeAll; hide Next; hide PackAt; hide CodeOf; hide LanguagePack; hide LastCode;
    LanguagesTold(s, q, p, lo);
    forall b: nat | b < 8
      ensures HasSummary(p, b) <==> s.cdtext[b].Some?
    {
      CodeIs(s, q, p, b, 0);
    }
    LastCodeIs(p, 0, s.charCode[lo], hi);
    CodeIs(s, q, p, hi, 0);
    FoundCode(p, hi);
  }

  lemma FoundCode(p: Packs, block: nat)
    requires PacksOk(p) && HasSummary(p, block)
    ensures CodeOf(p, block, 0) == SummaryCode(p, block)
  {
    hide Next; hide PackAt;
  }

  /** The code handed back is the one that the array begins with, if and only if the first and
      the last block have the same code. */
  lemma SheetCodeExactly(s: Session, q: seq<Rec>, p: Packs, lo: nat, hi: nat)
    requires SessionOk(s) && Written(s, q, p) && lo < 8 && hi < 8 && FirstBlock(s, lo) && LastBlock(s, hi)
    ensures var no := Next(p, 0, 0x8f, -1);
            no < p.count && (SheetCode(p) == PackAt(p.bytes, no)[4] <==> s.charCode[hi] == s.charCode[lo])
  {
    hide FromSession; hide EncodeAll; hide Next; hide PackAt; hide LanguagePack; hide SheetCode;
    SheetCodeIsLast(s, q, p, lo, hi);
    LanguagesTold(s, q, p, lo);
  }

  // ------------------------------------------------------------------ a session

  function Title(t: seq<bv8>): Option<CdText> { Some(CdText(NOTHING[0 := t], SINGLE)) }

  /** Titles in block 0, in ISO-8859-1, and in block 1, which is marked as MS-JIS. */
  const TWO_CODES := Session([Title([0x41, 0]), Title([0x42, 0]), None, None, None, None, None, None],
                             [], 1, EIGHT[1 := 0x80], EIGHT, EIGHT)

  lemma TwoCodesRaw(block: nat)
    requires block < 2
    ensures SessionOk(TWO_CODES) && |Raw(TWO_CODES, 0, block)| == 2
    ensures forall k: nat | 1 <= k < 15 :: Raw(TWO_CODES, k, block) == []
  {
    assert Texts(TWO_CODES, 0, 0, block) == [];
  }

  lemma TwoCodesFit(block: nat)
    requires block < 8
    ensures SessionOk(TWO_CODES) && CdTextBlocks.Fits(TWO_CODES, block)
  {
    if block < 2 {
      TwoCodesRaw(block);
      hide Raw;
      NoPacks(TWO_CODES, 1, block);
      assert KindsTotal(TWO_CODES, 0, block) == 1;
    }
  }

  /** A session for which the caller is told a code that is not that of the first block. */
  lemma TwoCodes() returns (s: Session, q: seq<Rec>, p: Packs)
    ensures SessionOk(s) && Written(s, q, p) && Printable(s)
    ensures var no := Next(p, 0, 0x8f, -1);
            no < p.count && PackAt(p.bytes, no)[4] == 0 && SheetCode(p) == 0x80
  {
    hide FromSession; hide EncodeAll; hide Next; hide PackAt; hide LanguagePack; hide SheetCode; hide Stream; hide Raw;
    hide CdTextBlocks.Fits; hide HeadersOk; hide Full; hide OfKind;
    s := TWO_CODES;
    forall b: nat | b < 8
      ensures SessionOk(s) && CdTextBlocks.Fits(s, b)
    {
      TwoCodesFit(b);
    }
    assert CdTextBlocks.Fits(s, 0);
    SucceedsExactly(s);
    q := FromSession(s).value;
    ProducedStream(s, 0, 0);
    p := Packs(EncodeAll(q), |q|, seq(128, _ => ""), []);
    SheetCodeIsLast(s, q, p, 0, 1);
    LanguagesTold(s, q, p, 0);
  }
}
