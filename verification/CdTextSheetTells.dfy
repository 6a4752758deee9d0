/** What the sheet made from a written session tells: exactly when there is a sheet, which blocks
    it reports, and what their lines say. */
module CdTextSheetTells {
  import opened CdTextPackCrc
  import opened CdTextWriter
  import opened Options
  import opened ZeroRuns
  import opened CdTextLaws
  import opened CdTextResult
  import opened CdTextReader
  import opened CdTextBytes
  import opened CdTextOrder
  import opened CdTextRoundTrip
  import opened CdTextSheet
  import opened CdTextReport
  import opened CdTextLines
  import opened CdTextTable

  /** A block with at least one text of types 0x80 to 0x8e */
  predicate HasText(s: Session, block: nat)
    requires SessionOk(s) && block < 8
  {
    s.cdtext[block].Some? && exists kind | 0 <= kind < 15 :: s.cdtext[block].value.payload[kind] != []
  }

  /** ISO-8859-1, ASCII, MS-JIS */
  predicate KnownCharacters(code: bv8) { code in [0x00, 0x01, 0x80] }

  /** A block is reported if and only if it has a text. */
  lemma PresentExactly(s: Session, q: seq<Rec>, p: Packs, block: nat)
    requires SessionOk(s) && block < 8 && Written(s, q, p)
    ensures Present(p, block) <==> HasText(s, block)
  {
    hide FromSession; hide EncodeAll; hide PackAt; hide Next; hide Stream; hide Raw; hide BlockOf;
    if HasText(s, block) {
      var kind :| 0 <= kind < 15 && s.cdtext[block].value.payload[kind] != [];
      BlockReported(s, q, p, kind, block);
    } else if Present(p, block) {
      NextFirst(s, q, p, 0, -1, block);
      var no := Next(p, 0, -1, block);
      PackBytes(s, q, p, no);
      BlockIsPresent(s, q, no);
      NoStream(s, q, no);
    }
  }

  /** A pack of a text type has a text behind it. */
  lemma NoStream(s: Session, q: seq<Rec>, i: nat)
    requires SessionOk(s) && FromSession(s) == Some(q) && i < |q| && q[i].kind < 15 && q[i].block < 8
    requires s.cdtext[q[i].block].Some?
    ensures s.cdtext[q[i].block].value.payload[q[i].kind] != []
  {
    hide FromSession; hide Stream; hide OfKind; hide SessionOk; hide Raw;
    ProducedStream(s, q[i].kind, q[i].block);
    DataAt(q, q[i].kind, q[i].block, i);
    EmptyRaw(s, q[i].kind, q[i].block);
  }

  lemma EmptyRaw(s: Session, kind: nat, block: nat)
    requires SessionOk(s) && kind < 15 && block < 8 && s.cdtext[block].Some?
    ensures s.cdtext[block].value.payload[kind] == [] ==> Padded(Raw(s, kind, block)) == []
  {
  }

  // --------------------------------------------------------- when there is a sheet

  /** The reported blocks from one on */
  function ReportedBlocks(s: Session, p: Packs, from: nat, firstTno: int, lastTno: int): (texts: seq<seq<bv8>>)
    requires SessionOk(s) && PacksOk(p) && from <= 8 && firstTno > 0 && lastTno > 0
    ensures |texts| == 8 - from
    decreases 8 - from
  {
    if from == 8 then []
    else
      var text := BlockText(p, from, firstTno, lastTno, s.charCode[from]);
      [if HasText(s, from) && text.Some? then text.value else []] + ReportedBlocks(s, p, from + 1, firstTno, lastTno)
  }

  /** The codes that a block must have to be reported */
  predicate Reportable(s: Session, block: nat)
    requires SessionOk(s) && block < 8
  {
    && (s.cdtext[block].Some? ==> KnownCharacters(s.charCode[block]))
    && (HasText(s, block) ==> s.language[block] <= 127)
  }

  predicate AllReportable(s: Session, from: nat)
    requires SessionOk(s)
  {
    forall b | from <= b < 8 :: Reportable(s, b)
  }

  lemma KnownIs(code: bv8)
    ensures KnownCode(code) <==> KnownCharacters(code)
  {
  }

  lemma {:induction false} BlocksExactly(s: Session, q: seq<Rec>, p: Packs, b: nat, from: nat, firstTno: int,
                                         lastTno: int,
                                         before: bv8)
    requires SessionOk(s) && from <= 8 && b < 8 && FirstBlock(s, b) && Written(s, q, p) && firstTno > 0 && lastTno > 0
    requires KnownCode(before)
    ensures var text := BlocksText(p, from, firstTno, lastTno, before);
            && (text.Some? <==> AllReportable(s, from))
            && (text.Some? ==> text.value == Flat(ReportedBlocks(s, p, from, firstTno, lastTno)))
    decreases 8 - from
  {
    hide FromSession; hide EncodeAll; hide CodeOf; hide Present; hide BlockText; hide KnownCode; hide HasText;
    hide KnownCharacters; hide PacksOk; hide BlocksText; hide ReportedBlocks;
    if from < 8 {
      var code := CodeOf(p, from, before);
      CodeIs(s, q, p, from, before);
      KnownIs(s.charCode[from]);
      PresentExactly(s, q, p, from);
      TextExactly(s, q, p, b, from, firstTno, lastTno, code);
      BlocksStep(p, from, firstTno, lastTno, before);
      TextsFlat(s, p, from, firstTno, lastTno);
      AllReportableStep(s, from);
      assert KnownCode(code) <==> s.cdtext[from].Some? ==> KnownCharacters(s.charCode[from]);
      if KnownCode(code) {
        BlocksExactly(s, q, p, b, from + 1, firstTno, lastTno, code);
        HasTextBlock(s, from);
      }
    } else {
      NoBlocks(s, p, firstTno, lastTno, before);
    }
  }

  lemma NoBlocks(s: Session, p: Packs, firstTno: int, lastTno: int, before: bv8)
    requires SessionOk(s) && PacksOk(p) && firstTno > 0 && lastTno > 0
    ensures BlocksText(p, 8, firstTno, lastTno, before) == Some([])
              && Flat(ReportedBlocks(s, p, 8, firstTno, lastTno)) == []
  {
  }

  lemma HasTextBlock(s: Session, block: nat)
    requires SessionOk(s) && block < 8
    ensures HasText(s, block) ==> s.cdtext[block].Some?
  {
  }

  lemma AllReportableStep(s: Session, from: nat)
    requires SessionOk(s) && from < 8
    ensures AllReportable(s, from) <==> Reportable(s, from) && AllReportable(s, from + 1)
  {
    hide Reportable;
  }

  lemma BlocksStep(p: Packs, from: nat, firstTno: int, lastTno: int, before: bv8)
    requires PacksOk(p) && from < 8 && firstTno > 0 && lastTno > 0
    ensures var code := CodeOf(p, from, before);
            var text, rest := BlockText(p, from, firstTno, lastTno, code),
                BlocksText(p, from + 1, firstTno, lastTno, code);
            BlocksText(p, from, firstTno, lastTno, before)
            == if !KnownCode(code) then None
               else if !Present(p, from) then rest
               else if text.None? || rest.None? then None
               else Some(text.value + rest.value)
  {
    hide CodeOf; hide Present; hide BlockText; hide KnownCode;
  }

  lemma TextExactly(s: Session, q: seq<Rec>, p: Packs, b: nat, block: nat, firstTno: int, lastTno: int, code: bv8)
    requires SessionOk(s) && block < 8 && b < 8 && FirstBlock(s, b) && Written(s, q, p) && firstTno > 0 && lastTno > 0
    ensures BlockText(p, block, firstTno, lastTno, code).Some? <==> s.language[block] <= 127
  {
    hide FromSession; hide EncodeAll; hide PackAt; hide LanguagePack; hide Next; hide BodyText; hide HeadLines;
    LanguagesTold(s, q, p, b);
  }

  lemma TextsFlat(s: Session, p: Packs, from: nat, firstTno: int, lastTno: int)
    requires SessionOk(s) && PacksOk(p) && from < 8 && firstTno > 0 && lastTno > 0
    ensures var text := BlockText(p, from, firstTno, lastTno, s.charCode[from]);
            var rest := Flat(ReportedBlocks(s, p, from + 1, firstTno, lastTno));
            Flat(ReportedBlocks(s, p, from, firstTno, lastTno))
            == if HasText(s, from) && text.Some? then text.value + rest else rest
  {
    hide BlockText; hide HasText; hide Flat;
    var text := BlockText(p, from, firstTno, lastTno, s.charCode[from]);
    FlatSteps(if HasText(s, from) && text.Some? then text.value else [],
              ReportedBlocks(s, p, from + 1, firstTno, lastTno));
  }

  /** The range of the tracks to report, by the caller or by the session */
  function SheetRange(s: Session, startTno: int, trackCount: int): (r: Option<(int, int)>)
    ensures r.Some? ==> r.value.0 > 0
  {
    var first, last := s.firstTrack % 256, (s.firstTrack + |s.tracks| - 1) % 256;
    if startTno > 0 then Some((startTno, if trackCount > 0 then startTno + trackCount - 1 else 99))
    else if 0 < first <= last && first + last < 100 then Some((first, last))
    else None
  }

  lemma RangeIs(s: Session, startTno: int, trackCount: int)
    ensures Reported(s, startTno, trackCount) == SheetRange(s, startTno, trackCount)
  {
    hide ByteOf;
    ByteOfInt(s.firstTrack);
    ByteOfInt(|s.tracks| + s.firstTrack - 1);
  }

  /** There is a sheet if and only if there is any block, all blocks have known character codes,
      all reported ones have languages with names, and there is a range of tracks. It consists
      of the blocks that have a text, in ascending order. */
  lemma SheetExactly(s: Session, q: seq<Rec>, p: Packs, startTno: int, trackCount: int)
    requires SessionOk(s) && Written(s, q, p)
    ensures var sheet, range := SheetText(p, startTno, trackCount), SheetRange(s, startTno, trackCount);
            && (sheet.Some? <==> (exists b :: 0 <= b < 8 && s.cdtext[b].Some?) && range.Some?
                                 && AllReportable(s, 0))
            && (sheet.Some? ==> range.value.1 > 0
                                && sheet.value == Flat(ReportedBlocks(s, p, 0, range.value.0, range.value.1)))
  {
    hide FromSession; hide EncodeAll; hide PackAt; hide Next; hide LanguagePack; hide BlocksText; hide Reported;
    hide TrackRange; hide ReportedBlocks; hide KnownCode; hide HasText; hide KnownCharacters; hide SheetRange;
    hide PacksOk;
    RangeIs(s, startTno, trackCount);
    if c :| 0 <= c < 8 && s.cdtext[c].Some? {
      var b := FindFirstBlock(s, c, 0);
      LanguagesTold(s, q, p, b);
      ReportedRange(s, q, p, b, startTno, trackCount);
      KnownIs(s.charCode[b]);
      var range := Reported(s, startTno, trackCount);
      if range.Some? && KnownCode(s.charCode[b]) {
        TrackRangePositive(PackAt(p.bytes, Next(p, 0, 0x8f, -1)), startTno, trackCount);
        BlocksExactly(s, q, p, b, 0, range.value.0, range.value.1, s.charCode[b]);
      } else if !KnownCode(s.charCode[b]) {
        assert !Reportable(s, b);
      }
    } else {
      NoSummary(s, q, p);
    }
  }

  lemma TrackRangePositive(summary: Pack, startTno: int, trackCount: int)
    ensures var r := TrackRange(summary, startTno, trackCount); r.Some? ==> r.value.0 > 0 && r.value.1 > 0
  {
  }

  lemma NoSummary(s: Session, q: seq<Rec>, p: Packs)
    requires SessionOk(s) && Written(s, q, p) && forall b | 0 <= b < 8 :: s.cdtext[b].None?
    ensures Next(p, 0, 0x8f, -1) == p.count
  {
    hide FromSession; hide EncodeAll; hide Next; hide PackAt;
    NextFirst(s, q, p, 0, 0x8f, -1);
    var no := Next(p, 0, 0x8f, -1);
    if no < |q| {
      BlockIsPresent(s, q, no);
    }
  }

  // ------------------------------------------------------------ what a block says

  /** The payload of a binary type, with the zeros that fill its last pack */
  ghost predicate Filled(collected: seq<bv8>, payload: seq<bv8>)
  {
    if payload == [] then collected == []
    else exists n: nat :: n < 12 && collected == payload + Zeros(n)
  }

  lemma CollectedIs(s: Session, q: seq<Rec>, p: Packs, kind: nat, block: nat)
    requires SessionOk(s) && kind < 15 && !ForTracks(kind) && block < 8 && Written(s, q, p) && s.cdtext[block].Some?
    ensures Filled(Collected(p, 0x80 + kind, block), s.cdtext[block].value.payload[kind])
  {
    hide FromSession; hide EncodeAll; hide Stream; hide Payload;
    ProducedStream(s, kind, block);
    CollectsStream(q, |q|, kind, block);
    assert q[..|q|] == q;
    hide SessionOk;
    var payload := s.cdtext[block].value.payload[kind];
    assert payload + [] == payload;
    FilledPacks(payload);
  }

  lemma FilledPacks(text: seq<bv8>)
    ensures Filled(Padded(text), text)
  {
    var n := 12 * PacksFor(|text|) - |text|;
    if text == [] {
      assert Padded(text) == [];
    } else {
      assert 0 <= n < 12;
      assert Padded(text) == text + Zeros(n);
    }
  }

  /** Genre and closed information come from what the session holds. */
  ghost predicate InfoFits(parts: seq<seq<bv8>>, genres: seq<string>, genreText: seq<bv8>, closedText: seq<bv8>)
  {
    exists genre, closed ::
      && (genre != [] ==> |genre| >= 2)
      && Filled(genre, genreText) && Filled(closed, closedText) && InfoParts(parts, genres, genre, closed)
  }

  /** The lines of a reported block in their order: its number, its character code, its language,
      genre and closed information, the protection that the first block of the session has, and
      the range of tracks. */
  lemma BlockTold(s: Session, q: seq<Rec>, p: Packs, b: nat, block: nat, firstTno: int, lastTno: int)
      returns (parts: seq<seq<bv8>>)
    requires SessionOk(s) && Written(s, q, p) && NamesNarrow(p) && firstTno > 0 && lastTno > 0
    requires b < 8 && FirstBlock(s, b) && block < 8 && HasText(s, block) && s.language[block] <= 127
    ensures BlockText(p, block, firstTno, lastTno, s.charCode[block]) == Some(Flat(parts))
    ensures |parts| >= 18 && TextParts(parts, p, block, firstTno, lastTno)
    ensures HeadParts(parts[..4], block, s.charCode[block], p.languages[s.language[block] as int])
    ensures InfoFits(parts[11..14], p.genres, s.cdtext[block].value.payload[7], s.cdtext[block].value.payload[13])
    ensures EndParts(parts[15..18], s.copyright[b], firstTno, lastTno)
  {
    hide FromSession; hide EncodeAll; hide PackAt; hide Next; hide LanguagePack; hide BlockText; hide TextLine;
    hide HeadParts; hide InfoParts; hide EndParts; hide Filled; hide NamesNarrow; hide Flat; hide Collected;
    hide TextParts;
    HasTextBlock(s, block);
    TextExactly(s, q, p, b, block, firstTno, lastTno, s.charCode[block]);
    LanguagesTold(s, q, p, b);
    ProtectionByte(s, q, p, b);
    parts := BlockParts(p, block, firstTno, lastTno, s.charCode[block]);
    CollectedIs(s, q, p, 7, block);
    CollectedIs(s, q, p, 13, block);
    var genre, closed := Collected(p, 0x87, block), Collected(p, 0x8d, block);
    assert InfoParts(parts[11..14], p.genres, genre, closed);
  }

  /** The protection line of a block tells the copyright of that block if and only if the first
      block of the session has the same one. */
  lemma ProtectionExactly(s: Session, q: seq<Rec>, p: Packs, b: nat, block: nat, firstTno: int, lastTno: int)
      returns (parts: seq<seq<bv8>>)
    requires SessionOk(s) && Written(s, q, p) && NamesNarrow(p) && firstTno > 0 && lastTno > 0
    requires b < 8 && FirstBlock(s, b) && block < 8 && HasText(s, block) && s.language[block] <= 127
    ensures BlockText(p, block, firstTno, lastTno, s.charCode[block]) == Some(Flat(parts)) && |parts| >= 18
    ensures TellsProtection(parts[15], s.copyright[block]) <==> s.copyright[block] == s.copyright[b]
  {
    hide FromSession; hide EncodeAll; hide BlockText; hide TextParts; hide HeadParts; hide InfoFits; hide SaysNumber;
    hide Flat; hide NamesNarrow; hide TellsProtection; hide HasText; hide FirstBlock;
    parts := BlockTold(s, q, p, b, block, firstTno, lastTno);
    assert parts[15..18][0] == parts[15];
    if TellsProtection(parts[15], s.copyright[block]) {
      OneProtection(parts[15], s.copyright[block], s.copyright[b]);
    }
  }

  /** Byte 7 of the first summary pack is the copyright of the first block. */
  lemma ProtectionByte(s: Session, q: seq<Rec>, p: Packs, b: nat)
    requires SessionOk(s) && b < 8 && Written(s, q, p) && FirstBlock(s, b)
    ensures Next(p, 0, 0x8f, -1) < p.count && PackAt(p.bytes, Next(p, 0, 0x8f, -1))[7] == s.copyright[b]
  {
    hide FromSession; hide EncodeAll; hide OfKind; hide Next; hide PackAt; hide Summary;
    assert q[..0] == [];
    NoneCounted(15, b);
    NextSummary(s, q, p, b, 0);
    var a := Next(p, 0, 0x8f, -1);
    SummaryPart(s, q, p, b, a);
    CopyrightByte(q, s, b);
    assert PackAt(p.bytes, a)[7] == PackAt(p.bytes, a)[4..16][3];
    assert Summary(q, s, b)[0..12][3] == Summary(q, s, b)[3];
  }

  lemma CopyrightByte(q: seq<Rec>, s: Session, block: nat)
    requires SessionOk(s) && block < 8
    ensures Summary(q, s, block)[3] == s.copyright[block]
  {
    hide LastNumbers; hide BlockSizes; hide ByteOf;
  }

  /** A line about a track */
  ghost predicate TrackLine(line: seq<bv8>, about: string, track: nat, text: seq<bv8>)
  {
    exists head: string :: NamesTrack(head, about, track) && IsLine(line, head, text)
  }

  /** The line for a text of the session or of a track: heading and text by their columns, and
      for a track a heading that tells its number. */
  lemma TextTold(s: Session, q: seq<Rec>, p: Packs, kind: nat, block: nat, double: bool, k: nat, firstTno: int)
    requires SessionOk(s) && kind < 15 && ForTracks(kind) && block < 8 && Written(s, q, p)
    requires Regular(s, kind, block, double) && k <= |s.tracks| && firstTno > 0
    ensures var text := Shown(s, kind, block, double, k);
            if k == 0 then
              var head := if kind == 14 then "UPC / EAN" else VOLUME_HEADS[kind];
              IsLine(TextLine(p, 0x80 + kind, block, 0, 0, head), head, text)
            else
              var about := TRACK_HEADS[if kind == 14 then 6 else kind];
              TrackLine(TextLine(p, 0x80 + kind, block, k, firstTno, about), about, firstTno + k - 1, text)
  {
    hide FromSession; hide EncodeAll; hide Regular; hide Shown; hide TextLine; hide Line; hide IsLine; hide NamesTrack;
    hide WithDigits; hide Written; hide SessionOk;
    if k == 0 {
      var head := if kind == 14 then "UPC / EAN" else VOLUME_HEADS[kind];
      LineShowsText(s, kind, block, double, 0, 0, head, q, p);
      VolumeHeadsNarrow(kind);
      LineRead(head, Shown(s, kind, block, double, 0));
    } else {
      var about := TRACK_HEADS[if kind == 14 then 6 else kind];
      LineShowsText(s, kind, block, double, k, firstTno, about, q, p);
      LabelNames(about, k, firstTno);
      LabelNarrow(kind, k, firstTno);
      LineRead(Label(about, k, firstTno), Shown(s, kind, block, double, k));
    }
  }

  lemma VolumeHeadsNarrow(kind: nat)
    requires kind < 15 && ForTracks(kind)
    ensures Narrow8(if kind == 14 then "UPC / EAN" else VOLUME_HEADS[kind])
  {
    if kind == 0 {
    } else if kind == 1 {
    } else if kind == 2 {
    } else if kind == 3 {
    } else if kind == 4 {
    } else if kind == 5 {
    }
  }

  lemma LabelNarrow(kind: nat, k: nat, firstTno: int)
    requires kind < 15 && ForTracks(kind) && k > 0 && firstTno > 0
    ensures Narrow8(Label(TRACK_HEADS[if kind == 14 then 6 else kind], k, firstTno))
  {
    hide WithDigits; hide Narrow8; hide Numeral; hide ValueOf;
    var about := TRACK_HEADS[if kind == 14 then 6 else kind];
    var n := k + firstTno - 1;
    PaddedRead(n, 10, 2);
    DigitsNarrow(WithDigits(n, 10, 2), 10);
    TrackHeadsNarrow(kind);
    NarrowSum("ISRC" + " ", WithDigits(n, 10, 2));
    NarrowSum("Track ", WithDigits(n, 10, 2));
    NarrowSum("Track " + WithDigits(n, 10, 2), " ");
    NarrowSum("Track " + WithDigits(n, 10, 2) + " ", about);
  }

  lemma TrackHeadsNarrow(kind: nat)
    requires kind < 15 && ForTracks(kind)
    ensures Narrow8(TRACK_HEADS[if kind == 14 then 6 else kind])
    ensures Narrow8("ISRC" + " ") && Narrow8("Track ") && Narrow8(" ")
  {
    if kind == 0 {
    } else if kind == 1 {
    } else if kind == 2 {
    } else if kind == 3 {
    } else if kind == 4 {
    } else if kind == 5 {
    }
  }

  /** A sheet with a line about a track */
  ghost predicate ShowsTrack(sheet: seq<bv8>, about: string, track: nat, text: seq<bv8>)
  {
    exists line: seq<bv8> :: Shows(sheet, line) && TrackLine(line, about, track, text)
  }

  /** For each track in range the sheet has a line that begins with a word and the decimal number
      of that track, and shows its text. */
  lemma SheetNamesTracks(s: Session, kind: nat, block: nat, double: bool, k: nat,
                         startTno: int, trackCount: int, q: seq<Rec>, p: Packs)
    requires SessionOk(s) && kind < 15 && ForTracks(kind) && block < 8 && Written(s, q, p)
    requires Regular(s, kind, block, double) && 0 < k <= |s.tracks| && Printable(s)
    ensures var sheet, range := SheetText(p, startTno, trackCount), SheetRange(s, startTno, trackCount);
            && (sheet.Some? <==> range.Some?)
            && (range.Some? && k <= range.value.1 - range.value.0 + 1 ==>
                  ShowsTrack(sheet.value, TRACK_HEADS[if kind == 14 then 6 else kind], range.value.0 + k - 1,
                             Shown(s, kind, block, double, k)))
  {
    hide FromSession; hide EncodeAll; hide Regular; hide Shown; hide SheetText; hide Line; hide IsLine; hide NamesTrack;
    hide Shows; hide Label; hide SessionOk; hide Printable; hide SheetRange; hide Reported; hide EncodeAll;
    RangeIs(s, startTno, trackCount);
    SheetShowsTexts(s, kind, block, double, k, startTno, trackCount, q, p);
    var sheet, range := SheetText(p, startTno, trackCount), SheetRange(s, startTno, trackCount);
    if range.Some? && k <= range.value.1 - range.value.0 + 1 {
      var first, about := range.value.0, TRACK_HEADS[if kind == 14 then 6 else kind];
      var head, text := Label(about, k, first), Shown(s, kind, block, double, k);
      SpecIs(kind, k);
      LabelNames(about, k, first);
      LabelNarrow(kind, k, first);
      LineRead(head, text);
      assert Shows(sheet.value, Line(head, text)) && TrackLine(Line(head, text), about, first + k - 1, text);
    }
  }

  lemma SpecIs(kind: nat, k: nat)
    requires kind < 15 && ForTracks(kind) && k > 0
    ensures Spec(kind, k) == TRACK_HEADS[if kind == 14 then 6 else kind]
  {
  }

  /** The catalog number, a text of the volume alone, has its line too. */
  lemma CatalogTold(s: Session, q: seq<Rec>, p: Packs, block: nat)
    requires SessionOk(s) && block < 8 && Written(s, q, p) && s.cdtext[block].Some?
    requires TextOk(s.cdtext[block].value.payload[6], s.cdtext[block].value.double[6])
    ensures IsLine(TextLine(p, 0x86, block, 0, 0, "Catalog Number"), "Catalog Number",
                   Body(s.cdtext[block].value.payload[6], s.cdtext[block].value.double[6]))
  {
    hide FromSession; hide EncodeAll; hide Line; hide IsLine; hide Payload; hide AnyDouble; hide Stream; hide Padded;
    hide TextOk; hide Body; hide Pick;
    var double, t := s.cdtext[block].value.double[6], s.cdtext[block].value.payload[6];
    var payload := Payload(p.bytes, p.count, 0x86, block);
    ProducedStream(s, 6, block);
    CollectsStream(q, |q|, 6, block);
    assert q[..|q|] == q;
    ProducedWidth(s, 6, block, double);
    SomeWidth(t, double);
    OnlyPayload(s, 6, block);
    PaddedText(t, payload, double);
    CatalogWidth(q, 6, block, double);
    LineRead("Catalog Number", Body(t, double));
  }

  lemma OnlyPayload(s: Session, kind: nat, block: nat)
    requires SessionOk(s) && kind < 15 && !ForTracks(kind) && block < 8 && s.cdtext[block].Some?
    ensures Raw(s, kind, block) == s.cdtext[block].value.payload[kind]
  {
  }

  /** The first text of a payload that begins with it */
  lemma PaddedText(t: seq<bv8>, payload: seq<bv8>, double: bool)
    requires TextOk(t, double) && |t| >= Width(double) && payload == Padded(t) && Whole(|payload|, double)
    ensures payload != [] && Pick(payload, 0, double, false) == Some(Body(t, double))
  {
    hide TextOk; hide NextEnd; hide Pick; hide PacksFor;
    assert payload[0..0 + |t|] == t;
    TextEnd(payload, 0, t, 0, double);
    PickFirst(payload, double, false);
    assert payload[..|t| - Width(double)] == t[..|t| - Width(double)];
  }

  lemma CatalogWidth(q: seq<Rec>, kind: nat, block: nat, double: bool)
    requires Uniform(q, kind, block, double) && Stream(q, kind, block) != []
    ensures (exists i: nat | i < |q| :: Is(q[i], kind, block) && q[i].double) <==> double
  {
    hide Stream;
    NonemptyStream(q, kind, block);
  }
}
