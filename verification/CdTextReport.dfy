/** From session to sheet: what a listener reads about a session whose CD-TEXT was written. */
module CdTextReport {
  import opened CdTextPackCrc
  import opened CdTextWriter
  import opened Options
  import opened CdTextLaws
  import opened CdTextResult
  import opened CdTextReader
  import opened CdTextBytes
  import opened CdTextOrder
  import opened CdTextRoundTrip
  import opened CdTextSheet

  /** The printer gets the bytes of the array that the writer made. */
  predicate Written(s: Session, q: seq<Rec>, p: Packs)
    requires SessionOk(s)
  {
    FromSession(s) == Some(q) && HeadersOk(q) && Full(q) && PacksOk(p) && p.bytes == EncodeAll(q) && p.count == |q|
  }

  /** The line of a text shows the text as given or, for a lone TAB, as given before. */
  lemma LineShowsText(s: Session, kind: nat, block: nat, double: bool, k: nat, firstTno: int, spec: string,
                      q: seq<Rec>, p: Packs)
    requires SessionOk(s) && kind < 15 && ForTracks(kind) && block < 8 && Written(s, q, p)
    requires Regular(s, kind, block, double) && k <= |s.tracks| && (k > 0 ==> firstTno > 0)
    ensures TextLine(p, 0x80 + kind, block, k, firstTno, spec)
              == Line(Label(spec, k, firstTno), Shown(s, kind, block, double, k))
  {
    hide Regular; hide FromSession; hide EncodeAll; hide Payload; hide AnyDouble; hide Pick; hide Shown; hide Line;
    hide Label;
    hide HeadersOk; hide Full; hide Raw;
    var payload := ProducedPayload(s, kind, block, double);
    PicksShown(payload, s, kind, block, double, k);
  }

  // ------------------------------------------------------------ finding packs

  /** What the sheet needs to know of pack i. */
  lemma PackBytes(s: Session, q: seq<Rec>, p: Packs, i: nat)
    requires SessionOk(s) && Written(s, q, p) && i < |q|
    ensures var b := PackAt(p.bytes, i);
            && q[i].kind < 16 && q[i].block < 8 && |q[i].data| == 12
            && b[0] as int == 0x80 + q[i].kind && BlockOf(b[3]) as int == q[i].block && b[4..16] == q[i].data
  {
    hide FromSession; hide EncodeAll; hide Encode; hide PackAt; hide BlockOf;
    EncodeAllAt(q, i);
    EncodedFields(q[i], q[i].kind, q[i].block);
  }

  predicate Fits(r: Rec, packType: int, block: int)
  {
    (packType >= 0 ==> 0x80 + r.kind == packType) && (block >= 0 ==> r.block == block)
  }

  /** The search stops at the first pack that fits. */
  lemma {:induction false} NextFirst(s: Session, q: seq<Rec>, p: Packs, start: nat, packType: int, block: int)
    requires SessionOk(s) && Written(s, q, p) && start <= |q|
    ensures var no := Next(p, start, packType, block);
            && start <= no <= |q| && (no < |q| ==> Fits(q[no], packType, block))
            && forall i | start <= i < no :: !Fits(q[i], packType, block)
    decreases |q| - start
  {
    hide FromSession; hide EncodeAll; hide PackAt; hide BlockOf;
    if start < |q| {
      PackBytes(s, q, p, start);
      if !Matches(PackAt(p.bytes, start), packType, block) {
        NextFirst(s, q, p, start + 1, packType, block);
      }
    }
  }

  lemma {:induction false} CountNone(packs: seq<Rec>, kind: nat, block: nat, n: nat, m: nat)
    requires n <= m <= |packs| && forall i | n <= i < m :: !Is(packs[i], kind, block)
    ensures OfKind(packs[..m], kind, block) == OfKind(packs[..n], kind, block)
    decreases m
  {
    if n < m {
      CountNone(packs, kind, block, n, m - 1);
      assert packs[..m][..m - 1] == packs[..m - 1];
    }
  }

  lemma CountOne(packs: seq<Rec>, kind: nat, block: nat, i: nat)
    requires i < |packs|
    ensures OfKind(packs[..i + 1], kind, block) == OfKind(packs[..i], kind, block)
              + if Is(packs[i], kind, block) then 1 else 0
  {
    assert packs[..i + 1][..i] == packs[..i];
  }

  /** Pack i holds its share of the stream of its type. */
  lemma {:induction false} DataAt(packs: seq<Rec>, kind: nat, block: nat, i: nat)
    requires Full(packs) && i < |packs| && Is(packs[i], kind, block)
    ensures var at := 12 * OfKind(packs[..i], kind, block);
            at + 12 <= |Stream(packs, kind, block)| && Stream(packs, kind, block)[at..at + 12] == packs[i].data
    decreases |packs|
  {
    var n := |packs| - 1;
    StreamSize(packs[..n], kind, block);
    if i < n {
      DataAt(packs[..n], kind, block, i);
      assert packs[..n][..i] == packs[..i];
    }
  }

  // -------------------------------------------------------- the block summaries

  /** Which blocks the array holds. */
  lemma BlockIsPresent(s: Session, q: seq<Rec>, i: nat)
    requires SessionOk(s) && FromSession(s) == Some(q) && i < |q|
    ensures q[i].block < 8 && s.cdtext[q[i].block].Some?
  {
    hide FromSession; hide OfKind; hide Stream; hide Summary; hide Raw; hide Padded; hide Numbered; hide InBlock;
    ProducedIsCoherent(s);
    if s.cdtext[q[i].block].None? {
      NoneOfBlock(q, q[i].block);
    }
  }

  /** The code found for a block is its own if it is present, else that of the blocks before. */
  lemma CodeIs(s: Session, q: seq<Rec>, p: Packs, block: nat, before: bv8)
    requires SessionOk(s) && block < 8 && Written(s, q, p)
    ensures CodeOf(p, block, before) == if s.cdtext[block].Some? then s.charCode[block] else before
    ensures Next(p, 0, 0x8f, block) < |q| <==> s.cdtext[block].Some?
  {
    hide FromSession; hide EncodeAll; hide PackAt; hide OfKind; hide Next; hide Stream; hide Summary; hide Raw;
    hide Padded; hide Numbered; hide InBlock;
    NextFirst(s, q, p, 0, 0x8f, block);
    var no := Next(p, 0, 0x8f, block);
    CountNone(q, 15, block, 0, no);
    assert q[..0] == [] && q[..|q|] == q;
    NoneCounted(15, block);
    if no < |q| {
      BlockIsPresent(s, q, no);
      SummaryPart(s, q, p, block, no);
      SummaryBytes(q, s, block);
      assert Summary(q, s, block)[0..12][0] == Summary(q, s, block)[0];
    } else if s.cdtext[block].Some? {
      ProducedIsCoherent(s);
    }
  }

  lemma NoneCounted(kind: nat, block: nat)
    ensures OfKind([], kind, block) == 0
  {
  }

  /** The packs of type 0x8f hold the summary, 12 bytes each. */
  lemma SummaryPart(s: Session, q: seq<Rec>, p: Packs, block: nat, i: nat)
    requires SessionOk(s) && block < 8 && Written(s, q, p) && i < |q| && Is(q[i], 15, block) && s.cdtext[block].Some?
    ensures var n := OfKind(q[..i], 15, block);
            n < 3 && PackAt(p.bytes, i)[4..16] == Summary(q, s, block)[12 * n..12 * n + 12]
    ensures PackAt(p.bytes, i)[4] == PackAt(p.bytes, i)[4..16][0]
  {
    hide FromSession; hide EncodeAll; hide PackAt; hide OfKind; hide Stream; hide Summary; hide Raw; hide Padded;
    hide Numbered; hide InBlock;
    ProducedIsCoherent(s);
    PackBytes(s, q, p, i);
    DataAt(q, 15, block, i);
  }

  /** No block before this one is present. */
  predicate FirstBlock(s: Session, block: nat)
    requires SessionOk(s) && block < 8
  {
    s.cdtext[block].Some? && forall b | 0 <= b < block :: s.cdtext[b].None?
  }

  lemma {:induction false} FindFirstBlock(s: Session, block: nat, from: nat) returns (b: nat)
    requires SessionOk(s) && from <= block < 8 && s.cdtext[block].Some? && forall b | 0 <= b < from :: s.cdtext[b].None?
    ensures b < 8 && FirstBlock(s, b)
    decreases block - from
  {
    if s.cdtext[from].Some? {
      b := from;
    } else {
      b := FindFirstBlock(s, block, from + 1);
    }
  }

  /** The search for summaries in the whole array meets those of the first block, one by one. */
  lemma NextSummary(s: Session, q: seq<Rec>, p: Packs, block: nat, start: nat)
    requires SessionOk(s) && block < 8 && Written(s, q, p) && FirstBlock(s, block) && start <= |q|
    requires OfKind(q[..start], 15, block) < 3
    ensures var no := Next(p, start, 0x8f, -1);
            && no < |q| && Is(q[no], 15, block)
            && OfKind(q[..no], 15, block) == OfKind(q[..start], 15, block)
            && OfKind(q[..no + 1], 15, block) == OfKind(q[..start], 15, block) + 1
  {
    hide FromSession; hide EncodeAll; hide OfKind; hide Next; hide Stream; hide Summary; hide Raw; hide Padded;
    hide Numbered; hide InBlock;
    NextFirst(s, q, p, start, 0x8f, -1);
    var no := Next(p, start, 0x8f, -1);
    CountNone(q, 15, block, start, no);
    ProducedIsCoherent(s);
    assert q[..|q|] == q;
    BlockIsPresent(s, q, no);
    PacksSorted(s);
    if q[no].block != block {
      SortedBehind(q, block, no);
      CountNone(q, 15, block, no, |q|);
    }
    CountOne(q, 15, block, no);
  }

  lemma SortedBehind(q: seq<Rec>, block: nat, no: nat)
    requires Sorted(q, Key(0, 8)) && no < |q| && q[no].block > block && q[no].kind < 16
    ensures forall i | no <= i < |q| :: !Is(q[i], 15, block)
  {
    forall i | no <= i < |q|
      ensures !Is(q[i], 15, block)
    {
      assert KeyOf(q[no]) <= KeyOf(q[i]);
    }
  }

  /** The third summary pack of the array names the languages of all blocks. */
  lemma LanguagesTold(s: Session, q: seq<Rec>, p: Packs, block: nat)
    requires SessionOk(s) && block < 8 && Written(s, q, p) && FirstBlock(s, block)
    ensures var a := Next(p, 0, 0x8f, -1);
            && a < |q| && PackAt(p.bytes, a)[4] == s.charCode[block]
            && PackAt(p.bytes, a)[5] == ByteOf(s.firstTrack)
            && PackAt(p.bytes, a)[6] == ByteOf(|s.tracks| + s.firstTrack - 1)
    ensures var no := LanguagePack(p); no < |q| && forall b | 0 <= b < 8 :: PackAt(p.bytes, no)[8 + b] == s.language[b]
  {
    hide FromSession; hide EncodeAll; hide OfKind; hide Next; hide PackAt; hide Summary;
    assert q[..0] == [];
    NoneCounted(15, block);
    NextSummary(s, q, p, block, 0);
    var a := Next(p, 0, 0x8f, -1);
    SummaryPart(s, q, p, block, a);
    NextSummary(s, q, p, block, a + 1);
    var b := Next(p, a + 1, 0x8f, -1);
    NextSummary(s, q, p, block, b + 1);
    var no := Next(p, b + 1, 0x8f, -1);
    SummaryPart(s, q, p, block, no);
    SummaryBytes(q, s, block);
    forall j | 0 <= j < 8
      ensures PackAt(p.bytes, no)[8 + j] == s.language[j]
    {
      assert PackAt(p.bytes, no)[8 + j] == PackAt(p.bytes, no)[4..16][4 + j];
      assert Summary(q, s, block)[24..36][4 + j] == Summary(q, s, block)[28 + j];
    }
    forall j | 0 <= j < 3
      ensures PackAt(p.bytes, a)[4 + j] == Summary(q, s, block)[j]
    {
      assert PackAt(p.bytes, a)[4 + j] == PackAt(p.bytes, a)[4..16][j];
      assert Summary(q, s, block)[0..12][j] == Summary(q, s, block)[j];
    }
    assert PackAt(p.bytes, a)[4 + 0] == s.charCode[block];
    assert PackAt(p.bytes, a)[4 + 1] == ByteOf(s.firstTrack);
    assert PackAt(p.bytes, a)[4 + 2] == ByteOf(|s.tracks| + s.firstTrack - 1);
  }

  lemma SummaryBytes(q: seq<Rec>, s: Session, block: nat)
    requires SessionOk(s) && block < 8
    ensures Summary(q, s, block)[0] == s.charCode[block] && Summary(q, s, block)[1] == ByteOf(s.firstTrack)
    ensures Summary(q, s, block)[2] == ByteOf(|s.tracks| + s.firstTrack - 1)
    ensures forall j | 0 <= j < 8 :: Summary(q, s, block)[28 + j] == s.language[j]
  {
    hide LastNumbers; hide BlockSizes; hide ByteOf;
  }

  // ------------------------------------------------------- the sheet has lines

  ghost predicate Shows(text: seq<bv8>, line: seq<bv8>) { exists a: seq<bv8>, b: seq<bv8> :: text == a + line + b }

  lemma ShowsLeft(x: seq<bv8>, y: seq<bv8>, line: seq<bv8>)
    requires Shows(x, line)
    ensures Shows(x + y, line)
  {
    var a: seq<bv8>, b: seq<bv8> :| x == a + line + b;
    assert x + y == a + line + (b + y);
  }

  lemma ShowsRight(x: seq<bv8>, y: seq<bv8>, line: seq<bv8>)
    requires Shows(y, line)
    ensures Shows(x + y, line)
  {
    var a: seq<bv8>, b: seq<bv8> :| y == a + line + b;
    assert x + y == (x + a) + line + b;
  }

  lemma ShowsItself(line: seq<bv8>)
    ensures Shows(line, line)
  {
    assert line == [] + line + [];
  }

  lemma {:induction false} VolumeShows(p: Packs, block: int, i: nat, j: nat)
    requires PacksOk(p) && i <= j < 7
    ensures Shows(VolumeLines(p, block, i), TextLine(p, 0x80 + j, block, 0, 0, VOLUME_SPECS[j]))
    decreases j - i
  {
    hide TextLine; hide Shows;
    var x, y := TextLine(p, 0x80 + i, block, 0, 0, VOLUME_SPECS[i]), VolumeLines(p, block, i + 1);
    if i == j {
      ShowsItself(x);
      ShowsLeft(x, y, x);
    } else {
      VolumeShows(p, block, i + 1, j);
      ShowsRight(x, y, TextLine(p, 0x80 + j, block, 0, 0, VOLUME_SPECS[j]));
    }
  }

  /** Types 0 to 5 have the lines of texts, type 14 that of the ISRC. */
  function TrackSpec(kind: nat): string
    requires ForTracks(kind)
  {
    if kind == 14 then "ISRC" else TRACK_SPECS[kind]
  }

  lemma {:induction false} TrackShows(p: Packs, block: int, tno: nat, firstTno: int, i: nat, kind: nat)
    requires PacksOk(p) && i <= 6 && tno > 0 && firstTno > 0 && ForTracks(kind) && i <= kind
    ensures Shows(TrackLines(p, block, tno, firstTno, i),
              TextLine(p, 0x80 + kind, block, tno, firstTno, TrackSpec(kind)))
    decreases 6 - i
  {
    hide TextLine; hide Shows;
    if i == 6 {
      ShowsItself(TrackLines(p, block, tno, firstTno, i));
    } else {
      var x, y := TextLine(p, 0x80 + i, block, tno, firstTno, TRACK_SPECS[i]),
          TrackLines(p, block, tno, firstTno, i + 1);
      if i == kind {
        ShowsItself(x);
        ShowsLeft(x, y, x);
      } else {
        TrackShows(p, block, tno, firstTno, i + 1, kind);
        ShowsRight(x, y, TextLine(p, 0x80 + kind, block, tno, firstTno, TrackSpec(kind)));
      }
    }
  }

  lemma {:induction false} AllTracksShow(p: Packs, block: int, tno: nat, last: int, firstTno: int, k: nat, kind: nat)
    requires PacksOk(p) && 0 < tno <= k <= last && firstTno > 0 && ForTracks(kind)
    ensures Shows(AllTrackLines(p, block, tno, last, firstTno),
              TextLine(p, 0x80 + kind, block, k, firstTno, TrackSpec(kind)))
    decreases k - tno
  {
    hide TextLine; hide Shows; hide TrackLines;
    var x, y := TrackLines(p, block, tno, firstTno, 0), AllTrackLines(p, block, tno + 1, last, firstTno);
    var line := TextLine(p, 0x80 + kind, block, k, firstTno, TrackSpec(kind));
    if tno == k {
      TrackShows(p, block, tno, firstTno, 0, kind);
      ShowsLeft(x, y, line);
    } else {
      AllTracksShow(p, block, tno + 1, last, firstTno, k, kind);
      ShowsRight(x, y, line);
    }
  }

  /** The label of a text without track number. */
  function Spec(kind: nat, k: nat): string
    requires ForTracks(kind)
  {
    if k > 0 then TrackSpec(kind) else if kind == 14 then "UPC / EAN" else VOLUME_SPECS[kind]
  }

  /** Session texts are labelled without regard to track numbers. */
  function FirstFor(k: nat, firstTno: int): int { if k == 0 then 0 else firstTno }

  lemma BodyShows(p: Packs, block: nat, firstTno: int, lastTno: int, lang: bv8, kind: nat, k: nat)
    requires PacksOk(p) && block < 8 && firstTno > 0 && lastTno > 0 && lang <= 127 && Next(p, 0, 0x8f, -1) < p.count
    requires ForTracks(kind) && (k > 0 ==> k <= lastTno - firstTno + 1)
    ensures Shows(BodyText(p, block, firstTno, lastTno, lang),
              TextLine(p, 0x80 + kind, block, k, FirstFor(k, firstTno), Spec(kind, k)))
  {
    hide TextLine; hide Shows; hide VolumeLines; hide AllTrackLines; hide GenreLines; hide ClosedLines; hide EndLines;
    hide Line; hide Ascii;
    var line := TextLine(p, 0x80 + kind, block, k, FirstFor(k, firstTno), Spec(kind, k));
    var l, v, g, c := Line("Language Code", Ascii(p.languages[lang as int])), VolumeLines(p, block, 0),
        GenreLines(p, block), ClosedLines(p, block);
    var u := TextLine(p, 0x8e, block, 0, 0, "UPC / EAN");
    var e := EndLines(p, PackAt(p.bytes, Next(p, 0, 0x8f, -1))[7], firstTno, lastTno);
    var t := AllTrackLines(p, block, 1, lastTno - firstTno + 1, firstTno);
    assert BodyText(p, block, firstTno, lastTno, lang) == l + v + g + c + u + e + t;
    if k > 0 {
      AllTracksShow(p, block, 1, lastTno - firstTno + 1, firstTno, k, kind);
      ShowsRight(l + v + g + c + u + e, t, line);
    } else if kind == 14 {
      ShowsItself(u);
      ShowsRight(l + v + g + c, u, line);
      ShowsLeft(l + v + g + c + u, e, line);
      ShowsLeft(l + v + g + c + u + e, t, line);
    } else {
      VolumeShows(p, block, 0, kind);
      ShowsRight(l, v, line);
      ShowsLeft(l + v, g, line);
      ShowsLeft(l + v + g, c, line);
      ShowsLeft(l + v + g + c, u, line);
      ShowsLeft(l + v + g + c + u, e, line);
      ShowsLeft(l + v + g + c + u + e, t, line);
    }
  }

  /** A block with a text is reported: its packs begin with a text type. */
  lemma BlockReported(s: Session, q: seq<Rec>, p: Packs, kind: nat, block: nat)
    requires SessionOk(s) && kind < 15 && block < 8 && Written(s, q, p) && s.cdtext[block].Some?
    requires s.cdtext[block].value.payload[kind] != []
    ensures Present(p, block)
  {
    hide FromSession; hide EncodeAll; hide PackAt; hide Next; hide Stream; hide Raw; hide Padded; hide BlockOf;
    ProducedStream(s, kind, block);
    NonemptyRaw(s, kind, block);
    NonemptyStream(q, kind, block);
    var i: nat :| i < |q| && Is(q[i], kind, block);
    NextFirst(s, q, p, 0, -1, block);
    var no := Next(p, 0, -1, block);
    assert no <= i;
    PacksSorted(s);
    assert KeyOf(q[no]) <= KeyOf(q[i]);
    PackBytes(s, q, p, no);
  }

  /** Character codes that the printer knows, and languages that it can name. */
  predicate Printable(s: Session)
    requires SessionOk(s)
  {
    && (forall b | 0 <= b < 8 && s.cdtext[b].Some? :: KnownCode(s.charCode[b]))
    && forall b | 0 <= b < 8 :: s.language[b] <= 127
  }

  lemma CodeKnown(s: Session, q: seq<Rec>, p: Packs, block: nat, before: bv8)
    requires SessionOk(s) && block < 8 && Written(s, q, p) && Printable(s) && KnownCode(before)
    ensures KnownCode(CodeOf(p, block, before))
  {
    hide CodeOf; hide FromSession; hide EncodeAll;
    CodeIs(s, q, p, block, before);
  }

  lemma BlockTextShows(s: Session, q: seq<Rec>, p: Packs, from: nat, firstTno: int, lastTno: int, code: bv8,
                       kind: nat, k: nat)
    requires SessionOk(s) && from < 8 && Written(s, q, p) && Printable(s) && firstTno > 0 && lastTno > 0
    requires exists b: nat :: b < 8 && FirstBlock(s, b)
    requires ForTracks(kind) && (k > 0 ==> k <= lastTno - firstTno + 1)
    ensures var text := BlockText(p, from, firstTno, lastTno, code);
            text.Some? && Shows(text.value, TextLine(p, 0x80 + kind, from, k, FirstFor(k, firstTno), Spec(kind, k)))
  {
    hide FromSession; hide EncodeAll; hide PackAt; hide LanguagePack; hide Next; hide BodyText; hide HeadLines;
    hide TextLine; hide Shows;
    var b: nat :| b < 8 && FirstBlock(s, b);
    LanguagesTold(s, q, p, b);
    var lang := PackAt(p.bytes, LanguagePack(p))[8 + from];
    assert lang == s.language[from];
    var line := TextLine(p, 0x80 + kind, from, k, FirstFor(k, firstTno), Spec(kind, k));
    BodyShows(p, from, firstTno, lastTno, lang, kind, k);
    ShowsRight(HeadLines(from, code), BodyText(p, from, firstTno, lastTno, lang), line);
  }

  lemma {:induction false} BlocksShow(s: Session, q: seq<Rec>, p: Packs, from: nat, firstTno: int, lastTno: int,
                                      before: bv8,
                                      kind: nat, block: nat, k: nat)
    requires SessionOk(s) && from <= 8 && Written(s, q, p) && Printable(s) && firstTno > 0 && lastTno > 0
               && KnownCode(before)
    requires exists b: nat :: b < 8 && FirstBlock(s, b)
    requires ForTracks(kind) && block < 8 && (k > 0 ==> k <= lastTno - firstTno + 1) && Present(p, block)
    ensures var text := BlocksText(p, from, firstTno, lastTno, before);
            && text.Some?
            && (from <= block ==> Shows(text.value, TextLine(p, 0x80 + kind, block, k, FirstFor(k, firstTno),
                Spec(kind, k))))
    decreases 8 - from
  {
    hide FromSession; hide EncodeAll; hide CodeOf; hide Present; hide BlockText; hide TextLine; hide Shows;
    hide Printable; hide KnownCode;
    if from < 8 {
      CodeKnown(s, q, p, from, before);
      var code := CodeOf(p, from, before);
      BlocksShow(s, q, p, from + 1, firstTno, lastTno, code, kind, block, k);
      if Present(p, from) {
        BlockTextShows(s, q, p, from, firstTno, lastTno, code, kind, k);
        var x := BlockText(p, from, firstTno, lastTno, code).value;
        var y := BlocksText(p, from + 1, firstTno, lastTno, code).value;
        var line := TextLine(p, 0x80 + kind, block, k, FirstFor(k, firstTno), Spec(kind, k));
        if from == block {
          ShowsLeft(x, y, line);
        } else if from < block {
          ShowsRight(x, y, line);
        }
      }
    }
  }

  /** The tracks to report: as the caller says or, without a start number, as the summary tells. */
  function Reported(s: Session, startTno: int, trackCount: int): (r: Option<(int, int)>)
    ensures r.Some? ==> r.value.0 > 0
  {
    if startTno <= 0 then ToldRange(ByteOf(s.firstTrack), ByteOf(|s.tracks| + s.firstTrack - 1))
    else Some((startTno, if trackCount > 0 then startTno + trackCount - 1 else 99))
  }

  lemma ReportedRange(s: Session, q: seq<Rec>, p: Packs, block: nat, startTno: int, trackCount: int)
    requires SessionOk(s) && block < 8 && Written(s, q, p) && FirstBlock(s, block)
    ensures Next(p, 0, 0x8f, -1) < |q|
    ensures TrackRange(PackAt(p.bytes, Next(p, 0, 0x8f, -1)), startTno, trackCount) == Reported(s, startTno, trackCount)
  {
    hide FromSession; hide EncodeAll; hide Next; hide PackAt; hide LanguagePack; hide ToldRange;
    LanguagesTold(s, q, p, block);
  }

  /** For character codes and languages that the printer knows, a sheet is made from the
      written packs if and only if there is a range of tracks to report, and it has a line for
      the session and for each of these tracks that has a text of a regular type, with the
      text as given or, for a lone TAB, as given before. */
  lemma SheetShowsTexts(s: Session, kind: nat, block: nat, double: bool, k: nat,
                        startTno: int, trackCount: int, q: seq<Rec>, p: Packs)
    requires SessionOk(s) && kind < 15 && ForTracks(kind) && block < 8 && Written(s, q, p)
    requires Regular(s, kind, block, double) && k <= |s.tracks| && Printable(s)
    ensures var sheet, range := SheetText(p, startTno, trackCount), Reported(s, startTno, trackCount);
            && (sheet.Some? <==> range.Some?)
            && (range.Some? && (k > 0 ==> k <= range.value.1 - range.value.0 + 1) ==>
                  Shows(sheet.value, Line(Label(Spec(kind, k), k, FirstFor(k, range.value.0)),
                      Shown(s, kind, block, double, k))))
  {
    hide FromSession; hide EncodeAll; hide PackAt; hide Regular; hide Next; hide LanguagePack; hide TextLine;
    hide Shows;
    hide BlocksText; hide Present; hide Shown; hide Line; hide Label; hide Reported; hide TrackRange; hide ToldRange;
    RegularPresent(s, kind, block, double);
    var b := FindFirstBlock(s, block, 0);
    LanguagesTold(s, q, p, b);
    BlockReported(s, q, p, kind, block);
    ReportedRange(s, q, p, b, startTno, trackCount);
    var range := Reported(s, startTno, trackCount);
    if range.Some? {
      var first, last := range.value.0, range.value.1;
      BlocksShow(s, q, p, 0, first, last, s.charCode[b], kind, block, 0);
      if k > 0 && k <= last - first + 1 {
        BlocksShow(s, q, p, 0, first, last, s.charCode[b], kind, block, k);
      }
      LineShowsText(s, kind, block, double, k, FirstFor(k, first), Spec(kind, k), q, p);
    }
  }
}
