/** The printer of Sony Input Sheets Version 0.7T in libburn/cdtext.c: what a sheet says, as a
    function of the packs, and the two passes that measure and write it. */
module CdTextSheet {
  import opened CdTextPackCrc
  import opened CdTextWriter
  import opened Options
  import opened CdTextReader

  // -------------------------------------------------------------------- lines

  function Ascii(s: string): (b: seq<bv8>)
    ensures |b| == |s|
  {
    seq(|s|, i requires 0 <= i < |s| => ByteOf(s[i] as int))
  }

  function Blanks(n: nat): (b: seq<bv8>)
    ensures |b| == n
  {
    seq(n, _ => 0x20)
  }

  /** "%-19s = " */
  function Left(spec: string): seq<bv8>
  {
    Ascii(spec) + Blanks(if |spec| < 19 then 19 - |spec| else 0) + Ascii(" = ")
  }

  function Line(spec: string, value: seq<bv8>): seq<bv8> { Left(spec) + value + [0x0a] }

  function Digit(d: nat): char
    requires d < 16
  {
    "0123456789abcdef"[d]
  }

  function Number(n: nat, base: nat): string
    requires 2 <= base <= 16
    decreases n
  {
    (if n < base then "" else Number(n / base, base)) + [Digit(n % base)]
  }

  function ZeroDigits(n: nat): string { seq(n, _ => '0') }

  /** At least that many digits */
  function WithDigits(n: nat, base: nat, digits: nat): string
    requires 2 <= base <= 16
  {
    var s := Number(n, base);
    ZeroDigits(if |s| < digits then digits - |s| else 0) + s
  }

  // ------------------------------------------------------- what a block says

  /** The packs to report, and the names of languages and genres */
  datatype Packs = Packs(bytes: seq<bv8>, count: nat, languages: seq<string>, genres: seq<string>)

  predicate PacksOk(p: Packs) { 18 * p.count <= |p.bytes| && |p.languages| == 128 && |p.genres| <= 0x10000 }

  /** search_pack: the next matching pack, or the number of packs */
  function Next(p: Packs, start: nat, packType: int, block: int): (no: nat)
    requires PacksOk(p) && start <= p.count
    ensures start <= no <= p.count && (no < p.count ==> Matches(PackAt(p.bytes, no), packType, block))
    decreases p.count - start
  {
    if start == p.count || Matches(PackAt(p.bytes, start), packType, block) then start
        else Next(p, start + 1, packType, block)
  }

  lemma {:induction false} NextIs(p: Packs, start: nat, no: nat, packType: int, block: int)
    requires PacksOk(p) && start <= no <= p.count
    requires no < p.count ==> Matches(PackAt(p.bytes, no), packType, block)
    requires forall i: nat | start <= i < no :: !Matches(PackAt(p.bytes, i), packType, block)
    ensures Next(p, start, packType, block) == no
    decreases no - start
  {
    hide Matches;
    if start < no {
      NextIs(p, start + 1, no, packType, block);
    }
  }

  predicate IsTextType(packType: int) { 0x80 <= packType <= 0x85 || packType == 0x8e }

  function Label(spec: string, tno: nat, firstTno: int): string
    requires tno > 0 ==> tno + firstTno > 0
  {
    if tno == 0 then spec
    else if spec == "ISRC" then spec + " " + WithDigits(tno + firstTno - 1, 10, 2)
    else "Track " + WithDigits(tno + firstTno - 1, 10, 2) + " " + spec
  }

  /** write_v07t_textline: one text, if the packs have it */
  function TextLine(p: Packs, packType: int, block: int, tno: nat, firstTno: int, spec: string): seq<bv8>
    requires PacksOk(p) && (tno > 0 ==> tno + firstTno > 0)
  {
    var payload := Payload(p.bytes, p.count, packType, block);
    if payload == [] then []
    else
      var double := AnyDouble(p.bytes, p.count, packType, block);
      var text := Pick(payload, tno, double, IsTextType(packType));
      if text.None? then [] else Line(Label(spec, tno, firstTno), text.value)
  }

  const VOLUME_SPECS: seq<string> := ["Album Title", "Artist Name", "Songwriter", "Composer", "Arranger",
      "Album Message", "Catalog Number"]
  const TRACK_SPECS: seq<string> := ["Title", "Artist", "Songwriter", "Composer", "Arranger", "Message"]

  /** Texts of the volume: types 0x80 to 0x86 from i on */
  function VolumeLines(p: Packs, block: int, i: nat): seq<bv8>
    requires PacksOk(p) && i <= 7
    decreases 7 - i
  {
    if i == 7 then [] else TextLine(p, 0x80 + i, block, 0, 0, VOLUME_SPECS[i]) + VolumeLines(p, block, i + 1)
  }

  /** Texts of a track: types 0x80 to 0x85 from i on, then ISRC */
  function TrackLines(p: Packs, block: int, tno: nat, firstTno: int, i: nat): seq<bv8>
    requires PacksOk(p) && i <= 6 && tno > 0 && firstTno > 0
    decreases 6 - i
  {
    if i == 6 then TextLine(p, 0x8e, block, tno, firstTno, "ISRC")
    else TextLine(p, 0x80 + i, block, tno, firstTno, TRACK_SPECS[i]) + TrackLines(p, block, tno, firstTno, i + 1)
  }

  function AllTrackLines(p: Packs, block: int, tno: nat, last: int, firstTno: int): seq<bv8>
    requires PacksOk(p) && tno > 0 && firstTno > 0
    decreases last - tno
  {
    if tno > last then [] else TrackLines(p, block, tno, firstTno, 0) + AllTrackLines(p, block, tno + 1, last, firstTno)
  }

  /** strlen(3) within a payload that is followed by a 0 */
  function UpToZero(s: seq<bv8>): (t: seq<bv8>)
    ensures |t| <= |s| && t == s[..|t|] && 0 !in t && (|t| < |s| ==> s[|t|] == 0)
  {
    if s == [] || s[0] == 0 then [] else [s[0]] + UpToZero(s[1..])
  }

  function GenreCode(high: bv8, low: bv8): nat { 256 * (high as int) + low as int }

  function GenreName(p: Packs, genre: nat): string
  {
    if genre < |p.genres| then p.genres[genre] else "0x" + WithDigits(genre, 16, 4)
  }

  function GenreLines(p: Packs, block: int): seq<bv8>
    requires PacksOk(p)
  {
    var payload := Payload(p.bytes, p.count, 0x87, block);
    if payload == [] then []
    else
      Line("Genre Code", Ascii(GenreName(p, GenreCode(payload[0], payload[1]))))
      + Line("Genre Information", UpToZero(payload[2..]))
  }

  function ClosedLines(p: Packs, block: int): seq<bv8>
    requires PacksOk(p)
  {
    var payload := Payload(p.bytes, p.count, 0x8d, block);
    if payload == [] then [] else Line("Closed Information", UpToZero(payload))
  }

  function Protection(code: bv8): string
  {
    if code == 0 then "OFF" else if code == 3 then "ON" else "0x" + WithDigits(code as int, 16, 2)
  }

  function HeadLines(block: int, charCode: bv8): seq<bv8>
    requires block >= 0
  {
    Line("Input Sheet Version", Ascii("0.7T"))
    + Line("Remarks            ", Ascii("Libburn report of CD-TEXT Block " + Number(block, 10)))
    + Line("Text Code          ", Ascii(if charCode == 0 then "8859" else if charCode == 1 then "ASCII" else "MS-JIS"))
  }

  function EndLines(p: Packs, code: bv8, firstTno: int, lastTno: int): seq<bv8>
    requires firstTno > 0 && lastTno > 0
  {
    Line("Text Data Copy Protection", Ascii(Protection(code)))
    + Line("First Track Number", Ascii(Number(firstTno, 10)))
    + Line("Last Track Number", Ascii(Number(lastTno, 10)))
  }

  /** The third summary pack of the whole array, which names the languages */
  function LanguagePack(p: Packs): (no: nat)
    requires PacksOk(p)
    ensures no <= p.count
  {
    var a := Next(p, 0, 0x8f, -1);
    if a == p.count then p.count
    else
      var b := Next(p, a + 1, 0x8f, -1);
      if b == p.count then p.count else Next(p, b + 1, 0x8f, -1)
  }

  /** report_block of a block that is present; nothing if its language cannot be told. */
  function BlockText(p: Packs, block: nat, firstTno: int, lastTno: int, charCode: bv8): Option<seq<bv8>>
    requires PacksOk(p) && block < 8 && firstTno > 0 && lastTno > 0
  {
    var no := LanguagePack(p);
    if no == p.count || PackAt(p.bytes, no)[8 + block] > 127 then None
    else
      Some(HeadLines(block, charCode) + BodyText(p, block, firstTno, lastTno, PackAt(p.bytes, no)[8 + block]))
  }

  function BodyText(p: Packs, block: nat, firstTno: int, lastTno: int, lang: bv8): seq<bv8>
    requires PacksOk(p) && block < 8 && firstTno > 0 && lastTno > 0 && lang <= 127
    requires Next(p, 0, 0x8f, -1) < p.count
  {
    Line("Language Code", Ascii(p.languages[lang as int]))
    + VolumeLines(p, block, 0)
    + GenreLines(p, block)
    + ClosedLines(p, block)
    + TextLine(p, 0x8e, block, 0, 0, "UPC / EAN")
    + EndLines(p, PackAt(p.bytes, Next(p, 0, 0x8f, -1))[7], firstTno, lastTno)
    + AllTrackLines(p, block, 1, lastTno - firstTno + 1, firstTno)
  }

  /** A block is reported if its first pack is not a summary. */
  predicate Present(p: Packs, block: nat)
    requires PacksOk(p)
  {
    var no := Next(p, 0, -1, block);
    no < p.count && PackAt(p.bytes, no)[0] != 0x8f
  }

  predicate KnownCode(code: bv8) { code == 0 || code == 1 || code == 0x80 }

  /** The character code of a block: its own, or that of the blocks before. */
  function CodeOf(p: Packs, block: nat, before: bv8): bv8
    requires PacksOk(p)
  {
    var no := Next(p, 0, 0x8f, block);
    if no < p.count then PackAt(p.bytes, no)[4] else before
  }

  /** All blocks from one on */
  function BlocksText(p: Packs, block: nat, firstTno: int, lastTno: int, before: bv8): Option<seq<bv8>>
    requires PacksOk(p) && block <= 8 && firstTno > 0 && lastTno > 0
    decreases 8 - block
  {
    if block == 8 then Some([])
    else
      var code := CodeOf(p, block, before);
      if !KnownCode(code) then None
      else if !Present(p, block) then BlocksText(p, block + 1, firstTno, lastTno, code)
      else
        var text :- BlockText(p, block, firstTno, lastTno, code);
        var rest :- BlocksText(p, block + 1, firstTno, lastTno, code);
        Some(text + rest)
  }

  /** The character code that is left when all blocks from one on have been reported */
  function LastCode(p: Packs, block: nat, before: bv8): bv8
    requires PacksOk(p) && block <= 8
    decreases 8 - block
  {
    if block == 8 then before else LastCode(p, block + 1, CodeOf(p, block, before))
  }

  /** The track range that the first summary pack tells, if it makes sense */
  function ToldRange(first: bv8, last: bv8): Option<(int, int)>
  {
    var a, b := first as int, last as int;
    if 0 < a && a + b < 100 && a <= b then Some((a, b)) else None
  }

  function TrackRange(summary: Pack, startTno: int, trackCount: int): (r: Option<(int, int)>)
    ensures r.Some? ==> r.value.0 > 0 && r.value.1 > 0
  {
    if startTno <= 0 then ToldRange(summary[5], summary[6])
    else Some((startTno, if trackCount > 0 then startTno + trackCount - 1 else 99))
  }

  /** The character code that burn_make_v07t hands back with a sheet */
  function SheetCode(p: Packs): bv8
    requires PacksOk(p) && Next(p, 0, 0x8f, -1) < p.count
  {
    LastCode(p, 0, PackAt(p.bytes, Next(p, 0, 0x8f, -1))[4])
  }

  /** burn_make_v07t: the whole sheet */
  function SheetText(p: Packs, startTno: int, trackCount: int): Option<seq<bv8>>
    requires PacksOk(p)
  {
    var no := Next(p, 0, 0x8f, -1);
    if no == p.count || !KnownCode(PackAt(p.bytes, no)[4]) then None
    else
      var range :- TrackRange(PackAt(p.bytes, no), startTno, trackCount);
      BlocksText(p, 0, range.0, range.1, PackAt(p.bytes, no)[4])
  }
}
