/** The lines of a reported block in their order, by headings and values: the input sheet as its
    reader knows it. */
module CdTextTable {
  import opened CdTextPackCrc
  import opened CdTextWriter
  import opened Options
  import opened CdTextReader
  import opened CdTextSheet
  import opened CdTextLines

  // ------------------------------------------------------------------ values

  predicate Chars(value: seq<bv8>, text: string)
  {
    |value| == |text| && forall k | 0 <= k < |value| :: value[k] as int == text[k] as int
  }

  /** A line with this heading and text */
  ghost predicate Says(line: seq<bv8>, head: string, text: string)
  {
    exists value: seq<bv8> :: IsLine(line, head, value) && Chars(value, text)
  }

  /** A line with this heading and number */
  ghost predicate SaysNumber(line: seq<bv8>, head: string, prefix: string, n: nat, base: nat, digits: nat)
  {
    exists d: string :: Numeral(d, base) && |d| >= digits && ValueOf(d, base) == n && Says(line, head, prefix + d)
  }

  lemma LineSays(head: string, text: string)
    requires Narrow8(head) && Narrow8(text)
    ensures Says(Line(head, Ascii(text)), head, text)
  {
    hide Line; hide Ascii; hide IsLine;
    LineRead(head, Ascii(text));
    forall k | 0 <= k < |text|
      ensures Ascii(text)[k] as int == text[k] as int
    {
      AsciiRead(text, k);
    }
  }

  lemma DigitsNarrow(d: string, base: nat)
    requires Numeral(d, base) && base <= 16
    ensures Narrow8(d)
  {
  }

  lemma NarrowSum(s: string, t: string)
    requires Narrow8(s) && Narrow8(t)
    ensures Narrow8(s + t)
  {
  }

  lemma NumberSays(head: string, prefix: string, n: nat, base: nat, digits: nat)
    requires Narrow8(head) && Narrow8(prefix) && 2 <= base <= 16
    ensures SaysNumber(Line(head, Ascii(prefix + WithDigits(n, base, digits))), head, prefix, n, base, digits)
  {
    hide Line; hide Ascii; hide WithDigits; hide Numeral; hide ValueOf; hide Says; hide Narrow8;
    PaddedRead(n, base, digits);
    var d := WithDigits(n, base, digits);
    DigitsNarrow(d, base);
    NarrowSum(prefix, d);
    LineSays(head, prefix + d);
  }

  lemma PlainNumberSays(head: string, prefix: string, n: nat)
    requires Narrow8(head) && Narrow8(prefix)
    ensures SaysNumber(Line(head, Ascii(prefix + Number(n, 10))), head, prefix, n, 10, 1)
  {
    hide Line; hide Ascii; hide Number; hide Numeral; hide ValueOf; hide Says; hide Narrow8;
    NumberRead(n, 10);
    var d := Number(n, 10);
    NotEmpty(d, 10);
    DigitsNarrow(d, 10);
    NarrowSum(prefix, d);
    LineSays(head, prefix + d);
  }

  // -------------------------------------------------------- what single lines say

  /** 0 is OFF, 3 is ON, any other code is shown in two hexadecimal digits. */
  ghost predicate TellsProtection(line: seq<bv8>, code: bv8)
  {
    if code == 0 then Says(line, "Text Data Copy Protection", "OFF")
    else if code == 3 then Says(line, "Text Data Copy Protection", "ON")
    else SaysNumber(line, "Text Data Copy Protection", "0x", code as int, 16, 2)
  }

  lemma ProtectionTold(code: bv8)
    ensures TellsProtection(Line("Text Data Copy Protection", Ascii(Protection(code))), code)
  {
    hide Line; hide Ascii; hide WithDigits; hide Says; hide SaysNumber;
    LineSays("Text Data Copy Protection", "OFF");
    LineSays("Text Data Copy Protection", "ON");
    NumberSays("Text Data Copy Protection", "0x", code as int, 16, 2);
  }

  /** A line has one text only. */
  lemma OneText(line: seq<bv8>, head: string, s: string, t: string)
    requires Says(line, head, s) && Says(line, head, t)
    ensures s == t
  {
    hide IsLine;
    var v: seq<bv8> :| IsLine(line, head, v) && Chars(v, s);
    var w: seq<bv8> :| IsLine(line, head, w) && Chars(w, t);
    OneValue(line, head, v, w);
    forall k | 0 <= k < |s|
      ensures s[k] == t[k]
    {
      assert v[k] as int == s[k] as int == t[k] as int;
    }
  }

  lemma OneValue(line: seq<bv8>, head: string, v: seq<bv8>, w: seq<bv8>)
    requires IsLine(line, head, v) && IsLine(line, head, w)
    ensures v == w
  {
  }

  /** The protection line tells one code only. */
  lemma OneProtection(line: seq<bv8>, c: bv8, d: bv8)
    requires TellsProtection(line, c) && TellsProtection(line, d)
    ensures c == d
  {
    hide Says; hide Numeral; hide ValueOf;
    var s, m := ProtectionText(line, c);
    var t, n := ProtectionText(line, d);
    OneText(line, "Text Data Copy Protection", s, t);
    assert s[1] == t[1] && s[2..] == t[2..];
    if c != 0 && c != 3 {
      SameCode(c, d);
    }
  }

  lemma ProtectionText(line: seq<bv8>, c: bv8) returns (s: string, m: string)
    requires TellsProtection(line, c)
    ensures Says(line, "Text Data Copy Protection", s) && |s| >= 2
    ensures s[1] == if c == 0 then 'F' else if c == 3 then 'N' else 'x'
    ensures c != 0 && c != 3 ==> s[2..] == m && ValueOf(m, 16) == c as int
  {
    hide Says; hide Numeral; hide ValueOf;
    if c == 0 {
      s, m := "OFF", "";
    } else if c == 3 {
      s, m := "ON", "";
    } else {
      m :| Numeral(m, 16) && |m| >= 2 && ValueOf(m, 16) == c as int
          && Says(line, "Text Data Copy Protection", "0x" + m);
      s := "0x" + m;
    }
  }

  lemma SameCode(c: bv8, d: bv8)
    requires c as int == d as int
    ensures c == d
  {
    assert c == (c as int) as bv8 && d == (d as int) as bv8;
  }

  ghost predicate TellsCode(line: seq<bv8>, code: bv8)
  {
    Says(line, "Text Code          ", if code == 0 then "8859" else if code == 1 then "ASCII" else "MS-JIS")
  }

  /** The name of the genre, or its number in four or more hexadecimal digits */
  ghost predicate TellsGenre(line: seq<bv8>, genres: seq<string>, high: bv8, low: bv8)
  {
    var genre := 0x100 * (high as int) + low as int;
    if genre < |genres| then Says(line, "Genre Code", genres[genre])
    else SaysNumber(line, "Genre Code", "0x", genre, 16, 4)
  }

  lemma GenreTold(p: Packs, high: bv8, low: bv8)
    requires forall g | 0 <= g < |p.genres| :: Narrow8(p.genres[g])
    ensures TellsGenre(Line("Genre Code", Ascii(GenreName(p, GenreCode(high, low)))), p.genres, high, low)
  {
    hide Line; hide Ascii; hide WithDigits; hide Says; hide SaysNumber;
    var genre := GenreCode(high, low);
    if genre < |p.genres| {
      LineSays("Genre Code", p.genres[genre]);
    } else {
      NumberSays("Genre Code", "0x", genre, 16, 4);
    }
  }

  /** The bytes up to the first 0, or all */
  ghost predicate SaysUpToZero(line: seq<bv8>, head: string, bytes: seq<bv8>)
  {
    exists n: nat :: n <= |bytes| && 0 !in bytes[..n] && (n < |bytes| ==> bytes[n] == 0)
        && IsLine(line, head, bytes[..n])
  }

  lemma UpToZeroTold(head: string, bytes: seq<bv8>)
    requires Narrow8(head)
    ensures SaysUpToZero(Line(head, UpToZero(bytes)), head, bytes)
  {
    hide Line; hide UpToZero; hide IsLine;
    LineRead(head, UpToZero(bytes));
    assert UpToZero(bytes) == bytes[..|UpToZero(bytes)|];
  }

  // ------------------------------------------------------------- the whole block

  function Flat(parts: seq<seq<bv8>>): seq<bv8>
  {
    if parts == [] then [] else parts[0] + Flat(parts[1..])
  }

  lemma {:induction false} FlatSum(a: seq<seq<bv8>>, b: seq<seq<bv8>>)
    ensures Flat(a + b) == Flat(a) + Flat(b)
  {
    if a == [] {
      assert a + b == b;
    } else {
      assert (a + b)[1..] == a[1..] + b;
      FlatSum(a[1..], b);
    }
  }

  const VOLUME_HEADS: seq<string> := ["Album Title", "Artist Name", "Songwriter", "Composer", "Arranger",
      "Album Message", "Catalog Number"]
  const TRACK_HEADS: seq<string> := ["Title", "Artist", "Songwriter", "Composer", "Arranger", "Message", "ISRC"]

  /** The four lines in front of the texts */
  ghost predicate HeadParts(parts: seq<seq<bv8>>, block: nat, code: bv8, language: string)
  {
    && |parts| == 4
    && Says(parts[0], "Input Sheet Version", "0.7T")
    && SaysNumber(parts[1], "Remarks            ", "Libburn report of CD-TEXT Block ", block, 10, 1)
    && TellsCode(parts[2], code)
    && Says(parts[3], "Language Code", language)
  }

  /** Genre and closed information; empty where there is nothing to tell */
  ghost predicate InfoParts(parts: seq<seq<bv8>>, genres: seq<string>, genre: seq<bv8>, closed: seq<bv8>)
    requires genre != [] ==> |genre| >= 2
  {
    && |parts| == 3
    && (genre == [] ==> parts[0] == parts[1] == [])
    && (genre != [] ==> TellsGenre(parts[0], genres, genre[0], genre[1]))
    && (genre != [] ==> SaysUpToZero(parts[1], "Genre Information", genre[2..]))
    && (if closed == [] then parts[2] == [] else SaysUpToZero(parts[2], "Closed Information", closed))
  }

  /** The three lines behind the texts of the volume */
  ghost predicate EndParts(parts: seq<seq<bv8>>, protection: bv8, firstTno: nat, lastTno: nat)
  {
    && |parts| == 3
    && TellsProtection(parts[0], protection)
    && SaysNumber(parts[1], "First Track Number", "", firstTno, 10, 1)
    && SaysNumber(parts[2], "Last Track Number", "", lastTno, 10, 1)
  }

  /** The texts of the volume and, behind all other lines, those of the tracks: seven for each */
  ghost predicate TextParts(parts: seq<seq<bv8>>, p: Packs, block: nat, firstTno: int, lastTno: int)
    requires PacksOk(p) && firstTno > 0
  {
    && |parts| == 18 + (if lastTno < firstTno then 0 else 7 * (lastTno - firstTno + 1))
    && (forall i: nat | i < 7 :: parts[4 + i] == TextLine(p, 0x80 + i, block, 0, 0, VOLUME_HEADS[i]))
    && parts[14] == TextLine(p, 0x8e, block, 0, 0, "UPC / EAN")
    && forall k: nat, j: nat | 0 < k <= lastTno - firstTno + 1 && j < 7 ::
         parts[18 + 7 * (k - 1) + j] == TextLine(p, TrackType(j), block, k, firstTno, TRACK_HEADS[j])
  }

  function TrackType(j: nat): int { if j == 6 then 0x8e else 0x80 + j }

  /** The seven parts of a track */
  function TrackParts(p: Packs, block: nat, k: nat, firstTno: int): (parts: seq<seq<bv8>>)
    requires PacksOk(p) && k > 0 && firstTno > 0
    ensures |parts| == 7
  {
    seq(7, j requires 0 <= j < 7 => TextLine(p, TrackType(j), block, k, firstTno, TRACK_HEADS[j]))
  }

  function AllTrackParts(p: Packs, block: nat, k: nat, last: int, firstTno: int): (parts: seq<seq<bv8>>)
    requires PacksOk(p) && k > 0 && firstTno > 0
    ensures |parts| == if k > last then 0 else 7 * (last - k + 1)
    decreases last - k
  {
    if k > last then [] else TrackParts(p, block, k, firstTno) + AllTrackParts(p, block, k + 1, last, firstTno)
  }

  lemma {:induction false} TrackPartAt(p: Packs, block: nat, from: nat, last: int, firstTno: int, k: nat, j: nat)
    requires PacksOk(p) && 0 < from <= k <= last && firstTno > 0 && j < 7
    ensures AllTrackParts(p, block, from, last, firstTno)[7 * (k - from) + j]
         == TextLine(p, TrackType(j), block, k, firstTno, TRACK_HEADS[j])
    decreases k - from
  {
    hide TextLine;
    if from < k {
      TrackPartAt(p, block, from + 1, last, firstTno, k, j);
    }
  }

  lemma {:induction false} TrackLinesFlat(p: Packs, block: nat, k: nat, firstTno: int, i: nat)
    requires PacksOk(p) && k > 0 && firstTno > 0 && i <= 6
    ensures TrackLines(p, block, k, firstTno, i) == Flat(TrackParts(p, block, k, firstTno)[i..])
    decreases 6 - i
  {
    hide TextLine;
    var parts := TrackParts(p, block, k, firstTno);
    assert parts[i..][0] == parts[i] && parts[i..][1..] == parts[i + 1..];
    if i == 6 {
      assert parts[7..] == [];
      assert parts[6] + [] == parts[6];
    } else {
      TrackLinesFlat(p, block, k, firstTno, i + 1);
    }
  }

  lemma {:induction false} AllTrackLinesFlat(p: Packs, block: nat, k: nat, last: int, firstTno: int)
    requires PacksOk(p) && k > 0 && firstTno > 0
    ensures AllTrackLines(p, block, k, last, firstTno) == Flat(AllTrackParts(p, block, k, last, firstTno))
    decreases last - k
  {
    hide TrackParts; hide TrackLines;
    if k <= last {
      TrackLinesFlat(p, block, k, firstTno, 0);
      AllTrackLinesFlat(p, block, k + 1, last, firstTno);
      FlatSum(TrackParts(p, block, k, firstTno), AllTrackParts(p, block, k + 1, last, firstTno));
      assert TrackParts(p, block, k, firstTno)[0..] == TrackParts(p, block, k, firstTno);
    }
  }

  function VolumeParts(p: Packs, block: nat): (parts: seq<seq<bv8>>)
    requires PacksOk(p)
    ensures |parts| == 7
  {
    seq(7, i requires 0 <= i < 7 => TextLine(p, 0x80 + i, block, 0, 0, VOLUME_HEADS[i]))
  }

  lemma {:induction false} VolumeLinesFlat(p: Packs, block: nat, i: nat)
    requires PacksOk(p) && i <= 7
    ensures VolumeLines(p, block, i) == Flat(VolumeParts(p, block)[i..])
    decreases 7 - i
  {
    hide TextLine;
    var parts := VolumeParts(p, block);
    if i < 7 {
      assert parts[i..][0] == parts[i] && parts[i..][1..] == parts[i + 1..];
      VolumeLinesFlat(p, block, i + 1);
    }
  }

  /** The payload of a type, collected from the packs */
  function Collected(p: Packs, packType: int, block: int): (t: seq<bv8>)
    requires PacksOk(p)
    ensures t == [] || |t| >= 2
  {
    Payload(p.bytes, p.count, packType, block)
  }

  predicate NamesNarrow(p: Packs)
  {
    && (forall g | 0 <= g < |p.genres| :: Narrow8(p.genres[g]))
    && forall l | 0 <= l < |p.languages| :: Narrow8(p.languages[l])
  }

  lemma HeadsTold(block: nat, code: bv8, language: string) returns (parts: seq<seq<bv8>>)
    requires Narrow8(language)
    ensures HeadParts(parts, block, code, language)
    ensures Flat(parts) == HeadLines(block, code) + Line("Language Code", Ascii(language))
  {
    hide Line; hide Ascii; hide Says; hide SaysNumber; hide Number; hide Flat; hide Narrow8;
    var text := if code == 0 then "8859" else if code == 1 then "ASCII" else "MS-JIS";
    var a, b := Line("Input Sheet Version", Ascii("0.7T")),
        Line("Remarks            ", Ascii("Libburn report of CD-TEXT Block " + Number(block, 10)));
    var c, d := Line("Text Code          ", Ascii(text)), Line("Language Code", Ascii(language));
    parts := [a, b, c, d];
    Literals(text);
    LineSays("Input Sheet Version", "0.7T");
    PlainNumberSays("Remarks            ", "Libburn report of CD-TEXT Block ", block);
    LineSays("Text Code          ", text);
    LineSays("Language Code", language);
    FlatFour(a, b, c, d);
  }

  /** The headings and words in use have characters of one byte. */
  lemma Literals(text: string)
    ensures Narrow8("Input Sheet Version") && Narrow8("0.7T") && Narrow8("Remarks            ")
    ensures Narrow8("Libburn report of CD-TEXT Block ") && Narrow8("Text Code          ") && Narrow8("Language Code")
    ensures text in ["8859", "ASCII", "MS-JIS"] ==> Narrow8(text)
  {
  }

  lemma FlatFour(a: seq<bv8>, b: seq<bv8>, c: seq<bv8>, d: seq<bv8>)
    ensures Flat([a, b, c, d]) == a + b + c + d
    ensures Flat([a, b, c]) == a + b + c
    ensures Flat([a]) == a
  {
    FlatSteps(a, [b, c, d]);
    FlatSteps(b, [c, d]);
    FlatSteps(c, [d]);
    FlatSteps(d, []);
    FlatSteps(a, [b, c]);
    FlatSteps(b, [c]);
    FlatSteps(c, []);
    FlatSteps(a, []);
    hide Flat;
    assert [a] + [b, c, d] == [a, b, c, d] && [b] + [c, d] == [b, c, d] && [c] + [d] == [c, d];
    assert [a] + [b, c] == [a, b, c] && [b] + [c] == [b, c];
    assert b + (c + d) == b + c + d && a + (b + c + d) == a + b + c + d;
    assert a + (b + c) == a + b + c;
  }

  lemma FlatSteps(a: seq<bv8>, rest: seq<seq<bv8>>)
    ensures Flat([a] + rest) == a + Flat(rest) && Flat([]) == []
    ensures Flat([a]) == a
  {
    assert ([a] + rest)[1..] == rest;
    assert [a][1..] == [];
    assert a + [] == a;
  }

  lemma InfoTold(p: Packs, block: int) returns (parts: seq<seq<bv8>>)
    requires PacksOk(p) && NamesNarrow(p)
    ensures InfoParts(parts, p.genres, Collected(p, 0x87, block), Collected(p, 0x8d, block))
    ensures Flat(parts) == GenreLines(p, block) + ClosedLines(p, block)
  {
    hide Line; hide Ascii; hide UpToZero; hide Payload; hide Flat; hide TellsGenre; hide SaysUpToZero; hide GenreName;
    hide GenreCode;
    var genre, closed := Collected(p, 0x87, block), Collected(p, 0x8d, block);
    var a: seq<bv8>, b: seq<bv8>, c: seq<bv8> := [], [], [];
    if genre != [] {
      a := Line("Genre Code", Ascii(GenreName(p, GenreCode(genre[0], genre[1]))));
      b := Line("Genre Information", UpToZero(genre[2..]));
      GenreTold(p, genre[0], genre[1]);
      UpToZeroTold("Genre Information", genre[2..]);
    }
    if closed != [] {
      c := Line("Closed Information", UpToZero(closed));
      UpToZeroTold("Closed Information", closed);
    }
    parts := [a, b, c];
    FlatFour(a, b, c, []);
  }

  lemma EndsTold(p: Packs, protection: bv8, firstTno: int, lastTno: int) returns (parts: seq<seq<bv8>>)
    requires firstTno > 0 && lastTno > 0
    ensures EndParts(parts, protection, firstTno, lastTno)
    ensures Flat(parts) == EndLines(p, protection, firstTno, lastTno)
  {
    hide Line; hide Ascii; hide TellsProtection; hide SaysNumber; hide Number; hide Protection; hide Flat;
    parts := [Line("Text Data Copy Protection", Ascii(Protection(protection))),
              Line("First Track Number", Ascii(Number(firstTno, 10))),
                  Line("Last Track Number", Ascii(Number(lastTno, 10)))];
    ProtectionTold(protection);
    NumberAlone(firstTno);
    NumberAlone(lastTno);
    PlainNumberSays("First Track Number", "", firstTno);
    PlainNumberSays("Last Track Number", "", lastTno);
    FlatFour(parts[0], parts[1], parts[2], []);
  }

  lemma NumberAlone(n: nat)
    ensures "" + Number(n, 10) == Number(n, 10)
  {
  }

  /** The pieces of a list of parts */
  lemma InPlace(a: seq<seq<bv8>>, b: seq<seq<bv8>>, c: seq<seq<bv8>>, d: seq<bv8>, e: seq<seq<bv8>>, f: seq<seq<bv8>>)
    requires |a| == 4 && |b| == 7 && |c| == 3 && |e| == 3
    ensures var x := a + b + c + [d] + e + f;
            && |x| == 18 + |f| && x[..4] == a && x[4..11] == b && x[11..14] == c && x[14] == d && x[15..18] == e
            && x[18..] == f
  {
  }

  /** The parts of a block in their order: 18 in front, then seven for each track. */
  lemma BlockParts(p: Packs, block: nat, firstTno: int, lastTno: int, code: bv8) returns (parts: seq<seq<bv8>>)
    requires PacksOk(p) && NamesNarrow(p) && block < 8 && firstTno > 0 && lastTno > 0
    requires BlockText(p, block, firstTno, lastTno, code).Some?
    ensures BlockText(p, block, firstTno, lastTno, code) == Some(Flat(parts))
    ensures |parts| >= 18 && TextParts(parts, p, block, firstTno, lastTno)
    ensures LanguagePack(p) < p.count && PackAt(p.bytes, LanguagePack(p))[8 + block] <= 127
    ensures HeadParts(parts[..4], block, code, p.languages[PackAt(p.bytes, LanguagePack(p))[8 + block] as int])
    ensures InfoParts(parts[11..14], p.genres, Collected(p, 0x87, block), Collected(p, 0x8d, block))
    ensures Next(p, 0, 0x8f, -1) < p.count
    ensures EndParts(parts[15..18], PackAt(p.bytes, Next(p, 0, 0x8f, -1))[7], firstTno, lastTno)
  {
    hide Next; hide PackAt; hide Line; hide Ascii; hide TextLine; hide VolumeLines; hide LanguagePack;
    hide AllTrackLines; hide AllTrackParts; hide HeadLines; hide GenreLines; hide ClosedLines; hide EndLines;
    hide HeadParts; hide InfoParts; hide EndParts; hide Flat;
    var lang := PackAt(p.bytes, LanguagePack(p))[8 + block];
    LanguageBehindSummary(p);
    var protection := PackAt(p.bytes, Next(p, 0, 0x8f, -1))[7];
    var heads := HeadsTold(block, code, p.languages[lang as int]);
    var info := InfoTold(p, block);
    var ends := EndsTold(p, protection, firstTno, lastTno);
    var upc := TextLine(p, 0x8e, block, 0, 0, "UPC / EAN");
    var volume, tracks := VolumeParts(p, block), AllTrackParts(p, block, 1, lastTno - firstTno + 1, firstTno);
    parts := heads + volume + info + [upc] + ends + tracks;
    SizeOfHeads(heads, block, code, p.languages[lang as int], info, p, ends, protection, firstTno, lastTno);
    InPlace(heads, volume, info, upc, ends, tracks);
    FlatSums(heads, volume, info, upc, ends, tracks);
    VolumeLinesFlat(p, block, 0);
    assert volume[0..] == volume;
    AllTrackLinesFlat(p, block, 1, lastTno - firstTno + 1, firstTno);
    BodyOrder(HeadLines(block, code), Line("Language Code", Ascii(p.languages[lang as int])), Flat(volume),
              GenreLines(p, block), ClosedLines(p, block), upc, Flat(ends), Flat(tracks));
    forall i: nat | i < 7
      ensures parts[4 + i] == TextLine(p, 0x80 + i, block, 0, 0, VOLUME_HEADS[i])
    {
      assert parts[4 + i] == parts[4..11][i];
    }
    forall k: nat, j: nat | 0 < k <= lastTno - firstTno + 1 && j < 7
      ensures parts[18 + 7 * (k - 1) + j] == TextLine(p, TrackType(j), block, k, firstTno, TRACK_HEADS[j])
    {
      TrackPartAt(p, block, 1, lastTno - firstTno + 1, firstTno, k, j);
      assert parts[18 + 7 * (k - 1) + j] == parts[18..][7 * (k - 1) + j];
    }
  }

  lemma SizeOfHeads(heads: seq<seq<bv8>>, block: nat, code: bv8, language: string, info: seq<seq<bv8>>, p: Packs,
                    ends: seq<seq<bv8>>, protection: bv8, firstTno: nat, lastTno: nat)
    requires PacksOk(p) && HeadParts(heads, block, code, language) && EndParts(ends, protection, firstTno, lastTno)
    requires InfoParts(info, p.genres, Collected(p, 0x87, block), Collected(p, 0x8d, block))
    ensures |heads| == 4 && |info| == 3 && |ends| == 3
  {
    hide Says; hide SaysNumber; hide Collected;
  }

  lemma FlatSums(a: seq<seq<bv8>>, b: seq<seq<bv8>>, c: seq<seq<bv8>>, d: seq<bv8>, e: seq<seq<bv8>>, f: seq<seq<bv8>>)
    ensures Flat(a + b + c + [d] + e + f) == Flat(a) + Flat(b) + Flat(c) + d + Flat(e) + Flat(f)
  {
    FlatSum(a + b + c + [d] + e, f);
    FlatSum(a + b + c + [d], e);
    FlatSum(a + b + c, [d]);
    FlatSum(a + b, c);
    FlatSum(a, b);
    FlatFour(d, [], [], []);
  }

  /** The order in which a block is put together */
  lemma BodyOrder(h: seq<bv8>, l: seq<bv8>, v: seq<bv8>, g: seq<bv8>, c: seq<bv8>, u: seq<bv8>, e: seq<bv8>,
                  t: seq<bv8>)
    ensures (h + l) + v + (g + c) + u + e + t == h + (l + v + g + c + u + e + t)
  {
  }

  /** The language pack comes behind the first summary pack. */
  lemma LanguageBehindSummary(p: Packs)
    requires PacksOk(p) && LanguagePack(p) < p.count
    ensures Next(p, 0, 0x8f, -1) < p.count
  {
    hide Next;
  }
}
