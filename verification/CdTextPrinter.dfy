/** The two passes of the v07t printer in libburn/cdtext.c, against the sheet they produce. */
module CdTextPrinter {
  import opened CdTextPackCrc
  import opened Options
  import opened CdTextReader
  import opened CdTextSheet

  /** Where lines go: only counted in the measuring pass, stored with a trailing 0 in the other. */
  class Sink {
    const measuring: bool
    const result: array<bv8>
    var pos: nat
    ghost var text: seq<bv8>

    constructor (measuring: bool, result: array<bv8>)
      requires measuring || result.Length > 0
      ensures Valid() && text == [] && this.measuring == measuring && this.result == result
    {
      this.measuring, this.result := measuring, result;
      pos := 0;
      text := [];
    }

    ghost predicate Valid()
      reads this, result
    {
      && pos == |text|
      && (!measuring ==> pos < result.Length && result[..pos] == text && (pos > 0 ==> result[pos] == 0))
    }

    /** The buffer has space for that many bytes and the trailing 0. */
    predicate Room(n: nat)
      reads this
    {
      measuring || pos + n < result.Length
    }

    /** write_v07t_line */
    method WriteLine(spec: string, value: seq<bv8>)
      requires Valid() && Room(|Line(spec, value)|)
      modifies this`pos, this`text, result
      ensures Valid() && text == old(text) + Line(spec, value)
    {
      var len := |spec|;
      if len < 19 {
        len := 19;
      }
      len := len + 3 + |value| + 1;
      ghost var line := Line(spec, value);
      assert |line| == len;
      if !measuring {
        hide Left;
        Store(Left(spec), value);
      }
      pos := pos + len;
      text := text + line;
    }

    /** The text of a line behind what is stored already, and the trailing 0 */
    method Store(left: seq<bv8>, value: seq<bv8>)
      requires !measuring && pos + |left| + |value| + 1 < result.Length
      modifies result
      ensures var end := pos + |left| + |value| + 1;
              result[..end] == old(result[..pos]) + (left + value + [0x0a]) && result[end] == 0
    {
      var end := pos + |left| + |value| + 1;
      ghost var was := result[..pos];
      Copy(left, pos);
      Copy(value, pos + |left|);
      assert result[..end - 1] == was + left + value;
      result[end - 1] := 0x0a;
      assert result[..end - 1] == was + left + value;
      assert result[..end] == was + left + value + [0x0a];
      result[end] := 0;
    }

    method Copy(s: seq<bv8>, at: nat)
      requires at + |s| <= result.Length
      modifies result
      ensures result[..at + |s|] == old(result[..at]) + s
    {
      for i := 0 to |s|
        invariant result[..at + i] == old(result[..at]) + s[..i]
      {
        result[at + i] := s[i];
      }
    }
  }

  /** The sink has got exactly that text. */
  twostate predicate Said(sink: Sink, t: seq<bv8>)
    reads sink, sink.result
  {
    sink.Valid() && sink.text == old(sink.text) + t
  }

  class Printer {
    const packs: array<bv8>
    const count: nat
    const languages: seq<string>
    const genres: seq<string>

    constructor (packs: array<bv8>, count: nat, languages: seq<string>, genres: seq<string>)
      ensures this.packs == packs && this.count == count && this.languages == languages && this.genres == genres
    {
      this.packs, this.count, this.languages, this.genres := packs, count, languages, genres;
    }

    function P(): Packs
      reads packs
    {
      Packs(packs[..], count, languages, genres)
    }

    ghost predicate Ready(sink: Sink)
      reads packs, sink, sink.result
    {
      PacksOk(P()) && sink.Valid() && packs != sink.result
    }

    /** search_pack as used by the printer */
    method Search(start: nat, packType: int, block: int) returns (no: nat)
      requires PacksOk(P()) && start <= count
      ensures no == Next(P(), start, packType, block) && no <= count
    {
      var found;
      found, no := SearchPack(packs, count, start, packType, block);
      NextIs(P(), start, no, packType, block);
    }

    /** write_v07t_textline */
    method WriteTextLine(packType: int, block: int, tno: nat, firstTno: int, spec: string, sink: Sink)
      requires Ready(sink) && (tno > 0 ==> tno + firstTno > 0)
      requires sink.Room(|TextLine(P(), packType, block, tno, firstTno, spec)|)
      modifies sink`pos, sink`text, sink.result
      ensures Said(sink, TextLine(P(), packType, block, tno, firstTno, spec))
    {
      hide Pick; hide Line; hide Label; hide Payload; hide AnyDouble;
      var ret, payload, n := CollectPayload(packs, count, packType, block);
      if ret > 0 {
        var found, start, len := PickPayloadText(payload, n, tno, ret == 2, IsTextType(packType));
        if found {
          sink.WriteLine(Label(spec, tno, firstTno), payload[start..start + len]);
        }
      }
    }

    /** report_track */
    method ReportTrack(block: int, tno: nat, firstTno: int, sink: Sink)
      requires Ready(sink) && tno > 0 && firstTno > 0 && sink.Room(|TrackLines(P(), block, tno, firstTno, 0)|)
      modifies sink`pos, sink`text, sink.result
      ensures Said(sink, TrackLines(P(), block, tno, firstTno, 0))
    {
      hide TextLine;
      ghost var all := TrackLines(P(), block, tno, firstTno, 0);
      ghost var was := sink.text;
      for i := 0 to 6
        invariant Ready(sink) && sink.text + TrackLines(P(), block, tno, firstTno, i) == was + all
        invariant sink.Room(|TrackLines(P(), block, tno, firstTno, i)|)
      {
        ghost var before := sink.text;
        WriteTextLine(0x80 + i, block, tno, firstTno, TRACK_SPECS[i], sink);
        Regroup(before, TextLine(P(), 0x80 + i, block, tno, firstTno, TRACK_SPECS[i]),
            TrackLines(P(), block, tno, firstTno, i + 1));
      }
      WriteTextLine(0x8e, block, tno, firstTno, "ISRC", sink);
    }

    method ReportTracks(block: int, firstTno: int, lastTno: int, sink: Sink)
      requires Ready(sink) && firstTno > 0
      requires sink.Room(|AllTrackLines(P(), block, 1, lastTno - firstTno + 1, firstTno)|)
      modifies sink`pos, sink`text, sink.result
      ensures Said(sink, AllTrackLines(P(), block, 1, lastTno - firstTno + 1, firstTno))
    {
      hide TrackLines;
      var last := lastTno - firstTno + 1;
      ghost var all := AllTrackLines(P(), block, 1, last, firstTno);
      ghost var was := sink.text;
      var i := 0;
      while i < last
        invariant 0 <= i && Ready(sink) && sink.text + AllTrackLines(P(), block, i + 1, last, firstTno) == was + all
        invariant sink.Room(|AllTrackLines(P(), block, i + 1, last, firstTno)|)
      {
        ghost var before := sink.text;
        ReportTrack(block, i + 1, firstTno, sink);
        Regroup(before, TrackLines(P(), block, i + 1, firstTno, 0), AllTrackLines(P(), block, i + 2, last, firstTno));
        i := i + 1;
      }
      assert sink.text + [] == sink.text;
    }

    method ReportVolume(block: int, sink: Sink)
      requires Ready(sink) && sink.Room(|VolumeLines(P(), block, 0)|)
      modifies sink`pos, sink`text, sink.result
      ensures Said(sink, VolumeLines(P(), block, 0))
    {
      hide TextLine;
      ghost var all := VolumeLines(P(), block, 0);
      ghost var was := sink.text;
      for i := 0 to 7
        invariant Ready(sink) && sink.text + VolumeLines(P(), block, i) == was + all
        invariant sink.Room(|VolumeLines(P(), block, i)|)
      {
        ghost var before := sink.text;
        WriteTextLine(0x80 + i, block, 0, 0, VOLUME_SPECS[i], sink);
        Regroup(before, TextLine(P(), 0x80 + i, block, 0, 0, VOLUME_SPECS[i]), VolumeLines(P(), block, i + 1));
      }
      assert sink.text + [] == sink.text;
    }

    /** strlen of the payload from some byte on */
    method StrLen(payload: array<bv8>, from: nat) returns (n: nat)
      requires from < payload.Length && payload[payload.Length - 1] == 0
      ensures from + n < payload.Length && payload[from..from + n] == UpToZero(payload[from..payload.Length - 1])
    {
      hide UpToZero;
      n := 0;
      ghost var s := payload[from..payload.Length - 1];
      while payload[from + n] != 0
        invariant from + n < payload.Length && forall k | 0 <= k < n :: s[k] != 0
        decreases payload.Length - n
      {
        assert s[n] == payload[from + n];
        n := n + 1;
      }
      assert n < |s| ==> s[n] == payload[from + n];
      UpToZeroIs(s, n);
      assert payload[from..from + n] == s[..n];
    }

    /** A line with the text at some place in a payload */
    method WriteCString(spec: string, payload: array<bv8>, from: nat, sink: Sink)
      requires Ready(sink) && payload != sink.result && from < payload.Length && payload[payload.Length - 1] == 0
      requires sink.Room(|Line(spec, UpToZero(payload[from..payload.Length - 1]))|)
      modifies sink`pos, sink`text, sink.result
      ensures Said(sink, Line(spec, UpToZero(payload[from..payload.Length - 1])))
    {
      hide Line; hide UpToZero;
      var len := StrLen(payload, from);
      sink.WriteLine(spec, payload[from..from + len]);
    }

    method ReportGenre(block: int, sink: Sink)
      requires Ready(sink) && sink.Room(|GenreLines(P(), block)|)
      modifies sink`pos, sink`text, sink.result
      ensures Said(sink, GenreLines(P(), block))
    {
      hide Line; hide Payload; hide AnyDouble; hide GenreName; hide GenreCode; hide UpToZero;
      var ret, payload, n := CollectPayload(packs, count, 0x87, block);
      if ret > 0 {
        ghost var text := payload[..n];
        assert payload[2..payload.Length - 1] == text[2..];
        var genre := GenreCode(payload[0], payload[1]);
        var name := if genre < |genres| then genres[genre] else "0x" + CdTextSheet.WithDigits(genre, 16, 4);
        NameIs(genre);
        ghost var was := sink.text;
        sink.WriteLine("Genre Code", Ascii(name));
        WriteCString("Genre Information", payload, 2, sink);
        Regroup(was, Line("Genre Code", Ascii(name)), Line("Genre Information", UpToZero(text[2..])));
      }
    }

    lemma NameIs(genre: nat)
      ensures GenreName(P(), genre) == if genre < |genres| then genres[genre]
                                       else "0x" + CdTextSheet.WithDigits(genre, 16, 4)
    {
    }

    method ReportClosed(block: int, sink: Sink)
      requires Ready(sink) && sink.Room(|ClosedLines(P(), block)|)
      modifies sink`pos, sink`text, sink.result
      ensures Said(sink, ClosedLines(P(), block))
    {
      hide Line; hide Payload; hide AnyDouble; hide UpToZero;
      var ret, payload, n := CollectPayload(packs, count, 0x8d, block);
      if ret > 0 {
        assert payload[0..payload.Length - 1] == payload[..n];
        WriteCString("Closed Information", payload, 0, sink);
      }
    }

    method ReportHead(block: nat, charCode: bv8, sink: Sink)
      requires Ready(sink) && sink.Room(|HeadLines(block, charCode)|)
      modifies sink`pos, sink`text, sink.result
      ensures Said(sink, HeadLines(block, charCode))
    {
      hide Line;
      ghost var was := sink.text;
      var remarks := Ascii("Libburn report of CD-TEXT Block " + Number(block, 10));
      var code := Ascii(if charCode == 0 then "8859" else if charCode == 1 then "ASCII" else "MS-JIS");
      sink.WriteLine("Input Sheet Version", Ascii("0.7T"));
      sink.WriteLine("Remarks            ", remarks);
      sink.WriteLine("Text Code          ", code);
      Regroup(was, Line("Input Sheet Version", Ascii("0.7T")), Line("Remarks            ", remarks));
      Regroup(was, Line("Input Sheet Version", Ascii("0.7T")) + Line("Remarks            ", remarks),
          Line("Text Code          ", code));
    }

    method ReportEnd(code: bv8, firstTno: int, lastTno: int, sink: Sink)
      requires Ready(sink) && firstTno > 0 && lastTno > 0 && sink.Room(|EndLines(P(), code, firstTno, lastTno)|)
      modifies sink`pos, sink`text, sink.result
      ensures Said(sink, EndLines(P(), code, firstTno, lastTno))
    {
      hide Line; hide Protection;
      ghost var was := sink.text;
      var protection, first, last := Ascii(Protection(code)), Ascii(Number(firstTno, 10)), Ascii(Number(lastTno, 10));
      sink.WriteLine("Text Data Copy Protection", protection);
      sink.WriteLine("First Track Number", first);
      sink.WriteLine("Last Track Number", last);
      Regroup(was, Line("Text Data Copy Protection", protection), Line("First Track Number", first));
      Regroup(was, Line("Text Data Copy Protection", protection) + Line("First Track Number", first),
          Line("Last Track Number", last));
    }

    /** report_block from the language line on */
    method ReportBody(block: nat, firstTno: int, lastTno: int, lang: bv8, first: nat, sink: Sink)
      requires Ready(sink) && block < 8 && firstTno > 0 && lastTno > 0 && lang <= 127
      requires first == Next(P(), 0, 0x8f, -1) < count && sink.Room(|BodyText(P(), block, firstTno, lastTno, lang)|)
      modifies sink`pos, sink`text, sink.result
      ensures Said(sink, BodyText(P(), block, firstTno, lastTno, lang))
    {
      hide Line; hide VolumeLines; hide GenreLines; hide ClosedLines; hide TextLine; hide EndLines;
      hide AllTrackLines; hide Next;
      ghost var was := sink.text;
      var language := Ascii(languages[lang as int]);
      sink.WriteLine("Language Code", language);
      ReportVolume(block, sink);
      ReportGenre(block, sink);
      ReportClosed(block, sink);
      WriteTextLine(0x8e, block, 0, 0, "UPC / EAN", sink);
      ReportEnd(PackAt(packs[..], first)[7], firstTno, lastTno, sink);
      ReportTracks(block, firstTno, lastTno, sink);
      Seven(was, Line("Language Code", language), VolumeLines(P(), block, 0), GenreLines(P(), block),
          ClosedLines(P(), block),
            TextLine(P(), 0x8e, block, 0, 0, "UPC / EAN"),
                EndLines(P(), PackAt(packs[..], first)[7], firstTno, lastTno),
            AllTrackLines(P(), block, 1, lastTno - firstTno + 1, firstTno));
    }

    /** The third 0x8f pack of the array */
    method FindLanguagePack() returns (no: nat)
      requires PacksOk(P())
      ensures no == LanguagePack(P())
    {
      hide Next; hide Matches; hide PackAt;
      no := Search(0, 0x8f, -1);
      if no < count {
        no := Search(no + 1, 0x8f, -1);
        if no < count {
          no := Search(no + 1, 0x8f, -1);
        }
      }
    }

    /** report_block: false for failure */
    method ReportBlock(block: nat, firstTno: int, lastTno: int, charCode: bv8, sink: Sink) returns (ok: bool)
      requires Ready(sink) && block < 8 && firstTno > 0 && lastTno > 0
      requires var text := BlockText(P(), block, firstTno, lastTno, charCode);
               Present(P(), block) ==> if text.Some? then sink.Room(|text.value|) else sink.measuring
      modifies sink`pos, sink`text, sink.result
      ensures sink.Valid()
      ensures ok == (Present(P(), block) ==> BlockText(P(), block, firstTno, lastTno, charCode).Some?)
      ensures ok ==> Said(sink, if Present(P(), block) then BlockText(P(), block, firstTno, lastTno, charCode).value
                else [])
    {
      hide Next; hide HeadLines; hide BodyText; hide LanguagePack;
      var no := Search(0, -1, block);
      assert sink.text + [] == sink.text;
      if no == count || PackAt(packs[..], no)[0] == 0x8f {
        return true;
      }
      ghost var was := sink.text;
      ReportHead(block, charCode, sink);
      no := FindLanguagePack();
      if no == count {
        return false;
      }
      var lang := PackAt(packs[..], no)[8 + block];
      if lang > 127 {
        return false;
      }
      var first := Search(0, 0x8f, -1);
      FirstBefore(P());
      ReportBody(block, firstTno, lastTno, lang, first, sink);
      Regroup(was, HeadLines(block, charCode), BodyText(P(), block, firstTno, lastTno, lang));
      ok := true;
    }

    /** The block loop of burn_make_v07t */
    method ReportBlocks(firstTno: int, lastTno: int, charCode: bv8, sink: Sink) returns (ok: bool, code: bv8)
      requires Ready(sink) && firstTno > 0 && lastTno > 0
      requires var text := BlocksText(P(), 0, firstTno, lastTno, charCode);
               if text.Some? then sink.Room(|text.value|) else sink.measuring
      modifies sink`pos, sink`text, sink.result
      ensures sink.Valid() && ok == BlocksText(P(), 0, firstTno, lastTno, charCode).Some?
      ensures ok ==> Said(sink, BlocksText(P(), 0, firstTno, lastTno, charCode).value)
      ensures ok ==> code == LastCode(P(), 0, charCode)
    {
      hide Next; hide BlockText; hide Present; hide KnownCode; hide PackAt; hide BlocksText; hide Pending; hide CodeOf;
      ghost var whole := BlocksText(P(), 0, firstTno, lastTno, charCode);
      ghost var was := sink.text;
      code := charCode;
      var block := 0;
      PendingStart(sink, whole);
      while block < 8
        invariant block <= 8 && Ready(sink)
        invariant Pending(sink, was, whole, BlocksText(P(), block, firstTno, lastTno, code))
        invariant LastCode(P(), block, code) == LastCode(P(), 0, charCode)
        decreases 8 - block
      {
        ok, code := OneBlock(block, firstTno, lastTno, code, sink, was, whole);
        if !ok {
          return;
        }
        block := block + 1;
      }
      BlocksDone(P(), firstTno, lastTno, code);
      PendingEnd(sink, was, whole);
      ok := true;
    }

    lemma PendingStart(sink: Sink, whole: Option<seq<bv8>>)
      requires if whole.Some? then sink.Room(|whole.value|) else sink.measuring
      ensures Pending(sink, sink.text, whole, whole)
    {
    }

    lemma PendingEnd(sink: Sink, was: seq<bv8>, whole: Option<seq<bv8>>)
      requires Pending(sink, was, whole, Some([]))
      ensures whole.Some? && sink.text == was + whole.value
    {
      assert sink.text + [] == sink.text;
    }

    /** One round of the block loop */
    method OneBlock(block: nat, firstTno: int, lastTno: int, before: bv8, sink: Sink, ghost was: seq<bv8>,
                    ghost whole: Option<seq<bv8>>)
      returns (ok: bool, code: bv8)
      requires Ready(sink) && block < 8 && firstTno > 0 && lastTno > 0
      requires Pending(sink, was, whole, BlocksText(P(), block, firstTno, lastTno, before))
      modifies sink`pos, sink`text, sink.result
      ensures Ready(sink) && code == CodeOf(P(), block, before)
      ensures ok ==> Pending(sink, was, whole, BlocksText(P(), block + 1, firstTno, lastTno, code))
      ensures !ok ==> whole.None?
    {
      hide Next; hide BlockText; hide Present; hide KnownCode; hide PackAt;
      code := before;
      var no := Search(0, 0x8f, block);
      if no < count {
        code := PackAt(packs[..], no)[4];
      }
      if !KnownCode(code) {
        return false, code;
      }
      ghost var said := sink.text;
      ok := ReportBlock(block, firstTno, lastTno, code, sink);
      ghost var rest := BlocksText(P(), block + 1, firstTno, lastTno, code);
      assert said + [] == said;
      if ok && Present(P(), block) && rest.Some? {
        Regroup(said, BlockText(P(), block, firstTno, lastTno, code).value, rest.value);
      }
    }

    /** What is still to be reported fits, and completes the sheet. */
    ghost predicate Pending(sink: Sink, was: seq<bv8>, whole: Option<seq<bv8>>, rest: Option<seq<bv8>>)
      reads sink
    {
      && (whole.Some? <==> rest.Some?)
      && (if rest.Some? then sink.Room(|rest.value|) && sink.text + rest.value == was + whole.value else sink.measuring)
    }

    /** burn_make_v07t */
    method MakeV07t(startTno: int, trackCount: int, sink: Sink) returns (ok: bool, charCode: bv8)
      requires Ready(sink)
      requires var text := SheetText(P(), startTno, trackCount);
               if text.Some? then sink.Room(|text.value|) else sink.measuring
      modifies sink`pos, sink`text, sink.result
      ensures sink.Valid() && ok == SheetText(P(), startTno, trackCount).Some?
      ensures ok ==> Said(sink, SheetText(P(), startTno, trackCount).value)
      ensures ok ==> Next(P(), 0, 0x8f, -1) < count && charCode == SheetCode(P())
    {
      hide Next; hide BlocksText; hide TrackRange; hide KnownCode; hide PackAt; hide LastCode;
      charCode := 0;
      var no := Search(0, 0x8f, -1);
      if no == count {
        return false, charCode;
      }
      var summary := PackAt(packs[..], no);
      charCode := summary[4];
      if !KnownCode(charCode) {
        return false, charCode;
      }
      var range := TrackRange(summary, startTno, trackCount);
      if range.None? {
        return false, charCode;
      }
      ok, charCode := ReportBlocks(range.value.0, range.value.1, summary[4], sink);
    }

    /** burn_make_input_sheet_v07t: measure, allocate exactly that much, write. */
    method MakeInputSheet(startTno: int, trackCount: int)
        returns (ok: bool, result: array<bv8>, size: nat, charCode: bv8)
      requires PacksOk(P())
      ensures fresh(result)
      ensures ok == (SheetText(P(), startTno, trackCount).Some? && SheetText(P(), startTno, trackCount) != Some([]))
      ensures ok ==>
                && size == |SheetText(P(), startTno, trackCount).value| && result.Length == size + 1
                && result[..size] == SheetText(P(), startTno, trackCount).value && result[size] == 0
                && Next(P(), 0, 0x8f, -1) < count && charCode == SheetCode(P())
    {
      hide SheetText; hide SheetCode; hide Next;
      result := new bv8[0];
      size := 0;
      var measure := new Sink(true, result);
      ok, charCode := MakeV07t(startTno, trackCount, measure);
      if !ok {
        return;
      }
      ghost var text := SheetText(P(), startTno, trackCount).value;
      assert [] + text == text;
      size := measure.pos;
      if size == 0 {
        return false, result, 0, charCode;
      }
      result := new bv8[size + 1];
      var write := new Sink(false, result);
      ok, charCode := MakeV07t(startTno, trackCount, write);
    }
  }

  lemma BlocksDone(p: Packs, firstTno: int, lastTno: int, code: bv8)
    requires PacksOk(p) && firstTno > 0 && lastTno > 0
    ensures BlocksText(p, 8, firstTno, lastTno, code) == Some([])
  {
  }

  lemma FirstBefore(p: Packs)
    requires PacksOk(p)
    ensures LanguagePack(p) < p.count ==> Next(p, 0, 0x8f, -1) < p.count
  {
    hide Next;
  }

  lemma Seven(was: seq<bv8>, a: seq<bv8>, b: seq<bv8>, c: seq<bv8>, d: seq<bv8>, e: seq<bv8>, f: seq<bv8>, g: seq<bv8>)
    ensures was + a + b + c + d + e + f + g == was + (a + b + c + d + e + f + g)
  {
  }

  lemma {:induction false} UpToZeroIs(s: seq<bv8>, n: nat)
    requires n <= |s| && (forall k | 0 <= k < n :: s[k] != 0) && (n < |s| ==> s[n] == 0)
    ensures UpToZero(s) == s[..n]
  {
    if n > 0 {
      assert forall k | 0 <= k < n - 1 :: s[1..][k] == s[k + 1];
      UpToZeroIs(s[1..], n - 1);
      assert s[..n] == [s[0]] + s[1..][..n - 1];
    }
  }

  lemma Regroup(a: seq<bv8>, b: seq<bv8>, c: seq<bv8>)
    ensures a + (b + c) == a + b + c
  {
  }
}
