/** The pack writer of libburn/cdtext.c on its pack buffer: struct burn_pack_cursor and the
    functions that fill it in place, proved against the functions of CdTextWriter. */
module CdTextCursor {
  import opened CdTextPackCrc
  import opened CdTextWriter
  import opened Options
  import opened CdTextLaws
  import opened CdTextBytes
  import opened ZeroRuns

  /** The two checksum bytes as burn_finalize_text_pack computes them */
  function ResidueHigh(crc: bv16): bv8 { (((crc ^ 0xffff) >> 8) & 0xff) as bv8 }
  function ResidueLow(crc: bv16): bv8 { ((crc ^ 0xffff) & 0xff) as bv8 }

  lemma ResidueField(crc: bv16)
    ensures ResidueHigh(crc) == CrcHigh(crc) && ResidueLow(crc) == CrcLow(crc)
  {
  }

  /** burn_decide_cdtext_tab */
  method DecideCdtextTab(curr: Option<CdText>, prev: Option<CdText>, kind: nat) returns (tab: bool)
    requires CdTextOk(curr) && CdTextOk(prev) && kind < 16
    ensures tab == Repeats(curr, prev, kind)
  {
    if curr.None? || prev.None? {
      return false;
    }
    var double := curr.value.double[kind];
    if double != prev.value.double[kind] {
      return false;
    }
    var a, b := curr.value.payload[kind], prev.value.payload[kind];
    if |a| != |b| || |a| <= 1 + (if double then 1 else 0) {
      return false;
    }
    var j := 0;
    while j < |a| && a[j] == b[j]
      invariant j <= |a| && a[..j] == b[..j]
    {
      j := j + 1;
    }
    if j < |a| {
      return false;
    }
    tab := true;
  }

  lemma {:induction false} PutTextOpens(c: Cursor, text: seq<bv8>, i: nat, d: Dest)
    requires Shaped(c) && DestOk(d) && i <= |text| && (i < |text| || c.open.Some?)
    ensures var r := PutText(c, text, i, d); r.Some? ==> r.value.open.Some?
    decreases |text| - i
  {
    hide Prepare; hide Push;
    if i < |text| {
      var p := Prepare(c, d, i, |text|);
      if p.Some? {
        PutTextOpens(Push(p.value, text[i]), text, i + 1, d);
      }
    }
  }

  class PackCursor {
    const packs: array<bv8>
    var numPacks: nat
    var tdUsed: nat
    var hiseq: seq<nat>
    var packCount: seq<nat>
    const trackOffset: int
    ghost var model: Cursor

    ghost predicate Valid()
      reads this, packs
    {
      && packs.Length == 18 * MAX_PACKS
      && Shaped(model) && HeadersOk(model.done) && (model.open.Some? ==> HeaderOk(model.open.value))
      && numPacks == |model.done| && hiseq == model.hiseq && packCount == model.count
      && numPacks <= MAX_PACKS && packs[..18 * numPacks] == EncodeAll(model.done)
      && match model.open
         case None => tdUsed == 0
         case Some(r) =>
           tdUsed == |r.data| && numPacks < MAX_PACKS && packs[18 * numPacks..18 * numPacks + 4 + tdUsed] == Header(r)
               + r.data
    }

    /** Between calls an open pack holds at least one byte. */
    ghost predicate Begun()
      reads this
    {
      model.open.Some? ==> |model.open.value.data| > 0
    }

    constructor (trackOffset: int)
      ensures Valid() && Begun() && model == EMPTY && this.trackOffset == trackOffset && fresh(packs)
    {
      this.packs := new bv8[18 * MAX_PACKS];
      this.numPacks, this.tdUsed := 0, 0;
      this.hiseq, this.packCount := EMPTY.hiseq, NO_COUNTS;
      this.trackOffset := trackOffset;
      this.model := EMPTY;
    }

    method WriteHeader(kind: nat, track: int, num: nat, double: bool, block: nat, pos: nat)
      requires packs.Length == 18 * MAX_PACKS && numPacks < MAX_PACKS && kind < 16 && block < 8 && pos < 16 && num < 255
      modifies packs
      ensures packs[..18 * numPacks] == old(packs[..18 * numPacks])
      ensures packs[18 * numPacks..18 * numPacks + 4] == Header(Rec(kind, track, num, block, double, pos, []))
    {
      hide ByteOf; hide HeaderByte; hide TypeByte;
      var idx := 18 * numPacks;
      packs[idx] := TypeByte(kind);
      packs[idx + 1] := ByteOf(track);
      packs[idx + 2] := ByteOf(num);
      packs[idx + 3] := HeaderByte(double, block, pos);
    }

    /** burn_create_new_pack */
    method CreateNewPack(kind: nat, track: int, double: bool, block: nat, charPos: int) returns (ok: bool)
      requires Valid() && model.open.None? && kind < 16 && block < 8
      modifies this, packs
      ensures Valid()
      ensures var r := NewPack(old(model), kind, track, double, block, charPos);
              ok == r.Some? && model == if r.Some? then r.value else old(model)
    {
      hide EncodeAll; hide Encode; hide Header; hide Full; hide HeadersOk;
      if numPacks >= MAX_PACKS {
        return false;
      }
      if hiseq[block] >= 255 {
        return false;
      }
      var pos := charPos;
      if pos > 15 {
        pos := 15;
      } else if pos < 0 {
        pos := 0;
      }
      WriteHeader(kind, track, hiseq[block], double, block, pos);
      ghost var r := Rec(kind, track, hiseq[block], block, double, pos, []);
      hiseq := hiseq[block := hiseq[block] + 1];
      tdUsed := 0;
      packCount := packCount[kind := packCount[kind] + 1];
      model := Cursor(model.done, Some(r), hiseq, packCount);
      assert Header(r) + [] == Header(r);
      ok := true;
    }

    /** Compute and store the checksum of pack i. */
    method Seal(i: nat)
      requires 18 * (i + 1) <= packs.Length
      modifies packs
      ensures var was := old(packs[..]); packs[..] == WithPack(was, i, Corrected(PackAt(was, i)))
    {
      hide CrcHigh; hide CrcLow; hide Crc; hide ResidueHigh; hide ResidueLow; hide PackOk;
      ghost var was := packs[..];
      ghost var p := PackAt(was, i);
      var idx := 18 * i;
      var crc := Crc11021(packs[idx..idx + 16]);
      assert packs[idx..idx + 16] == p[..16];
      ResidueField(crc);
      packs[idx + 16] := ResidueHigh(crc);
      packs[idx + 17] := ResidueLow(crc);
      assert packs[..] == WithPack(was, i, Corrected(p));
    }

    method FillUp()
      requires packs.Length == 18 * MAX_PACKS && numPacks < MAX_PACKS && tdUsed <= 12
      modifies packs
      ensures var n := 18 * numPacks + 4 + tdUsed;
              packs[..n] == old(packs[..n]) && packs[n..18 * numPacks + 16] == Zeros(12 - tdUsed)
    {
      var idx := 18 * numPacks;
      for i := 4 + tdUsed to 16
        invariant packs[..idx + 4 + tdUsed] == old(packs[..idx + 4 + tdUsed])
        invariant packs[idx + 4 + tdUsed..idx + i] == Zeros(i - 4 - tdUsed)
      {
        packs[idx + i] := 0;
      }
    }

    /** burn_finalize_text_pack */
    method FinalizeTextPack()
      requires Valid() && model.open.Some?
      modifies this, packs
      ensures Valid() && Begun() && model == Finalize(old(model))
    {
      hide EncodeAll; hide Encode; hide Header; hide Full; hide HeadersOk; hide Corrected; hide PackOk; hide Zeros;
      ghost var r := model.open.value;
      ghost var full := r.(data := r.data + Zeros(12 - tdUsed));
      ghost var idx := 18 * numPacks;
      FillUp();
      ghost var was := packs[..];
      FilledPack(was, numPacks, tdUsed, r);
      SameHeaderBytes(r, full.data);
      Seal(numPacks);
      SealedPacks(was, packs[..], numPacks, model.done, full);
      numPacks := numPacks + 1;
      tdUsed := 0;
      model := Finalize(model);
    }

    method PutByte(b: bv8)
      requires Valid() && model.open.Some? && |model.open.value.data| < 12
      modifies this, packs
      ensures Valid() && Begun() && model == Push(old(model), b)
    {
      hide EncodeAll; hide Header; hide Full; hide HeadersOk;
      ghost var r := model.open.value;
      var at := 18 * numPacks;
      SameHeaderBytes(r, r.data + [b]);
      packs[at + 4 + tdUsed] := b;
      assert packs[..at] == old(packs[..at]);
      assert packs[at..at + 4 + tdUsed + 1] == old(packs[at..at + 4 + tdUsed]) + [b];
      assert Header(r) + r.data + [b] == Header(r) + (r.data + [b]);
      tdUsed := tdUsed + 1;
      model := Push(model, b);
    }

    /** The first half of a loop round of burn_create_tybl_packs */
    method MakeRoom(i: nat, length: nat, d: Dest) returns (ok: bool)
      requires Valid() && Begun() && DestOk(d)
      modifies this, packs
      ensures Valid()
      ensures ok == Prepare(old(model), d, i, length).Some?
      ensures ok ==> model == Prepare(old(model), d, i, length).value
    {
      hide EncodeAll; hide Header; hide Full; hide HeadersOk; hide Finalize; hide NewPack; hide BinaryPart;
      if tdUsed == 0 || tdUsed >= 12 {
        if tdUsed > 0 {
          FinalizeTextPack();
        }
        var charPos := (i - BinaryPart(d.kind, length)) / (if d.double then 2 else 1);
        ok := CreateNewPack(d.kind, d.track, d.double, d.block, charPos);
      } else {
        ok := true;
      }
    }

    /** burn_create_tybl_packs */
    method CreateTyblPacks(payload: seq<bv8>, d: Dest) returns (ok: bool)
      requires Valid() && Begun() && DestOk(d)
      modifies this, packs
      ensures Valid()
      ensures ok == PutText(old(model), payload, 0, d).Some?
      ensures ok ==> Begun() && model == PutText(old(model), payload, 0, d).value
    {
      hide Valid; hide Prepare; hide Push;
      assert Shaped(model) by { ValidShape(); }
      for i := 0 to |payload|
        invariant Valid() && Begun() && Shaped(model)
        invariant PutText(model, payload, i, d) == PutText(old(model), payload, 0, d)
      {
        ok := MakeRoom(i, |payload|, d);
        if !ok {
          return;
        }
        PutByte(payload[i]);
      }
      ok := true;
    }

    /** burn_create_tybl_t_packs */
    method CreateTyblTPacks(t: Option<CdText>, track: int, kind: nat, block: nat, tab: bool) returns (ok: bool)
      requires Valid() && Begun() && CdTextOk(t) && kind < 16 && block < 8
      modifies this, packs
      ensures Valid()
      ensures var r := PutText(old(model), TrackText(t, kind, tab), 0, Dest(kind, track, block, IsDouble(t, kind)));
              ok == r.Some? && (ok ==> Begun() && model == r.value)
    {
      hide Valid; hide PutText;
      var payload: seq<bv8> := [];
      var double := false;
      if t.Some? {
        payload := t.value.payload[kind];
        double := t.value.double[kind];
      }
      if payload == [] {
        payload := [0];
      }
      if tab {
        payload := if double then [TAB, TAB, 0, 0] else [TAB, 0];
      }
      ok := CreateTyblPacks(payload, Dest(kind, track, block, double));
    }

    /** burn_create_tybl_s_packs */
    method CreateTyblSPacks(s: Session, kind: nat, block: nat) returns (ok: bool)
      requires Valid() && model.open.None? && SessionOk(s) && kind < 15 && block < 8 && s.cdtext[block].Some?
                 && s.firstTrack == trackOffset
      modifies this, packs
      ensures Valid()
      ensures var r := SessionTexts(old(model), s, kind, block);
              ok == r.Some? && (ok ==> model == r.value && model.open.None?)
    {
      hide Valid; hide PutText; hide Finalize; hide Repeats; hide TrackText;
      ValidShape();
      var cdt := s.cdtext[block].value;
      if |cdt.payload[kind]| == 0 {
        return true;
      }
      ok := CreateTyblPacks(cdt.payload[kind], Dest(kind, 0, block, cdt.double[kind]));
      if !ok {
        return;
      }
      ValidShape();
      PutTextOpens(old(model), cdt.payload[kind], 0, Dest(kind, 0, block, cdt.double[kind]));
      if (kind > 5) && kind != 14 {
        FinalizeTextPack();
        return true;
      }
      ghost var c := model;
      for i := 0 to |s.tracks|
        invariant Valid() && Begun() && Shaped(model) && model.open.Some?
        invariant TrackTexts(model, s, i, kind, block) == TrackTexts(c, s, 0, kind, block)
      {
        var tab := false;
        if i > 0 {
          tab := DecideCdtextTab(s.tracks[i][block], s.tracks[i - 1][block], kind);
        }
        ghost var before := model;
        ok := CreateTyblTPacks(s.tracks[i][block], i + trackOffset, kind, block, tab);
        if !ok {
          return;
        }
        ValidShape();
        PutTextOpens(before, TrackText(s.tracks[i][block], kind, tab), 0,
                     Dest(kind, i + trackOffset, block, IsDouble(s.tracks[i][block], kind)));
      }
      FinalizeTextPack();
    }

    /** The payload array of burn_create_bl_size_packs before each of its three calls */
    method FillSizePayload(payload: array<bv8>, s: Session, block: nat, part: nat)
      requires payload.Length == 12 && payload != packs && SessionOk(s) && block < 8 && part < 3
      requires |packCount| == 16 && s.firstTrack == trackOffset
      modifies payload
      ensures payload[..] == SizeText(s, block, packCount, part)
    {
      hide ByteOf;
      if part == 0 {
        payload[0] := s.charCode[block];
        payload[1] := ByteOf(trackOffset);
        payload[2] := ByteOf(|s.tracks| + trackOffset - 1);
        payload[3] := s.copyright[block];
        for i := 0 to 8
          invariant payload[..4] == SizeText(s, block, packCount, 0)[..4]
          invariant forall j | 4 <= j < 4 + i :: payload[j] == ByteOf(packCount[j - 4])
        {
          payload[i + 4] := ByteOf(packCount[i]);
        }
      } else if part == 1 {
        for i := 0 to 7
          invariant forall j | 0 <= j < i :: payload[j] == ByteOf(packCount[j + 8])
        {
          payload[i] := ByteOf(packCount[i + 8]);
        }
        payload[7] := 3;
        for i := 0 to 4
          invariant payload[..8] == Bytes(packCount[8..15]) + [3]
          invariant forall j | 8 <= j < 8 + i :: payload[j] == 0
        {
          payload[i + 8] := 0;
        }
      } else {
        for i := 0 to 4
          invariant forall j | 0 <= j < i :: payload[j] == 0
        {
          payload[i] := 0;
        }
        for i := 0 to 8
          invariant payload[..4] == FOUR_ZEROS
          invariant forall j | 4 <= j < 4 + i :: payload[j] == s.language[j - 4]
        {
          payload[i + 4] := s.language[i];
        }
      }
    }

    /** burn_create_bl_size_packs */
    method CreateBlSizePacks(s: Session, block: nat) returns (ok: bool)
      requires Valid() && model.open.None? && SessionOk(s) && block < 8 && s.firstTrack == trackOffset
      modifies this, packs
      ensures Valid()
      ensures var r := SizePacks(old(model), s, block);
              ok == r.Some? && (ok ==> model == r.value && model.open.None?)
    {
      hide PutText; hide SizeText; hide Finalize; hide EncodeAll; hide Header;
      var payload := new bv8[12];
      FillSizePayload(payload, s, block, 0);
      PutTextOpens(model, payload[..], 0, Dest(15, 0, block, false));
      ok := CreateTyblPacks(payload[..], Dest(15, 0, block, false));
      if !ok {
        return;
      }
      FillSizePayload(payload, s, block, 1);
      PutTextOpens(model, payload[..], 0, Dest(15, 1, block, false));
      ok := CreateTyblPacks(payload[..], Dest(15, 1, block, false));
      if !ok {
        return;
      }
      FillSizePayload(payload, s, block, 2);
      PutTextOpens(model, payload[..], 0, Dest(15, 2, block, false));
      ok := CreateTyblPacks(payload[..], Dest(15, 2, block, false));
      if !ok {
        return;
      }
      FinalizeTextPack();
      ForgetCounts();
    }

    method ForgetCounts()
      requires Valid()
      modifies this
      ensures Valid() && model == old(model).(count := NO_COUNTS)
    {
      hide EncodeAll; hide Header; hide Full; hide HeadersOk;
      for i := 0 to 16
        invariant |packCount| == 16 && forall j | 0 <= j < i :: packCount[j] == 0
        invariant numPacks == old(numPacks) && tdUsed == old(tdUsed) && hiseq == old(hiseq) && model == old(model)
      {
        packCount := packCount[i := 0];
      }
      assert packCount == NO_COUNTS;
      model := model.(count := NO_COUNTS);
    }

    method PutLastNumbers(at: nat, first: nat)
      requires at + 4 <= packs.Length && first + 4 <= |hiseq|
      modifies packs
      ensures packs[..] == old(packs[..at]) + LastNumbers(hiseq, first) + old(packs[at + 4..])
    {
      hide ByteOf;
      for j := 0 to 4
        invariant packs[..at] == old(packs[..at]) && packs[at + 4..] == old(packs[at + 4..])
        invariant forall i | at <= i < at + j :: packs[i] == LastNumbers(hiseq, first)[i - at]
      {
        packs[at + j] := if hiseq[first + j] > 0 then ByteOf(hiseq[first + j] - 1) else ByteOf(0);
      }
    }

    /** One round of the last loop of burn_cdtext_from_session */
    method PatchPack(i: nat)
      requires Valid() && model.open.None? && i < numPacks
      modifies this, packs
      ensures Valid()
      ensures model == old(model).(done := old(model).done[i := Patched(old(model).done[i], old(model).hiseq)])
      ensures numPacks == old(numPacks)
    {
      hide EncodeAll; hide Encode; hide Header; hide ByteOf; hide LastNumbers; hide PackOk; hide Corrected;
      hide Patched; hide WithPack; hide PackAt;
      ghost var done, r, was := model.done, model.done[i], packs[..];
      ghost var r' := Patched(r, hiseq);
      var idx := 18 * i;
      EncodeAllAt(done, i);
      PackInPrefix(packs[..], 18 * numPacks, i);
      HeadBytes(r);
      PatchForms(r, hiseq);
      PackBytes(packs[..], i);
      assert packs[idx] == PackAt(packs[..], i)[0] && packs[idx + 1] == PackAt(packs[..], i)[1];
      if packs[idx] == 0x8f && packs[idx + 1] == 1 {
        PutLastNumbers(idx + 4 + 8, 0);
        PatchedBytes(was, packs[..], i, r, 8, LastNumbers(hiseq, 0));
        Seal(i);
      } else if packs[idx] == 0x8f && packs[idx + 1] == 2 {
        PutLastNumbers(idx + 4, 4);
        PatchedBytes(was, packs[..], i, r, 0, LastNumbers(hiseq, 4));
        Seal(i);
      } else {
        WithSamePack(was, i);
      }
      PatchedArray(was, packs[..], done, i, r');
      model := model.(done := done[i := r']);
    }

    method InsertLastNumbers()
      requires Valid() && model.open.None?
      modifies this, packs
      ensures Valid() && model.open.None?
      ensures model.done == PatchAll(old(model).done, old(model).hiseq)
      ensures numPacks == old(numPacks)
    {
      hide Patched; hide Valid;
      ghost var done := model.done;
      ValidShape();
      for i := 0 to numPacks
        invariant Valid() && model.open.None? && numPacks == old(numPacks) && model.hiseq == old(model).hiseq
        invariant |model.done| == |done|
        invariant forall j: nat | j < i :: model.done[j] == Patched(done[j], model.hiseq)
        invariant forall j: nat | i <= j < |done| :: model.done[j] == done[j]
      {
        PatchPack(i);
      }
    }

    lemma ValidShape()
      requires Valid()
      ensures Shaped(model) && numPacks == |model.done|
    {
    }
  }

  /** The loops of burn_cdtext_from_session */
  method WritePacks(s: Session) returns (ok: bool, packs: array<bv8>, numPacks: nat)
    requires SessionOk(s)
    ensures fresh(packs)
    ensures ok == FromSession(s).Some?
    ensures ok ==>
              var q := FromSession(s).value;
              && numPacks == |q| && 18 * numPacks <= packs.Length && HeadersOk(q) && Full(q)
              && packs[..18 * numPacks] == EncodeAll(q)
  {
    hide EncodeAll; hide Header; hide Full; hide HeadersOk; hide Kinds; hide Blocks; hide SizePacks;
    hide SessionTexts; hide PatchAll;
    var crs := new PackCursor(s.firstTrack);
    packs := crs.packs;
    numPacks := 0;
    var block := 0;
    while block < 8
      invariant block <= 8 && crs.Valid() && fresh(crs) && fresh(crs.packs) && crs.model.open.None?
      invariant crs.packs == packs && crs.trackOffset == s.firstTrack
      invariant Blocks(crs.model, s, block) == Blocks(EMPTY, s, 0)
      decreases 8 - block
    {
      BlocksStep(crs.model, s, block);
      if s.cdtext[block].Some? {
        ok := CreateBlock(crs, s, block);
        if !ok {
          return;
        }
      }
      block := block + 1;
    }
    BlocksEnd(crs.model, s);
    crs.InsertLastNumbers();
    numPacks := crs.numPacks;
    ok := true;
  }

  /** Without texts nothing is produced, and that is no failure. */
  lemma {:induction false} NoBlocks(c: Cursor, s: Session, block: nat)
    requires Shaped(c) && SessionOk(s) && block <= 8 && forall b | block <= b < 8 :: s.cdtext[b].None?
    ensures Blocks(c, s, block) == Some(c)
    decreases 8 - block
  {
    hide Kinds; hide SizePacks;
    if block < 8 {
      NoBlocks(c, s, block + 1);
    }
  }

  lemma NothingProduced(s: Session)
    requires SessionOk(s) && forall b | 0 <= b < 8 :: s.cdtext[b].None?
    ensures FromSession(s) == Some([])
  {
    hide Blocks;
    NoBlocks(EMPTY, s, 0);
  }

  /** burn_cdtext_from_session; countOnly is its flag bit0. No array is handed out if it
      would be empty, or if only the number of packs is wanted. */
  method CdtextFromSession(s: Session, countOnly: bool) returns (ret: int, textPacks: array?<bv8>, numPacks: nat)
    requires SessionOk(s)
    ensures var q := FromSession(s);
            && ret == (if q.None? then if countOnly then -1 else 0 else if countOnly then |q.value| else 1)
            && numPacks == (if q.None? || countOnly then 0 else |q.value|)
            && (textPacks != null <==> numPacks > 0)
    ensures textPacks != null ==>
              var q := FromSession(s).value;
              && fresh(textPacks) && 18 * |q| <= textPacks.Length && HeadersOk(q) && Full(q)
              && textPacks[..18 * |q|] == EncodeAll(q)
  {
    hide FromSession; hide EncodeAll; hide HeadersOk; hide Full;
    var block := 0;
    while block < 8 && s.cdtext[block].None?
      invariant block <= 8 && forall b | 0 <= b < block :: s.cdtext[b].None?
      decreases 8 - block
    {
      block := block + 1;
    }
    textPacks, numPacks := null, 0;
    if block == 8 {
      NothingProduced(s);
      ret := if countOnly then 0 else 1;
      return;
    }
    var ok, packs, n := WritePacks(s);
    if !ok {
      ret := if countOnly then -1 else 0;
    } else if countOnly {
      ret := n;
    } else {
      ret, numPacks := 1, n;
      if n > 0 {
        textPacks := packs;
      }
    }
  }

  lemma BlocksStep(c: Cursor, s: Session, block: nat)
    requires Shaped(c) && SessionOk(s) && block < 8
    ensures var r := BlockPacks(c, s, block);
            Blocks(c, s, block) == if r.None? then None else Blocks(r.value, s, block + 1)
  {
    hide BlockPacks;
  }

  lemma BlocksEnd(c: Cursor, s: Session)
    requires Shaped(c) && SessionOk(s)
    ensures Blocks(c, s, 8) == Some(c)
  {
  }

  /** The loop over the pack types of a block, and its summary */
  method CreateBlock(crs: PackCursor, s: Session, block: nat) returns (ok: bool)
    requires crs.Valid() && crs.model.open.None? && SessionOk(s) && block < 8 && s.cdtext[block].Some?
               && s.firstTrack == crs.trackOffset
    modifies crs, crs.packs
    ensures crs.Valid()
    ensures var r := BlockPacks(old(crs.model), s, block);
            ok == r.Some? && (ok ==> crs.model == r.value && crs.model.open.None?)
  {
    hide EncodeAll; hide Header; hide Full; hide HeadersOk; hide SizePacks; hide SessionTexts;
    for kind := 0 to 15
      invariant crs.Valid() && crs.model.open.None?
      invariant Kinds(crs.model, s, kind, block) == Kinds(old(crs.model), s, 0, block)
    {
      ok := crs.CreateTyblSPacks(s, kind, block);
      if !ok {
        return;
      }
    }
    ok := crs.CreateBlSizePacks(s, block);
  }

  lemma PackInPrefix(s: seq<bv8>, n: nat, i: nat)
    requires 18 * (i + 1) <= n <= |s|
    ensures PackAt(s, i) == PackAt(s[..n], i)
  {
    var a := 18 * i;
    assert s[..n][a..a + 18] == s[a..a + 18];
  }

  lemma PackBytes(s: seq<bv8>, i: nat)
    requires 18 * (i + 1) <= |s|
    ensures forall j: nat | j < 18 :: PackAt(s, i)[j] == s[18 * i + j]
  {
  }

  lemma HeadBytes(r: Rec)
    requires HeaderOk(r) && |r.data| == 12
    ensures Encode(r)[0] == 0x8f <==> r.kind == 15
    ensures Encode(r)[1] == ByteOf(r.track)
  {
    hide Encode; hide ByteOf; hide PackOk; hide HeaderByte;
    assert Encode(r)[0] == Encode(r)[..4][0] && Encode(r)[1] == Encode(r)[..4][1];
    ByteValue(0x80 + r.kind);
    ByteValue(0x8f);
  }

  lemma PatchForms(r: Rec, hiseq: seq<nat>)
    requires |r.data| == 12 && |hiseq| == 8
    ensures Patched(r, hiseq) ==
            if r.kind == 15 && ByteOf(r.track) == 1 then r.(data := r.data[..8] + LastNumbers(hiseq, 0) + r.data[12..])
            else if r.kind == 15 && ByteOf(r.track) == 2 then
                r.(data := r.data[..0] + LastNumbers(hiseq, 4) + r.data[4..])
            else r
    ensures HeaderOk(r) ==> HeaderOk(Patched(r, hiseq))
  {
    hide ByteOf; hide LastNumbers;
    assert r.data[..8] + LastNumbers(hiseq, 0) + r.data[12..] == r.data[..8] + LastNumbers(hiseq, 0);
    assert r.data[..0] + LastNumbers(hiseq, 4) + r.data[4..] == LastNumbers(hiseq, 4) + r.data[4..];
  }

  /** Overwriting payload bytes of pack i and sealing it encodes the changed record. */
  lemma PatchedBytes(was: seq<bv8>, s: seq<bv8>, i: nat, r: Rec, at: nat, text: seq<bv8>)
    requires 18 * (i + 1) <= |was| && HeaderOk(r) && |r.data| == 12 && PackAt(was, i) == Encode(r)
    requires |text| == 4 && at <= 8 && s == was[..18 * i + 4 + at] + text + was[18 * i + 4 + at + 4..]
    ensures WithPack(s, i, Corrected(PackAt(s, i))) == WithPack(was, i,
              Encode(r.(data := r.data[..at] + text + r.data[at + 4..])))
  {
    hide PackOk; hide Header; hide Corrected; hide WithPack;
    var r' := r.(data := r.data[..at] + text + r.data[at + 4..]);
    SamePayload(was, s, i, r, at, text);
    SameHeaderBytes(r, r'.data);
    CorrectedBy(PackAt(s, i), Header(r') + r'.data + [0, 0]);
    SameWith(was, s, i, at, text, Encode(r'));
  }

  lemma SamePayload(was: seq<bv8>, s: seq<bv8>, i: nat, r: Rec, at: nat, text: seq<bv8>)
    requires 18 * (i + 1) <= |was| && HeaderOk(r) && |r.data| == 12 && PackAt(was, i) == Encode(r)
    requires |text| == 4 && at <= 8 && s == was[..18 * i + 4 + at] + text + was[18 * i + 4 + at + 4..]
    ensures |s| == |was|
    ensures PackAt(s, i)[..16] == (Header(r) + (r.data[..at] + text + r.data[at + 4..]) + [0, 0])[..16]
  {
    hide PackOk; hide Header; hide Encode;
    var p := PackAt(was, i);
    Overwritten(was, s, 18 * i, 4 + at, text);
    hide PackAt;
    PackParts(p, r, at);
    assert p[..4 + at] + text + p[4 + at + 4..] == Header(r) + (r.data[..at] + text + r.data[at + 4..]) + p[16..];
  }

  lemma PackParts(p: Pack, r: Rec, at: nat)
    requires HeaderOk(r) && |r.data| == 12 && p == Encode(r) && at <= 8
    ensures p[..4 + at] == Header(r) + r.data[..at] && p[4 + at + 4..] == r.data[at + 4..] + p[16..]
  {
    hide PackOk; hide Header; hide Encode;
    assert p[..4] == Header(r) && p[4..16] == r.data;
    assert p[..4 + at] == p[..4] + p[4..16][..at];
    assert p[4 + at + 4..] == p[4..16][at + 4..] + p[16..];
  }

  /** Four bytes overwritten in an array, seen in the 18 bytes around them. */
  lemma Overwritten(was: seq<bv8>, s: seq<bv8>, a: nat, n: nat, text: seq<bv8>)
    requires a + 18 <= |was| && n + 4 <= 18 && |text| == 4 && s == was[..a + n] + text + was[a + n + 4..]
    ensures |s| == |was| && s[a..a + 18] == was[a..a + 18][..n] + text + was[a..a + 18][n + 4..]
  {
    var p := was[a..a + 18];
    var q := p[..n] + text + p[n + 4..];
    forall j | 0 <= j < 18
      ensures s[a + j] == q[j]
    {
      if j >= n + 4 {
        assert s[a + j] == was[a + n + 4..][j - n - 4] == p[j];
      }
    }
  }

  lemma SameWith(was: seq<bv8>, s: seq<bv8>, i: nat, at: nat, text: seq<bv8>, p: Pack)
    requires 18 * (i + 1) <= |was| && |text| == 4 && at <= 8
    requires s == was[..18 * i + 4 + at] + text + was[18 * i + 4 + at + 4..]
    ensures WithPack(s, i, p) == WithPack(was, i, p)
  {
    var a := 18 * i;
    assert s[..a] == was[..a] && s[a + 18..] == was[a + 18..];
  }

  lemma WithSamePack(s: seq<bv8>, i: nat)
    requires 18 * (i + 1) <= |s|
    ensures WithPack(s, i, PackAt(s, i)) == s
  {
  }

  lemma PatchedArray(was: seq<bv8>, s: seq<bv8>, done: seq<Rec>, i: nat, r': Rec)
    requires i < |done| && 18 * |done| <= |was| && HeadersOk(done) && Full(done)
               && was[..18 * |done|] == EncodeAll(done)
    requires HeaderOk(r') && |r'.data| == 12 && s == WithPack(was, i, Encode(r'))
    ensures HeadersOk(done[i := r']) && Full(done[i := r']) && s[..18 * |done|] == EncodeAll(done[i := r'])
  {
    hide Encode; hide EncodeAll; hide WithPack; hide PackAt; hide PackOk;
    var q, n := done[i := r'], |done|;
    forall j: nat | j < n
      ensures PackAt(s[..18 * n], j) == PackAt(EncodeAll(q), j)
    {
      PackInPrefix(s, 18 * n, j);
      PackInPrefix(was, 18 * n, j);
      WithPackAt(was, i, Encode(r'), j);
      EncodeAllAt(done, j);
      EncodeAllAt(q, j);
    }
    SamePacks(s[..18 * n], EncodeAll(q), n);
  }

  lemma {:induction false} SamePacks(a: seq<bv8>, b: seq<bv8>, n: nat)
    requires |a| == |b| == 18 * n && forall j: nat | j < n :: PackAt(a, j) == PackAt(b, j)
    ensures a == b
    decreases n
  {
    if n > 0 {
      var m := 18 * (n - 1);
      forall j: nat | j < n - 1
        ensures PackAt(a[..m], j) == PackAt(b[..m], j)
      {
        PackInPrefix(a, m, j);
        PackInPrefix(b, m, j);
      }
      SamePacks(a[..m], b[..m], n - 1);
      assert PackAt(a, n - 1) == PackAt(b, n - 1);
      assert a == a[..m] + a[m..] && b == b[..m] + b[m..];
    }
  }

  lemma FilledPack(s: seq<bv8>, n: nat, used: nat, r: Rec)
    requires 18 * (n + 1) <= |s| && used == |r.data| <= 12 && HeaderOk(r)
    requires s[18 * n..18 * n + 4 + used] == Header(r) + r.data
    requires s[18 * n + 4 + used..18 * n + 16] == Zeros(12 - used)
    ensures PackAt(s, n)[..16] == Header(r) + (r.data + Zeros(12 - used))
  {
    hide Header; hide Zeros;
    var a := 18 * n;
    assert s[a..a + 18][..16] == s[a..a + 4 + used] + s[a + 4 + used..a + 16];
  }

  lemma SameHeaderBytes(r: Rec, data: seq<bv8>)
    requires HeaderOk(r)
    ensures Header(r.(data := data)) == Header(r)
  {
  }

  lemma SealedPacks(was: seq<bv8>, s: seq<bv8>, n: nat, done: seq<Rec>, r: Rec)
    requires |s| == |was| && 18 * (n + 1) <= |was| && n == |done| && HeadersOk(done) && Full(done) && HeaderOk(r)
               && |r.data| == 12
    requires s == WithPack(was, n, Corrected(PackAt(was, n)))
    requires was[..18 * n] == EncodeAll(done) && PackAt(was, n)[..16] == Header(r) + r.data
    ensures HeadersOk(done + [r]) && Full(done + [r]) && s[..18 * (n + 1)] == EncodeAll(done + [r])
  {
    hide PackOk; hide Header; hide PackAt;
    var a := 18 * n;
    var p := PackAt(was, n);
    assert (Header(r) + r.data + [0, 0])[..16] == p[..16];
    CorrectedBy(p, Header(r) + r.data + [0, 0]);
    assert s[..a + 18] == was[..a] + Encode(r);
    assert (done + [r])[..n] == done;
  }

  lemma CorrectedBy(p: Pack, q: Pack)
    requires p[..16] == q[..16]
    ensures Corrected(p) == Corrected(q)
  {
    hide Crc; hide PackOk;
  }
}
