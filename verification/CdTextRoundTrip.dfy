/** CD-TEXT round trip: what the writer packs, the reader picks. */
module CdTextRoundTrip {
  import opened CdTextPackCrc
  import opened CdTextWriter
  import opened Options
  import opened CdTextLaws
  import opened CdTextResult
  import opened CdTextReader
  import opened CdTextBytes
  import opened CdTextHeads

  // ------------------------------------------------------------ character width

  ghost predicate Uniform(packs: seq<Rec>, kind: nat, block: nat, double: bool)
  {
    forall i | 0 <= i < |packs| && Is(packs[i], kind, block) :: packs[i].double == double
  }

  /** All texts of the type in the block have the same character width. The width is kept with
      each text; burn_cdtext_set (structure.c:977) stores it for pack type 0x80 only, if its
      caller asks for two bytes by flag bit0. */
  predicate SameWidth(s: Session, kind: nat, block: nat, double: bool)
    requires SessionOk(s) && kind < 15 && block < 8
  {
    && (s.cdtext[block].Some? ==> s.cdtext[block].value.double[kind] == double)
    && (ForTracks(kind) ==> forall i | 0 <= i < |s.tracks| :: IsDouble(s.tracks[i][block], kind) == double)
  }

  lemma ProducedWidth(s: Session, kind: nat, block: nat, double: bool)
    requires SessionOk(s) && kind < 15 && block < 8 && FromSession(s).Some? && SameWidth(s, kind, block, double)
    ensures Uniform(FromSession(s).value, kind, block, double)
  {
    hide FromSession; hide Heads; hide HeadAt; hide Stream; hide Raw; hide Summary; hide Numbered; hide Padded;
    var q := FromSession(s).value;
    ProducedIsCoherent(s);
    if s.cdtext[block].None? {
      NoneOfBlock(q, block);
    } else {
      forall n | 0 <= n < |Heads(q, kind, block)|
        ensures Heads(q, kind, block)[n].double == double
      {
        HeadersTell(s, kind, block, n);
        SameWidthHead(s, kind, block, double, 12 * n);
      }
      HeadsUniform(q, kind, block, double);
    }
  }

  lemma SameWidthHead(s: Session, kind: nat, block: nat, double: bool, offset: nat)
    requires SessionOk(s) && kind < 15 && block < 8 && SameWidth(s, kind, block, double) && s.cdtext[block].Some?
    ensures HeadAt(s, kind, block, offset).double == double
  {
    hide Prefix; hide Stored;
  }

  lemma {:induction false} NoneOfBlock(packs: seq<Rec>, block: nat)
    requires InBlock(packs, block) == 0
    ensures forall i | 0 <= i < |packs| :: packs[i].block != block
  {
    if packs != [] {
      var n := |packs| - 1;
      NoneOfBlock(packs[..n], block);
      forall i | 0 <= i < |packs|
        ensures packs[i].block != block
      {
        assert i < n ==> packs[..n][i] == packs[i];
      }
    }
  }

  lemma {:induction false} HeadsUniform(packs: seq<Rec>, kind: nat, block: nat, double: bool)
    requires forall n | 0 <= n < |Heads(packs, kind, block)| :: Heads(packs, kind, block)[n].double == double
    ensures Uniform(packs, kind, block, double)
  {
    if packs != [] {
      var n := |packs| - 1;
      var h, g := Heads(packs, kind, block), Heads(packs[..n], kind, block);
      assert forall m | 0 <= m < |g| :: g[m] == h[m];
      HeadsUniform(packs[..n], kind, block, double);
      forall i | 0 <= i < |packs| && Is(packs[i], kind, block)
        ensures packs[i].double == double
      {
        if i < n {
          assert packs[..n][i] == packs[i];
        } else {
          assert h[|g|].double == packs[n].double;
        }
      }
    }
  }

  // --------------------------------------------------------- texts in the stream

  function Term(double: bool): seq<bv8> { if double then [0, 0] else [0] }

  /** A text with its delimiter: whole characters, none of them 0 before the end. */
  predicate TextOk(t: seq<bv8>, double: bool)
  {
    && |t| >= Width(double) && Whole(|t|, double)
    && t[|t| - Width(double)..] == Term(double)
    && forall i: nat | i + Width(double) < |t| && Whole(i, double) :: !IsTextEnd(t, i, double)
  }

  function Body(t: seq<bv8>, double: bool): seq<bv8>
    requires |t| >= Width(double)
  {
    t[..|t| - Width(double)]
  }

  lemma {:induction false} TextEnd(p: seq<bv8>, at: nat, t: seq<bv8>, j: nat, double: bool)
    requires TextOk(t, double) && Whole(at, double) && Whole(j, double) && j + Width(double) <= |t|
    requires at + |t| <= |p| && p[at..at + |t|] == t
    ensures NextEnd(p, at + j, double) == at + |t| - Width(double)
    decreases |t| - j
  {
    EndStep(p, at + j, double);
    assert p[at + j] == t[j] && (double ==> p[at + j + 1] == t[j + 1]);
    if j + Width(double) < |t| {
      assert !IsTextEnd(t, j, double);
      TextEnd(p, at, t, j + Width(double), double);
    } else {
      assert t[j] == t[|t| - Width(double)..][0] && (double ==> t[j + 1] == t[|t| - Width(double)..][1]);
    }
  }

  /** Texts that the reader can tell apart: delimited, of one width, and with double-byte
      characters none of them missing. */
  predicate Regular(s: Session, kind: nat, block: nat, double: bool)
    requires SessionOk(s) && kind < 15 && block < 8
  {
    && s.cdtext[block].Some? && SameWidth(s, kind, block, double)
    && forall k: nat | k <= |s.tracks| :: TextOk(Given(s, kind, block, k), double)
  }

  lemma StoredOk(s: Session, kind: nat, block: nat, double: bool, k: nat)
    requires SessionOk(s) && kind < 15 && ForTracks(kind) && block < 8 && Regular(s, kind, block, double)
               && k <= |s.tracks|
    ensures TextOk(Stored(s, kind, block, k), double)
  {
    assert TextOk(Given(s, kind, block, k), double);
    if k > 0 && UsesTab(s, k - 1, kind, block) {
      assert IsDouble(s.tracks[k - 1][block], kind) == double;
      TabOk(double);
    }
  }

  lemma TabOk(double: bool)
    ensures TextOk(if double then [TAB, TAB, 0, 0] else [TAB, 0], double)
  {
    var t: seq<bv8> := if double then [TAB, TAB, 0, 0] else [TAB, 0];
    assert t[|t| - Width(double)..] == Term(double);
  }

  /** Text k begins right behind the k texts before it. */
  lemma {:induction false} TextStart(p: seq<bv8>, s: Session, kind: nat, block: nat, double: bool, k: nat)
    requires SessionOk(s) && kind < 15 && ForTracks(kind) && block < 8 && Regular(s, kind, block, double)
    requires Whole(|p|, double) && Raw(s, kind, block) <= p && k <= |s.tracks|
    ensures StartOf(p, k, double) == Some(|Prefix(s, kind, block, k)|)
    ensures |Prefix(s, kind, block, k + 1)| <= |p|
    ensures p[|Prefix(s, kind, block, k)|..|Prefix(s, kind, block, k + 1)|] == Stored(s, kind, block, k)
    ensures NextEnd(p, |Prefix(s, kind, block, k)|, double) == |Prefix(s, kind, block, k + 1)| - Width(double)
    decreases k
  {
    hide StartOf; hide NextEnd; hide TextOk; hide Raw; hide Stored; hide Regular; hide Texts; hide Prefix;
    RegularPresent(s, kind, block, double);
    var at, t := |Prefix(s, kind, block, k)|, Stored(s, kind, block, k);
    PrefixNext(s, kind, block, k);
    if k == 0 {
      StartAtZero(p, double);
    } else {
      TextStart(p, s, kind, block, double, k - 1);
      NextStart(p, k - 1, double);
      StoredOk(s, kind, block, double, k - 1);
      SomeWidth(Stored(s, kind, block, k - 1), double);
    }
    PrefixOfRaw(s, kind, block, k + 1);
    InsidePrefix(p, Prefix(s, kind, block, k), t, Texts(s, k, kind, block));
    StoredOk(s, kind, block, double, k);
    SomeWidth(t, double);
    StartWhole(p, k, double);
    TextEnd(p, at, t, 0, double);
  }

  lemma PrefixNext(s: Session, kind: nat, block: nat, k: nat)
    requires SessionOk(s) && kind < 15 && block < 8 && s.cdtext[block].Some? && k <= |s.tracks|
    ensures Prefix(s, kind, block, k + 1) == Prefix(s, kind, block, k) + Stored(s, kind, block, k)
    ensures Prefix(s, kind, block, 0) == []
  {
  }

  lemma InsidePrefix(p: seq<bv8>, a: seq<bv8>, t: seq<bv8>, rest: seq<bv8>)
    requires a + t + rest <= p
    ensures |a + t| <= |p| && p[|a|..|a| + |t|] == t
  {
    assert (a + t + rest)[|a|..|a| + |t|] == t;
    assert p[..|a + t + rest|][|a|..|a| + |t|] == p[|a|..|a| + |t|];
  }

  lemma StartWhole(p: seq<bv8>, k: nat, double: bool)
    requires Whole(|p|, double) && StartOf(p, k, double).Some?
    ensures Whole(StartOf(p, k, double).value, double)
  {
  }

  lemma SomeWidth(t: seq<bv8>, double: bool)
    requires TextOk(t, double)
    ensures |t| >= Width(double)
  {
  }

  lemma RegularPresent(s: Session, kind: nat, block: nat, double: bool)
    requires SessionOk(s) && kind < 15 && block < 8 && Regular(s, kind, block, double)
    ensures s.cdtext[block].Some? && s.cdtext[block].value.payload[kind] != []
  {
    assert TextOk(Given(s, kind, block, 0), double);
  }

  /** What a listener sees for text k: a text that is a lone TAB gives way to the one before. */
  function Shown(s: Session, kind: nat, block: nat, double: bool, k: nat): (text: seq<bv8>)
    requires SessionOk(s) && kind < 15 && block < 8 && Regular(s, kind, block, double) && k <= |s.tracks|
  {
    var text := Body(Given(s, kind, block, k), double);
    if k > 0 && IsTab(text, double) then Shown(s, kind, block, double, k - 1) else text
  }

  lemma {:induction false} PicksShown(p: seq<bv8>, s: Session, kind: nat, block: nat, double: bool, k: nat)
    requires SessionOk(s) && kind < 15 && ForTracks(kind) && block < 8 && Regular(s, kind, block, double)
    requires Whole(|p|, double) && Raw(s, kind, block) <= p && k <= |s.tracks|
    ensures Pick(p, k, double, true) == Some(Shown(s, kind, block, double, k))
    decreases k
  {
    hide StartOf; hide NextEnd; hide TextOk; hide Raw; hide Regular; hide TrackText; hide IsTab; hide Pick;
    hide UsesTab; hide Body; hide Prefix;
    RegularPresent(s, kind, block, double);
    StoredOk(s, kind, block, double, k);
    SomeWidth(Stored(s, kind, block, k), double);
    PicksStored(p, s, kind, block, double, k);
    if k > 0 {
      PicksShown(p, s, kind, block, double, k - 1);
      if UsesTab(s, k - 1, kind, block) {
        RepeatedText(s, kind, block, double, k);
      }
    }
  }

  /** One step of picking, in terms of the stored text. */
  lemma PicksStored(p: seq<bv8>, s: Session, kind: nat, block: nat, double: bool, k: nat)
    requires SessionOk(s) && kind < 15 && ForTracks(kind) && block < 8 && Regular(s, kind, block, double)
    requires Whole(|p|, double) && Raw(s, kind, block) <= p && k <= |s.tracks| && s.cdtext[block].Some?
    requires |Stored(s, kind, block, k)| >= Width(double)
    ensures var text := Body(Stored(s, kind, block, k), double);
            Pick(p, k, double, true) == if k > 0 && IsTab(text, double) then Pick(p, k - 1, double, true)
                else Some(text)
  {
    hide StartOf; hide NextEnd; hide Raw; hide Regular; hide IsTab; hide Pick; hide Body; hide Stored; hide TextOk;
    RegularPresent(s, kind, block, double);
    TextStart(p, s, kind, block, double, k);
    var at, t := |Prefix(s, kind, block, k)|, Stored(s, kind, block, k);
    BodyInPlace(p, at, t, double);
    if k == 0 {
      PickFirst(p, double, true);
      assert p[0..|t| - Width(double)] == p[..|t| - Width(double)];
    } else {
      PickStep(p, k, double, true);
    }
  }

  lemma BodyInPlace(p: seq<bv8>, at: nat, t: seq<bv8>, double: bool)
    requires at + |t| <= |p| && p[at..at + |t|] == t && |t| >= Width(double)
    ensures p[at..at + |t| - Width(double)] == Body(t, double)
  {
    var n := |t| - Width(double);
    var x, y := p[at..at + n], t[..n];
    forall i | 0 <= i < n
      ensures x[i] == y[i]
    {
      assert p[at..at + |t|][i] == p[at + i];
    }
    assert x == y;
  }

  /** An abbreviated text was that of the track before. */
  lemma RepeatedText(s: Session, kind: nat, block: nat, double: bool, k: nat)
    requires SessionOk(s) && kind < 15 && ForTracks(kind) && block < 8 && Regular(s, kind, block, double)
    requires 0 < k <= |s.tracks| && UsesTab(s, k - 1, kind, block)
    ensures IsTab(Body(Stored(s, kind, block, k), double), double)
    ensures Given(s, kind, block, k) == Given(s, kind, block, k - 1)
  {
    assert IsDouble(s.tracks[k - 1][block], kind) == double;
    var t: seq<bv8> := if double then [TAB, TAB, 0, 0] else [TAB, 0];
    assert t[..|t| - Width(double)] == if double then [TAB, TAB] else [TAB];
  }

  /** The texts 0 to k - 1 are all lone TABs. */
  predicate OnlyTabs(s: Session, kind: nat, block: nat, double: bool, k: nat)
    requires SessionOk(s) && kind < 15 && block < 8 && Regular(s, kind, block, double) && k <= |s.tracks|
  {
    forall j: nat | j < k :: IsTab(Body(Given(s, kind, block, j), double), double)
  }

  lemma {:induction false} ShownExactly(s: Session, kind: nat, block: nat, double: bool, k: nat)
    requires SessionOk(s) && kind < 15 && block < 8 && Regular(s, kind, block, double) && k <= |s.tracks|
    ensures var text := Body(Given(s, kind, block, k), double);
            Shown(s, kind, block, double, k) == text <==> !IsTab(text, double) || OnlyTabs(s, kind, block, double, k)
    decreases k
  {
    hide Regular; hide Given; hide Body; hide OnlyTabs;
    GivenOk(s, kind, block, double, k);
    var text := Body(Given(s, kind, block, k), double);
    if k == 0 {
      OnlyTabsFirst(s, kind, block, double);
    } else {
      OnlyTabsNext(s, kind, block, double, k);
      GivenOk(s, kind, block, double, k - 1);
      ShownExactly(s, kind, block, double, k - 1);
    }
  }

  lemma GivenOk(s: Session, kind: nat, block: nat, double: bool, k: nat)
    requires SessionOk(s) && kind < 15 && block < 8 && Regular(s, kind, block, double) && k <= |s.tracks|
    ensures s.cdtext[block].Some? && |Given(s, kind, block, k)| >= Width(double)
  {
    assert TextOk(Given(s, kind, block, k), double);
  }

  lemma OnlyTabsFirst(s: Session, kind: nat, block: nat, double: bool)
    requires SessionOk(s) && kind < 15 && block < 8 && Regular(s, kind, block, double)
    ensures OnlyTabs(s, kind, block, double, 0)
  {
  }

  lemma OnlyTabsNext(s: Session, kind: nat, block: nat, double: bool, k: nat)
    requires SessionOk(s) && kind < 15 && block < 8 && Regular(s, kind, block, double) && 0 < k <= |s.tracks|
    ensures OnlyTabs(s, kind, block, double, k)
            <==> OnlyTabs(s, kind, block, double, k - 1) && IsTab(Body(Given(s, kind, block, k - 1), double), double)
  {
    hide Regular; hide IsTab;
  }

  /** Collecting the payload of a text type from the bytes of a finished array and picking
      text k yields the text that was given, unless that is a lone TAB behind other text. */
  lemma RoundTrip(s: Session, kind: nat, block: nat, double: bool, k: nat)
    requires SessionOk(s) && kind < 15 && ForTracks(kind) && block < 8 && FromSession(s).Some?
    requires Regular(s, kind, block, double) && k <= |s.tracks|
    ensures var q := FromSession(s).value;
            var text := Body(Given(s, kind, block, k), double);
            && HeadersOk(q) && Full(q)
            && var p := Payload(EncodeAll(q), |q|, 0x80 + kind, block);
               && p != [] && Whole(|p|, double)
               && AnyDouble(EncodeAll(q), |q|, 0x80 + kind, block) == double
               && (Pick(p, k, double, true) == Some(text)
                   <==> !IsTab(text, double) || OnlyTabs(s, kind, block, double, k))
  {
    hide Raw; hide Regular; hide Pick; hide Body; hide Shown; hide FromSession; hide Payload; hide EncodeAll;
    hide AnyDouble;
    hide OnlyTabs; hide Given; hide IsTab; hide HeadersOk; hide Full;
    var p := ProducedPayload(s, kind, block, double);
    PicksShown(p, s, kind, block, double, k);
    ShownExactly(s, kind, block, double, k);
  }

  /** What the reader collects of a text type. */
  lemma ProducedPayload(s: Session, kind: nat, block: nat, double: bool) returns (p: seq<bv8>)
    requires SessionOk(s) && kind < 15 && ForTracks(kind) && block < 8 && FromSession(s).Some?
               && Regular(s, kind, block, double)
    ensures var q := FromSession(s).value;
            && HeadersOk(q) && Full(q)
            && p == Payload(EncodeAll(q), |q|, 0x80 + kind, block)
            && AnyDouble(EncodeAll(q), |q|, 0x80 + kind, block) == double
    ensures p != [] && |p| % 2 == 0 && Raw(s, kind, block) <= p
  {
    hide Stream; hide Raw; hide Regular; hide FromSession; hide Payload; hide EncodeAll; hide AnyDouble; hide Padded;
    hide SessionOk;
    var q := FromSession(s).value;
    RegularPresent(s, kind, block, double);
    ProducedStream(s, kind, block);
    CollectsStream(q, |q|, kind, block);
    assert q[..|q|] == q;
    RegularWidth(s, kind, block, double);
    ProducedWidth(s, kind, block, double);
    p := Payload(EncodeAll(q), |q|, 0x80 + kind, block);
    NonemptyRaw(s, kind, block);
    NonemptyStream(q, kind, block);
  }

  lemma NonemptyRaw(s: Session, kind: nat, block: nat)
    requires SessionOk(s) && kind < 15 && block < 8 && s.cdtext[block].Some?
               && s.cdtext[block].value.payload[kind] != []
    ensures Raw(s, kind, block) != [] && Raw(s, kind, block) <= Padded(Raw(s, kind, block))
  {
  }

  lemma ProducedStream(s: Session, kind: nat, block: nat)
    requires SessionOk(s) && kind < 15 && block < 8 && FromSession(s).Some? && s.cdtext[block].Some?
    ensures var q := FromSession(s).value;
            HeadersOk(q) && Full(q) && Stream(q, kind, block) == Padded(Raw(s, kind, block))
  {
    hide Stream; hide Raw; hide FromSession; hide Padded; hide InBlock; hide OfKind; hide Summary; hide Numbered;
    hide HeadersOk; hide Full;
    ProducedIsCoherent(s);
  }

  lemma RegularWidth(s: Session, kind: nat, block: nat, double: bool)
    requires SessionOk(s) && kind < 15 && block < 8 && Regular(s, kind, block, double)
    ensures SameWidth(s, kind, block, double)
  {
  }

  lemma {:induction false} NonemptyStream(packs: seq<Rec>, kind: nat, block: nat)
    requires Stream(packs, kind, block) != []
    ensures exists i: nat | i < |packs| :: Is(packs[i], kind, block)
  {
    var n := |packs| - 1;
    if !Is(packs[n], kind, block) {
      NonemptyStream(packs[..n], kind, block);
      var i: nat :| i < n && Is(packs[..n][i], kind, block);
      assert Is(packs[i], kind, block);
    }
  }

  // ------------------------------------------------------ the bytes of the array

  lemma {:induction false} NumberedAt(packs: seq<Rec>, i: nat)
    requires Numbered(packs) && i < |packs|
    ensures packs[i].num == InBlock(packs[..i], packs[i].block)
    decreases |packs|
  {
    hide InBlock;
    var n := |packs| - 1;
    if i < n {
      NumberedAt(packs[..n], i);
      assert packs[..n][..i] == packs[..i];
    }
  }

  /** In the byte array every checksum is right and every pack tells how many packs of its
      block precede it. */
  lemma ProducedBytes(s: Session)
    requires SessionOk(s) && FromSession(s).Some?
    ensures var q := FromSession(s).value;
            && HeadersOk(q) && Full(q)
            && Mismatches(EncodeAll(q), |q|) == 0
            && forall i: nat | i < |q| ::
                 var p := PackAt(EncodeAll(q), i);
                 BlockOf(p[3]) as int == q[i].block && p[2] as int == InBlock(q[..i], q[i].block)
  {
    hide FromSession; hide EncodeAll; hide Encode; hide PackOk; hide PackAt; hide BlockOf; hide InBlock; hide OfKind;
    hide Stream;
    hide Summary; hide Raw; hide Padded; hide Mismatches; hide Numbered;
    var q := FromSession(s).value;
    ProducedIsCoherent(s);
    forall i: nat | i < |q|
      ensures var p := PackAt(EncodeAll(q), i);
              PackOk(p) && BlockOf(p[3]) as int == q[i].block && p[2] as int == InBlock(q[..i], q[i].block)
    {
      EncodeAllAt(q, i);
      NumberedAt(q, i);
      BytesOfPack(q[i]);
    }
    MismatchesZero(EncodeAll(q), |q|);
  }

  lemma BytesOfPack(r: Rec)
    requires HeaderOk(r) && |r.data| == 12
    ensures var p := Encode(r); PackOk(p) && BlockOf(p[3]) as int == r.block && p[2] as int == r.num
  {
    hide Encode; hide PackOk; hide BlockOf; hide HeaderByte; hide DoubleFlag; hide ByteOf;
    EncodedFields(r, 0, 0);
    HeaderParts(r.double, r.block, r.pos);
    assert Encode(r)[3] == Encode(r)[..4][3];
  }
}
