/** Texts of two-byte characters, when some track has none: the writer stores a single 0 byte
    for it, so that the reader gets out of step. Exactly when all texts come back all the same. */
module CdTextGaps {
  import opened CdTextWriter
  import opened Options
  import opened CdTextLaws
  import opened CdTextBlocks
  import opened CdTextResult
  import opened CdTextReader
  import opened CdTextBytes
  import opened CdTextHeads
  import opened CdTextRoundTrip

  /** Track k has no text of the type. */
  predicate Missing(s: Session, kind: nat, block: nat, k: nat)
    requires SessionOk(s) && kind < 15 && block < 8 && k <= |s.tracks|
  {
    k > 0 && (s.tracks[k - 1][block].None? || s.tracks[k - 1][block].value.payload[kind] == [])
  }

  /** The texts there are have two-byte characters and none is a lone TAB. */
  predicate DoubleTexts(s: Session, kind: nat, block: nat)
    requires SessionOk(s) && kind < 15 && block < 8
  {
    && s.cdtext[block].Some?
    && forall k: nat | k <= |s.tracks| && !Missing(s, kind, block, k) ::
         WidthOf(s, kind, block, k) && TextOk(Given(s, kind, block, k), true)
             && !IsTab(Body(Given(s, kind, block, k), true), true)
  }

  /** What the user expects to read; nothing for a missing text. */
  function Wanted(s: Session, kind: nat, block: nat, k: nat): (text: seq<bv8>)
    requires SessionOk(s) && kind < 15 && block < 8 && DoubleTexts(s, kind, block) && k <= |s.tracks|
    ensures !IsTab(text, true) && |text| % 2 == 0
    ensures Missing(s, kind, block, k) ==> text == []
  {
    if Missing(s, kind, block, k) then [] else Body(Given(s, kind, block, k), true)
  }

  /** Every text is picked as it was given. */
  ghost predicate AllPicked(p: seq<bv8>, s: Session, kind: nat, block: nat)
    requires SessionOk(s) && kind < 15 && block < 8 && DoubleTexts(s, kind, block) && |p| % 2 == 0
  {
    forall k: nat | k <= |s.tracks| :: Pick(p, k, true, true) == Some(Wanted(s, kind, block, k))
  }

  /** The first missing text from k on; beyond the last track if there is none. */
  function FirstGap(s: Session, kind: nat, block: nat, k: nat): (i: nat)
    requires SessionOk(s) && kind < 15 && block < 8 && k <= |s.tracks| + 1
    ensures k <= i <= |s.tracks| + 1
    ensures i <= |s.tracks| ==> Missing(s, kind, block, i)
    ensures forall j: nat | k <= j < i :: !Missing(s, kind, block, j)
    decreases |s.tracks| + 1 - k
  {
    if k > |s.tracks| || Missing(s, kind, block, k) then k else FirstGap(s, kind, block, k + 1)
  }

  /** All texts from i on are empty, and the packs have room for all their text ends. */
  ghost predicate EmptyFrom(s: Session, kind: nat, block: nat, i: nat)
    requires SessionOk(s) && kind < 15 && block < 8 && DoubleTexts(s, kind, block) && i <= |s.tracks|
  {
    && (forall k: nat | i <= k <= |s.tracks| :: Wanted(s, kind, block, k) == [])
    && |Prefix(s, kind, block, i)| + 2 * (|s.tracks| - i) <= 12 * PacksFor(|Raw(s, kind, block)|)
  }

  lemma DoublePresent(s: Session, kind: nat, block: nat)
    requires SessionOk(s) && kind < 15 && block < 8 && DoubleTexts(s, kind, block)
    ensures s.cdtext[block].Some? && s.cdtext[block].value.payload[kind] != [] && s.cdtext[block].value.double[kind]
  {
    assert !Missing(s, kind, block, 0);
  }

  // -------------------------------------------------------- the texts before a gap

  /** The session with its first m tracks only. */
  function FirstTracks(s: Session, m: nat): Session
    requires m <= |s.tracks|
  {
    s.(tracks := s.tracks[..m])
  }

  lemma {:induction false} SamePrefix(s: Session, m: nat, kind: nat, block: nat, k: nat)
    requires SessionOk(s) && m <= |s.tracks| && kind < 15 && block < 8 && s.cdtext[block].Some? && k <= m + 1
    ensures SessionOk(FirstTracks(s, m))
    ensures Prefix(FirstTracks(s, m), kind, block, k) == Prefix(s, kind, block, k)
    ensures k <= m ==> Given(FirstTracks(s, m), kind, block, k) == Given(s, kind, block, k)
                       && Stored(FirstTracks(s, m), kind, block, k) == Stored(s, kind, block, k)
    decreases k
  {
    hide TrackText; hide Repeats;
    if k > 0 {
      SamePrefix(s, m, kind, block, k - 1);
    }
  }

  lemma FirstRegular(s: Session, m: nat, kind: nat, block: nat)
    requires SessionOk(s) && m <= |s.tracks| && kind < 15 && block < 8 && DoubleTexts(s, kind, block)
    requires forall k: nat | k <= m :: !Missing(s, kind, block, k)
    ensures SessionOk(FirstTracks(s, m)) && Regular(FirstTracks(s, m), kind, block, true)
  {
    hide TrackText; hide TextOk; hide IsTab; hide Body;
    var t := FirstTracks(s, m);
    forall k: nat | k <= m
      ensures TextOk(Given(t, kind, block, k), true)
    {
      SamePrefix(s, m, kind, block, k);
      assert !Missing(s, kind, block, k);
    }
    forall i | 0 <= i < m
      ensures IsDouble(t.tracks[i][block], kind)
    {
      assert !Missing(s, kind, block, i + 1);
    }
    assert !Missing(s, kind, block, 0);
  }

  lemma FirstRaw(s: Session, m: nat, kind: nat, block: nat)
    requires SessionOk(s) && m <= |s.tracks| && kind < 15 && ForTracks(kind) && block < 8 && s.cdtext[block].Some?
    requires s.cdtext[block].value.payload[kind] != []
    ensures SessionOk(FirstTracks(s, m)) && Raw(FirstTracks(s, m), kind, block) <= Raw(s, kind, block)
    ensures Raw(s, kind, block) == Prefix(s, kind, block, m + 1) + Texts(s, m, kind, block)
  {
    hide Raw;
    var t := FirstTracks(s, m);
    SamePrefix(s, m, kind, block, m + 1);
    PrefixOfRaw(s, kind, block, m + 1);
    PrefixOfRaw(t, kind, block, m + 1);
    assert Texts(t, m, kind, block) == [];
  }

  /** Before the first gap all is well. */
  lemma PickedBefore(p: seq<bv8>, s: Session, kind: nat, block: nat, m: nat, k: nat)
    requires SessionOk(s) && kind < 15 && ForTracks(kind) && block < 8 && DoubleTexts(s, kind, block)
               && k <= m <= |s.tracks|
    requires forall j: nat | j <= m :: !Missing(s, kind, block, j)
    requires |p| % 2 == 0 && Raw(s, kind, block) <= p
    ensures Pick(p, k, true, true) == Some(Wanted(s, kind, block, k))
    ensures |Prefix(s, kind, block, k + 1)| < |p| ==> StartOf(p, k + 1, true) == Some(|Prefix(s, kind, block, k + 1)|)
  {
    hide Raw; hide Regular; hide Pick; hide StartOf; hide NextEnd; hide TextOk; hide IsTab; hide Body; hide Given;
    hide Stored; hide OnlyTabs;
    hide Prefix;
    var t := FirstTracks(s, m);
    FirstRegular(s, m, kind, block);
    RegularPresent(t, kind, block, true);
    FirstRaw(s, m, kind, block);
    SamePrefix(s, m, kind, block, k);
    SamePrefix(s, m, kind, block, k + 1);
    PicksShown(p, t, kind, block, true, k);
    ShownExactly(t, kind, block, true, k);
    assert !Missing(s, kind, block, k);
    TextStart(p, t, kind, block, true, k);
    NextStart(p, k, true);
  }

  // ------------------------------------------------------------- only ends follow

  ghost predicate ZeroFrom(p: seq<bv8>, at: nat) { forall x | at <= x < |p| :: p[x] == 0 }

  lemma {:induction false} ZeroTexts(s: Session, kind: nat, block: nat, k: nat)
    requires SessionOk(s) && kind < 15 && block < 8 && DoubleTexts(s, kind, block) && 0 < k <= |s.tracks| + 1
    requires forall j: nat | k <= j <= |s.tracks| :: Wanted(s, kind, block, j) == []
    ensures ZeroFrom(Texts(s, k - 1, kind, block), 0)
    decreases |s.tracks| + 1 - k
  {
    if k <= |s.tracks| {
      ZeroStored(s, kind, block, k);
      ZeroTexts(s, kind, block, k + 1);
    }
  }

  lemma ZeroStored(s: Session, kind: nat, block: nat, k: nat)
    requires SessionOk(s) && kind < 15 && block < 8 && DoubleTexts(s, kind, block) && 0 < k <= |s.tracks|
    requires Wanted(s, kind, block, k) == []
    ensures Stored(s, kind, block, k) == if Missing(s, kind, block, k) then [0] else [0, 0]
  {
    if !Missing(s, kind, block, k) {
      var t := Given(s, kind, block, k);
      assert TextOk(t, true);
      assert |t| == 2 && t[0..] == t == [0, 0];
    }
  }

  /** In a run of zeros every text is empty, as long as it begins inside the payload. */
  lemma {:induction false} ZeroStarts(p: seq<bv8>, at: nat, i: nat, m: nat)
    requires |p| % 2 == 0 && at % 2 == 0 && at <= |p| && ZeroFrom(p, at) && StartOf(p, i, true) == Some(at)
    ensures StartOf(p, i + m, true) == if at + 2 * m <= |p| then Some(at + 2 * m) else None
    decreases m
  {
    hide StartOf; hide NextEnd;
    if m > 0 {
      ZeroStarts(p, at, i, m - 1);
      if at + 2 * (m - 1) <= |p| {
        NextStart(p, i + m - 1, true);
        ZeroEnd(p, at + 2 * (m - 1));
      } else {
        NoStart(p, i + m - 1, i + m, true);
      }
    }
  }

  lemma ZeroEnd(p: seq<bv8>, x: nat)
    requires x <= |p| && ZeroFrom(p, x)
    ensures NextEnd(p, x, true) == x
  {
    if x < |p| {
      EndStep(p, x, true);
    }
  }

  lemma ZeroPick(p: seq<bv8>, at: nat, i: nat, m: nat)
    requires |p| % 2 == 0 && at % 2 == 0 && at <= |p| && ZeroFrom(p, at) && i > 0 && StartOf(p, i, true) == Some(at)
    ensures Pick(p, i + m, true, true) == if at + 2 * m <= |p| then Some([]) else None
  {
    hide StartOf; hide NextEnd; hide Pick;
    ZeroStarts(p, at, i, m);
    PickStep(p, i + m, true, true);
    if at + 2 * m <= |p| {
      ZeroEnd(p, at + 2 * m);
      assert p[at + 2 * m..at + 2 * m] == [];
    }
  }

  lemma PaddedZero(raw: seq<bv8>, at: nat)
    requires at <= |raw| && ZeroFrom(raw, at)
    ensures ZeroFrom(Padded(raw), at) && raw <= Padded(raw)
  {
  }

  // --------------------------------------------------------- the reader is ahead

  /** Where the reader finds text k: p[start..end], the text proper. */
  ghost predicate ReadAt(p: seq<bv8>, k: nat, start: nat, raw: seq<bv8>)
    requires |p| % 2 == 0
  {
    && StartOf(p, k, true) == Some(start) && start + |raw| <= |p| && p[start..start + |raw|] == raw
    && start + |raw| == NextEnd(p, start, true)
  }

  lemma ReadsSome(p: seq<bv8>, k: nat) returns (start: nat, raw: seq<bv8>)
    requires |p| % 2 == 0 && k > 0 && Pick(p, k, true, true).Some?
    ensures ReadAt(p, k, start, raw)
    ensures Pick(p, k, true, true) == if IsTab(raw, true) then Pick(p, k - 1, true, true) else Some(raw)
  {
    hide StartOf; hide NextEnd; hide IsTab; hide Pick;
    PickStep(p, k, true, true);
    StartWhole(p, k, true);
    start := StartOf(p, k, true).value;
    EndInside(p, start);
    raw := p[start..NextEnd(p, start, true)];
  }

  lemma EndInside(p: seq<bv8>, start: nat)
    requires |p| % 2 == 0 && start % 2 == 0 && start <= |p|
    ensures start <= NextEnd(p, start, true) <= |p|
  {
  }

  lemma NextRead(p: seq<bv8>, k: nat, start: nat, raw: seq<bv8>, next: nat, raw': seq<bv8>)
    requires |p| % 2 == 0 && ReadAt(p, k, start, raw) && ReadAt(p, k + 1, next, raw')
    ensures next == start + |raw| + 2
  {
    hide StartOf; hide NextEnd;
    NextStart(p, k, true);
  }

  /** The stored text in its place. */
  lemma StoredAt(p: seq<bv8>, s: Session, kind: nat, block: nat, k: nat)
    requires SessionOk(s) && kind < 15 && ForTracks(kind) && block < 8 && s.cdtext[block].Some? && k <= |s.tracks|
    requires s.cdtext[block].value.payload[kind] != [] && Raw(s, kind, block) <= p
    ensures var at, t := |Prefix(s, kind, block, k)|, Stored(s, kind, block, k);
            |Prefix(s, kind, block, k + 1)| == at + |t| <= |p| && p[at..at + |t|] == t
  {
    hide Raw; hide Stored; hide Texts;
    FirstRaw(s, k, kind, block);
    InsidePrefix(p, Prefix(s, kind, block, k), Stored(s, kind, block, k), Texts(s, k, kind, block));
  }

  /** How a text is stored that is not empty. */
  lemma StoredForms(s: Session, kind: nat, block: nat, k: nat)
    requires SessionOk(s) && kind < 15 && block < 8 && DoubleTexts(s, kind, block) && 0 < k <= |s.tracks|
    requires Wanted(s, kind, block, k) != []
    ensures var t := Given(s, kind, block, k);
            && TextOk(t, true) && |t| >= 4 && Wanted(s, kind, block, k) == t[..|t| - 2]
            && Stored(s, kind, block, k) == if UsesTab(s, k - 1, kind, block) then [TAB, TAB, 0, 0] else t
    ensures UsesTab(s, k - 1, kind, block) ==> k > 1 && Wanted(s, kind, block, k - 1) == Wanted(s, kind, block, k)
  {
    var t := Given(s, kind, block, k);
    assert TextOk(t, true);
    if UsesTab(s, k - 1, kind, block) {
      assert !Missing(s, kind, block, k - 1);
      assert Given(s, kind, block, k - 1) == t;
    }
  }

  /** Two tracks in a row with the same text: the second one is abbreviated. */
  lemma SameTextsRepeat(s: Session, kind: nat, block: nat, k: nat)
    requires SessionOk(s) && kind < 15 && block < 8 && DoubleTexts(s, kind, block) && 1 < k <= |s.tracks|
    requires Wanted(s, kind, block, k) == Wanted(s, kind, block, k - 1) != []
    ensures UsesTab(s, k - 1, kind, block)
  {
    var t, u := Given(s, kind, block, k), Given(s, kind, block, k - 1);
    assert TextOk(t, true) && TextOk(u, true) && WidthOf(s, kind, block, k) && WidthOf(s, kind, block, k - 1);
    assert t == t[..|t| - 2] + t[|t| - 2..] && u == u[..|u| - 2] + u[|u| - 2..];
  }

  /** A text cannot stand one byte further on as well. */
  lemma NoShift(p: seq<bv8>, at: nat, t: seq<bv8>)
    requires TextOk(t, true) && |t| >= 4 && at + |t| <= |p| && p[at..at + |t|] == t
    ensures p[at + 1..at + 1 + (|t| - 2)] != t[..|t| - 2]
  {
    assert !IsTextEnd(t, 0, true);
    assert t[|t| - 2] == t[|t| - 2..][0] == 0;
    if p[at + 1..at + 1 + (|t| - 2)] == t[..|t| - 2] {
      forall j | 0 <= j < |t| - 2
        ensures t[j] == t[j + 1]
      {
        assert t[j] == t[..|t| - 2][j] == p[at + 1..at + 1 + (|t| - 2)][j] == p[at + 1 + j] == p[at..at + |t|][j + 1];
      }
      AllSame(t, |t| - 2);
    }
  }

  lemma {:induction false} AllSame(t: seq<bv8>, n: nat)
    requires n < |t| && forall j | 0 <= j < n :: t[j] == t[j + 1]
    ensures t[0] == t[n] && (n > 0 ==> t[1] == t[n])
    decreases n
  {
    if n > 0 {
      AllSame(t, n - 1);
    }
  }

  /** From the first gap on the reader is ahead of the writer, by more than one byte once it
      has seen a text that is not empty. */
  ghost predicate Ahead(s: Session, kind: nat, block: nat, i: nat, k: nat, start: nat)
    requires SessionOk(s) && kind < 15 && block < 8 && DoubleTexts(s, kind, block) && i <= k <= |s.tracks|
  {
    var at := |Prefix(s, kind, block, k)|;
    if k == i then start == at
    else start > at && (start == at + 1 ==> forall j: nat | i <= j < k :: Wanted(s, kind, block, j) == [])
  }

  /** What is read for a text that is not empty: the abbreviation where it was written,
      or the text itself. */
  lemma ReadForms(p: seq<bv8>, s: Session, kind: nat, block: nat, i: nat, k: nat, raw: seq<bv8>)
    requires SessionOk(s) && kind < 15 && block < 8 && DoubleTexts(s, kind, block) && 0 < i < k <= |s.tracks|
    requires Missing(s, kind, block, i) && |p| % 2 == 0 && AllPicked(p, s, kind, block)
    requires Pick(p, k, true, true) == if IsTab(raw, true) then Pick(p, k - 1, true, true) else Some(raw)
    ensures Wanted(s, kind, block, k) != [] ==> if IsTab(raw, true) then UsesTab(s, k - 1, kind, block)
              else raw == Wanted(s, kind, block, k)
  {
    hide Pick; hide IsTab; hide Wanted; hide UsesTab; hide DoubleTexts;
    if IsTab(raw, true) && Wanted(s, kind, block, k) != [] {
      assert Some(Wanted(s, kind, block, k)) == Some(Wanted(s, kind, block, k - 1));
      SameTextsRepeat(s, kind, block, k);
    }
  }

  /** One text on, the reader is still ahead. */
  lemma AheadStep(p: seq<bv8>, s: Session, kind: nat, block: nat, i: nat, k: nat, start: nat, raw: seq<bv8>)
    requires SessionOk(s) && kind < 15 && ForTracks(kind) && block < 8 && DoubleTexts(s, kind, block)
               && 0 < i <= k < |s.tracks|
    requires s.cdtext[block].value.payload[kind] != [] && Raw(s, kind, block) <= p && |p| % 2 == 0
    requires Missing(s, kind, block, i) && AllPicked(p, s, kind, block)
    requires Ahead(s, kind, block, i, k, start) && start + |raw| <= |p| && p[start..start + |raw|] == raw
    requires Pick(p, k, true, true) == if IsTab(raw, true) then Pick(p, k - 1, true, true) else Some(raw)
    ensures Ahead(s, kind, block, i, k + 1, start + |raw| + 2)
  {
    hide Raw; hide Pick; hide TextOk; hide UsesTab; hide DoubleTexts; hide Wanted; hide Stored; hide Given;
    hide AllPicked; hide Missing;
    hide Prefix;
    DoublePresent(s, kind, block);
    var at, t := |Prefix(s, kind, block, k)|, Stored(s, kind, block, k);
    StoredAt(p, s, kind, block, k);
    if Wanted(s, kind, block, k) == [] {
      ZeroStored(s, kind, block, k);
      assert k == i ==> Missing(s, kind, block, k);
    } else {
      assert k != i by { hide *; if k == i { WantedMissing(s, kind, block, k); } }
      ReadForms(p, s, kind, block, i, k, raw);
      assert start == at + 1 ==> Wanted(s, kind, block, k - 1) == [];
      StoredForms(s, kind, block, k);
      if !UsesTab(s, k - 1, kind, block) && start == at + 1 {
        NoShift(p, at, t);
      }
    }
  }

  lemma WantedMissing(s: Session, kind: nat, block: nat, k: nat)
    requires SessionOk(s) && kind < 15 && block < 8 && DoubleTexts(s, kind, block) && k <= |s.tracks|
               && Missing(s, kind, block, k)
    ensures Wanted(s, kind, block, k) == []
  {
  }

  lemma {:induction false} ReaderAhead(p: seq<bv8>, s: Session, kind: nat, block: nat, i: nat, k: nat)
      returns (start: nat, raw: seq<bv8>)
    requires SessionOk(s) && kind < 15 && ForTracks(kind) && block < 8 && DoubleTexts(s, kind, block)
               && 0 < i <= k <= |s.tracks|
    requires s.cdtext[block].value.payload[kind] != [] && Raw(s, kind, block) <= p && |p| % 2 == 0
    requires Missing(s, kind, block, i) && AllPicked(p, s, kind, block)
               && StartOf(p, i, true) == Some(|Prefix(s, kind, block, i)|)
    ensures ReadAt(p, k, start, raw) && Ahead(s, kind, block, i, k, start)
    ensures Pick(p, k, true, true) == if IsTab(raw, true) then Pick(p, k - 1, true, true) else Some(raw)
    decreases k
  {
    hide Raw; hide Pick; hide DoubleTexts; hide Wanted; hide Missing; hide Prefix; hide StartOf; hide NextEnd;
    hide IsTab;
    start, raw := ReadsSome(p, k);
    if k > i {
      var start', raw' := ReaderAhead(p, s, kind, block, i, k - 1);
      AheadStep(p, s, kind, block, i, k - 1, start', raw');
      NextRead(p, k - 1, start', raw', start, raw);
    }
  }

  /** A reader that is ahead finds nothing where only zeros follow the text. */
  lemma LastUnread(p: seq<bv8>, s: Session, kind: nat, block: nat, i: nat, k: nat, start: nat, raw: seq<bv8>)
    requires SessionOk(s) && kind < 15 && ForTracks(kind) && block < 8 && DoubleTexts(s, kind, block)
               && 0 < i < k <= |s.tracks|
    requires s.cdtext[block].value.payload[kind] != [] && Raw(s, kind, block) <= p && |p| % 2 == 0
    requires Missing(s, kind, block, i) && AllPicked(p, s, kind, block)
    requires ReadAt(p, k, start, raw) && Ahead(s, kind, block, i, k, start)
    requires Pick(p, k, true, true) == if IsTab(raw, true) then Pick(p, k - 1, true, true) else Some(raw)
    requires ZeroFrom(p, |Prefix(s, kind, block, k + 1)|)
    ensures Wanted(s, kind, block, k) == []
  {
    hide Raw; hide Pick; hide UsesTab; hide DoubleTexts; hide Wanted; hide Stored; hide Given; hide AllPicked;
    hide Missing; hide Prefix;
    hide StartOf; hide NextEnd; hide TextOk;
    DoublePresent(s, kind, block);
    var at, t := |Prefix(s, kind, block, k)|, Stored(s, kind, block, k);
    StoredAt(p, s, kind, block, k);
    assert start == at + 1 ==> Wanted(s, kind, block, k - 1) == [];
    if Wanted(s, kind, block, k) != [] {
      StoredForms(s, kind, block, k);
      if UsesTab(s, k - 1, kind, block) {
        TabZero(p, at);
        ZeroEnd(p, start);
        ReadForms(p, s, kind, block, i, k, raw);
      } else {
        ReadForms(p, s, kind, block, i, k, raw);
        LastByte(p, at, t, start);
      }
    }
  }

  lemma TabZero(p: seq<bv8>, at: nat)
    requires at + 4 <= |p| && p[at..at + 4] == [TAB, TAB, 0, 0] && ZeroFrom(p, at + 4)
    ensures ZeroFrom(p, at + 2)
  {
    assert p[at + 2] == p[at..at + 4][2] && p[at + 3] == p[at..at + 4][3];
  }

  lemma LastByte(p: seq<bv8>, at: nat, t: seq<bv8>, start: nat)
    requires TextOk(t, true) && |t| >= 4 && at + |t| <= |p| && p[at..at + |t|] == t && ZeroFrom(p, at + |t|)
               && start > at
    requires start + |t| - 2 <= |p|
    ensures p[start..start + |t| - 2] != t[..|t| - 2]
  {
    var n := |t| - 2;
    assert !IsTextEnd(t, n - 2, true);
    assert t[n..] == [0, 0];
    assert t[n] == t[n..][0] && t[n + 1] == t[n..][1];
    var u := if t[n - 1] != 0 then n - 1 else n - 2;
    assert t[u] != 0 && forall x | u < x < |t| :: t[x] == 0;
    assert p[start..start + n][u] == p[start + u] && t[..n][u] == t[u];
    assert start + u < at + |t| ==> p[start + u] == p[at..at + |t|][start + u - at];
  }

  // ------------------------------------------------------------------ the result

  /** The last text that is not empty. */
  lemma {:induction false} LastText(s: Session, kind: nat, block: nat, k: nat, n: nat) returns (m: nat)
    requires SessionOk(s) && kind < 15 && block < 8 && DoubleTexts(s, kind, block) && k <= n <= |s.tracks|
    requires Wanted(s, kind, block, k) != [] && forall j: nat | n < j <= |s.tracks| :: Wanted(s, kind, block, j) == []
    ensures k <= m <= |s.tracks| && Wanted(s, kind, block, m) != []
    ensures forall j: nat | m < j <= |s.tracks| :: Wanted(s, kind, block, j) == []
    decreases n
  {
    hide Wanted; hide DoubleTexts;
    if Wanted(s, kind, block, n) != [] {
      m := n;
    } else {
      m := LastText(s, kind, block, k, n - 1);
    }
  }

  /** Behind the texts that are not empty there are zeros only. */
  lemma ZeroBehind(s: Session, kind: nat, block: nat, k: nat)
    requires SessionOk(s) && kind < 15 && ForTracks(kind) && block < 8 && DoubleTexts(s, kind, block) && k <= |s.tracks|
    requires s.cdtext[block].value.payload[kind] != []
    requires forall j: nat | k < j <= |s.tracks| :: Wanted(s, kind, block, j) == []
    ensures ZeroFrom(Padded(Raw(s, kind, block)), |Prefix(s, kind, block, k + 1)|)
  {
    hide Raw; hide Wanted; hide DoubleTexts; hide Texts; hide Prefix; hide Padded;
    DoublePresent(s, kind, block);
    FirstRaw(s, k, kind, block);
    ZeroTexts(s, kind, block, k + 1);
    var raw, at := Raw(s, kind, block), |Prefix(s, kind, block, k + 1)|;
    assert forall x | at <= x < |raw| :: raw[x] == Texts(s, k, kind, block)[x - at];
    PaddedZero(raw, at);
  }

  /** The first missing text is read where it was written. */
  lemma GapStart(p: seq<bv8>, s: Session, kind: nat, block: nat, i: nat)
    requires SessionOk(s) && kind < 15 && ForTracks(kind) && block < 8 && DoubleTexts(s, kind, block)
               && 0 < i <= |s.tracks|
    requires forall j: nat | j < i :: !Missing(s, kind, block, j)
    requires s.cdtext[block].value.payload[kind] != [] && |p| % 2 == 0 && Raw(s, kind, block) <= p
    ensures |Prefix(s, kind, block, i)| < |p| && |Prefix(s, kind, block, i)| % 2 == 0
    ensures StartOf(p, i, true) == Some(|Prefix(s, kind, block, i)|)
  {
    hide Raw; hide Wanted; hide DoubleTexts; hide Prefix; hide StartOf; hide Pick; hide Stored;
    DoublePresent(s, kind, block);
    StoredAt(p, s, kind, block, i);
    SomeStored(s, kind, block, i);
    PickedBefore(p, s, kind, block, i - 1, i - 1);
    StartWhole(p, i, true);
  }

  lemma SomeStored(s: Session, kind: nat, block: nat, k: nat)
    requires SessionOk(s) && kind < 15 && block < 8 && s.cdtext[block].Some? && 0 < k <= |s.tracks|
    ensures |Stored(s, kind, block, k)| > 0
  {
  }

  /** All texts of the stored bytes are picked as given, if and only if no text is missing or
      only empty ones follow the first gap and the packs have room for their ends. */
  lemma PickedExactly(p: seq<bv8>, s: Session, kind: nat, block: nat)
    requires SessionOk(s) && kind < 15 && ForTracks(kind) && block < 8 && DoubleTexts(s, kind, block)
    requires s.cdtext[block].value.payload[kind] != [] && p == Padded(Raw(s, kind, block)) && |p| % 2 == 0
    ensures var i := FirstGap(s, kind, block, 0);
            AllPicked(p, s, kind, block) <==> (i > |s.tracks| || EmptyFrom(s, kind, block, i))
  {
    hide Raw; hide Wanted; hide DoubleTexts; hide Prefix; hide StartOf; hide Pick; hide Missing; hide NextEnd;
    hide IsTab;
    DoublePresent(s, kind, block);
    var i, n := FirstGap(s, kind, block, 0), |s.tracks|;
    assert |p| == 12 * PacksFor(|Raw(s, kind, block)|) by { PaddedSize(Raw(s, kind, block)); }
    forall k: nat | k < i && k <= n
      ensures Pick(p, k, true, true) == Some(Wanted(s, kind, block, k))
    {
      PickedBefore(p, s, kind, block, i - 1, k);
    }
    if i <= n {
      NotSession(s, kind, block, i);
      GapStart(p, s, kind, block, i);
      var at := |Prefix(s, kind, block, i)|;
      if forall k: nat | i <= k <= n :: Wanted(s, kind, block, k) == [] {
        ZeroBehind(s, kind, block, i - 1);
        forall k: nat | i <= k <= n
          ensures Pick(p, k, true, true) == if at + 2 * (k - i) <= |p| then Some([]) else None
        {
          ZeroPick(p, at, i, k - i);
        }
        assert Pick(p, n, true, true) == if at + 2 * (n - i) <= |p| then Some([]) else None;
      } else if AllPicked(p, s, kind, block) {
        WantedMissing(s, kind, block, i);
        var k: nat :| i <= k <= n && Wanted(s, kind, block, k) != [];
        var m := LastText(s, kind, block, k, n);
        var start, raw := ReaderAhead(p, s, kind, block, i, m);
        ZeroBehind(s, kind, block, m);
        LastUnread(p, s, kind, block, i, m, start, raw);
      }
    }
  }

  lemma NotSession(s: Session, kind: nat, block: nat, i: nat)
    requires SessionOk(s) && kind < 15 && block < 8 && i <= |s.tracks| && Missing(s, kind, block, i)
    ensures i > 0
  {
  }

  lemma PaddedSize(raw: seq<bv8>)
    ensures |Padded(raw)| == 12 * PacksFor(|raw|) && raw <= Padded(raw)
  {
  }

  /** The first pack of the type says that its characters have two bytes. */
  lemma FirstIsDouble(s: Session, kind: nat, block: nat)
    requires SessionOk(s) && kind < 15 && block < 8 && DoubleTexts(s, kind, block) && FromSession(s).Some?
    requires Stream(FromSession(s).value, kind, block) != []
    ensures exists i: nat | i < |FromSession(s).value| :: Is(FromSession(s).value[i], kind, block)
              && FromSession(s).value[i].double
  {
    hide FromSession; hide Stream; hide Heads; hide HeadAt; hide DoubleTexts;
    var q := FromSession(s).value;
    DoublePresent(s, kind, block);
    HeadsNonempty(q, kind, block);
    HeadersTell(s, kind, block, 0);
    HeadOfSession(s, kind, block);
    HeadsFrom(q, kind, block, 0);
  }

  lemma {:induction false} HeadsNonempty(packs: seq<Rec>, kind: nat, block: nat)
    requires Stream(packs, kind, block) != []
    ensures |Heads(packs, kind, block)| > 0
  {
    if packs != [] && !Is(packs[|packs| - 1], kind, block) {
      HeadsNonempty(packs[..|packs| - 1], kind, block);
    }
  }

  lemma HeadOfSession(s: Session, kind: nat, block: nat)
    requires SessionOk(s) && kind < 15 && block < 8 && s.cdtext[block].Some?
               && s.cdtext[block].value.payload[kind] != []
    ensures HeadAt(s, kind, block, 0).double == s.cdtext[block].value.double[kind]
  {
    FirstPrefix(s, kind, block);
    OwnerIs(s, kind, block, 0, 0, 0);
  }

  lemma {:induction false} HeadsFrom(packs: seq<Rec>, kind: nat, block: nat, n: nat)
    requires n < |Heads(packs, kind, block)|
    ensures exists i: nat | i < |packs| :: Is(packs[i], kind, block) && HeadOf(packs[i]) == Heads(packs, kind, block)[n]
  {
    var m := |packs| - 1;
    var g := Heads(packs[..m], kind, block);
    if n < |g| {
      HeadsFrom(packs[..m], kind, block, n);
      var i: nat :| i < m && Is(packs[..m][i], kind, block) && HeadOf(packs[..m][i]) == g[n];
      assert packs[i] == packs[..m][i];
    } else {
      assert Is(packs[m], kind, block);
    }
  }

  /** Two-byte texts, written and read again. The texts may be missing for some tracks. All
      of them come back as given, if and only if none is missing, or all that follow the
      first gap are empty and the packs of the type have room for two bytes for each. */
  lemma GapsExactly(s: Session, kind: nat, block: nat)
    requires SessionOk(s) && kind < 15 && ForTracks(kind) && block < 8 && FromSession(s).Some?
               && DoubleTexts(s, kind, block)
    ensures var q := FromSession(s).value;
            && HeadersOk(q) && Full(q)
            && AnyDouble(EncodeAll(q), |q|, 0x80 + kind, block)
            && var p := Payload(EncodeAll(q), |q|, 0x80 + kind, block);
               var i := FirstGap(s, kind, block, 0);
               AllPicked(p, s, kind, block) <==> (i > |s.tracks| || EmptyFrom(s, kind, block, i))
  {
    hide Stream; hide Raw; hide FromSession; hide Payload; hide EncodeAll; hide AnyDouble; hide Padded;
    hide DoubleTexts; hide AllPicked;
    hide EmptyFrom; hide SessionOk;
    var q := FromSession(s).value;
    DoublePresent(s, kind, block);
    ProducedStream(s, kind, block);
    CollectsStream(q, |q|, kind, block);
    assert q[..|q|] == q;
    NonemptyRaw(s, kind, block);
    FirstIsDouble(s, kind, block);
    PickedExactly(Payload(EncodeAll(q), |q|, 0x80 + kind, block), s, kind, block);
  }

  // ------------------------------------------------------------------ a session

  const NOTHING: seq<seq<bv8>> := [[], [], [], [], [], [], [], [], [], [], [], [], [], [], [], []]
  const SINGLE: seq<bool> := [false, false, false, false, false, false, false, false, false, false, false, false,
      false, false, false, false]
  const EIGHT: seq<bv8> := [0, 0, 0, 0, 0, 0, 0, 0]

  function TitleOnly(title: seq<bv8>): Option<CdText> { Some(CdText(NOTHING[0 := title], SINGLE[0 := true])) }

  function OnlyFirstBlock(t: Option<CdText>): seq<Option<CdText>> { [t, None, None, None, None, None, None, None] }

  /** Double-byte titles for the session and the second track, none for the first track. */
  const GAP_SESSION := Session(OnlyFirstBlock(TitleOnly([0x41, 0x42, 0, 0])),
                               [OnlyFirstBlock(None), OnlyFirstBlock(TitleOnly([0x43, 0x44, 0, 0]))],
                               1, EIGHT, EIGHT, EIGHT)

  lemma {:induction false} NoPacks(s: Session, kind: nat, block: nat)
    requires SessionOk(s) && kind <= 15 && block < 8 && forall k: nat | kind <= k < 15 :: Raw(s, k, block) == []
    ensures KindsTotal(s, kind, block) == 0
    decreases 15 - kind
  {
    hide Raw;
    if kind < 15 {
      NoPacks(s, kind + 1, block);
    }
  }

  lemma GapRaw()
    ensures SessionOk(GAP_SESSION)
    ensures Raw(GAP_SESSION, 0, 0) == [0x41, 0x42, 0, 0, 0, 0x43, 0x44, 0, 0]
    ensures forall k: nat | 1 <= k < 15 :: Raw(GAP_SESSION, k, 0) == []
  {
    var s := GAP_SESSION;
    assert TrackText(s.tracks[1][0], 0, UsesTab(s, 1, 0, 0)) == [0x43, 0x44, 0, 0];
    assert TrackText(s.tracks[0][0], 0, UsesTab(s, 0, 0, 0)) == [0];
    hide TrackText; hide UsesTab;
    assert Texts(s, 2, 0, 0) == [];
    assert Texts(s, 1, 0, 0) == [0x43, 0x44, 0, 0];
    assert Texts(s, 0, 0, 0) == [0, 0x43, 0x44, 0, 0];
    hide Texts;
  }

  lemma GapStream(p: seq<bv8>)
    requires p == [0x41, 0x42, 0, 0, 0, 0x43, 0x44, 0, 0, 0, 0, 0]
    ensures Pick(p, 1, true, true) == Some([0, 0x43, 0x44, 0]) && Pick(p, 2, true, true) == Some([])
  {
    EndStep(p, 0, true);
    EndStep(p, 2, true);
    assert StartOf(p, 1, true) == Some(4);
    EndStep(p, 4, true);
    EndStep(p, 6, true);
    EndStep(p, 8, true);
    assert StartOf(p, 2, true) == Some(10);
    EndStep(p, 10, true);
    PickStep(p, 1, true, true);
    PickStep(p, 2, true, true);
    assert p[4..8] == [0, 0x43, 0x44, 0] && p[10..10] == [];
  }

  lemma GapTotal(s: Session)
    requires SessionOk(s) && Raw(s, 0, 0) == [0x41, 0x42, 0, 0, 0, 0x43, 0x44, 0, 0]
    requires forall k: nat | 1 <= k < 15 :: Raw(s, k, 0) == []
    requires forall b | 0 < b < 8 :: s.cdtext[b].None?
    ensures forall b: nat | b < 8 :: Fits(s, b)
  {
    hide Raw;
    NoPacks(s, 1, 0);
    assert KindsTotal(s, 0, 0) == 1;
  }

  lemma GapPadded(raw: seq<bv8>)
    requires raw == [0x41, 0x42, 0, 0, 0, 0x43, 0x44, 0, 0]
    ensures Padded(raw) == [0x41, 0x42, 0, 0, 0, 0x43, 0x44, 0, 0, 0, 0, 0]
  {
  }

  predicate WrongPicks(p: seq<bv8>)
  {
    |p| == 12 && Pick(p, 1, true, true) == Some([0, 0x43, 0x44, 0]) && Pick(p, 2, true, true) == Some([])
  }

  predicate WrongTitles(s: Session)
    requires SessionOk(s)
  {
    FromSession(s).Some? && WrongPicks(Stream(FromSession(s).value, 0, 0))
  }

  /** The text of a track that has none is stored as one 0 byte even among double-byte texts:
      packs are produced, but the texts of the tracks come back wrong. */
  lemma MissingDoubleText() returns (s: Session)
    ensures SessionOk(s) && |s.tracks| == 2 && s.cdtext[0].Some? && s.tracks[0][0].None? && s.tracks[1][0].Some?
    ensures s.cdtext[0].value.double[0] && s.tracks[1][0].value.double[0]
    ensures TextOk(s.cdtext[0].value.payload[0], true) && s.tracks[1][0].value.payload[0] == [0x43, 0x44, 0, 0]
    ensures WrongTitles(s)
  {
    hide WrongTitles; hide Raw; hide TextOk;
    s := GAP_SESSION;
    GapRaw();
    TitleOk([0x41, 0x42, 0, 0]);
    GapStreams(s);
  }

  lemma TitleOk(t: seq<bv8>)
    requires t == [0x41, 0x42, 0, 0]
    ensures TextOk(t, true)
  {
    assert t[2..] == [0, 0];
  }

  lemma GapStreams(s: Session)
    requires SessionOk(s) && Raw(s, 0, 0) == [0x41, 0x42, 0, 0, 0, 0x43, 0x44, 0, 0] && s.cdtext[0].Some?
    requires forall k: nat | 1 <= k < 15 :: Raw(s, k, 0) == []
    requires forall b | 0 < b < 8 :: s.cdtext[b].None?
    ensures WrongTitles(s)
  {
    hide Raw; hide FromSession; hide Stream; hide InBlock; hide OfKind; hide Summary; hide Numbered; hide Pick;
    hide Fits; hide Padded;
    GapTotal(s);
    SucceedsExactly(s);
    ProducedIsCoherent(s);
    GapPadded(Raw(s, 0, 0));
    GapStream(Padded(Raw(s, 0, 0)));
  }
}
