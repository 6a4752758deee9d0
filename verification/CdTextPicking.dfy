/** The texts of a payload as pick_payload_text tells them apart, for any payload; and what the
    writer stores and enters in headers, without the writer's own arithmetic. */
module CdTextPicking {
  import opened CdTextWriter
  import opened Options
  import opened CdTextLaws
  import opened CdTextReader
  import opened CdTextHeads
  import opened CdTextRoundTrip

  // ---------------------------------------------------------------- picking

  /** A text without its end: whole characters, none of them 0. */
  predicate Clean(t: seq<bv8>, double: bool)
  {
    if double then |t| % 2 == 0 && forall i | 0 <= i < |t| / 2 :: t[2 * i] != 0 || t[2 * i + 1] != 0
    else 0 !in t
  }

  /** Texts, each with its end behind it */
  function Ended(texts: seq<seq<bv8>>, double: bool): seq<bv8>
  {
    if texts == [] then [] else Ended(texts[..|texts| - 1], double) + texts[|texts| - 1] + Term(double)
  }

  lemma CleanAt(t: seq<bv8>, j: nat, double: bool)
    requires Clean(t, double) && Whole(j, double) && j < |t|
    ensures t[j] != 0 || (double && j + 1 < |t| && t[j + 1] != 0)
    ensures j + Width(double) <= |t|
  {
    if double {
      assert j == 2 * (j / 2);
    }
  }

  lemma {:induction false} CleanRun(p: seq<bv8>, at: nat, t: seq<bv8>, j: nat, double: bool)
    requires Clean(t, double) && Whole(j, double) && j <= |t| && at + |t| <= |p| && p[at..at + |t|] == t
    ensures NextEnd(p, at + j, double) == NextEnd(p, at + |t|, double)
    decreases |t| - j
  {
    hide NextEnd; hide Clean;
    if j < |t| {
      CleanAt(t, j, double);
      assert p[at + j] == t[j];
      if double {
        assert p[at + j + 1] == t[j + 1];
      }
      EndStep(p, at + j, double);
      CleanRun(p, at, t, j + Width(double), double);
    }
  }

  lemma EndHere(p: seq<bv8>, at: nat, double: bool)
    requires at + Width(double) <= |p| && p[at..at + Width(double)] == Term(double)
    ensures NextEnd(p, at, double) == at
  {
    assert p[at] == p[at..at + Width(double)][0];
    if double {
      assert p[at + 1] == p[at..at + Width(double)][1];
    }
  }

  lemma {:induction false} EndedWhole(texts: seq<seq<bv8>>, double: bool)
    requires forall i | 0 <= i < |texts| :: Clean(texts[i], double)
    ensures Whole(|Ended(texts, double)|, double)
  {
    if texts != [] {
      EndedWhole(texts[..|texts| - 1], double);
      assert Clean(texts[|texts| - 1], double);
    }
  }

  lemma {:induction false} EndedSplit(texts: seq<seq<bv8>>, k: nat, rest: seq<bv8>, double: bool)
      returns (tail: seq<bv8>)
    requires k < |texts|
    ensures Ended(texts, double) + rest == Ended(texts[..k], double) + texts[k] + Term(double) + tail
    decreases |texts|
  {
    hide Term;
    var m := |texts| - 1;
    if k == m {
      tail := rest;
    } else {
      tail := EndedSplit(texts[..m], k, texts[m] + Term(double) + rest, double);
      assert texts[..m][..k] == texts[..k];
      assert Ended(texts[..m], double) + (texts[m] + Term(double) + rest) == Ended(texts, double) + rest;
    }
  }

  lemma EndedNext(texts: seq<seq<bv8>>, k: nat, double: bool)
    requires k < |texts|
    ensures Ended(texts[..k + 1], double) == Ended(texts[..k], double) + texts[k] + Term(double)
  {
    hide Term;
    assert texts[..k + 1][..k] == texts[..k] && texts[..k + 1][k] == texts[k];
  }

  /** Text k and its end in their places */
  lemma EndedParts(texts: seq<seq<bv8>>, k: nat, rest: seq<bv8>, double: bool)
    requires k < |texts|
    ensures var n := |Ended(texts[..k], double)|; var p := Ended(texts, double) + rest;
            && n + |texts[k]| + Width(double) <= |p|
            && p[n..n + |texts[k]|] == texts[k]
            && p[n + |texts[k]|..n + |texts[k]| + Width(double)] == Term(double)
  {
    hide Ended;
    var tail := EndedSplit(texts, k, rest, double);
    TermSize(double);
    Slices(Ended(texts[..k], double), texts[k], Term(double), tail);
  }

  lemma TermSize(double: bool)
    ensures |Term(double)| == Width(double)
  {
  }

  lemma Slices(a: seq<bv8>, t: seq<bv8>, e: seq<bv8>, rest: seq<bv8>)
    ensures var p := a + t + e + rest; var n := |a|;
            n + |t| + |e| <= |p| && p[n..n + |t|] == t && p[n + |t|..n + |t| + |e|] == e
  {
  }

  /** The end behind text k, if the text begins where it should */
  lemma EndOfText(texts: seq<seq<bv8>>, rest: seq<bv8>, k: nat, double: bool)
    requires (forall i | 0 <= i < |texts| :: Clean(texts[i], double)) && k < |texts|
    ensures var p := Ended(texts, double) + rest; var n := |Ended(texts[..k], double)|;
            n + |texts[k]| + Width(double) <= |p| && NextEnd(p, n, double) == n + |texts[k]|
  {
    hide NextEnd; hide Clean; hide Ended; hide Term;
    var p, n, t := Ended(texts, double) + rest, |Ended(texts[..k], double)|, texts[k];
    EndedParts(texts, k, rest, double);
    CleanRun(p, n, t, 0, double);
    EndHere(p, n + |t|, double);
  }

  /** Text k starts behind the first k texts and their ends. */
  lemma {:induction false} StartBehind(texts: seq<seq<bv8>>, rest: seq<bv8>, k: nat, double: bool)
    requires (forall i | 0 <= i < |texts| :: Clean(texts[i], double)) && k <= |texts|
    requires Whole(|Ended(texts, double) + rest|, double)
    ensures StartOf(Ended(texts, double) + rest, k, double) == Some(|Ended(texts[..k], double)|)
    decreases k
  {
    hide NextEnd; hide Clean; hide StartOf; hide Term;
    var p := Ended(texts, double) + rest;
    if k > 0 {
      hide Ended;
      StartBehind(texts, rest, k - 1, double);
      NextStart(p, k - 1, double);
      EndOfText(texts, rest, k - 1, double);
      EndedNext(texts, k - 1, double);
      TermSize(double);
    } else {
      StartAtZero(p, double);
    }
  }

  lemma CleanWhole(t: seq<bv8>, double: bool)
    requires Clean(t, double)
    ensures Whole(|t|, double)
  {
  }

  /** Any payload is some texts with ends and a rest without; picking gives the texts, the rest
      as the last one unless there is no other, and nothing beyond. */
  lemma PicksTexts(texts: seq<seq<bv8>>, rest: seq<bv8>, k: nat, double: bool)
    requires (forall i | 0 <= i < |texts| :: Clean(texts[i], double)) && Clean(rest, double)
    ensures var p := Ended(texts, double) + rest;
            && Whole(|p|, double)
            && Pick(p, k, double, false)
               == if k < |texts| then Some(texts[k])
                  else if k > |texts| then None
                  else if k == 0 then Some([]) else Some(rest)
  {
    hide NextEnd; hide Clean; hide StartOf; hide Pick; hide Ended; hide Term;
    var p, n := Ended(texts, double) + rest, |texts|;
    EndedWhole(texts, double);
    CleanWhole(rest, double);
    if k < n {
      PicksText(texts, rest, k, double);
    } else {
      StartBehind(texts, rest, n, double);
      assert texts[..n] == texts;
      var at := |Ended(texts, double)|;
      assert p[at..] == rest;
      RestHasNoEnd(p, at, rest, double);
      if k > n {
        NextStart(p, n, double);
        NoStart(p, n + 1, k, double);
        PickStep(p, k, double, false);
      } else if k > 0 {
        PickStep(p, k, double, false);
        assert p[at..|p|] == rest;
      } else {
        PickFirst(p, double, false);
        StartAtZero(p, double);
      }
    }
  }

  lemma PicksText(texts: seq<seq<bv8>>, rest: seq<bv8>, k: nat, double: bool)
    requires (forall i | 0 <= i < |texts| :: Clean(texts[i], double)) && k < |texts|
    requires Whole(|Ended(texts, double) + rest|, double)
    ensures Pick(Ended(texts, double) + rest, k, double, false) == Some(texts[k])
  {
    hide NextEnd; hide Clean; hide StartOf; hide Pick; hide Ended; hide Term;
    var p, n, t := Ended(texts, double) + rest, |Ended(texts[..k], double)|, texts[k];
    StartBehind(texts, rest, k, double);
    EndedParts(texts, k, rest, double);
    EndOfText(texts, rest, k, double);
    if k == 0 {
      StartAtZero(p, double);
      assert n == 0;
      PickFirst(p, double, false);
      WidthPositive(double);
      assert p[..|t|] == p[n..n + |t|];
    } else {
      PickStep(p, k, double, false);
    }
  }

  lemma WidthPositive(double: bool)
    ensures Width(double) > 0
  {
  }

  lemma RestHasNoEnd(p: seq<bv8>, at: nat, rest: seq<bv8>, double: bool)
    requires at <= |p| && p[at..] == rest && Clean(rest, double)
    ensures NextEnd(p, at, double) == |p|
  {
    assert p[at..at + |rest|] == rest;
    CleanRun(p, at, rest, 0, double);
    EndAtCount(p, double);
  }

  /** With the abbreviation resolved, a lone TAB stands for the text before it. */
  lemma {:induction false} PicksTabs(texts: seq<seq<bv8>>, rest: seq<bv8>, k: nat, double: bool)
    requires (forall i | 0 <= i < |texts| :: Clean(texts[i], double)) && Clean(rest, double) && 0 < k < |texts|
    ensures var p := Ended(texts, double) + rest;
            && Whole(|p|, double)
            && Pick(p, k, double, true)
               == if texts[k] == (if double then [TAB, TAB] else [TAB]) then Pick(p, k - 1, double, true)
                  else Some(texts[k])
  {
    hide NextEnd; hide Clean; hide StartOf; hide Pick; hide Ended;
    var p := Ended(texts, double) + rest;
    PicksTexts(texts, rest, k, double);
    PickStep(p, k, double, false);
    PickStep(p, k, double, true);
  }

  /** Every payload of whole characters has this form. */
  lemma {:induction false} PayloadHasTexts(p: seq<bv8>, double: bool) returns (texts: seq<seq<bv8>>, rest: seq<bv8>)
    requires Whole(|p|, double)
    ensures (forall i | 0 <= i < |texts| :: Clean(texts[i], double)) && Clean(rest, double)
    ensures p == Ended(texts, double) + rest
    decreases |p|
  {
    hide Clean; hide Term; hide Ended;
    NothingClean(double);
    if p == [] {
      texts, rest := [], [];
    } else {
      var last := LastCharacter(p, double);
      texts, rest := PayloadHasTexts(p[..|p| - |last|], double);
      assert p == Ended(texts, double) + rest + last;
      if last == Term(double) {
        OneMoreText(texts, rest, double);
        texts, rest := texts + [rest], [];
      } else {
        CleanGrows(rest, last, double);
        rest := rest + last;
      }
    }
  }

  lemma LastCharacter(p: seq<bv8>, double: bool) returns (last: seq<bv8>)
    requires p != [] && Whole(|p|, double)
    ensures 0 < |last| == Width(double) <= |p| && p == p[..|p| - |last|] + last && Whole(|p| - |last|, double)
  {
    last := p[|p| - Width(double)..];
  }

  lemma NothingClean(double: bool)
    ensures Clean([], double) && Ended([], double) == []
  {
  }

  lemma OneMoreText(texts: seq<seq<bv8>>, t: seq<bv8>, double: bool)
    ensures Ended(texts + [t], double) + [] == Ended(texts, double) + t + Term(double)
  {
    hide Term;
    var more := texts + [t];
    assert more[..|more| - 1] == texts;
  }

  lemma CleanGrows(t: seq<bv8>, last: seq<bv8>, double: bool)
    requires Clean(t, double) && |last| == Width(double) && last != Term(double)
    ensures Clean(t + last, double)
  {
    if double {
      assert last == [last[0], last[1]];
    } else {
      assert last == [last[0]];
    }
  }

  // ------------------------------------------------- what is stored, and positions

  /** A text as given: the bytes the caller has set, or a single 0 for a track without any. */
  lemma GivenIs(s: Session, kind: nat, block: nat, k: nat)
    requires SessionOk(s) && kind < 15 && block < 8 && s.cdtext[block].Some? && k <= |s.tracks|
    ensures Given(s, kind, block, k)
         == if k == 0 then s.cdtext[block].value.payload[kind]
            else if s.tracks[k - 1][block].None? || s.tracks[k - 1][block].value.payload[kind] == [] then [0]
            else s.tracks[k - 1][block].value.payload[kind]
  {
  }

  /** What the packs of a type hold: nothing without a text of the session; for titles, persons,
      messages and codes also the texts of all tracks; else the text of the session alone. */
  lemma StreamHolds(s: Session, kind: nat, block: nat)
    requires SessionOk(s) && kind < 15 && block < 8 && FromSession(s).Some? && s.cdtext[block].Some?
    ensures var t := if s.cdtext[block].value.payload[kind] == [] then []
                     else if kind in {0, 1, 2, 3, 4, 5, 14} then Prefix(s, kind, block, |s.tracks| + 1)
                     else s.cdtext[block].value.payload[kind];
            var stream := Stream(FromSession(s).value, kind, block);
            t <= stream && |stream| % 12 == 0 && |stream| - |t| < 12 && forall i | |t| <= i < |stream| :: stream[i] == 0
  {
    hide FromSession; hide Stream; hide Raw; hide Prefix; hide Stored; hide Padded;
    ProducedStream(s, kind, block);
    RawIs(s, kind, block);
    PaddedIs(Raw(s, kind, block));
  }

  lemma RawIs(s: Session, kind: nat, block: nat)
    requires SessionOk(s) && kind < 15 && block < 8 && s.cdtext[block].Some?
    ensures Raw(s, kind, block)
         == if s.cdtext[block].value.payload[kind] == [] then []
            else if kind in {0, 1, 2, 3, 4, 5, 14} then Prefix(s, kind, block, |s.tracks| + 1)
            else s.cdtext[block].value.payload[kind]
  {
    hide Prefix;
    var n := |s.tracks|;
    if s.cdtext[block].value.payload[kind] != [] && kind in {0, 1, 2, 3, 4, 5, 14} {
      PrefixOfRaw(s, kind, block, n + 1);
      assert Texts(s, n, kind, block) == [];
    }
  }

  lemma PaddedIs(t: seq<bv8>)
    ensures var p := Padded(t);
            t <= p && |p| % 12 == 0 && |p| - |t| < 12 && forall i | |t| <= i < |p| :: p[i] == 0
  {
  }

  /** A track's text is abbreviated exactly if the track before, not the session, has the same
      one in the same width, and the text is longer than its end mark. */
  lemma StoredIs(s: Session, kind: nat, block: nat, k: nat)
    requires SessionOk(s) && kind < 15 && block < 8 && s.cdtext[block].Some? && k <= |s.tracks|
    ensures var double := WidthOf(s, kind, block, k);
            Stored(s, kind, block, k)
            == if k > 1 && Given(s, kind, block, k) == Given(s, kind, block, k - 1)
                  && double == WidthOf(s, kind, block, k - 1) && |Given(s, kind, block, k)| > (if double then 2 else 1)
               then (if double then [9, 9, 0, 0] else [9, 0])
               else Given(s, kind, block, k)
  {
  }

  /** The position of a pack that begins with byte i of a text: how many characters of the text
      stand before it, 15 at most; without the genre code's two bytes, and 0 for binary types. */
  lemma PositionIs(kind: nat, double: bool, i: nat, length: nat)
    requires i < length
    ensures var m := if kind != 7 then i else if i < 2 then 0 else i - 2;
            var n := if double then m / 2 else m;
            Position(kind, double, i, length) == if 8 <= kind <= 12 || kind == 15 then 0 else if n < 15 then n else 15
  {
  }
}
