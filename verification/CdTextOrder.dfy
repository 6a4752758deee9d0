/** The order of the packs in a finished array: block by block, and type by type in a block. */
module CdTextOrder {
  import opened CdTextWriter
  import opened CdTextLaws
  import opened CdTextHeads
  import opened ZeroRuns

  function Key(kind: nat, block: nat): nat { 16 * block + kind }

  function KeyOf(r: Rec): nat { Key(r.kind, r.block) }

  /** In ascending order, none beyond the given key. */
  ghost predicate Sorted(packs: seq<Rec>, top: nat)
  {
    && (forall i | 0 <= i < |packs| :: KeyOf(packs[i]) <= top)
    && forall i, j | 0 <= i <= j < |packs| :: KeyOf(packs[i]) <= KeyOf(packs[j])
  }

  /** q goes on from p with packs of one type and block. */
  ghost predicate GoesOn(p: seq<Rec>, q: seq<Rec>, key: nat)
  {
    && |p| <= |q|
    && (forall i | 0 <= i < |p| :: KeyOf(q[i]) == KeyOf(p[i]))
    && forall i | |p| <= i < |q| :: KeyOf(q[i]) == key
  }

  lemma GoesOnSorted(p: seq<Rec>, q: seq<Rec>, top: nat, key: nat)
    requires Sorted(p, top) && top <= key && GoesOn(p, q, key)
    ensures Sorted(q, key)
  {
    hide KeyOf;
    forall i, j | 0 <= i <= j < |q|
      ensures KeyOf(q[i]) <= KeyOf(q[j])
    {
      if j < |p| {
        assert KeyOf(p[i]) <= KeyOf(p[j]);
      }
    }
  }

  lemma SortedHigher(p: seq<Rec>, top: nat, key: nat)
    requires Sorted(p, top) && top <= key
    ensures Sorted(p, key)
  {
    hide KeyOf;
  }

  lemma FinalizeGoesOn(c: Cursor, key: nat)
    requires Shaped(c)
    ensures GoesOn(All(c), All(Finalize(c)), key)
  {
  }

  lemma PrepareGoesOn(c: Cursor, d: Dest, i: nat, length: nat)
    requires Shaped(c) && DestOk(d)
    ensures var p := Prepare(c, d, i, length); p.Some? ==> GoesOn(All(c), All(p.value), Key(d.kind, d.block))
  {
    hide BinaryPart; hide Clamp; hide Full; hide Zeros;
  }

  lemma PushGoesOn(c: Cursor, b: bv8, key: nat)
    requires Shaped(c) && c.open.Some? && |c.open.value.data| < 12
    ensures GoesOn(All(c), All(Push(c, b)), key)
  {
  }

  lemma {:induction false} PutTextGoesOn(c: Cursor, text: seq<bv8>, i: nat, d: Dest)
    requires Shaped(c) && DestOk(d) && i <= |text|
    ensures var r := PutText(c, text, i, d); r.Some? ==> GoesOn(All(c), All(r.value), Key(d.kind, d.block))
    decreases |text| - i
  {
    hide Prepare; hide Push; hide All; hide KeyOf; hide Key;
    if i < |text| {
      var p := Prepare(c, d, i, |text|);
      if p.Some? {
        PrepareGoesOn(c, d, i, |text|);
        PushGoesOn(p.value, text[i], Key(d.kind, d.block));
        PutTextGoesOn(Push(p.value, text[i]), text, i + 1, d);
      }
    }
  }

  lemma PutTextSorted(c: Cursor, text: seq<bv8>, d: Dest, top: nat)
    requires Shaped(c) && DestOk(d) && Sorted(All(c), top) && top <= Key(d.kind, d.block)
    ensures var r := PutText(c, text, 0, d); r.Some? ==> Sorted(All(r.value), Key(d.kind, d.block))
  {
    hide PutText; hide All; hide Sorted; hide GoesOn; hide Key;
    PutTextGoesOn(c, text, 0, d);
    var r := PutText(c, text, 0, d);
    if r.Some? {
      GoesOnSorted(All(c), All(r.value), top, Key(d.kind, d.block));
    }
  }

  lemma FinalizeSorted(c: Cursor, top: nat)
    requires Shaped(c) && Sorted(All(c), top)
    ensures Sorted(All(Finalize(c)), top)
  {
    hide Finalize; hide All; hide Sorted; hide GoesOn;
    FinalizeGoesOn(c, top);
    GoesOnSorted(All(c), All(Finalize(c)), top, top);
  }

  lemma {:induction false} TrackTextsSorted(c: Cursor, s: Session, i: nat, kind: nat, block: nat)
    requires Shaped(c) && SessionOk(s) && i <= |s.tracks| && kind < 16 && block < 8 && Sorted(All(c), Key(kind, block))
    ensures var r := TrackTexts(c, s, i, kind, block); r.Some? ==> Sorted(All(r.value), Key(kind, block))
    decreases |s.tracks| - i
  {
    hide PutText; hide All; hide Sorted; hide Key; hide TrackText; hide UsesTab;
    if i < |s.tracks| {
      var t := s.tracks[i][block];
      var text, d := TrackText(t, kind, UsesTab(s, i, kind, block)),
          Dest(kind, i + s.firstTrack, block, IsDouble(t, kind));
      PutTextSorted(c, text, d, Key(kind, block));
      var r := PutText(c, text, 0, d);
      if r.Some? {
        TrackTextsSorted(r.value, s, i + 1, kind, block);
      }
    }
  }

  lemma SessionTextsSorted(c: Cursor, s: Session, kind: nat, block: nat)
    requires Shaped(c) && SessionOk(s) && kind < 15 && block < 8 && s.cdtext[block].Some?
               && Sorted(All(c), Key(kind, block))
    ensures var r := SessionTexts(c, s, kind, block); r.Some? ==> Sorted(All(r.value), Key(kind, block))
  {
    hide PutText; hide All; hide Sorted; hide Key; hide TrackTexts; hide Finalize;
    var cdt := s.cdtext[block].value;
    if cdt.payload[kind] != [] {
      var d := Dest(kind, 0, block, cdt.double[kind]);
      PutTextSorted(c, cdt.payload[kind], d, Key(kind, block));
      var r := PutText(c, cdt.payload[kind], 0, d);
      if r.Some? {
        FinalizeSorted(r.value, Key(kind, block));
        TrackTextsSorted(r.value, s, 0, kind, block);
        var q := TrackTexts(r.value, s, 0, kind, block);
        if q.Some? {
          FinalizeSorted(q.value, Key(kind, block));
        }
      }
    }
  }

  lemma {:induction false} KindsSorted(c: Cursor, s: Session, kind: nat, block: nat)
    requires Shaped(c) && SessionOk(s) && kind <= 15 && block < 8 && s.cdtext[block].Some?
               && Sorted(All(c), Key(kind, block))
    ensures var r := Kinds(c, s, kind, block); r.Some? ==> Sorted(All(r.value), Key(15, block))
    decreases 15 - kind
  {
    hide All; hide Sorted; hide SessionTexts;
    if kind < 15 {
      SessionTextsSorted(c, s, kind, block);
      var r := SessionTexts(c, s, kind, block);
      if r.Some? {
        SortedHigher(All(r.value), Key(kind, block), Key(kind + 1, block));
        KindsSorted(r.value, s, kind + 1, block);
      }
    }
  }

  lemma SizePacksSorted(c: Cursor, s: Session, block: nat)
    requires Shaped(c) && SessionOk(s) && block < 8 && Sorted(All(c), Key(15, block))
    ensures var r := SizePacks(c, s, block); r.Some? ==> Sorted(All(r.value), Key(15, block))
  {
    hide PutText; hide Sorted; hide SizeText; hide Finalize; hide Key; hide All;
    var top := Key(15, block);
    PutTextSorted(c, SizeText(s, block, c.count, 0), Dest(15, 0, block, false), top);
    var r0 := PutText(c, SizeText(s, block, c.count, 0), 0, Dest(15, 0, block, false));
    if r0.Some? {
      PutTextSorted(r0.value, SizeText(s, block, r0.value.count, 1), Dest(15, 1, block, false), top);
      var r1 := PutText(r0.value, SizeText(s, block, r0.value.count, 1), 0, Dest(15, 1, block, false));
      if r1.Some? {
        PutTextSorted(r1.value, SizeText(s, block, r1.value.count, 2), Dest(15, 2, block, false), top);
        var r2 := PutText(r1.value, SizeText(s, block, r1.value.count, 2), 0, Dest(15, 2, block, false));
        if r2.Some? {
          FinalizeSorted(r2.value, top);
          CountsAside(Finalize(r2.value));
        }
      }
    }
  }

  lemma CountsAside(c: Cursor)
    ensures All(c.(count := NO_COUNTS)) == All(c)
  {
  }

  lemma {:induction false} BlocksSorted(c: Cursor, s: Session, block: nat)
    requires Shaped(c) && SessionOk(s) && block <= 8 && Sorted(All(c), Key(0, block))
    ensures var r := Blocks(c, s, block); r.Some? ==> Sorted(All(r.value), Key(0, 8))
    decreases 8 - block
  {
    hide All; hide Sorted; hide Kinds; hide SizePacks;
    if block < 8 {
      if s.cdtext[block].Some? {
        KindsSorted(c, s, 0, block);
        var q := Kinds(c, s, 0, block);
        if q.Some? {
          SizePacksSorted(q.value, s, block);
        }
      }
      var r := BlockPacks(c, s, block);
      if r.Some? {
        if s.cdtext[block].None? {
          SortedHigher(All(c), Key(0, block), Key(0, block + 1));
        } else {
          SortedHigher(All(r.value), Key(15, block), Key(0, block + 1));
        }
        BlocksSorted(r.value, s, block + 1);
      }
    }
  }

  /** Every finished array has its packs in the order of blocks, and within a block in the
      order of types, the summary at the end. */
  lemma PacksSorted(s: Session)
    requires SessionOk(s) && FromSession(s).Some?
    ensures Sorted(FromSession(s).value, Key(0, 8))
  {
    hide Blocks; hide LastNumbers; hide KeyOf; hide Key;
    assert All(EMPTY) == [];
    BlocksSorted(EMPTY, s, 0);
    FinalOpen(s);
    var c, q := Blocks(EMPTY, s, 0).value, FromSession(s).value;
    AllOfClosed(c);
    forall i | 0 <= i < |q|
      ensures KeyOf(q[i]) == KeyOf(c.done[i])
    {
      SameKey(c.done[i], c.hiseq);
    }
  }

  lemma SameKey(r: Rec, hiseq: seq<nat>)
    requires |r.data| == 12 && |hiseq| == 8
    ensures KeyOf(Patched(r, hiseq)) == KeyOf(r)
  {
  }
}
