/** CD-TEXT blocks: all pack types of a block, its summary packs, and the whole array. */
module CdTextBlocks {
  import opened CdTextWriter
  import opened Options
  import opened CdTextLaws
  import opened ZeroRuns

  // ------------------------------------------------------- pack types of a block

  /** Packs that the pack types from kind on will take. */
  function KindsTotal(s: Session, kind: nat, block: nat): nat
    requires SessionOk(s) && kind <= 15 && block < 8
    decreases 15 - kind
  {
    if kind == 15 then 0 else PacksFor(|Raw(s, kind, block)|) + KindsTotal(s, kind + 1, block)
  }

  ghost predicate Same(c: Cursor, c': Cursor, k: nat, b: nat)
  {
    && Stream(All(c'), k, b) == Stream(All(c), k, b)
    && OfKind(All(c'), k, b) == OfKind(All(c), k, b)
    && Select(All(c'), k, b) == Select(All(c), k, b)
  }

  ghost predicate GrownKinds(c: Cursor, c': Cursor, s: Session, kind: nat, block: nat)
    requires SessionOk(s) && block < 8
  {
    && (forall k: nat | kind <= k < 15 ::
         Stream(All(c'), k, block) == Stream(All(c), k, block) + Padded(Raw(s, k, block)))
    && (forall k: nat, b: nat | b != block || k < kind || 15 <= k :: Same(c, c', k, b))
  }

  lemma {:induction false} KindsLaw(c: Cursor, s: Session, kind: nat, block: nat)
    requires SessionOk(s) && kind <= 15 && block < 8 && s.cdtext[block].Some? && Settled(c, block)
    ensures var r := Kinds(c, s, kind, block);
            && (r.Some? <==> c.hiseq[block] + KindsTotal(s, kind, block) <= 255)
            && (r.Some? ==>
                  && Settled(r.value, block)
                  && GrownKinds(c, r.value, s, kind, block)
                  && r.value.hiseq[block] == c.hiseq[block] + KindsTotal(s, kind, block))
    decreases 15 - kind
  {
    hide Stream; hide OfKind; hide Select; hide All; hide Counting; hide Good; hide SessionTexts; hide Raw;
    hide Padded; hide PacksFor;
    Unwrap(c);
    if kind < 15 {
      SessionTextsLaw(c, s, kind, block);
      var q := SessionTexts(c, s, kind, block);
      if q.Some? {
        Unwrap(q.value);
        KindsLaw(q.value, s, kind + 1, block);
        var r := Kinds(q.value, s, kind + 1, block);
        if r.Some? {
          forall k: nat, b: nat | b != block || k < kind || 15 <= k
            ensures Same(c, r.value, k, b)
          {
            assert Same(q.value, r.value, k, b);
          }
          forall k: nat | kind <= k < 15
            ensures Stream(All(r.value), k, block) == Stream(All(c), k, block) + Padded(Raw(s, k, block))
          {
            if k == kind {
              assert Same(q.value, r.value, k, block);
            }
          }
        }
      }
    }
  }

  // ------------------------------------------------------------- summary packs

  lemma {:induction false} PutTextOpen(c: Cursor, text: seq<bv8>, i: nat, d: Dest)
    requires Shaped(c) && DestOk(d) && i <= |text| && c.open.Some? && |c.open.value.data| + |text| - i <= 12
    ensures PutText(c, text, i, d) == Some(c.(open := Some(c.open.value.(data := c.open.value.data + text[i..]))))
    decreases |text| - i
  {
    if i == |text| {
      assert c.open.value.data + text[i..] == c.open.value.data;
    } else {
      PutTextOpen(Push(c, text[i]), text, i + 1, d);
      assert c.open.value.data + text[i..] == c.open.value.data + [text[i]] + text[i + 1..];
    }
  }

  /** Between two packs: none is open, or it is full. */
  predicate Boundary(c: Cursor) { c.open.Some? ==> |c.open.value.data| == 12 }

  /** Twelve bytes at a pack boundary fill exactly one pack. */
  lemma WholePack(c: Cursor, text: seq<bv8>, d: Dest)
    requires Shaped(c) && DestOk(d) && |text| == 12 && Boundary(c)
    ensures var r := PutText(c, text, 0, d);
            && (r.Some? ==> c.hiseq[d.block] < 255)
            && (r.Some? ==>
                 && r.value.done == All(c)
                 && r.value.open.Some?
                 && r.value.open.value.data == text
                 && r.value.open.value.track == d.track
                 && r.value.open.value.double == d.double && (d.kind == 15 ==> r.value.open.value.pos == 0)
                 && Is(r.value.open.value, d.kind, d.block)
                 && r.value.hiseq == c.hiseq[d.block := c.hiseq[d.block] + 1]
                 && r.value.count == c.count[d.kind := c.count[d.kind] + 1])
  {
    hide Prepare;
    PrepareAtBoundary(c, d);
    var p := Prepare(c, d, 0, 12);
    if p.Some? {
      var q := Push(p.value, text[0]);
      assert q.open.value == p.value.open.value.(data := [text[0]]);
      PutTextFirst(c, text, d);
      hide PutText;
      PutTextOpen(q, text, 1, d);
      assert [text[0]] + text[1..] == text;
    }
  }

  lemma PutTextFirst(c: Cursor, text: seq<bv8>, d: Dest)
    requires Shaped(c) && DestOk(d) && |text| == 12 && Prepare(c, d, 0, 12).Some?
    ensures PutText(c, text, 0, d) == PutText(Push(Prepare(c, d, 0, 12).value, text[0]), text, 1, d)
  {
    hide Prepare;
  }

  lemma PrepareAtBoundary(c: Cursor, d: Dest)
    requires Shaped(c) && DestOk(d) && Boundary(c)
    ensures var p := Prepare(c, d, 0, 12);
            p.Some? ==>
              && c.hiseq[d.block] < 255
              && p.value.done == All(c)
              && p.value.open.Some?
              && p.value.open.value.data == []
              && p.value.open.value.track == d.track
              && p.value.open.value.double == d.double && (d.kind == 15 ==> p.value.open.value.pos == 0)
              && Is(p.value.open.value, d.kind, d.block)
              && p.value.hiseq == c.hiseq[d.block := c.hiseq[d.block] + 1]
              && p.value.count == c.count[d.kind := c.count[d.kind] + 1]
  {
    hide Finalize; hide BinaryPart; hide Clamp; hide Full;
    CompleteFull(c);
    NoPosition(d.double);
  }

  /** Summary packs have no character position. */
  lemma NoPosition(double: bool)
    ensures Clamp((0 - BinaryPart(15, 12)) / (if double then 2 else 1)) == 0
  {
  }

  lemma CompleteFull(c: Cursor)
    requires Shaped(c) && Boundary(c)
    ensures Finalize(c) == c.(done := All(c), open := None)
  {
    if c.open.Some? {
      var r := c.open.value;
      assert r.data + Zeros(0) == r.data;
      assert r.(data := r.data) == r;
    }
  }

  function Counts(packs: seq<Rec>, block: nat): (n: seq<nat>)
    ensures |n| == 16 && forall k: nat | k < 16 :: n[k] == OfKind(packs, k, block)
  {
    seq(16, k requires 0 <= k < 16 => OfKind(packs, k, block))
  }

  /** The block ends in three summary packs that count all packs of the block. */
  ghost predicate Summarized(packs: seq<Rec>, s: Session, block: nat)
    requires SessionOk(s) && block < 8
  {
    var z := Select(packs, 15, block);
    && |z| == 3
    && forall i: nat | i < 3 :: z[i].kind == 15 && z[i].track == i && !z[i].double && z[i].pos == 0
        && z[i].data == SizeText(s, block, Counts(packs, block), i)
  }

  /** What one summary pack does. */
  ghost predicate SizePack(c: Cursor, r: Cursor, s: Session, block: nat, part: nat)
    requires SessionOk(s) && block < 8 && part < 3 && Shaped(c)
  {
    && Good(r) && Counting(r, block) && Ready(r, 15, block) && r.open.Some? && Boundary(r)
    && r.done == All(c)
    && r.open.value.kind == 15 && r.open.value.block == block && r.open.value.track == part
    && !r.open.value.double && r.open.value.pos == 0
    && r.open.value.data == SizeText(s, block, c.count, part)
    && r.hiseq == c.hiseq[block := c.hiseq[block] + 1]
    && r.count[..15] == c.count[..15]
    && Others(c, r, 15, block)
  }

  lemma SizePackLaw(c: Cursor, s: Session, block: nat, part: nat)
    requires SessionOk(s) && block < 8 && part < 3
    requires Good(c) && Counting(c, block) && Ready(c, 15, block) && Boundary(c)
    ensures var r := PutText(c, SizeText(s, block, c.count, part), 0, Dest(15, part, block, false));
            && (r.Some? <==> c.hiseq[block] < 255)
            && (r.Some? ==> SizePack(c, r.value, s, block, part))
  {
    hide PutText; hide Good; hide Counting; hide SizeText; hide Stream; hide Others; hide Streams;
    Unwrap(c);
    var text, d := SizeText(s, block, c.count, part), Dest(15, part, block, false);
    PutTextLaw(c, text, 0, d);
    assert text[0..] == text;
    PacksUsed(c, 15, block);
    WholePack(c, text, d);
  }

  lemma SizePacksLaw(c: Cursor, s: Session, block: nat)
    requires SessionOk(s) && block < 8 && Settled(c, block)
    requires Select(All(c), 15, block) == []
    ensures var r := SizePacks(c, s, block);
            && (r.Some? <==> c.hiseq[block] + 3 <= 255)
            && (r.Some? ==>
                  && Good(r.value) && r.value.open.None? && r.value.count == NO_COUNTS
                  && Others(c, r.value, 15, block)
                  && Summarized(All(r.value), s, block)
                  && r.value.hiseq[block] == c.hiseq[block] + 3)
  {
    hide PutText; hide Good; hide Counting; hide SizeText; hide Others; hide Stream; hide OfKind; hide Select;
    hide Full; hide Finalize;
    Unwrap(c);
    SizePackLaw(c, s, block, 0);
    var r0 := PutText(c, SizeText(s, block, c.count, 0), 0, Dest(15, 0, block, false));
    if r0.Some? {
      var c0 := r0.value;
      Unwrap(c0);
      SizePackLaw(c0, s, block, 1);
      var r1 := PutText(c0, SizeText(s, block, c0.count, 1), 0, Dest(15, 1, block, false));
      if r1.Some? {
        var c1 := r1.value;
        Unwrap(c1);
        SizePackLaw(c1, s, block, 2);
        var r2 := PutText(c1, SizeText(s, block, c1.count, 2), 0, Dest(15, 2, block, false));
        if r2.Some? {
          SizePacksDone(c, c0, c1, r2.value, s, block);
        }
      }
    }
  }

  lemma SizePacksDone(c: Cursor, c0: Cursor, c1: Cursor, c2: Cursor, s: Session, block: nat)
    requires SessionOk(s) && block < 8 && Settled(c, block)
    requires Select(All(c), 15, block) == []
    requires SizePack(c, c0, s, block, 0) && Shaped(c0) && SizePack(c0, c1, s, block, 1) && Shaped(c1)
               && SizePack(c1, c2, s, block, 2)
    ensures var r := Finalize(c2).(count := NO_COUNTS);
            && Good(r) && r.open.None? && r.count == NO_COUNTS
            && Others(c, r, 15, block)
            && Summarized(All(r), s, block)
            && r.hiseq[block] == c.hiseq[block] + 3
  {
    hide PutText; hide SizeText; hide Stream; hide OfKind; hide Select; hide Full; hide Finalize; hide InBlock;
    hide Numbered;
    CompleteFull(c2);
    var r := Finalize(c2).(count := NO_COUNTS);
    assert All(r) == All(c2);
    FullKept(c2);
    OthersChain(c, c0, c1, c2, 15, block);
    Snoc(All(c), c0.open.value, 15, block);
    Snoc(All(c0), c1.open.value, 15, block);
    Snoc(All(c1), c2.open.value, 15, block);
    var n := Counts(All(r), block);
    forall k: nat | k < 15
      ensures n[k] == c.count[k]
    {
      assert c2.count[..15][k] == c.count[..15][k];
    }
    SameCounts(s, block, c.count, n);
    SameCounts(s, block, c0.count, n);
    SameCounts(s, block, c1.count, n);
  }

  lemma FullKept(c: Cursor)
    requires Shaped(c) && Boundary(c)
    ensures Full(All(c))
  {
  }

  lemma OthersChain(c: Cursor, c0: Cursor, c1: Cursor, c2: Cursor, kind: nat, block: nat)
    requires Others(c, c0, kind, block) && Others(c0, c1, kind, block) && Others(c1, c2, kind, block)
    ensures Others(c, c2, kind, block)
  {
    hide OfKind; hide Select; hide All;
  }

  lemma SameCounts(s: Session, block: nat, m: seq<nat>, n: seq<nat>)
    requires SessionOk(s) && block < 8 && |m| == |n| == 16
    requires forall k: nat | k < 15 :: m[k] == n[k]
    ensures forall part: nat | part < 3 :: SizeText(s, block, m, part) == SizeText(s, block, n, part)
  {
    assert m[..8] == n[..8] && m[8..15] == n[8..15];
  }

  // ---------------------------------------------------------------- all blocks

  /** Stream and OfKind see only what Select sees. */
  lemma {:induction false} SelectDecides(p: seq<Rec>, q: seq<Rec>, kind: nat, block: nat)
    requires Select(p, kind, block) == Select(q, kind, block)
    ensures Stream(p, kind, block) == Stream(q, kind, block) && OfKind(p, kind, block) == OfKind(q, kind, block)
  {
    StreamOfSelect(p, kind, block);
    StreamOfSelect(q, kind, block);
  }

  function Data(packs: seq<Rec>): seq<bv8>
  {
    if packs == [] then [] else Data(packs[..|packs| - 1]) + packs[|packs| - 1].data
  }

  lemma {:induction false} StreamOfSelect(p: seq<Rec>, kind: nat, block: nat)
    ensures Stream(p, kind, block) == Data(Select(p, kind, block)) && OfKind(p, kind, block) == |Select(p, kind, block)|
  {
    if p != [] {
      var n := |p| - 1;
      StreamOfSelect(p[..n], kind, block);
      if Is(p[n], kind, block) {
        var z := Select(p[..n], kind, block) + [p[n]];
        assert z[..|z| - 1] == Select(p[..n], kind, block);
      } else {
        assert Select(p[..n], kind, block) + [] == Select(p[..n], kind, block);
        assert Stream(p[..n], kind, block) + [] == Stream(p[..n], kind, block);
      }
    }
  }

  lemma {:induction false} NoneInBlock(p: seq<Rec>, block: nat)
    requires forall k: nat :: Select(p, k, block) == []
    ensures InBlock(p, block) == 0
  {
    if p != [] {
      var n := |p| - 1;
      forall k: nat
        ensures Select(p[..n], k, block) == []
      {
        assert Select(p, k, block) == [];
      }
      NoneInBlock(p[..n], block);
      assert Select(p, p[n].kind, block) == [];
    }
  }

  function BlockTotal(s: Session, block: nat): nat
    requires SessionOk(s) && block < 8
  {
    KindsTotal(s, 0, block) + 3
  }

  /** The block needs no more packs than its one-byte sequence numbers can tell apart. */
  predicate Fits(s: Session, block: nat)
    requires SessionOk(s) && block < 8
  {
    s.cdtext[block].Some? ==> BlockTotal(s, block) <= 255
  }

  ghost predicate Empty(packs: seq<Rec>, block: nat) { forall k: nat :: Select(packs, k, block) == [] }

  ghost predicate BlockDone(packs: seq<Rec>, s: Session, block: nat)
    requires SessionOk(s) && block < 8
  {
    if s.cdtext[block].None? then Empty(packs, block)
    else Summarized(packs, s, block) && forall k: nat | k < 15 :: Stream(packs, k, block) == Padded(Raw(s, k, block))
  }

  ghost predicate SameBlock(p: seq<Rec>, q: seq<Rec>, block: nat)
  {
    forall k: nat :: Select(p, k, block) == Select(q, k, block)
  }

  lemma BlockDoneKept(p: seq<Rec>, q: seq<Rec>, s: Session, block: nat)
    requires SessionOk(s) && block < 8 && SameBlock(p, q, block) && BlockDone(p, s, block)
    ensures BlockDone(q, s, block)
  {
    hide Select; hide Stream; hide OfKind; hide SizeText; hide Raw; hide Padded;
    if s.cdtext[block].None? {
      forall k: nat
        ensures Select(q, k, block) == []
      {
        assert Select(p, k, block) == [];
      }
    } else {
      forall k: nat | k < 16
        ensures Stream(q, k, block) == Stream(p, k, block) && OfKind(q, k, block) == OfKind(p, k, block)
      {
        assert Select(p, k, block) == Select(q, k, block);
        SelectDecides(p, q, k, block);
      }
      assert Select(p, 15, block) == Select(q, 15, block);
      assert Counts(p, block) == Counts(q, block);
    }
  }

  /** Between two blocks. */
  ghost predicate Between(c: Cursor, block: nat)
  {
    Good(c) && c.open.None? && c.count == NO_COUNTS && forall b: nat | block <= b :: Empty(All(c), b)
  }

  lemma BetweenSettled(c: Cursor, block: nat)
    requires Between(c, block) && block < 8
    ensures Settled(c, block) && c.hiseq[block] == 0
  {
    hide Select; hide Stream; hide OfKind; hide InBlock; hide All; hide Numbered;
    assert Empty(All(c), block);
    NoneInBlock(All(c), block);
    forall k: nat | k < 16
      ensures OfKind(All(c), k, block) == 0
    {
      assert Select(All(c), k, block) == [];
      StreamOfSelect(All(c), k, block);
    }
  }

  lemma BlockLaw(c: Cursor, s: Session, block: nat)
    requires SessionOk(s) && block < 8 && Between(c, block)
    ensures var r := BlockPacks(c, s, block);
            && (r.Some? <==> Fits(s, block))
            && (r.Some? ==>
                  && Between(r.value, block + 1)
                  && BlockDone(All(r.value), s, block)
                  && forall b: nat | b != block :: SameBlock(All(c), All(r.value), b))
  {
    hide Select; hide Stream; hide OfKind; hide All; hide Good; hide Kinds; hide SizePacks; hide Counting;
    hide Summarized;
    Unwrap(c);
    if s.cdtext[block].Some? {
      BetweenSettled(c, block);
      KindsLaw(c, s, 0, block);
      var q := Kinds(c, s, 0, block);
      if q.Some? {
        Unwrap(q.value);
        assert Same(c, q.value, 15, block);
        assert Empty(All(c), block);
        assert Select(All(c), 15, block) == [];
        SizePacksLaw(q.value, s, block);
        var r := SizePacks(q.value, s, block);
        if r.Some? {
          BlockSteps(c, q.value, r.value, s, block);
        }
      }
    }
  }

  lemma BlockSteps(c: Cursor, q: Cursor, r: Cursor, s: Session, block: nat)
    requires SessionOk(s) && block < 8 && Between(c, block) && s.cdtext[block].Some?
    requires GrownKinds(c, q, s, 0, block) && Others(q, r, 15, block) && Summarized(All(r), s, block)
    requires Good(r) && r.open.None? && r.count == NO_COUNTS
    ensures Between(r, block + 1)
    ensures BlockDone(All(r), s, block)
    ensures forall b: nat | b != block :: SameBlock(All(c), All(r), b)
  {
    hide Select; hide Stream; hide OfKind; hide All; hide Good; hide Summarized; hide Raw; hide Padded;
    forall b: nat | b != block
      ensures SameBlock(All(c), All(r), b)
    {
      forall k: nat
        ensures Select(All(c), k, b) == Select(All(r), k, b)
      {
        assert Same(c, q, k, b);
        assert Select(All(r), k, b) == Select(All(q), k, b);
      }
    }
    forall b: nat | block + 1 <= b
      ensures Empty(All(r), b)
    {
      assert Empty(All(c), b) && SameBlock(All(c), All(r), b);
      forall k: nat
        ensures Select(All(r), k, b) == []
      {
        assert Select(All(c), k, b) == Select(All(r), k, b);
      }
    }
    assert Empty(All(c), block);
    forall k: nat | k < 15
      ensures Stream(All(r), k, block) == Padded(Raw(s, k, block))
    {
      assert Select(All(c), k, block) == [];
      StreamOfSelect(All(c), k, block);
      assert Data([]) == [];
      assert Select(All(r), k, block) == Select(All(q), k, block);
      SelectDecides(All(r), All(q), k, block);
    }
  }

  lemma {:induction false} BlocksLaw(c: Cursor, s: Session, block: nat)
    requires SessionOk(s) && block <= 8 && Between(c, block)
    requires forall b: nat | b < block :: BlockDone(All(c), s, b)
    ensures var r := Blocks(c, s, block);
            && (r.Some? <==> forall b: nat | block <= b < 8 :: Fits(s, b))
            && (r.Some? ==>
                 Good(r.value) && r.value.open.None? && forall b: nat | b < 8 :: BlockDone(All(r.value), s, b))
    decreases 8 - block
  {
    hide All; hide Good; hide BlockPacks; hide BlockDone; hide Fits; hide Empty;
    Unwrap(c);
    if block < 8 {
      BlockLaw(c, s, block);
      var q := BlockPacks(c, s, block);
      if q.Some? {
        forall b: nat | b < block + 1
          ensures BlockDone(All(q.value), s, b)
        {
          if b < block {
            BlockDoneKept(All(c), All(q.value), s, b);
          }
        }
        BlocksLaw(q.value, s, block + 1);
      }
    }
  }

  lemma StartOk()
    ensures Between(EMPTY, 0)
  {
    assert All(EMPTY) == [];
  }

  /** Packs are produced exactly if no block would need more than 255 of them. */
  lemma SucceedsExactly(s: Session)
    requires SessionOk(s)
    ensures FromSession(s).Some? <==> forall b: nat | b < 8 :: Fits(s, b)
  {
    hide All; hide Good; hide Fits; hide Empty; hide BlockDone;
    StartOk();
    BlocksLaw(EMPTY, s, 0);
  }
}
