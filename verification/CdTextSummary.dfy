/** The block summaries of a finished array, byte by byte: what they tell is what can be counted
    in the array. */
module CdTextSummary {
  import opened CdTextWriter
  import opened CdTextLaws
  import opened CdTextBlocks
  import opened CdTextResult
  import opened CdTextBytes
  import opened CdTextRoundTrip

  /** The packs of a block, and those of one type among them, as sets of places. */
  ghost function OfBlock(q: seq<Rec>, block: nat): set<nat> { set i: nat | i < |q| && q[i].block == block }

  ghost function OfType(q: seq<Rec>, kind: nat, block: nat): set<nat>
  {
    set i: nat | i < |q| && q[i].block == block && q[i].kind == kind
  }

  lemma {:induction false} BlockCount(q: seq<Rec>, block: nat)
    ensures InBlock(q, block) == |OfBlock(q, block)|
  {
    if q != [] {
      var n := |q| - 1;
      BlockCount(q[..n], block);
      if q[n].block == block {
        assert OfBlock(q, block) == OfBlock(q[..n], block) + {n};
      } else {
        assert OfBlock(q, block) == OfBlock(q[..n], block);
      }
    }
  }

  lemma {:induction false} TypeCount(q: seq<Rec>, kind: nat, block: nat)
    ensures OfKind(q, kind, block) == |OfType(q, kind, block)|
  {
    if q != [] {
      var n := |q| - 1;
      TypeCount(q[..n], kind, block);
      if Is(q[n], kind, block) {
        assert OfType(q, kind, block) == OfType(q[..n], kind, block) + {n};
      } else {
        assert OfType(q, kind, block) == OfType(q[..n], kind, block);
      }
    }
  }

  lemma {:induction false} TypeWithinBlock(q: seq<Rec>, kind: nat, block: nat)
    ensures OfKind(q, kind, block) <= InBlock(q, block)
  {
    if q != [] {
      TypeWithinBlock(q[..|q| - 1], kind, block);
    }
  }

  /** The greatest number in a block, 0 if it has no packs. */
  ghost predicate LastNumber(q: seq<Rec>, block: nat, n: nat)
  {
    if forall i | 0 <= i < |q| :: q[i].block != block then n == 0
    else
      && (exists i: nat :: i < |q| && q[i].block == block && q[i].num == n)
      && forall i | 0 <= i < |q| && q[i].block == block :: q[i].num <= n
  }

  /** The summary tells the last number of a block. */
  ghost predicate TellsLast(q: seq<Rec>, summary: seq<bv8>, block: nat)
    requires |summary| == 36 && block < 8
  {
    LastNumber(q, block, summary[20 + block] as int)
  }

  /** Numbers grow from 0 without gap, so the last one is one less than the number of packs. */
  lemma {:induction false} NumbersGrow(q: seq<Rec>, block: nat)
    requires Numbered(q)
    ensures forall i | 0 <= i < |q| && q[i].block == block :: q[i].num < InBlock(q, block)
    ensures InBlock(q, block) > 0 ==>
              exists i: nat :: i < |q| && q[i].block == block && q[i].num == InBlock(q, block) - 1
  {
    if q != [] {
      var n := |q| - 1;
      NumbersGrow(q[..n], block);
      forall i | 0 <= i < |q| && q[i].block == block
        ensures q[i].num < InBlock(q, block)
      {
        if i < n {
          assert q[..n][i] == q[i];
        }
      }
      if q[n].block != block && InBlock(q, block) > 0 {
        var i: nat :| i < n && q[..n][i].block == block && q[..n][i].num == InBlock(q[..n], block) - 1;
        assert q[i].block == block && q[i].num == InBlock(q, block) - 1;
      } else if q[n].block == block {
        assert q[n].num == InBlock(q, block) - 1;
      }
    }
  }

  lemma LastNumberIs(q: seq<Rec>, block: nat)
    requires Numbered(q)
    ensures LastNumber(q, block, if InBlock(q, block) > 0 then InBlock(q, block) - 1 else 0)
  {
    hide Numbered; hide InBlock;
    NumbersGrow(q, block);
    if InBlock(q, block) == 0 {
      NoneOfBlock(q, block);
    }
  }

  /** All 36 bytes of the summary of a present block: the session's codes, its tracks, the packs
      of each type, and the last sequence number of every block. */
  lemma SummaryTold(s: Session, block: nat)
    requires SessionOk(s) && block < 8 && FromSession(s).Some? && s.cdtext[block].Some?
    ensures var q := FromSession(s).value;
            var t := Stream(q, 15, block);
            && |t| == 36
            && t[0] == s.charCode[block] && t[3] == s.copyright[block]
            && t[1] as int == s.firstTrack % 256 && t[2] as int == (s.firstTrack + |s.tracks| - 1) % 256
            && (forall k: nat | k < 15 :: t[4 + k] as int == |OfType(q, k, block)|)
            && t[19] == 3 && |OfType(q, 15, block)| == 3
            && (forall b: nat | b < 8 :: TellsLast(q, t, b))
            && (forall b: nat | b < 8 && |OfBlock(q, b)| > 0 :: t[20 + b] as int == |OfBlock(q, b)| - 1)
            && forall b: nat | b < 8 :: t[28 + b] == s.language[b]
  {
    hide FromSession; hide Stream; hide InBlock; hide OfKind; hide Numbered; hide Raw; hide Padded; hide Summary;
    hide LastNumber; hide OfType; hide OfBlock;
    ProducedIsCoherent(s);
    var q := FromSession(s).value;
    TypeCount(q, 15, block);
    SummaryAt(q, s, block);
    ByteOfInt(s.firstTrack);
    ByteOfInt(|s.tracks| + s.firstTrack - 1);
    forall k: nat | k < 15
      ensures Summary(q, s, block)[4 + k] as int == |OfType(q, k, block)|
    {
      TypeCount(q, k, block);
      TypeWithinBlock(q, k, block);
      ByteValue(OfKind(q, k, block));
    }
    forall b: nat | b < 8
      ensures TellsLast(q, Summary(q, s, block), b)
      ensures |OfBlock(q, b)| > 0 ==> Summary(q, s, block)[20 + b] as int == |OfBlock(q, b)| - 1
    {
      assert InBlock(q, b) <= 255;
      BlockCount(q, b);
      LastNumberIs(q, b);
      ByteValue(if InBlock(q, b) > 0 then InBlock(q, b) - 1 else 0);
    }
  }

  /** The bytes of a summary, one by one */
  lemma SummaryAt(q: seq<Rec>, s: Session, block: nat)
    requires SessionOk(s) && block < 8
    ensures var t := Summary(q, s, block);
            && t[0] == s.charCode[block] && t[3] == s.copyright[block]
            && t[1] == ByteOf(s.firstTrack) && t[2] == ByteOf(|s.tracks| + s.firstTrack - 1)
            && (forall k: nat | k < 15 :: t[4 + k] == ByteOf(OfKind(q, k, block)))
            && t[19] == 3
            && (forall b: nat | b < 8 :: t[20 + b] == ByteOf(if InBlock(q, b) > 0 then InBlock(q, b) - 1 else 0))
            && forall b: nat | b < 8 :: t[28 + b] == s.language[b]
  {
    hide OfKind; hide InBlock; hide ByteOf;
    var h := BlockSizes(q);
    var t := Summary(q, s, block);
    forall b: nat | b < 8
      ensures t[20 + b] == ByteOf(if h[b] > 0 then h[b] - 1 else 0)
    {
      if b < 4 {
        assert t[20 + b] == LastNumbers(h, 0)[b];
      } else {
        assert t[20 + b] == LastNumbers(h, 4)[b - 4];
      }
    }
    forall k: nat | k < 15
      ensures t[4 + k] == ByteOf(OfKind(q, k, block))
    {
      assert t[4 + k] == Bytes(Counts(q, block)[..15])[k];
    }
  }
}
