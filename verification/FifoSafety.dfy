/** What every interleaving of the shoveller and the reader keeps. */
module FifoSafety {
  import opened Fifo

  /** x is a multiple of k, counted down in steps of k. */
  predicate Aligned(x: int, k: int)
    decreases x
  {
    k > 0 && (x == 0 || (x >= k && Aligned(x - k, k)))
  }

  /** Read size divides the ring and leaves room, request size divides the read size. */
  predicate Good(c: Config)
  {
    && c.size >= 1 && c.inp >= 1 && c.inp < c.BufSize()
    && Aligned(c.BufSize(), c.inp) && Aligned(c.inp, c.size) && Aligned(c.BufSize(), c.size)
  }

  function Cell(b: int, x: int): int { if x < b then x else x - b }

  function Used(h: History): int { h.published - h.released }

  predicate Filling(pc: FeederPc) { pc.FFill? || pc.FPublish? }

  predicate Draining(pc: FeederPc)
  {
    pc.FDrain? || pc.FDrainEnded? || pc.FClaim? || pc.FClaimSet? || pc.FRelease? || pc.FGone?
  }

  predicate Ending(pc: FeederPc) { pc.FExit? || pc.FEndInput? || Draining(pc) }

  predicate Copying(pc: ReaderPc) { pc.RCopy? || pc.RAdvance? }

  /** The reader's copy of the read position is current. */
  predicate PositionLoaded(pc: ReaderPc)
  {
    Copying(pc) || pc.RCheck? || pc.REndOfInput? || pc.RError? || pc.RAbort? || pc.RDiff?
  }

  predicate Positions(c: Config, data: seq<bv8>, readpos: int, writepos: int, wrapping: bool, h: History)
  {
    && 0 <= readpos <= c.BufSize() && 0 <= writepos < c.BufSize()
    && h.released <= h.published <= h.inCounter <= |data|
    && Used(h) < c.BufSize()
    && writepos == Cell(c.BufSize(), readpos + Used(h))
    && (readpos == c.BufSize() ==> wrapping)
    && (h.published < |data| ==> Aligned(h.published, c.inp) && Aligned(writepos, c.inp))
    && (h.released < |data| ==> Aligned(h.released, c.size) && Aligned(readpos, c.size))
  }

  /** The ring index k bytes behind position p. */
  function At(b: int, p: int, k: int): int { Cell(b, p + k) }

  /** The live cells are the ring image of bytes lo to hi - 1 behind the read position. */
  ghost predicate Ring(b: nat, data: seq<bv8>, m: Shared, released: int, lo: int, hi: int)
  {
    && |m.buf| == |m.live| == b && 0 <= m.readpos <= b
    && 0 <= lo <= hi < b && 0 <= released && released + hi <= |data|
    && (forall k | 0 <= k < b :: 0 <= At(b, m.readpos, k) < b && (m.live[At(b, m.readpos, k)] <==> lo <= k < hi))
    && (forall k | lo <= k < hi :: 0 <= At(b, m.readpos, k) < b && m.buf[At(b, m.readpos, k)] == data[released + k])
  }

  lemma RingFill(b: nat, data: seq<bv8>, m: Shared, released: int, lo: int, hi: int, i: int)
    requires Ring(b, data, m, released, lo, hi) && hi + 1 < b && released + hi < |data| && i == At(b, m.readpos, hi)
    ensures 0 <= i < b && !m.live[i]
    ensures Ring(b, data, m.(buf := m.buf[i := data[released + hi]], live := m.live[i := true]), released, lo, hi + 1)
  {
  }

  lemma RingTake(b: nat, data: seq<bv8>, m: Shared, released: int, lo: int, hi: int, i: int)
    requires Ring(b, data, m, released, lo, hi) && lo < hi && i == At(b, m.readpos, lo)
    ensures 0 <= i < b && m.live[i] && m.buf[i] == data[released + lo]
    ensures Ring(b, data, m.(live := m.live[i := false]), released, lo + 1, hi)
  {
  }

  lemma RingAdvance(b: nat, data: seq<bv8>, m: Shared, released: int, lo: int, hi: int)
    requires Ring(b, data, m, released, lo, hi) && m.readpos + lo <= b
    ensures Ring(b, data, m.(readpos := m.readpos + lo), released + lo, 0, hi - lo)
  {
    var p, p' := m.readpos, m.readpos + lo;
    forall k | 0 <= k < b
      ensures 0 <= At(b, p', k) < b && (m.live[At(b, p', k)] <==> 0 <= k < hi - lo)
    {
      assert At(b, p', k) == if k + lo < b then At(b, p, k + lo) else At(b, p, k + lo - b);
    }
    forall k | 0 <= k < hi - lo
      ensures 0 <= At(b, p', k) < b && m.buf[At(b, p', k)] == data[released + lo + k]
    {
      assert At(b, p', k) == At(b, p, k + lo);
    }
  }

  lemma RingWrap(b: nat, data: seq<bv8>, m: Shared, released: int, lo: int, hi: int)
    requires Ring(b, data, m, released, lo, hi) && m.readpos == b
    ensures Ring(b, data, m.(readpos := 0), released, lo, hi)
  {
    assert forall k | 0 <= k < b :: At(b, 0, k) == At(b, b, k);
  }

  lemma RingSame(b: nat, data: seq<bv8>, m: Shared, n: Shared, released: int, lo: int, hi: int)
    requires Ring(b, data, m, released, lo, hi) && m.buf == n.buf && m.live == n.live && m.readpos == n.readpos
    ensures Ring(b, data, n, released, lo, hi)
  {
  }

  // ------------------------------------------------------------- the invariant

  predicate PositionsOk(c: Config, data: seq<bv8>, s: State)
  {
    Positions(c, data, s.m.readpos, s.m.writepos, s.r.pc.RWrap?, s.h)
  }

  ghost predicate RingOk(c: Config, data: seq<bv8>, s: State)
  {
    Ring(c.BufSize(), data, s.m, s.h.released, s.r.copied, Used(s.h) + s.f.filled)
  }

  /** The chunk on its way into the ring. */
  predicate Chunk(c: Config, data: seq<bv8>, writepos: int, f: FeederLocals, h: History)
  {
    if Filling(f.pc) then
      && !f.transEnd && 1 <= f.ret <= c.inp && |f.chunk| == f.ret && 0 <= f.filled <= f.ret
      && h.inCounter == h.published + f.ret <= |data|
      && f.chunk == data[h.published..h.inCounter]
      && f.wpos == writepos && Used(h) + f.ret < c.BufSize() && writepos + f.ret <= c.BufSize()
      && (f.ret < c.inp ==> h.inCounter == |data|)
      && (f.pc.FPublish? ==> f.filled == f.ret)
    else
      && f.filled == 0 && h.inCounter == h.published
      && (f.pc.FSpace? || f.pc.FObtain? ==> f.wpos == writepos)
      && (f.pc.FObtain? ==> Used(h) + c.inp < c.BufSize() && (h.published < |data| ==> !f.transEnd))
  }

  /** Which flags can be set at which point. */
  predicate Flags(src: Source, m: Shared, fpc: FeederPc, rpc: ReaderPc, h: History)
  {
    && (Ending(fpc) ==> h.published == |src.data|)
    && (m.inputError ==> Ending(fpc) && src.fails)
    && (m.endOfInput ==> Draining(fpc))
    && (Draining(fpc) ==> m.endOfInput || h.aborted)
    && (fpc.FClaim? || fpc.FClaimSet? ==> Used(h) == 0 || h.aborted)
    && (fpc.FRelease? || fpc.FGone? || m.freed ==> m.endOfConsumption != 0)
    && (m.endOfConsumption != 0 ==> h.published == |src.data| && (h.aborted || (m.endOfInput && Used(h) == 0)))
    && (h.aborted ==> m.inputError && rpc.RStart? && m.endOfConsumption != 0)
    && (h.calls > 0 && h.last == 0 && !h.aborted ==>
          rpc.RStart? && m.endOfConsumption != 0 && h.released == |src.data|)
  }

  predicate AllRead(data: seq<bv8>, h: History) { h.published == |data| && Used(h) == 0 }

  /** The call in progress is served in one piece, or by the rest of the input. */
  predicate Call(c: Config, data: seq<bv8>, m: Shared, r: ReaderLocals, h: History)
  {
    && |r.buffer| == c.size && 0 <= r.todo <= c.size
    && (PositionLoaded(r.pc) ==> r.rpos == m.readpos && r.todo > 0)
    && (Copying(r.pc) || r.pc.RWrap? ==> r.todo == c.size && 1 <= r.diff <= c.size)
    && (!r.pc.RStart? && 0 < r.todo < c.size ==> AllRead(data, h))
    && (!Copying(r.pc) ==> r.copied == 0)
    && (Copying(r.pc) ==>
          && r.diff <= Used(h) && m.readpos + r.diff <= c.BufSize() && 0 <= r.copied <= r.diff
          && (r.pc.RAdvance? ==> r.copied == r.diff)
          && (r.diff < c.size ==> h.published == |data| && r.diff == Used(h)))
    && (r.pc.RWrap? && r.diff < c.size ==> AllRead(data, h))
    && (r.pc.RDiff? ==> Used(h) > 0 || m.endOfInput || r.todo < c.size)
    && (r.pc.RAbort? ==> m.inputError && r.todo == c.size)
    && (r.pc.RReturn? ==> r.todo == 0 || (Used(h) == 0 && (m.endOfInput || r.todo < c.size)))
  }

  /** Bytes of the current call that stand in the caller's buffer and are released. */
  function Got(c: Config, r: ReaderLocals): int
  {
    if r.pc.RStart? then 0 else if r.pc.RWrap? then r.diff else c.size - r.todo
  }

  /** The callers have received the source bytes in order. */
  predicate Stream(c: Config, data: seq<bv8>, r: ReaderLocals, h: History)
  {
    && h.released <= |data| && 0 <= Got(c, r) <= |r.buffer|
    && h.delivered + r.buffer[..Got(c, r)] == data[..h.released]
    && (Copying(r.pc) ==>
          && 0 <= r.copied <= |r.buffer| && h.released + r.copied <= |data|
          && r.buffer[..r.copied] == data[h.released..h.released + r.copied])
  }

  ghost predicate Inv(c: Config, src: Source, s: State)
  {
    && PositionsOk(c, src.data, s) && RingOk(c, src.data, s) && Chunk(c, src.data, s.m.writepos, s.f, s.h)
    && Flags(src, s.m, s.f.pc, s.r.pc, s.h) && Call(c, src.data, s.m, s.r, s.h) && Stream(c, src.data, s.r, s.h)
    && !s.fault
  }

  lemma InitInv(c: Config, src: Source)
    requires Good(c)
    ensures Inv(c, src, Init(c))
  {
    hide Inv; hide Good; hide Ring;
    GoodRing(c);
    EmptyRing(c.BufSize(), src.data, Init(c).m);
    StartInv(c, src, Init(c));
  }

  lemma GoodRing(c: Config)
    requires Good(c)
    ensures c.BufSize() > 0
  {
  }

  /** With an empty ring and nothing read the invariant holds. */
  lemma StartInv(c: Config, src: Source, s: State)
    requires Good(c) && Ring(c.BufSize(), src.data, s.m, 0, 0, 0)
               && s.m.readpos == s.m.writepos == s.m.endOfConsumption == 0
    requires !s.m.endOfInput && !s.m.inputError && !s.m.freed
    requires s.f.pc.FLoop? && s.f.filled == 0 && s.r.pc.RStart? && s.r.todo == s.r.copied == 0 && |s.r.buffer| == c.size
    requires s.h.inCounter == s.h.published == s.h.released == s.h.calls == 0 && s.h.delivered == [] && !s.h.aborted
               && !s.fault
    ensures Inv(c, src, s)
  {
    hide Config.BufSize; hide Ring; hide Aligned;
    AlignedBasics(c.inp);
    AlignedBasics(c.size);
    assert s.h.delivered + s.r.buffer[..0] == [] == src.data[..0];
  }

  lemma EmptyRing(b: nat, data: seq<bv8>, m: Shared)
    requires |m.buf| == |m.live| == b > 0 && m.readpos == 0 && forall k | 0 <= k < b :: !m.live[k]
    ensures Ring(b, data, m, 0, 0, 0)
  {
    assert forall k | 0 <= k < b :: At(b, 0, k) == k;
  }

  // ------------------------------------------------------------- the shoveller

  predicate FeederControls(pc: FeederPc) { !Filling(pc) && !pc.FObtain? && !pc.FSpace? }

  lemma FeederRunningFlags(c: Config, src: Source, s: State)
    requires FeederControls(s.f.pc) && !Draining(s.f.pc)
    requires PositionsOk(c, src.data, s) && Flags(src, s.m, s.f.pc, s.r.pc, s.h)
    ensures var t := FeederStep(c, src, s); Flags(src, t.m, t.f.pc, t.r.pc, t.h)
  {
    hide Aligned; hide Config.BufSize; hide FreeBytes; hide NextChunk; hide FillIndex; hide NextWritePos;
  }

  lemma FeederDrainingFlags(c: Config, src: Source, s: State)
    requires Draining(s.f.pc)
    requires PositionsOk(c, src.data, s) && Flags(src, s.m, s.f.pc, s.r.pc, s.h)
    ensures var t := FeederStep(c, src, s); Flags(src, t.m, t.f.pc, t.r.pc, t.h)
  {
    hide Aligned; hide Config.BufSize; hide FreeBytes; hide NextChunk; hide FillIndex; hide NextWritePos;
  }

  lemma FeederControlFrame(c: Config, src: Source, s: State)
    requires FeederControls(s.f.pc)
    ensures var t := FeederStep(c, src, s);
            && t.h == s.h && t.fault == s.fault && t.r == s.r && t.f.filled == s.f.filled
            && t.m.buf == s.m.buf && t.m.live == s.m.live && t.m.readpos == s.m.readpos && t.m.writepos == s.m.writepos
            && (s.m.endOfInput ==> t.m.endOfInput) && (s.m.inputError == t.m.inputError)
            && !Filling(t.f.pc) && !t.f.pc.FObtain? && (t.f.pc.FSpace? ==> t.f.wpos == s.m.writepos)
  {
    hide Config.BufSize; hide FreeBytes; hide NextChunk; hide FillIndex; hide NextWritePos;
  }

  lemma FeederControl(c: Config, src: Source, s: State)
    requires Good(c) && Inv(c, src, s) && FeederControls(s.f.pc)
    ensures Inv(c, src, FeederStep(c, src, s))
  {
    hide Ring; hide Positions; hide Flags; hide Stream; hide Config.BufSize; hide FeederStep;
    var t := FeederStep(c, src, s);
    if Draining(s.f.pc) {
      FeederDrainingFlags(c, src, s);
    } else {
      FeederRunningFlags(c, src, s);
    }
    FeederControlFrame(c, src, s);
    RingSame(c.BufSize(), src.data, s.m, t.m, s.h.released, s.r.copied, Used(s.h) + s.f.filled);
  }

  lemma {:induction false} AlignedSum(x: int, y: int, k: int)
    requires Aligned(x, k) && Aligned(y, k)
    ensures Aligned(x + y, k)
    decreases x
  {
    if x > 0 {
      AlignedSum(x - k, y, k);
    }
  }

  lemma {:induction false} AlignedDifference(x: int, y: int, k: int)
    requires Aligned(x, k) && Aligned(y, k) && x < y
    ensures x + k <= y && Aligned(y - x, k)
    decreases x
  {
    if x > 0 {
      AlignedDifference(x - k, y - k, k);
    }
  }

  lemma {:induction false} AlignedTransitive(x: int, y: int, k: int)
    requires Aligned(x, y) && Aligned(y, k)
    ensures Aligned(x, k)
    decreases x
  {
    if x > 0 {
      AlignedTransitive(x - y, y, k);
      AlignedSum(x - y, y, k);
    }
  }

  /** The shoveller's estimate is exact at the moment of reading, also when the read
      position stands at the ring's end. */
  lemma FreeIsExact(c: Config, data: seq<bv8>, s: State)
    requires PositionsOk(c, data, s)
    ensures FreeBytes(c.BufSize(), s.m.readpos, s.m.writepos) == c.BufSize() - 1 - Used(s.h)
  {
    hide Aligned; hide Config.BufSize;
  }

  lemma FeederSpace(c: Config, src: Source, s: State)
    requires Good(c) && Inv(c, src, s) && s.f.pc.FSpace?
    ensures Inv(c, src, FeederStep(c, src, s))
  {
    hide Ring; hide Stream; hide Config.BufSize; hide Call; hide FreeBytes; hide Aligned;
    FreeIsExact(c, src.data, s);
    if s.h.published < |src.data| {
      AlignedDifference(s.m.writepos, c.BufSize(), c.inp);
    }
    hide Positions;
  }

  lemma FeederObtain(c: Config, src: Source, s: State)
    requires Good(c) && Inv(c, src, s) && s.f.pc.FObtain?
    ensures Inv(c, src, FeederStep(c, src, s))
  {
    hide Ring; hide Stream; hide Config.BufSize; hide FreeBytes; hide Aligned; hide Call;
    var t := FeederStep(c, src, s);
    assert Call(c, src.data, t.m, t.r, t.h) by {
      FeederObtainCall(c, src, s);
    }
    assert Stream(c, src.data, t.r, t.h) by {
      StreamSame(c, src.data, s.r, s.h, t.h);
    }
    RingSame(c.BufSize(), src.data, s.m, t.m, s.h.released, s.r.copied, Used(s.h) + s.f.filled);
    if s.h.published < |src.data| {
      AlignedDifference(s.m.writepos, c.BufSize(), c.inp);
      assert t.f.chunk == src.data[t.h.published..t.h.inCounter];
    }
  }

  lemma FeederObtainCall(c: Config, src: Source, s: State)
    requires Call(c, src.data, s.m, s.r, s.h) && s.f.pc.FObtain? && Flags(src, s.m, s.f.pc, s.r.pc, s.h)
    ensures var t := FeederStep(c, src, s); Call(c, src.data, t.m, t.r, t.h)
  {
  }

  lemma StreamSame(c: Config, data: seq<bv8>, r: ReaderLocals, h: History, h': History)
    requires Stream(c, data, r, h) && h'.released == h.released && h'.delivered == h.delivered
    ensures Stream(c, data, r, h')
  {
  }

  lemma FeederFill(c: Config, src: Source, s: State)
    requires Good(c) && Inv(c, src, s) && s.f.pc.FFill?
    ensures Inv(c, src, FeederStep(c, src, s))
  {
    hide Ring; hide Stream; hide Config.BufSize; hide FreeBytes; hide Aligned; hide NextChunk; hide NextWritePos;
    if s.f.filled < |s.f.chunk| {
      RingBounds(c.BufSize(), src.data, s.m, s.h.released, s.r.copied, Used(s.h) + s.f.filled);
      RingFill(c.BufSize(), src.data, s.m, s.h.released, s.r.copied, Used(s.h) + s.f.filled, s.f.wpos + s.f.filled);
    }
  }

  lemma RingBounds(b: nat, data: seq<bv8>, m: Shared, released: int, lo: int, hi: int)
    requires Ring(b, data, m, released, lo, hi)
    ensures |m.buf| == |m.live| == b && 0 <= lo <= hi < b
  {
  }

  lemma FeederPublish(c: Config, src: Source, s: State)
    requires Good(c) && Inv(c, src, s) && s.f.pc.FPublish?
    ensures Inv(c, src, FeederStep(c, src, s))
  {
    hide Ring; hide Stream; hide Config.BufSize; hide FreeBytes; hide Aligned; hide NextChunk; hide FillIndex;
    var t := FeederStep(c, src, s);
    RingSame(c.BufSize(), src.data, s.m, t.m, s.h.released, s.r.copied, Used(s.h) + s.f.filled);
    StreamSame(c, src.data, s.r, s.h, t.h);
    if t.h.published < |src.data| {
      AlignedBasics(c.inp);
      AlignedSum(s.m.writepos, c.inp, c.inp);
      AlignedSum(s.h.published, c.inp, c.inp);
    }
  }

  lemma AlignedBasics(k: int)
    requires k > 0
    ensures Aligned(0, k) && Aligned(k, k)
  {
    assert Aligned(0, k);
  }

  // ----------------------------------------------------------------- the reader

  predicate ReaderControls(pc: ReaderPc)
  {
    pc.RStart? || pc.RLoop? || pc.RCheck? || pc.REndOfInput? || pc.RError? || pc.RAbort? || pc.RReturn?
  }

  lemma ReaderControlFrame(c: Config, s: State)
    requires ReaderControls(s.r.pc)
    ensures var t := ReaderStep(c, s);
            && t.f == s.f && t.fault == s.fault && t.r.copied == s.r.copied && t.r.buffer == s.r.buffer
            && t.m.buf == s.m.buf && t.m.live == s.m.live && t.m.readpos == s.m.readpos && t.m.writepos == s.m.writepos
            && t.m.freed == s.m.freed && t.m.endOfInput == s.m.endOfInput && t.m.inputError == s.m.inputError
            && t.h.inCounter == s.h.inCounter && t.h.published == s.h.published && t.h.released == s.h.released
            && !t.r.pc.RWrap? && !Copying(t.r.pc)
  {
    hide Config.BufSize;
  }

  lemma ReaderControlFlags(c: Config, src: Source, s: State)
    requires Good(c) && ReaderControls(s.r.pc)
    requires PositionsOk(c, src.data, s) && Flags(src, s.m, s.f.pc, s.r.pc, s.h) && Call(c, src.data, s.m, s.r, s.h)
    ensures var t := ReaderStep(c, s); Flags(src, t.m, t.f.pc, t.r.pc, t.h)
  {
    hide Config.BufSize; hide Aligned;
  }

  lemma ReaderControlCall(c: Config, data: seq<bv8>, s: State)
    requires Good(c) && ReaderControls(s.r.pc)
    requires PositionsOk(c, data, s) && Call(c, data, s.m, s.r, s.h)
    ensures var t := ReaderStep(c, s); Call(c, data, t.m, t.r, t.h)
  {
    hide Config.BufSize; hide Aligned;
  }

  lemma ReaderControlStream(c: Config, data: seq<bv8>, s: State)
    requires Good(c) && ReaderControls(s.r.pc)
    requires Call(c, data, s.m, s.r, s.h) && Stream(c, data, s.r, s.h)
    ensures var t := ReaderStep(c, s); Stream(c, data, t.r, t.h)
  {
    hide Config.BufSize; hide Aligned;
    assert s.h.delivered + [] == s.h.delivered;
  }

  lemma ReaderControl(c: Config, src: Source, s: State)
    requires Good(c) && Inv(c, src, s) && ReaderControls(s.r.pc)
    ensures Inv(c, src, ReaderStep(c, s))
  {
    hide Ring; hide Flags; hide Stream; hide Config.BufSize; hide ReaderStep; hide Call; hide Aligned;
    var t := ReaderStep(c, s);
    ReaderControlFrame(c, s);
    ReaderControlFlags(c, src, s);
    ReaderControlCall(c, src.data, s);
    ReaderControlStream(c, src.data, s);
    RingSame(c.BufSize(), src.data, s.m, t.m, s.h.released, s.r.copied, Used(s.h) + s.f.filled);
  }

  /** With the positions aligned, the reader finds its whole request in one piece,
      unless the input has ended. */
  lemma OnePiece(c: Config, src: Source, s: State)
    requires Good(c) && Inv(c, src, s) && s.r.pc.RDiff? && Used(s.h) > 0
    ensures var d := ReaderStep(c, s).r.diff;
            && s.r.todo == c.size && ReaderStep(c, s).r.pc.RCopy?
            && 1 <= d <= c.size && d <= Used(s.h) && s.m.readpos + d <= c.BufSize()
            && (d < c.size ==> s.h.published == |src.data| && d == Used(s.h))
  {
    hide Ring; hide Stream; hide Config.BufSize; hide Aligned; hide Flags; hide Chunk;
    AlignedDifference(s.m.readpos, c.BufSize(), c.size);
    if s.h.published < |src.data| {
      AlignedTransitive(s.h.published, c.inp, c.size);
      AlignedDifference(s.h.released, s.h.published, c.size);
    }
  }

  lemma ReaderDiff(c: Config, src: Source, s: State)
    requires Good(c) && Inv(c, src, s) && s.r.pc.RDiff?
    ensures Inv(c, src, ReaderStep(c, s))
  {
    hide Ring; hide Config.BufSize; hide Aligned; hide Chunk;
    if Used(s.h) > 0 {
      OnePiece(c, src, s);
    }
  }

  lemma FilledSize(c: Config, data: seq<bv8>, s: State)
    requires Chunk(c, data, s.m.writepos, s.f, s.h)
    ensures s.f.filled >= 0
  {
  }

  /** The byte to copy stands inside the ring, is live, and is the next one of the source. */
  lemma ReaderCopyRing(c: Config, src: Source, s: State)
    requires Good(c) && Inv(c, src, s) && s.r.pc.RCopy? && s.r.copied < s.r.diff
    ensures var t := ReaderStep(c, s);
            && !t.fault && RingOk(c, src.data, t)
            && t == State(s.m.(live := t.m.live), s.f,
                          s.r.(buffer := s.r.buffer[s.r.copied := src.data[s.h.released + s.r.copied]],
                               copied := s.r.copied + 1), s.h, false)
  {
    hide Ring; hide Config.BufSize; hide Aligned; hide Chunk; hide Stream;
    var hi := Used(s.h) + s.f.filled;
    FilledSize(c, src.data, s);
    RingBounds(c.BufSize(), src.data, s.m, s.h.released, s.r.copied, hi);
    RingTake(c.BufSize(), src.data, s.m, s.h.released, s.r.copied, hi, s.r.rpos + s.r.copied);
  }

  lemma ReaderCopyStream(c: Config, data: seq<bv8>, r: ReaderLocals, h: History, r': ReaderLocals)
    requires Stream(c, data, r, h) && r.pc.RCopy? && r.todo == c.size && 0 <= r.copied < |r.buffer|
    requires h.released + r.copied < |data|
    requires r' == r.(buffer := r.buffer[r.copied := data[h.released + r.copied]], copied := r.copied + 1)
    ensures Stream(c, data, r', h)
  {
    assert r'.buffer[..r'.copied] == r.buffer[..r.copied] + [data[h.released + r.copied]];
    assert r'.buffer[..0] == r.buffer[..0];
  }

  lemma ReaderCopy(c: Config, src: Source, s: State)
    requires Good(c) && Inv(c, src, s) && s.r.pc.RCopy?
    ensures Inv(c, src, ReaderStep(c, s))
  {
    hide Ring; hide Config.BufSize; hide Chunk; hide Stream; hide Aligned;
    var t := ReaderStep(c, s);
    if s.r.copied < s.r.diff {
      ReaderCopyRing(c, src, s);
      ReaderCopyStream(c, src.data, s.r, s.h, t.r);
    } else {
      assert Stream(c, src.data, t.r, t.h) by { ReaderCopyEnd(c, src.data, s.r, s.h); }
    }
  }

  lemma ReaderCopyEnd(c: Config, data: seq<bv8>, r: ReaderLocals, h: History)
    requires Stream(c, data, r, h) && r.pc.RCopy?
    ensures Stream(c, data, r.(pc := RAdvance), h)
  {
  }

  lemma ReaderAdvanceStream(c: Config, src: Source, s: State)
    requires Call(c, src.data, s.m, s.r, s.h) && Stream(c, src.data, s.r, s.h) && s.r.pc.RAdvance?
    requires Used(s.h) >= s.r.diff && s.h.published <= |src.data|
    ensures var t := ReaderStep(c, s); Stream(c, src.data, t.r, t.h)
  {
    hide Config.BufSize;
    var n := s.h.released;
    assert s.h.delivered + [] == s.h.delivered == src.data[..n];
    assert src.data[..n] + src.data[n..n + s.r.diff] == src.data[..n + s.r.diff];
  }

  lemma ReaderAdvancePositions(c: Config, src: Source, s: State)
    requires Good(c) && PositionsOk(c, src.data, s) && Call(c, src.data, s.m, s.r, s.h) && s.r.pc.RAdvance?
    ensures PositionsOk(c, src.data, ReaderStep(c, s))
  {
    hide Config.BufSize; hide Aligned;
    if s.h.released + s.r.diff < |src.data| {
      AlignedBasics(c.size);
      AlignedSum(s.h.released, c.size, c.size);
      AlignedSum(s.m.readpos, c.size, c.size);
    }
  }

  lemma ReaderAdvanceRest(c: Config, src: Source, s: State)
    requires PositionsOk(c, src.data, s) && Call(c, src.data, s.m, s.r, s.h) && s.r.pc.RAdvance?
    requires Flags(src, s.m, s.f.pc, s.r.pc, s.h) && Chunk(c, src.data, s.m.writepos, s.f, s.h)
    ensures var t := ReaderStep(c, s);
            && Flags(src, t.m, t.f.pc, t.r.pc, t.h) && Call(c, src.data, t.m, t.r, t.h)
            && Chunk(c, src.data, t.m.writepos, t.f, t.h)
  {
    hide Config.BufSize; hide Aligned;
  }

  lemma ReaderAdvance(c: Config, src: Source, s: State)
    requires Good(c) && Inv(c, src, s) && s.r.pc.RAdvance?
    ensures Inv(c, src, ReaderStep(c, s))
  {
    hide Ring; hide Config.BufSize; hide Aligned; hide Flags; hide Chunk; hide Stream; hide Positions;
    UsedBounds(c, src.data, s);
    ReaderAdvanceStream(c, src, s);
    ReaderAdvancePositions(c, src, s);
    ReaderAdvanceRest(c, src, s);
    RingAdvance(c.BufSize(), src.data, s.m, s.h.released, s.r.copied, Used(s.h) + s.f.filled);
  }

  lemma UsedBounds(c: Config, data: seq<bv8>, s: State)
    requires PositionsOk(c, data, s)
    ensures s.h.published <= |data|
  {
  }

  lemma ReaderWrap(c: Config, src: Source, s: State)
    requires Good(c) && Inv(c, src, s) && s.r.pc.RWrap?
    ensures Inv(c, src, ReaderStep(c, s))
  {
    hide Ring; hide Config.BufSize; hide Aligned;
    var t := ReaderStep(c, s);
    var hi := Used(s.h) + s.f.filled;
    if s.m.readpos == c.BufSize() {
      RingWrap(c.BufSize(), src.data, s.m, s.h.released, s.r.copied, hi);
      AlignedBasics(c.size);
    } else {
      RingSame(c.BufSize(), src.data, s.m, t.m, s.h.released, s.r.copied, hi);
    }
  }

  // --------------------------------------------------------------- all runs

  lemma StepInv(c: Config, src: Source, s: State, p: Process)
    requires Good(c) && Inv(c, src, s)
    ensures Inv(c, src, Step(c, src, s, p))
  {
    hide Inv; hide Good; hide FeederStep; hide ReaderStep;
    match p {
      case Feeder =>
        if FeederControls(s.f.pc) {
          FeederControl(c, src, s);
        } else if s.f.pc.FSpace? {
          FeederSpace(c, src, s);
        } else if s.f.pc.FObtain? {
          FeederObtain(c, src, s);
        } else if s.f.pc.FFill? {
          FeederFill(c, src, s);
        } else {
          FeederPublish(c, src, s);
        }
      case Reader =>
        if ReaderControls(s.r.pc) {
          ReaderControl(c, src, s);
        } else if s.r.pc.RDiff? {
          ReaderDiff(c, src, s);
        } else if s.r.pc.RCopy? {
          ReaderCopy(c, src, s);
        } else if s.r.pc.RAdvance? {
          ReaderAdvance(c, src, s);
        } else {
          ReaderWrap(c, src, s);
        }
    }
  }

  lemma {:induction false} RunInvFrom(c: Config, src: Source, s: State, schedule: seq<Process>)
    requires Good(c) && Inv(c, src, s)
    ensures Inv(c, src, RunFrom(c, src, s, schedule))
    decreases |schedule|
  {
    hide Inv; hide Good; hide Step;
    if schedule != [] {
      StepInv(c, src, s, schedule[0]);
      RunInvFrom(c, src, Step(c, src, s, schedule[0]), schedule[1..]);
    }
  }

  lemma RunInv(c: Config, src: Source, schedule: seq<Process>)
    requires Good(c)
    ensures Inv(c, src, Run(c, src, schedule))
  {
    hide Inv; hide Good; hide RunFrom;
    InitInv(c, src);
    RunInvFrom(c, src, Init(c), schedule);
  }

  /** No step of any interleaving touches the ring illegally: the shoveller writes only
      inside the ring and never over an undelivered byte, the reader copies only cells
      that hold a written byte, and nobody touches the ring after its release. */
  lemma Safety(c: Config, src: Source, schedule: seq<Process>)
    requires Good(c)
    ensures !Run(c, src, schedule).fault
  {
    hide Good; hide RunFrom;
    RunInv(c, src, schedule);
  }

  /** While a chunk is on its way into the ring and a request on its way out,
      the two never touch the same cell. */
  lemma NoDataRace(c: Config, src: Source, schedule: seq<Process>, i: int, j: int)
    requires Good(c)
    requires var s := Run(c, src, schedule);
             s.f.pc.FFill? && s.r.pc.RCopy? && 0 <= i < |s.f.chunk| && 0 <= j < s.r.diff
    ensures var s := Run(c, src, schedule);
            0 <= s.f.wpos + i < c.BufSize() && 0 <= s.r.rpos + j < c.BufSize() && s.f.wpos + i != s.r.rpos + j
  {
    hide Good; hide RunFrom; hide Ring; hide Aligned; hide Config.BufSize; hide Stream; hide Flags;
    RunInv(c, src, schedule);
  }

  /** The bytes handed out so far are a prefix of the source's bytes. */
  lemma DeliveredIsPrefix(c: Config, src: Source, schedule: seq<Process>)
    requires Good(c)
    ensures Run(c, src, schedule).h.delivered <= src.data
  {
    hide Good; hide RunFrom; hide Ring; hide Aligned; hide Config.BufSize; hide Flags;
    RunInv(c, src, schedule);
    var s := Run(c, src, schedule);
    assert s.h.delivered == src.data[..s.h.released][..|s.h.delivered|];
  }

  /** A call returns 0 only after the whole input has been delivered, if no call failed. */
  lemma ZeroMeansEverything(c: Config, src: Source, schedule: seq<Process>)
    requires Good(c)
    requires var h := Run(c, src, schedule).h; h.calls > 0 && h.last == 0 && !h.aborted
    ensures Run(c, src, schedule).h.delivered == src.data
  {
    hide Good; hide RunFrom; hide Ring; hide Aligned; hide Config.BufSize;
    RunInv(c, src, schedule);
    var s := Run(c, src, schedule);
    assert s.h.delivered + [] == src.data[..|src.data|] == src.data;
  }

  predicate FeederWaits(c: Config, s: State)
  {
    s.f.pc.FSpace? && FreeBytes(c.BufSize(), s.m.readpos, s.f.wpos) < c.inp
  }

  predicate ReaderWaits(s: State)
  {
    && (s.r.pc.RCheck? || s.r.pc.REndOfInput? || s.r.pc.RError?)
    && s.r.rpos == s.m.writepos && !s.m.endOfInput && !s.m.inputError
  }

  /** The two threads never wait for each other. */
  lemma NoMutualWait(c: Config, src: Source, schedule: seq<Process>)
    requires Good(c)
    ensures var s := Run(c, src, schedule); !(FeederWaits(c, s) && ReaderWaits(s))
  {
    hide RunFrom; hide Ring; hide Aligned; hide Config.BufSize; hide Stream; hide FreeBytes;
    RunInv(c, src, schedule);
    FreeIsExact(c, src.data, Run(c, src, schedule));
  }
}
