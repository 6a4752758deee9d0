/** The fifo object with its ring and the caller's buffer changed in place. Each method
    is one atomic step of a thread and implements the step function of module Fifo;
    that no access leaves the arrays follows from the invariant of all runs. */
module FifoSources {
  import opened Fifo
  import opened FifoSafety
  import opened ZeroRuns

  class FifoSource {
    const c: Config
    ghost const src: Source
    const data: seq<bv8>     // what the input source will deliver
    const fails: bool
    // struct burn_source_fifo
    const buf: array<bv8>
    var bufWritepos: int
    var bufReadpos: int
    var endOfInput: bool
    var inputError: bool
    var endOfConsumption: int
    var inCounter: nat
    var releasedBuf: bool
    // locals of the two threads
    var f: FeederLocals
    var rpc: ReaderPc
    var todo: int
    var rpos: int
    var diff: int
    var copied: int
    const buffer: array<bv8>
    // bookkeeping
    ghost var live: seq<bool>
    ghost var h: History

    ghost function Contents(): State
      reads this, buf, buffer
    {
      State(Shared(buf[..], live, releasedBuf, bufReadpos, bufWritepos, endOfInput, inputError, endOfConsumption),
            f, ReaderLocals(rpc, todo, rpos, diff, copied, buffer[..]), h, false)
    }

    ghost predicate Valid()
      reads this, buf, buffer
    {
      && buf != buffer && Good(c) && src == Source(data, fails) && inCounter == h.inCounter
      && Inv(c, src, Contents())
    }

    /** Any sizes can be given; the steps below are for those that keep the reader in the ring. */
    constructor (c: Config, data: seq<bv8>, fails: bool)
      ensures this.c == c && this.src == Source(data, fails) && Contents() == Init(c)
      ensures Good(c) ==> Valid()
      ensures fresh(buf) && fresh(buffer)
    {
      hide Inv; hide Good;
      this.c, this.src, this.data, this.fails := c, Source(data, fails), data, fails;
      var n := c.BufSize();
      buf := new bv8[n](_ => 0);
      buffer := new bv8[c.size](_ => 0);
      bufWritepos, bufReadpos, endOfInput, inputError, endOfConsumption := 0, 0, false, false, 0;
      inCounter, releasedBuf := 0, false;
      f := FeederLocals(FLoop, 0, false, 0, 0, []);
      rpc, todo, rpos, diff, copied := RStart, 0, 0, 0, 0;
      live := seq(n, _ => false);
      h := History(0, 0, 0, [], 0, 0, false);
      new;
      if Good(c) {
        InitInv(c, src);
      }
      assert buf[..] == Zeros(n) && buffer[..] == Zeros(c.size);
    }

    // ----------------------------------------------------------- the shoveller

    /** Lines up to the read from the input: loop test, own position, space test. */
    method LookForSpace()
      requires Valid() && (f.pc.FLoop? || f.pc.FWritePos? || f.pc.FSpace?)
      modifies `f
      ensures Valid() && Contents() == FeederStep(c, src, old(Contents()))
    {
      hide Inv; hide Good; hide Config.BufSize;
      StepInv(c, src, Contents(), Feeder);
      if f.pc.FLoop? {
        f := f.(pc := if endOfConsumption != 0 then FExit else FWritePos);
      } else if f.pc.FWritePos? {
        f := f.(wpos := bufWritepos, pc := FSpace);
      } else {
        var bufsize := c.chunksize * c.chunks;
        BufSizeIs(c);
        var cut := bufReadpos - f.wpos < 0 && bufsize - f.wpos < c.inp;
        f := f.(transEnd := cut, pc := if FreeBytes(bufsize, bufReadpos, f.wpos) >= c.inp then FObtain else FSpace);
      }
    }

    method ObtainChunk()
      requires Valid() && f.pc.FObtain?
      modifies `f, `inputError, `inCounter, `h
      ensures Valid() && Contents() == FeederStep(c, src, old(Contents()))
    {
      hide Inv; hide Good; hide Config.BufSize;
      StepInv(c, src, Contents(), Feeder);
      if inCounter >= |data| {
        inputError := fails;
        f := f.(pc := FExit);
      } else {
        var n := Min(c.inp, |data| - inCounter);
        var got := data[inCounter..inCounter + n];
        f := f.(chunk := got + if f.transEnd then Zeros(c.inp - n) else [], ret := n, filled := 0, pc := FFill);
        inCounter := inCounter + n;
        h := h.(inCounter := inCounter);
      }
    }

    /** The next byte of the chunk goes into the ring. */
    method FillByte()
      requires Valid() && f.pc.FFill?
      modifies `f, `live, buf
      ensures Valid() && Contents() == FeederStep(c, src, old(Contents()))
    {
      hide Inv; hide Good; hide Config.BufSize; hide FillIndex;
      StepInv(c, src, Contents(), Feeder);
      if f.filled >= |f.chunk| {
        f := f.(pc := FPublish);
      } else {
        hide FeederStep;
        FillInside(c, src, Contents());
        buf[f.wpos + f.filled] := f.chunk[f.filled];
        live := live[f.wpos + f.filled := true];
        f := f.(filled := f.filled + 1);
      }
    }

    method Publish()
      requires Valid() && f.pc.FPublish?
      modifies `f, `bufWritepos, `h
      ensures Valid() && Contents() == FeederStep(c, src, old(Contents()))
    {
      hide Inv; hide Good; hide Config.BufSize;
      StepInv(c, src, Contents(), Feeder);
      BufSizeIs(c);
      bufWritepos := NextWritePos(c.chunksize * c.chunks, bufWritepos, f);
      f := f.(ret := 0, filled := 0, chunk := [], pc := FLoop);
      h := h.(published := h.inCounter);
    }

    /** From the end of the input to the release of the ring. */
    method EndShoveller()
      requires Valid() && Ending(f.pc)
      modifies `f, `endOfInput, `endOfConsumption, `releasedBuf
      ensures Valid() && Contents() == FeederStep(c, src, old(Contents()))
    {
      hide Inv; hide Good; hide Config.BufSize;
      StepInv(c, src, Contents(), Feeder);
      match f.pc {
        case FExit => f := f.(pc := if endOfConsumption == 0 then FEndInput else FDrain);
        case FEndInput =>
          endOfInput := true;
          f := f.(pc := FDrain);
        case FDrain => f := f.(pc := if bufReadpos != bufWritepos then FDrainEnded else FClaim);
        case FDrainEnded => f := f.(pc := if endOfConsumption == 0 then FDrain else FClaim);
        case FClaim => f := f.(pc := if endOfConsumption == 0 then FClaimSet else FRelease);
        case FClaimSet =>
          endOfConsumption := 2;
          f := f.(pc := FRelease);
        case FRelease =>
          releasedBuf := true;
          f := f.(pc := FGone);
        case FGone =>
      }
    }

    /** One step of the thread that runs burn_fifo_source_shoveller(). */
    method ShovellerStep()
      requires Valid()
      modifies this, buf
      ensures Valid() && Contents() == FeederStep(c, src, old(Contents()))
    {
      if f.pc.FLoop? || f.pc.FWritePos? || f.pc.FSpace? {
        LookForSpace();
      } else if f.pc.FObtain? {
        ObtainChunk();
      } else if f.pc.FFill? {
        FillByte();
      } else if f.pc.FPublish? {
        Publish();
      } else {
        EndShoveller();
      }
    }

    // ----------------------------------------------------------------- the reader

    ghost method Record(result: int)
      modifies `h
      ensures h == old(h).(calls := old(h).calls + 1, last := result,
                           delivered := if 0 < result <= buffer.Length then old(h).delivered + buffer[..result]
                                        else old(h).delivered)
    {
      h := h.(calls := h.calls + 1, last := result,
              delivered := if 0 < result <= buffer.Length then h.delivered + buffer[..result] else h.delivered);
    }

    /** Start of a call, wait for data, failure. */
    method LookForData()
      requires Valid() && ReaderControls(rpc) && !rpc.RReturn?
      modifies `rpc, `todo, `rpos, `endOfConsumption, `h
      ensures Valid() && Contents() == ReaderStep(c, old(Contents()))
    {
      hide Inv; hide Good; hide Config.BufSize; hide FeederStep;
      StepInv(c, src, Contents(), Reader);
      match rpc {
        case RStart =>
          if endOfConsumption != 0 || c.size == 0 {
            Record(0);
          } else {
            todo, rpc := c.size, RLoop;
          }
        case RLoop =>
          if todo > 0 {
            rpos, rpc := bufReadpos, RCheck;
          } else {
            rpc := RReturn;
          }
        case RCheck => rpc := if rpos == bufWritepos then REndOfInput else RDiff;
        case REndOfInput => rpc := if endOfInput then RDiff else RError;
        case RError => rpc := if !inputError then RCheck else if todo < c.size then RDiff else RAbort;
        case RAbort =>
          endOfConsumption := 1;
          h := h.(aborted := true);
          Record(-1);
          rpc := RStart;
      }
    }

    method ChoosePiece()
      requires Valid() && rpc.RDiff?
      modifies `rpc, `diff, `copied
      ensures Valid() && Contents() == ReaderStep(c, old(Contents()))
    {
      hide Inv; hide Good; hide Config.BufSize;
      StepInv(c, src, Contents(), Reader);
      BufSizeIs(c);
      var d := bufWritepos - rpos;
      if d == 0 {
        rpc := RReturn;
      } else {
        diff, copied, rpc := Min(if d > 0 then d else c.chunksize * c.chunks - rpos, todo), 0, RCopy;
      }
    }

    /** The next byte goes from the ring into the caller's buffer. */
    method CopyByte()
      requires Valid() && rpc.RCopy?
      modifies `rpc, `copied, `live, buffer
      ensures Valid() && Contents() == ReaderStep(c, old(Contents()))
    {
      hide Inv; hide Good; hide Config.BufSize;
      StepInv(c, src, Contents(), Reader);
      if copied >= diff {
        rpc := RAdvance;
      } else {
        hide ReaderStep;
        CopyInside(c, src, Contents());
        var i := (c.size - todo) + rpos + copied;
        buffer[copied] := buf[i];
        live := live[i := false];
        copied := copied + 1;
      }
    }

    method Advance()
      requires Valid() && (rpc.RAdvance? || rpc.RWrap?)
      modifies `rpc, `copied, `bufReadpos, `todo, `h
      ensures Valid() && Contents() == ReaderStep(c, old(Contents()))
    {
      hide Inv; hide Good; hide Config.BufSize;
      StepInv(c, src, Contents(), Reader);
      BufSizeIs(c);
      if rpc.RAdvance? {
        bufReadpos := bufReadpos + diff;
        h := h.(released := if diff >= 0 then h.released + diff else h.released);
        copied, rpc := 0, RWrap;
      } else {
        if bufReadpos >= c.chunksize * c.chunks {
          bufReadpos := 0;
        }
        todo, rpc := todo - diff, RLoop;
      }
    }

    /** End of a call. */
    method FinishCall() returns (result: int)
      requires Valid() && rpc.RReturn?
      modifies `rpc, `endOfConsumption, `h
      ensures Valid() && Contents() == ReaderStep(c, old(Contents()))
      ensures result == old(c.size - todo) == h.last
    {
      hide Inv; hide Good; hide Config.BufSize;
      StepInv(c, src, Contents(), Reader);
      result := c.size - todo;
      if result <= 0 {
        endOfConsumption := 1;
      }
      Record(result);
      rpc := RStart;
    }

    /** One step of the thread that runs fifo_read() again and again. */
    method ReaderThreadStep()
      requires Valid()
      modifies this, buffer
      ensures Valid() && Contents() == ReaderStep(c, old(Contents()))
    {
      if rpc.RReturn? {
        var _ := FinishCall();
      } else if rpc.RDiff? {
        ChoosePiece();
      } else if rpc.RCopy? {
        CopyByte();
      } else if rpc.RAdvance? || rpc.RWrap? {
        Advance();
      } else {
        LookForData();
      }
    }

    /** The object, run by any schedule, goes through the states of module Fifo. */
    method RunSchedule(schedule: seq<Process>)
      requires Valid()
      modifies this, buf, buffer
      ensures Valid() && Contents() == RunFrom(c, src, old(Contents()), schedule)
    {
      hide FeederStep; hide ReaderStep; hide Good; hide Inv;
      for i := 0 to |schedule|
        invariant Valid()
        invariant RunFrom(c, src, Contents(), schedule[i..]) == RunFrom(c, src, old(Contents()), schedule)
      {
        assert schedule[i..][0] == schedule[i] && schedule[i..][1..] == schedule[i + 1..];
        if schedule[i].Feeder? {
          ShovellerStep();
        } else {
          ReaderThreadStep();
        }
      }
    }
  }

  lemma BufSizeIs(c: Config)
    ensures c.BufSize() == c.chunksize * c.chunks
  {
  }

  lemma CopyInside(c: Config, src: Source, s: State)
    requires Good(c) && Inv(c, src, s) && s.r.pc.RCopy? && s.r.copied < s.r.diff
    ensures var i := (c.size - s.r.todo) + s.r.rpos + s.r.copied;
            && 0 <= i < |s.m.buf| == |s.m.live| && 0 <= s.r.copied < |s.r.buffer|
            && ReaderStep(c, s) == State(s.m.(live := s.m.live[i := false]), s.f,
                                         s.r.(buffer := s.r.buffer[s.r.copied := s.m.buf[i]], copied := s.r.copied + 1),
                                         s.h, false)
  {
    hide Ring; hide Config.BufSize; hide Aligned; hide Chunk; hide Stream;
    var hi := Used(s.h) + s.f.filled;
    FilledSize(c, src.data, s);
    RingBounds(c.BufSize(), src.data, s.m, s.h.released, s.r.copied, hi);
    RingTake(c.BufSize(), src.data, s.m, s.h.released, s.r.copied, hi, s.r.rpos + s.r.copied);
  }

  lemma FillInside(c: Config, src: Source, s: State)
    requires Good(c) && Inv(c, src, s) && s.f.pc.FFill? && s.f.filled < |s.f.chunk|
    ensures 0 <= s.f.wpos + s.f.filled < |s.m.buf| == |s.m.live| && s.f.filled >= 0
    ensures var t := FeederStep(c, src, s);
            t == State(s.m.(buf := s.m.buf[s.f.wpos + s.f.filled := s.f.chunk[s.f.filled]],
                            live := s.m.live[s.f.wpos + s.f.filled := true]),
                       s.f.(filled := s.f.filled + 1), s.r, s.h, false)
  {
    hide Aligned; hide Stream; hide Call; hide Flags; hide Config.BufSize;
    FeederFill(c, src, s);
  }
}
