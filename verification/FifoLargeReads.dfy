/** The fifo with the option for reads of 32 KiB: when it blocks, and when it is safe. */
module FifoLargeReads {
  import opened Fifo
  import opened FifoSafety
  import opened FifoExact
  import opened ZeroRuns

  // ------------------------------------------------ a ring of at most one read

  /** Nothing has moved yet: the shoveller has not found room, the reader has no data. */
  predicate Stuck(s: State)
  {
    && (s.f.pc.FLoop? || s.f.pc.FWritePos? || s.f.pc.FSpace?)
    && (s.r.pc.RStart? || s.r.pc.RLoop? || s.r.pc.RCheck? || s.r.pc.REndOfInput? || s.r.pc.RError?)
    && s.m.readpos == 0 && s.m.writepos == 0 && !s.m.endOfInput && !s.m.inputError && s.m.endOfConsumption == 0
    && (s.f.pc.FSpace? ==> s.f.wpos == 0) && (!s.r.pc.RStart? && !s.r.pc.RLoop? ==> s.r.rpos == 0)
    && (s.r.pc.RLoop? ==> s.r.todo > 0) && s.h.calls == 0 && s.h.inCounter == 0
  }

  lemma {:induction false} StuckForever(c: Config, src: Source, s: State, schedule: seq<Process>)
    requires c.size > 0 && c.inp >= c.BufSize() && Stuck(s)
    ensures Stuck(RunFrom(c, src, s, schedule))
    decreases |schedule|
  {
    hide Config.BufSize;
    if schedule != [] {
      StuckForever(c, src, Step(c, src, s, schedule[0]), schedule[1..]);
    }
  }

  /** With the option for large reads and a ring of at most 32 KiB the two threads wait
      for each other from the start: no byte is ever read and no call ever returns. */
  lemma LargeReadsBlock(chunksize: int, chunks: int, size: nat, src: Source, schedule: seq<Process>)
    requires NewConfig(chunksize, chunks, true, size).Some? && size > 0 && chunksize * chunks <= 32 * 1024
    ensures var h := Run(NewConfig(chunksize, chunks, true, size).value, src, schedule).h;
              h.calls == 0 && h.inCounter == 0
  {
    hide RunFrom;
    StuckForever(NewConfig(chunksize, chunks, true, size).value, src,
        Init(NewConfig(chunksize, chunks, true, size).value), schedule);
  }

  /** Nothing is read from any source in any run. */
  ghost predicate NeverReads(c: Config)
  {
    forall src: Source, schedule: seq<Process> :: Run(c, src, schedule).h.inCounter == 0
  }

  /** An empty ring with room for one read takes it. */
  lemma FirstRead(c: Config, src: Source)
    requires 0 < c.inp < c.BufSize() && src.data != []
    ensures Run(c, src, Repeat(Feeder, 4)).h.inCounter > 0
  {
    hide Config.BufSize; hide NextChunk;
    var s1 := FeederStep(c, src, Init(c));
    assert s1 == Init(c).(f := Init(c).f.(pc := FWritePos));
    var s2 := FeederStep(c, src, s1);
    assert s2 == Init(c).(f := Init(c).f.(pc := FSpace));
    var s3 := FeederStep(c, src, s2);
    assert s3 == Init(c).(f := Init(c).f.(pc := FObtain));
    FeederRunIsRun(c, src, Init(c), 4);
    FeederRunFour(c, src, Init(c));
  }

  /** With the option for large reads the fifo blocks if and only if its ring has at most
      32 KiB. */
  lemma LargeReadsBlockExactly(chunksize: int, chunks: int, size: nat)
    requires NewConfig(chunksize, chunks, true, size).Some? && size > 0
    ensures NeverReads(NewConfig(chunksize, chunks, true, size).value) <==> chunksize * chunks <= 32 * 1024
  {
    hide RunFrom; hide Init;
    var c := NewConfig(chunksize, chunks, true, size).value;
    if chunksize * chunks <= 32 * 1024 {
      forall src: Source, schedule: seq<Process>
        ensures Run(c, src, schedule).h.inCounter == 0
      {
        LargeReadsBlock(chunksize, chunks, size, src, schedule);
      }
    } else {
      FirstRead(c, Source([0], false));
    }
  }

  /** Where the ring is a multiple of 32 KiB, and 32 KiB one of the request size, large reads
      meet the conditions of all theorems on runs. */
  lemma LargeReadsGood(chunksize: int, chunks: int, size: nat)
    requires NewConfig(chunksize, chunks, true, size).Some? && size > 0 && chunksize * chunks > 32 * 1024
    requires (chunksize * chunks) % (32 * 1024) == 0 && (32 * 1024) % size == 0
    ensures Good(NewConfig(chunksize, chunks, true, size).value)
  {
    hide Aligned;
    var b := chunksize * chunks;
    ModuloAligned(b, 32 * 1024);
    ModuloAligned(32 * 1024, size);
    AlignedTransitive(b, 32 * 1024, size);
  }

  // -------------------------------------------------- a read beyond the ring's end

  /** All that was stored has been taken; both positions stand at w. */
  predicate Emptied(c: Config, s: State, w: nat)
  {
    && s.f.pc.FLoop? && s.r.pc.RStart? && s.m.endOfConsumption == 0 && !s.m.freed
    && |s.m.buf| == |s.m.live| == c.BufSize() && |s.r.buffer| == c.size
    && s.m.readpos == s.m.writepos == w && s.h.inCounter == w && |s.h.delivered| == w
    && (forall i | 0 <= i < c.BufSize() :: !s.m.live[i])
  }

  /** A chunk that fits before the end of the ring is stored. */
  lemma StoreChunk(c: Config, src: Source, s: State, w: nat) returns (n: nat)
    requires Emptied(c, s, w) && 0 < c.inp && w + c.inp < c.BufSize() && w + c.inp <= |src.data|
    ensures AfterReads(c, FeederRun(c, src, s, n), w, 0)
  {
    hide Config.BufSize;
    n := FeedChunk(c, src, s, w);
  }

  lemma ChunkTaken(c: Config, s: State, w: nat, q: nat)
    requires AfterReads(c, s, w, q) && Aligned(q, c.size) && q + c.size > c.inp && Aligned(c.inp, c.size)
    ensures Emptied(c, s, w + c.inp)
  {
    hide Config.BufSize; hide Aligned;
    if q < c.inp {
      AlignedDifference(q, c.inp, c.size);
    }
  }

  /** Chunk by chunk the two threads come to any position before the end of the ring. */
  lemma {:induction false} ReachPosition(c: Config, src: Source, k: nat) returns (schedule: seq<Process>)
    requires 0 < c.size && 0 < c.inp && Aligned(c.inp, c.size) && k * c.inp < c.BufSize() && k * c.inp <= |src.data|
    ensures Emptied(c, Run(c, src, schedule), k * c.inp)
    decreases k
  {
    hide Config.BufSize; hide Emptied; hide AfterReads; hide Aligned; hide RunFrom; hide FeederRun; hide ReaderRun;
    hide Init;
    if k == 0 {
      schedule := [];
      NoSteps(c, src, Init(c));
      InitEmptied(c);
    } else {
      var w := (k - 1) * c.inp;
      assert w + c.inp == k * c.inp;
      var a := ReachPosition(c, src, k - 1);
      var n := StoreChunk(c, src, Run(c, src, a), w);
      RunPhase(c, src, Init(c), a, Feeder, n);
      var b := a + Repeat(Feeder, n);
      AlignedBasics(c.size);
      var m, q := AllRequests(c, Run(c, src, b), w, 0);
      RunPhase(c, src, Init(c), b, Reader, m);
      schedule := b + Repeat(Reader, m);
      ChunkTaken(c, Run(c, src, schedule), w, q);
    }
  }

  lemma InitEmptied(c: Config)
    ensures Emptied(c, Init(c), 0)
  {
    hide Config.BufSize;
  }

  /** The shoveller fills a chunk that was not staged and does not fit. */
  predicate Overrunning(s: State)
  {
    && s.f.pc.FFill? && !s.f.transEnd && 0 <= s.f.filled < |s.f.chunk| && s.f.wpos >= 0
    && s.f.wpos + s.f.filled <= |s.m.buf| == |s.m.live| < s.f.wpos + |s.f.chunk|
  }

  lemma {:induction false} Overrun(c: Config, src: Source, s: State) returns (n: nat)
    requires Overrunning(s)
    ensures FeederRun(c, src, s, n).fault
    decreases |s.f.chunk| - s.f.filled
  {
    var t := FeederStep(c, src, s);
    if s.f.wpos + s.f.filled == |s.m.buf| {
      OverrunHere(c, src, s);
      assert FeederRun(c, src, t, 0) == t;
      n := 1;
    } else {
      OverrunStep(c, src, s);
      hide FeederStep; hide Overrunning;
      var k := Overrun(c, src, t);
      n := k + 1;
    }
  }

  lemma OverrunHere(c: Config, src: Source, s: State)
    requires Overrunning(s) && s.f.wpos + s.f.filled == |s.m.buf|
    ensures FeederStep(c, src, s).fault
  {
    hide Config.BufSize;
  }

  lemma OverrunStep(c: Config, src: Source, s: State)
    requires Overrunning(s) && s.f.wpos + s.f.filled < |s.m.buf|
    ensures var t := FeederStep(c, src, s);
            Overrunning(t) && t.f.filled == s.f.filled + 1 && |t.f.chunk| == |s.f.chunk|
  {
    hide Config.BufSize;
  }

  /** With an empty ring, too little room before its end goes unnoticed: the test for a chunk
      that crosses the end is made only if the read position is before the write position. */
  lemma UnstagedRead(c: Config, src: Source, s: State, w: nat)
    requires Emptied(c, s, w) && 0 < c.inp < c.BufSize() && w < c.BufSize() < w + c.inp && w + c.inp <= |src.data|
    ensures Overrunning(FeederRun(c, src, s, 4))
  {
    hide Config.BufSize;
    var s1 := FeederStep(c, src, s);
    assert s1 == s.(f := s.f.(pc := FWritePos));
    var s2 := FeederStep(c, src, s1);
    assert s2 == s.(f := s.f.(wpos := w, pc := FSpace));
    var s3 := FeederStep(c, src, s2);
    assert s3 == s.(f := s.f.(wpos := w, transEnd := false, pc := FObtain));
    var s4 := FeederStep(c, src, s3);
    assert s4.f.pc.FFill? && |s4.f.chunk| == c.inp && s4.f.filled == 0 && s4.f.wpos == w && s4.m == s.m;
    FeederRunFour(c, src, s);
  }

  /** A run that writes beyond the ring, where the read size does not divide it. */
  lemma OverrunRun(c: Config, src: Source, k: nat) returns (schedule: seq<Process>)
    requires 0 < c.size && 0 < c.inp < c.BufSize() && Aligned(c.inp, c.size)
    requires k * c.inp < c.BufSize() < k * c.inp + c.inp <= |src.data|
    ensures Run(c, src, schedule).fault
  {
    hide Config.BufSize; hide Emptied; hide Aligned; hide RunFrom; hide FeederRun; hide Overrunning; hide Init;
    var a := ReachPosition(c, src, k);
    var s := Run(c, src, a);
    UnstagedRead(c, src, s, k * c.inp);
    var n := Overrun(c, src, FeederRun(c, src, s, 4));
    FeederRunSum(c, src, s, 4, n);
    RunPhase(c, src, Init(c), a, Feeder, 4 + n);
    schedule := a + Repeat(Feeder, 4 + n);
  }

  /** No run of any source touches the ring illegally. */
  ghost predicate NeverFaults(c: Config)
  {
    forall src: Source, schedule: seq<Process> :: !Run(c, src, schedule).fault
  }

  function ZeroSource(n: nat): (src: Source)
    ensures |src.data| == n
  {
    Source(Zeros(n), false)
  }

  /** Large reads into a ring of more than 32 KiB, by requests that divide 32 KiB, are safe if
      and only if the ring is a multiple of 32 KiB. */
  lemma LargeReadsSafeExactly(chunksize: int, chunks: int, size: nat)
    requires NewConfig(chunksize, chunks, true, size).Some? && size > 0 && (32 * 1024) % size == 0
    requires chunksize * chunks > 32 * 1024
    ensures NeverFaults(NewConfig(chunksize, chunks, true, size).value) <==> (chunksize * chunks) % (32 * 1024) == 0
  {
    hide Run; hide Good; hide Aligned;
    var c := NewConfig(chunksize, chunks, true, size).value;
    var b := chunksize * chunks;
    if b % (32 * 1024) == 0 {
      LargeReadsGood(chunksize, chunks, size);
      forall src: Source, schedule: seq<Process>
        ensures !Run(c, src, schedule).fault
      {
        Safety(c, src, schedule);
      }
    } else {
      var k := b / (32 * 1024);
      ModuloAligned(32 * 1024, size);
      var src := ZeroSource(k * (32 * 1024) + 32 * 1024);
      var schedule := OverrunRun(c, src, k);
    }
  }
}
