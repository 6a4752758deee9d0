/** Exactly when a read error of the source can overtake data: fifo_read tests the error flag
    after it has found the ring empty, and reports the error although the shoveller may have
    stored data in between. */
module FifoError {
  import opened Fifo
  import Arithmetic
  import opened FifoSafety
  import opened FifoProgress
  import opened FifoExact

  /** An error is only reported to a caller who has received everything before it. */
  ghost predicate ErrorAfterData(c: Config, src: Source)
  {
    forall schedule: seq<Process> :: var h := Run(c, src, schedule).h; h.aborted ==> h.delivered == src.data
  }

  // ------------------------------------------------------- sufficient condition

  /** The reader has seen an empty ring and has not looked at the positions since. */
  predicate SawEmpty(pc: ReaderPc) { pc.REndOfInput? || pc.RError? || pc.RAbort? }

  /** With room for two chunks only, the error is met when less than a chunk is stored. */
  predicate Late(c: Config, s: State)
  {
    && (s.m.inputError ==> Used(s.h) < c.inp)
    && (SawEmpty(s.r.pc) ==> Aligned(s.h.released, c.inp))
    && (s.h.aborted ==> Used(s.h) == 0)
  }

  lemma LateFeeder(c: Config, src: Source, s: State)
    requires Good(c) && Inv(c, src, s) && Late(c, s) && c.BufSize() == 2 * c.inp
    ensures Late(c, FeederStep(c, src, s))
  {
    hide Ring; hide Aligned; hide Config.BufSize; hide Stream; hide Call; hide FreeBytes; hide FillIndex;
    hide NextWritePos;
    hide NextChunk; hide Positions;
  }

  lemma LateReader(c: Config, src: Source, s: State)
    requires Good(c) && Inv(c, src, s) && Late(c, s) && Aligned(|src.data|, c.inp)
    ensures Late(c, ReaderStep(c, s))
  {
    hide Ring; hide Aligned; hide Config.BufSize; hide Stream; hide Chunk;
    if s.r.pc.RAbort? && s.h.released < s.h.published {
      AlignedDifference(s.h.released, s.h.published, c.inp);
    }
  }

  lemma {:induction false} LateRun(c: Config, src: Source, s: State, schedule: seq<Process>)
    requires Good(c) && Inv(c, src, s) && Late(c, s) && c.BufSize() == 2 * c.inp && Aligned(|src.data|, c.inp)
    ensures Late(c, RunFrom(c, src, s, schedule))
    decreases |schedule|
  {
    hide Inv; hide Good; hide Late; hide FeederStep; hide ReaderStep;
    if schedule != [] {
      StepInv(c, src, s, schedule[0]);
      if schedule[0].Feeder? {
        LateFeeder(c, src, s);
      } else {
        LateReader(c, src, s);
      }
      LateRun(c, src, Step(c, src, s, schedule[0]), schedule[1..]);
    }
  }

  /** After a reported error the delivered bytes are the released ones. */
  lemma DeliveredIsReleased(c: Config, src: Source, s: State)
    requires Inv(c, src, s) && s.h.aborted
    ensures s.h.delivered == src.data[..s.h.released] && s.h.published == |src.data|
  {
    hide Ring; hide Aligned; hide Config.BufSize;
    assert s.h.delivered + [] == s.h.delivered;
  }

  // -------------------------------------------------------- necessary condition

  /** Some run of s leads to t. */
  ghost predicate Leads(c: Config, src: Source, s: State, t: State)
  {
    exists schedule: seq<Process> :: RunFrom(c, src, s, schedule) == t
  }

  lemma LeadsStep(c: Config, src: Source, s: State, p: Process, t: State)
    requires Leads(c, src, Step(c, src, s, p), t)
    ensures Leads(c, src, s, t)
  {
    hide Step;
    var rest :| RunFrom(c, src, Step(c, src, s, p), rest) == t;
    assert ([p] + rest)[1..] == rest;
    assert RunFrom(c, src, s, [p] + rest) == t;
  }

  lemma LeadsNowhere(c: Config, src: Source, s: State)
    ensures Leads(c, src, s, s)
  {
    assert RunFrom(c, src, s, []) == s;
  }

  lemma LeadsChain(c: Config, src: Source, s: State, t: State, u: State)
    requires Leads(c, src, s, t) && Leads(c, src, t, u)
    ensures Leads(c, src, s, u)
  {
    hide RunFrom;
    var a :| RunFrom(c, src, s, a) == t;
    var b :| RunFrom(c, src, t, b) == u;
    RunConcat(c, src, s, a, b);
  }

  lemma LeadsOne(c: Config, src: Source, s: State, p: Process)
    ensures Leads(c, src, s, Step(c, src, s, p))
  {
    hide Step; hide Leads;
    LeadsNowhere(c, src, Step(c, src, s, p));
    LeadsStep(c, src, s, p, Step(c, src, s, p));
  }

  lemma ReaderFrame(c: Config, s: State)
    ensures var t := ReaderStep(c, s); t.f == s.f && t.h.published == s.h.published && t.h.inCounter == s.h.inCounter
  {
    hide Config.BufSize;
  }

  /** The shoveller is between two chunks and has not met the end. */
  predicate Between(src: Source, s: State) { s.f.pc.FLoop? && s.h.published < |src.data| }

  /** The reader waits at an empty ring, just before it looks at the end-of-input flag. */
  predicate Parked(c: Config, s: State)
  {
    s.r.pc.REndOfInput? && s.r.todo == c.size && Used(s.h) == 0
  }

  lemma WaitsEmpty(c: Config, src: Source, s: State)
    requires Inv(c, src, s) && Between(src, s) && ReaderIdle(s)
    ensures ReaderWaits(s) && Used(s.h) == 0 && s.r.todo == c.size && s.m.endOfConsumption == 0
  {
    hide Ring; hide Aligned; hide Config.BufSize; hide Stream; hide Chunk;
  }

  lemma ParkStep(c: Config, src: Source, s: State)
    requires Inv(c, src, s) && Between(src, s) && ReaderIdle(s) && !s.r.pc.REndOfInput?
    ensures var t := ReaderStep(c, s); ReaderIdle(t) && (if s.r.pc.RCheck? then t.r.pc.REndOfInput? else t.r.pc.RCheck?)
  {
    hide Ring; hide Aligned; hide Config.BufSize; hide Stream; hide Chunk;
  }

  /** The reader alone takes what is stored and comes to wait. */
  lemma {:induction false} Park(c: Config, src: Source, s: State) returns (t: State)
    requires Good(c) && Inv(c, src, s) && Between(src, s)
    ensures Leads(c, src, s, t) && Inv(c, src, t) && Between(src, t) && Parked(c, t)
    ensures t.h.published == s.h.published
    decreases Work(c, src, s), if s.r.pc.REndOfInput? then 0 else if s.r.pc.RCheck? then 1 else 2
  {
    hide Inv; hide Good; hide ReaderStep; hide Leads; hide Work; hide ReaderIdle; hide ReaderWaits;
    WorkIsNatural(c, src, s);
    if ReaderIdle(s) && s.r.pc.REndOfInput? {
      t := s;
      WaitsEmpty(c, src, s);
      LeadsNowhere(c, src, s);
    } else {
      var n := ReaderStep(c, s);
      StepInv(c, src, s, Reader);
      ReaderFrame(c, s);
      StepWork(c, src, s, Reader);
      WorkIsNatural(c, src, n);
      if ReaderIdle(s) {
        WaitsEmpty(c, src, s);
        ParkStep(c, src, s);
        IdleHere(s);
      }
      t := Park(c, src, n);
      LeadsStep(c, src, s, Reader, t);
    }
  }

  lemma IdleHere(s: State)
    requires ReaderWaits(s)
    ensures s.r.pc.RCheck? || s.r.pc.REndOfInput? || s.r.pc.RError?
  {
  }

  /** While the reader is parked, the shoveller finds room as long as a chunk fits. */
  lemma HasRoom(c: Config, src: Source, s: State)
    requires Inv(c, src, s) && Used(s.h) + c.inp < c.BufSize() && !Draining(s.f.pc)
    ensures !FeederIdle(c, s)
  {
    hide Ring; hide Aligned; hide Config.BufSize; hide Stream; hide Call; hide FreeBytes; hide Flags;
    FreeIsExact(c, src.data, s);
  }

  predicate Loading(pc: FeederPc) { pc.FLoop? || pc.FWritePos? || pc.FSpace? || pc.FObtain? || pc.FFill? }

  /** One step of the shoveller on its way to the next write position. */
  lemma LoadStep(c: Config, src: Source, s: State)
    requires Good(c) && Inv(c, src, s) && Loading(s.f.pc) && s.h.published < |src.data| && Used(s.h) == 0
    ensures var t := FeederStep(c, src, s);
            t.r == s.r && (Loading(t.f.pc) || t.f.pc.FPublish?) && t.h.published == s.h.published
                && t.h.released == s.h.released
  {
    hide Ring; hide Aligned; hide Config.BufSize; hide Stream; hide Call; hide FreeBytes; hide FillIndex;
    hide NextWritePos;
    hide NextChunk;
    RingBounds(c.BufSize(), src.data, s.m, s.h.released, s.r.copied, Used(s.h) + s.f.filled);
  }

  lemma PublishStep(c: Config, src: Source, s: State)
    requires Good(c) && Inv(c, src, s) && s.f.pc.FPublish?
    ensures var t := FeederStep(c, src, s);
            t.r == s.r && t.f.pc.FLoop? && t.h.released == s.h.released
                && t.h.published == Min(s.h.published + c.inp, |src.data|)
  {
    hide Ring; hide Aligned; hide Config.BufSize; hide Stream; hide Call; hide FreeBytes; hide FillIndex;
    hide NextWritePos;
    hide NextChunk; hide Positions;
  }

  /** The shoveller alone stores the next chunk. */
  lemma {:induction false} Load(c: Config, src: Source, s: State) returns (t: State)
    requires Good(c) && Inv(c, src, s) && s.h.published < |src.data| && Used(s.h) == 0
    requires Loading(s.f.pc) || s.f.pc.FPublish?
    ensures Leads(c, src, s, t) && Inv(c, src, t) && t.f.pc.FLoop? && t.r == s.r
    ensures t.h.released == s.h.released && t.h.published == Min(s.h.published + c.inp, |src.data|)
    decreases Work(c, src, s)
  {
    hide Inv; hide Good; hide FeederStep; hide Leads; hide Work; hide FeederIdle; hide Config.BufSize;
    var n := FeederStep(c, src, s);
    StepInv(c, src, s, Feeder);
    if s.f.pc.FPublish? {
      t := n;
      PublishStep(c, src, s);
      LeadsOne(c, src, s, Feeder);
    } else {
      LoadStep(c, src, s);
      GoodRoom(c);
      HasRoom(c, src, s);
      StepWork(c, src, s, Feeder);
      WorkIsNatural(c, src, s);
      WorkIsNatural(c, src, n);
      t := Load(c, src, n);
      LeadsStep(c, src, s, Feeder, t);
    }
  }

  lemma GoodRoom(c: Config)
    requires Good(c)
    ensures 0 < c.inp < c.BufSize()
  {
  }

  /** The reader is parked and only the last chunk has not been stored. */
  predicate BeforeLast(c: Config, src: Source, s: State)
  {
    Between(src, s) && Parked(c, s) && s.h.published + c.inp >= |src.data|
  }

  lemma {:induction false} ReachLast(c: Config, src: Source, s: State) returns (t: State)
    requires Good(c) && Inv(c, src, s) && Between(src, s)
    ensures Leads(c, src, s, t) && Inv(c, src, t) && BeforeLast(c, src, t)
    decreases |src.data| - s.h.published
  {
    hide Inv; hide Good; hide Leads; hide Config.BufSize;
    t := Park(c, src, s);
    if t.h.published + c.inp < |src.data| {
      GoodRoom(c);
      var u := Load(c, src, t);
      var v := ReachLast(c, src, u);
      LeadsChain(c, src, s, t, u);
      LeadsChain(c, src, s, u, v);
      t := v;
    }
  }

  predicate Seeking(pc: FeederPc) { pc.FLoop? || pc.FWritePos? || pc.FSpace? || pc.FObtain? }

  lemma SeekStep(c: Config, src: Source, s: State)
    requires Good(c) && Inv(c, src, s) && Seeking(s.f.pc) && s.h.published == |src.data| && s.m.endOfConsumption == 0
    ensures var t := FeederStep(c, src, s);
            && t.r == s.r && t.h == s.h && t.m.endOfConsumption == 0 && t.m.endOfInput == s.m.endOfInput
            && (if s.f.pc.FObtain? then t.f.pc.FExit? && t.m.inputError == src.fails else Seeking(t.f.pc))
  {
    hide Ring; hide Aligned; hide Config.BufSize; hide Stream; hide Call; hide FreeBytes; hide FillIndex;
    hide NextWritePos;
    hide NextChunk;
  }

  /** With room for one more chunk the shoveller alone comes to the error. */
  lemma {:induction false} MeetError(c: Config, src: Source, s: State) returns (t: State)
    requires Good(c) && Inv(c, src, s) && Seeking(s.f.pc) && s.h.published == |src.data| && s.m.endOfConsumption == 0
    requires Used(s.h) + c.inp < c.BufSize() && src.fails
    ensures Leads(c, src, s, t) && Inv(c, src, t) && t.f.pc.FExit? && t.r == s.r && t.h == s.h && t.m.inputError
    decreases Work(c, src, s)
  {
    hide Inv; hide Good; hide FeederStep; hide Leads; hide Work; hide FeederIdle; hide Config.BufSize;
    var n := FeederStep(c, src, s);
    StepInv(c, src, s, Feeder);
    SeekStep(c, src, s);
    if s.f.pc.FObtain? {
      t := n;
      LeadsOne(c, src, s, Feeder);
    } else {
      HasRoom(c, src, s);
      StepWork(c, src, s, Feeder);
      WorkIsNatural(c, src, s);
      WorkIsNatural(c, src, n);
      t := MeetError(c, src, n);
      LeadsStep(c, src, s, Feeder, t);
    }
  }

  lemma ParkedOpen(c: Config, src: Source, s: State)
    requires Inv(c, src, s) && s.r.pc.REndOfInput? && Used(s.h) > 0
    ensures s.m.endOfConsumption == 0
  {
    hide Ring; hide Aligned; hide Config.BufSize; hide Stream; hide Call; hide Chunk; hide Positions;
  }

  /** The reader goes on from its parking place and reports the error. */
  lemma Report(c: Config, src: Source, s: State) returns (t: State)
    requires Good(c) && Inv(c, src, s) && s.r.pc.REndOfInput? && s.r.todo == c.size && s.f.pc.FExit? && s.m.inputError
    ensures Leads(c, src, s, t) && Inv(c, src, t) && t.h.aborted && t.h.released == s.h.released
  {
    hide Inv; hide Good; hide Leads; hide Config.BufSize; hide RunFrom;
    NotEnded(c, src, s);
    var r1 := ReaderStep(c, s);
    assert r1 == s.(r := s.r.(pc := RError));
    var r2 := ReaderStep(c, r1);
    assert r2 == s.(r := s.r.(pc := RAbort));
    t := ReaderStep(c, r2);
    StepInv(c, src, s, Reader);
    StepInv(c, src, r1, Reader);
    StepInv(c, src, r2, Reader);
    LeadsOne(c, src, s, Reader);
    LeadsOne(c, src, r1, Reader);
    LeadsOne(c, src, r2, Reader);
    LeadsChain(c, src, s, r1, r2);
    LeadsChain(c, src, s, r2, t);
  }

  lemma NotEnded(c: Config, src: Source, s: State)
    requires Inv(c, src, s) && s.f.pc.FExit?
    ensures !s.m.endOfInput
  {
    hide Ring; hide Aligned; hide Config.BufSize; hide Stream; hide Call; hide Chunk; hide Positions;
  }

  /** A run in which the last chunk is stored, and the error met, after the reader has found
      the ring empty: the call reports failure and the chunk is never delivered. */
  lemma ErrorOvertakesData(c: Config, src: Source) returns (schedule: seq<Process>)
    requires Good(c) && src.fails && src.data != []
    requires 2 * c.inp < c.BufSize() || !Aligned(|src.data|, c.inp)
    ensures var h := Run(c, src, schedule).h; h.aborted && h.delivered < src.data
  {
    hide Inv; hide Good; hide Leads; hide Config.BufSize; hide RunFrom; hide Aligned;
    InitInv(c, src);
    var s := Init(c);
    GoodRoom(c);
    var a := ReachLast(c, src, s);
    var b := Load(c, src, a);
    LastRoom(c, src, a);
    ParkedOpen(c, src, b);
    var d := MeetError(c, src, b);
    var e := Report(c, src, d);
    DeliveredIsReleased(c, src, e);
    LeadsChain(c, src, s, a, b);
    LeadsChain(c, src, s, b, d);
    LeadsChain(c, src, s, d, e);
    schedule := Route(c, src, s, e);
  }

  lemma Route(c: Config, src: Source, s: State, t: State) returns (schedule: seq<Process>)
    requires Leads(c, src, s, t)
    ensures RunFrom(c, src, s, schedule) == t
  {
    schedule :| RunFrom(c, src, s, schedule) == t;
  }

  /** Another read fits beside the last chunk. */
  lemma LastRoom(c: Config, src: Source, s: State)
    requires Good(c) && Inv(c, src, s) && BeforeLast(c, src, s)
    requires 2 * c.inp < c.BufSize() || !Aligned(|src.data|, c.inp)
    ensures |src.data| - s.h.published + c.inp < c.BufSize()
  {
    hide Ring; hide Config.BufSize; hide Stream; hide Call; hide Chunk; hide Flags; hide Aligned;
    if |src.data| - s.h.published == c.inp && c.BufSize() <= 2 * c.inp {
      AlignedBasics(c.inp);
      AlignedSum(s.h.published, c.inp, c.inp);
    }
    TwoChunksFit(c);
  }

  lemma TwoChunksFit(c: Config)
    requires Good(c)
    ensures 2 * c.inp <= c.BufSize()
  {
    hide Config.BufSize; hide Aligned;
    AlignedBasics(c.inp);
    AlignedDifference(c.inp, c.BufSize(), c.inp);
  }

  lemma NoErrorBefore(c: Config, src: Source)
    requires Good(c) && c.BufSize() == 2 * c.inp && Aligned(|src.data|, c.inp)
    ensures ErrorAfterData(c, src)
  {
    hide Good; hide RunFrom; hide Init; hide Inv; hide Late; hide Aligned; hide Config.BufSize;
    forall schedule: seq<Process> | Run(c, src, schedule).h.aborted
      ensures Run(c, src, schedule).h.delivered == src.data
    {
      InitInv(c, src);
      LateStart(c);
      LateRun(c, src, Init(c), schedule);
      RunInv(c, src, schedule);
      DeliveredIsReleased(c, src, Run(c, src, schedule));
      LateDone(c, Run(c, src, schedule));
    }
  }

  lemma LateDone(c: Config, s: State)
    requires Late(c, s) && s.h.aborted
    ensures s.h.published == s.h.released
  {
    hide Aligned;
  }

  lemma NothingToDeliver(c: Config, src: Source)
    requires Good(c) && src.data == []
    ensures ErrorAfterData(c, src)
  {
    hide Good; hide RunFrom; hide Init;
    forall schedule: seq<Process>
      ensures Run(c, src, schedule).h.delivered == src.data
    {
      DeliveredIsPrefix(c, src, schedule);
    }
  }

  lemma TwoChunkRing(chunksize: nat, chunks: nat)
    requires chunksize > 0 && chunks >= 2
    ensures chunks == 2 ==> chunksize * chunks == 2 * chunksize
    ensures chunks > 2 ==> chunksize * chunks > 2 * chunksize
  {
    if chunks > 2 {
      Arithmetic.Monotone(2, chunks - 1, chunksize);
      assert chunksize * chunks == (chunks - 1) * chunksize + chunksize;
    }
  }

  /** For a source that fails behind its data: no call reports the error before all data are
      delivered, in any interleaving, if and only if there are no data, or the ring has
      room for two chunks only and the data fill whole chunks. */
  lemma ErrorAfterDataExactly(chunksize: int, chunks: int, size: nat, src: Source)
    requires NewConfig(chunksize, chunks, false, size).Some? && size > 0 && chunksize % size == 0 && src.fails
    ensures ErrorAfterData(NewConfig(chunksize, chunks, false, size).value, src)
            <==> src.data == [] || (chunks == 2 && |src.data| % chunksize == 0)
  {
    hide Good; hide Run; hide Aligned;
    var c := NewConfig(chunksize, chunks, false, size).value;
    NewConfigGood(chunksize, chunks, size);
    TwoChunkRing(chunksize, chunks);
    if src.data == [] {
      NothingToDeliver(c, src);
    } else if chunks == 2 && |src.data| % chunksize == 0 {
      ModuloAligned(|src.data|, chunksize);
      NoErrorBefore(c, src);
    } else {
      if Aligned(|src.data|, c.inp) {
        AlignedModulo(|src.data|, c.inp);
      }
      var schedule := ErrorOvertakesData(c, src);
    }
  }

  lemma LateStart(c: Config)
    ensures Late(c, Init(c))
  {
    hide Aligned; hide Config.BufSize;
  }
}
