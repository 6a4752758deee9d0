/** Every interleaving does only a bounded amount of work, and while it is not
    finished one of the two threads can go on. */
module FifoProgress {
  import opened Fifo
  import opened FifoSafety

  predicate FeederIdle(c: Config, s: State)
  {
    || s.f.pc.FGone?
    || FeederWaits(c, s)
    || ((s.f.pc.FDrain? || s.f.pc.FDrainEnded?) && s.m.readpos != s.m.writepos && s.m.endOfConsumption == 0)
  }

  predicate ReaderIdle(s: State)
  {
    ReaderWaits(s) || (s.r.pc.RStart? && s.m.endOfConsumption != 0)
  }

  predicate Idle(c: Config, s: State, p: Process)
  {
    if p.Feeder? then FeederIdle(c, s) else ReaderIdle(s)
  }

  /** The shoveller has gone and the reader's calls return at once. */
  predicate Finished(s: State)
  {
    s.f.pc.FGone? && s.r.pc.RStart? && s.m.endOfConsumption != 0
  }

  // -------------------------------------------------------------- the measure

  function FeederRank(s: State): nat
  {
    match s.f.pc
    case FLoop => 100
    case FWritePos => 90
    case FSpace => 80
    case FObtain => 70
    case FFill => 60
    case FPublish => 50
    case FExit => 40
    case FEndInput => 30
    case FDrain => if s.m.endOfConsumption != 0 then 13 else if s.m.readpos == s.m.writepos then 12 else 14
    case FDrainEnded => if s.m.endOfConsumption != 0 then 12 else if s.m.readpos == s.m.writepos then 13 else 14
    case FClaim => 9
    case FClaimSet => 8
    case FRelease => 7
    case FGone => 0
  }

  /** Steps left in the waiting loop of the reader. */
  function WaitRank(s: State): nat
  {
    var at := if s.r.pc.RCheck? then 0 else if s.r.pc.REndOfInput? then 1 else 2;
    if s.r.rpos != s.m.writepos then [15, 17, 16][at]
    else if s.m.endOfInput then [16, 15, 17][at]
    else if s.m.inputError then [17, 16, 15][at]
    else 18
  }

  function ReaderRank(c: Config, s: State): nat
  {
    var again := if s.r.todo < c.size then 20 else 0;
    match s.r.pc
    case RStart => if s.m.endOfConsumption != 0 then 0 else 25
    case RLoop => 19 + again
    case RCheck => WaitRank(s) + again
    case REndOfInput => WaitRank(s) + again
    case RError => WaitRank(s) + again
    case RAbort => 2
    case RDiff => 13 + again
    case RCopy => 12
    case RAdvance => 11
    case RWrap => 40
    case RReturn => if s.r.todo < c.size then 32 else 5
  }

  function FeederWork(src: Source, s: State): int
  {
    200 * (|src.data| - s.h.published) + (|src.data| - s.h.published - s.f.filled) + FeederRank(s)
  }

  function ReaderWork(c: Config, src: Source, s: State): int
  {
    50 * (|src.data| - s.h.released) + (|src.data| - s.h.released - s.r.copied) + ReaderRank(c, s)
    + if s.m.endOfConsumption == 0 then 50 else 0
  }

  function Work(c: Config, src: Source, s: State): int { FeederWork(src, s) + ReaderWork(c, src, s) }

  lemma WorkIsNatural(c: Config, src: Source, s: State)
    requires Inv(c, src, s)
    ensures Work(c, src, s) >= 0
  {
    hide Ring; hide Aligned; hide Stream; hide Config.BufSize; hide Flags; hide FeederRank; hide ReaderRank;
  }

  /** These steps of the shoveller can wake up the reader. */
  predicate Wakes(pc: FeederPc) { pc.FPublish? || pc.FObtain? || pc.FEndInput? }

  lemma FeederOwnWork(c: Config, src: Source, s: State)
    requires Good(c) && !Draining(s.f.pc) && PositionsOk(c, src.data, s) && Chunk(c, src.data, s.m.writepos, s.f, s.h)
    requires |s.m.buf| == |s.m.live| == c.BufSize()
    ensures var t := FeederStep(c, src, s);
            if FeederIdle(c, s) then FeederWork(src, t) == FeederWork(src, s)
            else FeederWork(src, t) <= FeederWork(src, s) - if Wakes(s.f.pc) then 10 else 1
  {
    hide Aligned; hide Config.BufSize; hide FreeBytes; hide NextWritePos; hide NextChunk;
    InputBound(c, src.data, s);
  }

  lemma InputBound(c: Config, data: seq<bv8>, s: State)
    requires PositionsOk(c, data, s)
    ensures s.h.released <= s.h.published <= s.h.inCounter <= |data|
  {
  }

  lemma FeederDrainWork(c: Config, src: Source, s: State)
    requires Draining(s.f.pc)
    ensures var t := FeederStep(c, src, s);
            if FeederIdle(c, s) then FeederWork(src, t) == FeederWork(src, s)
            else FeederWork(src, t) <= FeederWork(src, s) - 1
  {
    hide Config.BufSize;
  }

  /** What the shoveller's step does to the variables the reader's rank looks at. */
  lemma FeederOnReader(c: Config, src: Source, s: State)
    requires PositionsOk(c, src.data, s) && Chunk(c, src.data, s.m.writepos, s.f, s.h)
    ensures var t := FeederStep(c, src, s);
            && t.r == s.r && t.h.released == s.h.released
            && (!Wakes(s.f.pc) ==> t.m.writepos == s.m.writepos && t.m.endOfInput == s.m.endOfInput
                                   && t.m.inputError == s.m.inputError)
            && (t.m.endOfConsumption == s.m.endOfConsumption || t.m.endOfConsumption != 0)
            && (FeederIdle(c, s) ==> t.m == s.m)
  {
    hide Config.BufSize; hide Positions; hide Chunk;
    if s.f.pc.FFill? {
      FillOnReader(c, src, s);
    } else {
      hide FreeBytes; hide FillIndex; hide NextWritePos; hide NextChunk;
    }
  }

  lemma FillOnReader(c: Config, src: Source, s: State)
    requires s.f.pc.FFill?
    ensures var t := FeederStep(c, src, s);
            t.r == s.r && t.h == s.h && t.m == s.m.(buf := t.m.buf, live := t.m.live)
  {
    hide Config.BufSize; hide FillIndex;
  }

  lemma ReaderWorkMoves(c: Config, src: Source, s: State, t: State)
    requires t.r == s.r && t.h.released == s.h.released
    requires t.m.endOfConsumption == s.m.endOfConsumption || t.m.endOfConsumption != 0
    ensures ReaderWork(c, src, t) <= ReaderWork(c, src, s) + 3
    ensures t.m.writepos == s.m.writepos && t.m.endOfInput == s.m.endOfInput && t.m.inputError == s.m.inputError ==>
              ReaderWork(c, src, t) <= ReaderWork(c, src, s)
    ensures t.m == s.m ==> ReaderWork(c, src, t) == ReaderWork(c, src, s)
  {
  }

  lemma FeederStepWork(c: Config, src: Source, s: State)
    requires Good(c) && Inv(c, src, s)
    ensures var t := FeederStep(c, src, s);
            if FeederIdle(c, s) then Work(c, src, t) == Work(c, src, s) else Work(c, src, t) < Work(c, src, s)
  {
    hide Ring; hide Stream; hide Config.BufSize; hide FeederStep; hide FeederRank; hide ReaderRank; hide Positions;
    hide Chunk; hide Flags; hide Call; hide FeederWork; hide ReaderWork; hide FeederIdle; hide Good;
    RingBounds(c.BufSize(), src.data, s.m, s.h.released, s.r.copied, Used(s.h) + s.f.filled);
    if Draining(s.f.pc) {
      FeederDrainWork(c, src, s);
    } else {
      FeederOwnWork(c, src, s);
    }
    FeederOnReader(c, src, s);
    ReaderWorkMoves(c, src, s, FeederStep(c, src, s));
  }

  /** What the reader's step does to the variables the shoveller's rank looks at. */
  lemma ReaderOnFeeder(c: Config, src: Source, s: State)
    requires Good(c) && PositionsOk(c, src.data, s) && Call(c, src.data, s.m, s.r, s.h)
    requires Flags(src, s.m, s.f.pc, s.r.pc, s.h)
    ensures var t := ReaderStep(c, s);
            && FeederWork(src, t) <= FeederWork(src, s) + (if s.r.pc.RReturn? || s.r.pc.RAbort? then 1 else 0)
            && (ReaderIdle(s) ==> FeederWork(src, t) == FeederWork(src, s))
  {
    hide Aligned; hide Config.BufSize;
  }

  lemma ReaderOwnWait(c: Config, src: Source, s: State)
    requires Call(c, src.data, s.m, s.r, s.h)
    requires s.r.pc.RCheck? || s.r.pc.REndOfInput? || s.r.pc.RError?
    ensures var t := ReaderStep(c, s);
            if ReaderIdle(s) then ReaderWork(c, src, t) == ReaderWork(c, src, s)
            else ReaderWork(c, src, t) < ReaderWork(c, src, s)
  {
    hide Config.BufSize; hide AllRead;
  }

  lemma ReaderOwnEnds(c: Config, src: Source, s: State)
    requires Good(c) && Call(c, src.data, s.m, s.r, s.h) && Flags(src, s.m, s.f.pc, s.r.pc, s.h)
    requires s.r.pc.RStart? || s.r.pc.RLoop? || s.r.pc.RAbort? || s.r.pc.RReturn?
    ensures var t := ReaderStep(c, s);
            if ReaderIdle(s) then ReaderWork(c, src, t) == ReaderWork(c, src, s)
            else ReaderWork(c, src, t) < ReaderWork(c, src, s) - (if s.r.pc.RReturn? || s.r.pc.RAbort? then 1 else 0)
  {
    hide Config.BufSize;
  }

  lemma ReaderOwnCopies(c: Config, src: Source, s: State)
    requires Good(c) && PositionsOk(c, src.data, s) && Call(c, src.data, s.m, s.r, s.h)
    requires |s.m.buf| == |s.m.live| == c.BufSize()
    requires s.r.pc.RDiff? || Copying(s.r.pc) || s.r.pc.RWrap?
    ensures ReaderWork(c, src, ReaderStep(c, s)) < ReaderWork(c, src, s)
  {
    hide Config.BufSize; hide Aligned;
  }

  lemma ReaderStepWork(c: Config, src: Source, s: State)
    requires Good(c) && Inv(c, src, s)
    ensures var t := ReaderStep(c, s);
            if ReaderIdle(s) then Work(c, src, t) == Work(c, src, s) else Work(c, src, t) < Work(c, src, s)
  {
    hide Ring; hide Stream; hide Config.BufSize; hide ReaderStep; hide FeederRank; hide ReaderRank; hide Positions;
    hide Chunk; hide Flags; hide Call; hide FeederWork; hide ReaderWork; hide Good;
    RingBounds(c.BufSize(), src.data, s.m, s.h.released, s.r.copied, Used(s.h) + s.f.filled);
    ReaderOnFeeder(c, src, s);
    if s.r.pc.RCheck? || s.r.pc.REndOfInput? || s.r.pc.RError? {
      ReaderOwnWait(c, src, s);
    } else if s.r.pc.RDiff? || Copying(s.r.pc) || s.r.pc.RWrap? {
      ReaderOwnCopies(c, src, s);
    } else {
      ReaderOwnEnds(c, src, s);
    }
  }

  /** A waiting step changes nothing in the measure, any other step lowers it. */
  lemma StepWork(c: Config, src: Source, s: State, p: Process)
    requires Good(c) && Inv(c, src, s)
    ensures var t := Step(c, src, s, p);
            if Idle(c, s, p) then Work(c, src, t) == Work(c, src, s) else Work(c, src, t) < Work(c, src, s)
  {
    hide Inv; hide Work; hide FeederStep; hide ReaderStep; hide FeederIdle; hide ReaderIdle; hide Good;
    if p.Feeder? {
      FeederStepWork(c, src, s);
    } else {
      ReaderStepWork(c, src, s);
    }
  }

  /** Both threads are idle only when everything is over. */
  lemma OneCanGoOn(c: Config, src: Source, s: State)
    requires Good(c) && Inv(c, src, s) && FeederIdle(c, s) && ReaderIdle(s)
    ensures Finished(s)
  {
    hide Ring; hide Stream; hide Config.BufSize; hide FreeBytes; hide Aligned;
    FreeIsExact(c, src.data, s);
  }

  /** Steps of a schedule that are not idle. */
  function ActiveSteps(c: Config, src: Source, s: State, schedule: seq<Process>): nat
    decreases |schedule|
  {
    if schedule == [] then 0
    else
      var rest := ActiveSteps(c, src, Step(c, src, s, schedule[0]), schedule[1..]);
      if Idle(c, s, schedule[0]) then rest else rest + 1
  }

  lemma {:induction false} ActiveStepsBoundedFrom(c: Config, src: Source, s: State, schedule: seq<Process>)
    requires Good(c) && Inv(c, src, s)
    ensures ActiveSteps(c, src, s, schedule) + Work(c, src, RunFrom(c, src, s, schedule)) <= Work(c, src, s)
    decreases |schedule|
  {
    hide Inv; hide Work; hide Step; hide Idle; hide Good;
    if schedule != [] {
      StepWork(c, src, s, schedule[0]);
      StepInv(c, src, s, schedule[0]);
      ActiveStepsBoundedFrom(c, src, Step(c, src, s, schedule[0]), schedule[1..]);
    }
  }

  /** However the two threads are scheduled, they do at most this many steps that are not waiting. */
  lemma ActiveStepsBounded(c: Config, src: Source, schedule: seq<Process>)
    requires Good(c)
    ensures ActiveSteps(c, src, Init(c), schedule) <= 252 * |src.data| + 175
  {
    hide Inv; hide Step; hide Idle; hide Good; hide RunFrom; hide ActiveSteps; hide Config.BufSize;
    InitInv(c, src);
    ActiveStepsBoundedFrom(c, src, Init(c), schedule);
    RunInvFrom(c, src, Init(c), schedule);
    WorkIsNatural(c, src, RunFrom(c, src, Init(c), schedule));
  }

  lemma {:induction false} CanFinishFrom(c: Config, src: Source, s: State) returns (schedule: seq<Process>)
    requires Good(c) && Inv(c, src, s)
    ensures Finished(RunFrom(c, src, s, schedule))
    decreases Work(c, src, s)
  {
    hide Inv; hide Work; hide Step; hide Idle; hide Good; hide FeederIdle; hide ReaderIdle; hide Finished;
    WorkIsNatural(c, src, s);
    if Finished(s) {
      schedule := [];
    } else {
      var p := NextActive(c, src, s);
      StepWork(c, src, s, p);
      StepInv(c, src, s, p);
      var t := Step(c, src, s, p);
      WorkIsNatural(c, src, t);
      var rest := CanFinishFrom(c, src, t);
      schedule := [p] + rest;
      assert schedule[1..] == rest;
    }
  }

  lemma NextActive(c: Config, src: Source, s: State) returns (p: Process)
    requires Good(c) && Inv(c, src, s) && !Finished(s)
    ensures !Idle(c, s, p)
  {
    hide Inv; hide Good; hide FeederIdle; hide ReaderIdle; hide Finished;
    if FeederIdle(c, s) && ReaderIdle(s) {
      OneCanGoOn(c, src, s);
    }
    p := if FeederIdle(c, s) then Reader else Feeder;
  }

  lemma {:induction false} RunConcat(c: Config, src: Source, s: State, a: seq<Process>, b: seq<Process>)
    ensures RunFrom(c, src, s, a + b) == RunFrom(c, src, RunFrom(c, src, s, a), b)
    decreases |a|
  {
    hide Step;
    if a == [] {
      assert a + b == b;
    } else {
      assert (a + b)[0] == a[0] && (a + b)[1..] == a[1..] + b;
      RunConcat(c, src, Step(c, src, s, a[0]), a[1..], b);
    }
  }

  /** From every reachable state the transfer can be completed, and when it is completed
      on a source without errors, the callers have the whole input. */
  lemma CanComplete(c: Config, src: Source, schedule: seq<Process>) returns (more: seq<Process>)
    requires Good(c)
    ensures Finished(Run(c, src, schedule + more))
    ensures !src.fails ==> Run(c, src, schedule + more).h.delivered == src.data
  {
    hide Inv; hide Good; hide RunFrom; hide Finished; hide Init;
    RunInv(c, src, schedule);
    more := CanFinishFrom(c, src, Run(c, src, schedule));
    RunConcat(c, src, Init(c), schedule, more);
    RunInv(c, src, schedule + more);
    if !src.fails {
      FinishedDelivered(c, src, Run(c, src, schedule + more));
    }
  }

  lemma FinishedDelivered(c: Config, src: Source, s: State)
    requires Inv(c, src, s) && Finished(s) && !src.fails
    ensures s.h.delivered == src.data
  {
    hide Ring; hide Aligned; hide Config.BufSize;
    assert s.h.delivered + [] == src.data[..|src.data|] == src.data;
  }
}
