/** The fifo of libburn/file.c: a ring buffer that one thread fills (the shoveller)
    and another one drains (fifo_read), without a mutex. Every access to a shared
    variable and every copied byte is a step of its own. */
module Fifo {
  import opened Options
  import opened ZeroRuns

  // ------------------------------------------------------------ configuration

  /** size is the request size of the reader; inp the read size of the shoveller. */
  datatype Config = Config(chunksize: nat, chunks: nat, inp: nat, size: nat) {
    function BufSize(): nat { chunksize * chunks }
  }

  /** The checks of burn_fifo_source_new(); largeReads is its flag bit0. */
  function NewConfig(chunksize: int, chunks: int, largeReads: bool, size: nat): Option<Config>
  {
    if chunksize * chunks > 1024 * 1024 * 1024 then None
    else if chunksize < 1 || chunks < 2 then None
    else Some(Config(chunksize, chunks, if largeReads then 32 * 1024 else chunksize, size))
  }

  /** A source that keeps the contract of burn_source.read: full buffers, then at most
      one short one, then the end (0) or an error (-1). */
  datatype Source = Source(data: seq<bv8>, fails: bool)

  // --------------------------------------------------------------------- state

  datatype FeederPc =
    | FLoop | FWritePos | FSpace | FObtain | FFill | FPublish
    | FExit | FEndInput | FDrain | FDrainEnded | FClaim | FClaimSet | FRelease | FGone

  datatype ReaderPc =
    | RStart | RLoop | RCheck | REndOfInput | RError | RAbort | RDiff | RCopy | RAdvance | RWrap | RReturn

  /** What both threads see. */
  datatype Shared = Shared(
    buf: seq<bv8>,           // the ring
    live: seq<bool>,         // bookkeeping: the cell holds a byte not yet copied out
    freed: bool,
    readpos: int,
    writepos: int,
    endOfInput: bool,
    inputError: bool,
    endOfConsumption: int)

  /** Locals of the shoveller: `filled` counts the bytes of `chunk` that stand in the ring. */
  datatype FeederLocals = FeederLocals(pc: FeederPc, wpos: int, transEnd: bool, ret: int, filled: int, chunk: seq<bv8>)

  /** Locals of fifo_read and the buffer of its caller. */
  datatype ReaderLocals = ReaderLocals(pc: ReaderPc, todo: int, rpos: int, diff: int, copied: int, buffer: seq<bv8>)

  datatype History = History(
    inCounter: nat,          // bytes accepted from the source
    published: nat,          // of those, made visible by a new write position
    released: nat,           // bytes given free by a new read position
    delivered: seq<bv8>,     // what the calls with positive result handed out
    calls: nat,
    last: int,               // result of the latest finished call
    aborted: bool)           // some call returned -1

  /** `fault` records an illegal access to the ring. */
  datatype State = State(m: Shared, f: FeederLocals, r: ReaderLocals, h: History, fault: bool)

  function Init(c: Config): State
  {
    State(Shared(Zeros(c.BufSize()), seq(c.BufSize(), _ => false), false, 0, 0, false, false, 0),
          FeederLocals(FLoop, 0, false, 0, 0, []),
          ReaderLocals(RStart, 0, 0, 0, 0, Zeros(c.size)),
          History(0, 0, 0, [], 0, 0, false), false)
  }

  // ------------------------------------------------------------------ shoveller

  /** Free bytes as seen from the two positions. */
  function FreeBytes(bufsize: int, rpos: int, wpos: int): int
  {
    var diff := rpos - wpos;
    if diff == 0 then bufsize - 1 else if diff > 0 then diff - 1 else (bufsize - wpos) + rpos - 1
  }

  /** The ring index of the next byte of the current chunk. */
  function FillIndex(bufsize: int, f: FeederLocals): int
  {
    if f.transEnd && f.filled >= bufsize - f.wpos then f.filled - (bufsize - f.wpos) else f.wpos + f.filled
  }

  /** The write position that makes the current chunk visible. */
  function NextWritePos(bufsize: int, writepos: int, f: FeederLocals): int
  {
    if f.transEnd then
      if f.ret >= bufsize - f.wpos then f.ret - (bufsize - f.wpos) else writepos + f.ret
    else if writepos + f.ret == bufsize then 0
    else writepos + f.ret
  }

  function Min(a: int, b: int): int { if a < b then a else b }

  /** What the source delivers next; staged and padded if the chunk will be cut at the ring's end. */
  function NextChunk(c: Config, src: Source, at: nat, cut: bool): seq<bv8>
    requires at < |src.data|
  {
    var n := Min(c.inp, |src.data| - at);
    src.data[at..at + n] + if cut then Zeros(c.inp - n) else []
  }

  function GotoF(s: State, pc: FeederPc): State { s.(f := s.f.(pc := pc)) }

  function Fault(s: State): State { s.(fault := true) }

  function FeederStep(c: Config, src: Source, s: State): State
  {
    var m, f := s.m, s.f;
    match f.pc
    case FLoop =>
      GotoF(s, if m.endOfConsumption != 0 then FExit else FWritePos)
    case FWritePos =>
      s.(f := f.(wpos := m.writepos, pc := FSpace))
    case FSpace =>
      var cut := m.readpos - f.wpos < 0 && c.BufSize() - f.wpos < c.inp;
      s.(f := f.(transEnd := cut,
                 pc := if FreeBytes(c.BufSize(), m.readpos, f.wpos) >= c.inp then FObtain else FSpace))
    case FObtain =>
      if s.h.inCounter >= |src.data| then
        GotoF(s.(m := m.(inputError := src.fails)), FExit)
      else
        var n := Min(c.inp, |src.data| - s.h.inCounter);
        s.(f := f.(chunk := NextChunk(c, src, s.h.inCounter, f.transEnd), ret := n, filled := 0, pc := FFill),
           h := s.h.(inCounter := s.h.inCounter + n))
    case FFill =>
      if f.filled >= |f.chunk| then GotoF(s, FPublish)
      else
        var i := FillIndex(c.BufSize(), f);
        if !(0 <= i < |m.buf| && i < |m.live|) || f.filled < 0 then Fault(s)
        else s.(m := m.(buf := m.buf[i := f.chunk[f.filled]], live := m.live[i := true]),
                f := f.(filled := f.filled + 1),
                fault := s.fault || m.freed || m.live[i])
    case FPublish =>
      s.(m := m.(writepos := NextWritePos(c.BufSize(), m.writepos, f)),
         f := f.(ret := 0, filled := 0, chunk := [], pc := FLoop),
         h := s.h.(published := s.h.inCounter))
    case FExit =>
      GotoF(s, if m.endOfConsumption == 0 then FEndInput else FDrain)
    case FEndInput =>
      GotoF(s.(m := m.(endOfInput := true)), FDrain)
    case FDrain =>
      GotoF(s, if m.readpos != m.writepos then FDrainEnded else FClaim)
    case FDrainEnded =>
      GotoF(s, if m.endOfConsumption == 0 then FDrain else FClaim)
    case FClaim =>
      GotoF(s, if m.endOfConsumption == 0 then FClaimSet else FRelease)
    case FClaimSet =>
      GotoF(s.(m := m.(endOfConsumption := 2)), FRelease)
    case FRelease =>
      GotoF(s.(m := m.(freed := true)), FGone)
    case FGone => s
  }

  // --------------------------------------------------------------------- reader

  function GotoR(s: State, pc: ReaderPc): State { s.(r := s.r.(pc := pc)) }

  /** The call ends with this result; the caller keeps what a positive result announces. */
  function Return(s: State, result: int): State
  {
    var all := if 0 < result <= |s.r.buffer| then s.h.delivered + s.r.buffer[..result] else s.h.delivered;
    GotoR(s.(h := s.h.(calls := s.h.calls + 1, last := result, delivered := all)), RStart)
  }

  function EndConsumption(s: State): State { s.(m := s.m.(endOfConsumption := 1)) }

  function ReaderStep(c: Config, s: State): State
  {
    var m, r := s.m, s.r;
    match r.pc
    case RStart =>
      if m.endOfConsumption != 0 || c.size == 0 then Return(s, 0)
      else s.(r := r.(todo := c.size, pc := RLoop))
    case RLoop =>
      if r.todo > 0 then s.(r := r.(rpos := m.readpos, pc := RCheck)) else GotoR(s, RReturn)
    case RCheck =>
      GotoR(s, if r.rpos == m.writepos then REndOfInput else RDiff)
    case REndOfInput =>
      GotoR(s, if m.endOfInput then RDiff else RError)
    case RError =>
      GotoR(s, if !m.inputError then RCheck else if r.todo < c.size then RDiff else RAbort)
    case RAbort =>
      Return(EndConsumption(s.(h := s.h.(aborted := true))), -1)
    case RDiff =>
      var d := m.writepos - r.rpos;
      if d == 0 then GotoR(s, RReturn)
      else s.(r := r.(diff := Min(if d > 0 then d else c.BufSize() - r.rpos, r.todo), copied := 0, pc := RCopy))
    case RCopy =>
      if r.copied >= r.diff then GotoR(s, RAdvance)
      else
        var i := (c.size - r.todo) + r.rpos + r.copied;
        if !(0 <= i < |m.buf| && i < |m.live|) || !(0 <= r.copied < |r.buffer|) then Fault(s)
        else s.(m := m.(live := m.live[i := false]),
                r := r.(buffer := r.buffer[r.copied := m.buf[i]], copied := r.copied + 1),
                fault := s.fault || m.freed || !m.live[i])
    case RAdvance =>
      s.(m := m.(readpos := m.readpos + r.diff),
         r := r.(copied := 0, pc := RWrap),
         h := s.h.(released := if r.diff >= 0 then s.h.released + r.diff else s.h.released))
    case RWrap =>
      s.(m := m.(readpos := if m.readpos >= c.BufSize() then 0 else m.readpos),
         r := r.(todo := r.todo - r.diff, pc := RLoop))
    case RReturn =>
      if c.size - r.todo <= 0 then Return(EndConsumption(s), c.size - r.todo)
      else Return(s, c.size - r.todo)
  }

  // ----------------------------------------------------------------------- runs

  datatype Process = Feeder | Reader

  function Step(c: Config, src: Source, s: State, p: Process): State
  {
    match p
    case Feeder => FeederStep(c, src, s)
    case Reader => ReaderStep(c, s)
  }

  /** The state after the steps of a schedule, taken from the front. */
  function RunFrom(c: Config, src: Source, s: State, schedule: seq<Process>): State
    decreases |schedule|
  {
    if schedule == [] then s else RunFrom(c, src, Step(c, src, s, schedule[0]), schedule[1..])
  }

  function Run(c: Config, src: Source, schedule: seq<Process>): State
  {
    RunFrom(c, src, Init(c), schedule)
  }
}
