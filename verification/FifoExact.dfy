/** Exactly when the fifo keeps the stream: the request size must divide the chunk size.
    Otherwise some request is served in two pieces, and the second piece is taken from
    the wrong place in the ring and put at the start of the caller's buffer. */
module FifoExact {
  import opened Fifo
  import Arithmetic
  import opened FifoSafety
  import opened FifoProgress

  ghost predicate StreamCorrect(c: Config)
  {
    forall src: Source, schedule: seq<Process> ::
      var s := Run(c, src, schedule);
      !s.fault && s.h.delivered <= src.data
  }

  // ------------------------------------------------------- sufficient condition

  lemma {:induction false} ModuloAligned(x: nat, k: nat)
    requires k > 0 && x % k == 0
    ensures Aligned(x, k)
    decreases x
  {
    if x > 0 {
      assert x >= k;
      Arithmetic.ModStep(x, k);
      ModuloAligned(x - k, k);
    }
  }

  lemma {:induction false} ProductAligned(k: nat, n: nat)
    requires k > 0
    ensures Aligned(k * n, k)
    decreases n
  {
    if n > 0 {
      ProductAligned(k, n - 1);
      AlignedBasics(k);
      assert k * n == k * (n - 1) + k;
      AlignedSum(k * (n - 1), k, k);
    }
  }

  /** What burn_fifo_source_new accepts: at least two chunks of at least one byte, 1 GiB at most. */
  lemma NewConfigExactly(chunksize: int, chunks: int, largeReads: bool, size: nat)
    ensures var c := NewConfig(chunksize, chunks, largeReads, size);
            && (c.Some? <==> chunksize >= 1 && chunks >= 2 && chunksize * chunks <= 0x4000_0000)
            && (c.Some? ==> c.value.BufSize() == chunksize * chunks && c.value.size == size
                            && c.value.inp == if largeReads then 32768 else chunksize)
  {
  }

  lemma NewConfigGood(chunksize: int, chunks: int, size: nat)
    requires NewConfig(chunksize, chunks, false, size).Some? && size > 0 && chunksize % size == 0
    ensures Good(NewConfig(chunksize, chunks, false, size).value)
  {
    var b := chunksize * chunks;
    assert b >= 2 * chunksize by {
      Arithmetic.Monotone(1, chunks - 1, chunksize);
      assert b == (chunks - 1) * chunksize + chunksize;
    }
    ProductAligned(chunksize, chunks);
    ModuloAligned(chunksize, size);
    AlignedTransitive(b, chunksize, size);
  }

  // ---------------------------------------------------------- one-sided runs

  function FeederRun(c: Config, src: Source, s: State, n: nat): State
    decreases n
  {
    if n == 0 then s else FeederRun(c, src, FeederStep(c, src, s), n - 1)
  }

  function ReaderRun(c: Config, s: State, n: nat): State
    decreases n
  {
    if n == 0 then s else ReaderRun(c, ReaderStep(c, s), n - 1)
  }

  function Repeat(p: Process, n: nat): (r: seq<Process>)
    ensures |r| == n && forall i | 0 <= i < n :: r[i] == p
  {
    seq(n, _ => p)
  }

  lemma {:induction false} FeederRunIsRun(c: Config, src: Source, s: State, n: nat)
    ensures RunFrom(c, src, s, Repeat(Feeder, n)) == FeederRun(c, src, s, n)
    decreases n
  {
    hide FeederStep;
    if n > 0 {
      assert Repeat(Feeder, n)[1..] == Repeat(Feeder, n - 1);
      FeederRunIsRun(c, src, FeederStep(c, src, s), n - 1);
    }
  }

  lemma {:induction false} ReaderRunIsRun(c: Config, src: Source, s: State, n: nat)
    ensures RunFrom(c, src, s, Repeat(Reader, n)) == ReaderRun(c, s, n)
    decreases n
  {
    hide ReaderStep;
    if n > 0 {
      assert Repeat(Reader, n)[1..] == Repeat(Reader, n - 1);
      ReaderRunIsRun(c, src, ReaderStep(c, s), n - 1);
    }
  }

  lemma {:induction false} FeederRunSum(c: Config, src: Source, s: State, n: nat, m: nat)
    ensures FeederRun(c, src, s, n + m) == FeederRun(c, src, FeederRun(c, src, s, n), m)
    decreases n
  {
    hide FeederStep;
    if n > 0 {
      FeederRunSum(c, src, FeederStep(c, src, s), n - 1, m);
    }
  }

  lemma {:induction false} ReaderRunSum(c: Config, s: State, n: nat, m: nat)
    ensures ReaderRun(c, s, n + m) == ReaderRun(c, ReaderRun(c, s, n), m)
    decreases n
  {
    hide ReaderStep;
    if n > 0 {
      ReaderRunSum(c, ReaderStep(c, s), n - 1, m);
    }
  }

  /** A sequence with the part from lo on replaced by p. */
  function Patch<T>(s: seq<T>, lo: nat, p: seq<T>): (r: seq<T>)
    requires lo + |p| <= |s|
    ensures |r| == |s|
    ensures forall i | 0 <= i < |s| :: r[i] == if lo <= i < lo + |p| then p[i - lo] else s[i]
  {
    s[..lo] + p + s[lo + |p|..]
  }

  function Constant(n: nat, b: bool): (r: seq<bool>)
    ensures |r| == n && forall i | 0 <= i < n :: r[i] == b
  {
    seq(n, _ => b)
  }

  predicate CanFill(s: State)
  {
    && s.f.pc.FFill? && !s.f.transEnd && 0 <= s.f.filled <= |s.f.chunk| && s.f.wpos >= 0
    && s.f.wpos + |s.f.chunk| <= |s.m.buf| == |s.m.live| && !s.m.freed
    && (forall i | s.f.wpos + s.f.filled <= i < s.f.wpos + |s.f.chunk| :: !s.m.live[i])
  }

  function FillEnd(s: State): State
    requires CanFill(s)
  {
    var lo, p := s.f.wpos + s.f.filled, s.f.chunk[s.f.filled..];
    s.(m := s.m.(buf := Patch(s.m.buf, lo, p), live := Patch(s.m.live, lo, Constant(|p|, true))),
       f := s.f.(filled := |s.f.chunk|, pc := FPublish))
  }

  lemma FillStep(c: Config, src: Source, s: State)
    requires CanFill(s) && s.f.filled < |s.f.chunk|
    ensures var t := FeederStep(c, src, s);
            CanFill(t) && t.f.filled == s.f.filled + 1 && |t.f.chunk| == |s.f.chunk| && FillEnd(t) == FillEnd(s)
  {
    hide Config.BufSize; hide Patch; hide Constant;
    var t := FeederStep(c, src, s);
    var i, p := s.f.wpos + s.f.filled, s.f.chunk[s.f.filled..];
    assert p[1..] == t.f.chunk[t.f.filled..];
    PatchNext(s.m.buf, i, p);
    PatchNext(s.m.live, i, Constant(|p|, true));
    assert Constant(|p|, true)[1..] == Constant(|p| - 1, true);
  }

  lemma PatchNext<T>(s: seq<T>, lo: nat, p: seq<T>)
    requires lo + |p| <= |s| && |p| > 0
    ensures Patch(s[lo := p[0]], lo + 1, p[1..]) == Patch(s, lo, p)
  {
  }

  lemma PatchNothing<T>(s: seq<T>, lo: nat)
    requires lo <= |s|
    ensures Patch(s, lo, []) == s
  {
  }

  /** The fill loop, run to its end. */
  lemma {:induction false} FillAll(c: Config, src: Source, s: State) returns (n: nat)
    requires CanFill(s)
    ensures FeederRun(c, src, s, n) == FillEnd(s)
    decreases |s.f.chunk| - s.f.filled
  {
    if s.f.filled == |s.f.chunk| {
      n := 1;
      FillDone(c, src, s);
      assert FeederRun(c, src, FeederStep(c, src, s), 0) == FeederStep(c, src, s);
    } else {
      hide FeederStep; hide FillEnd;
      FillStep(c, src, s);
      var k := FillAll(c, src, FeederStep(c, src, s));
      n := k + 1;
    }
  }

  lemma FillDone(c: Config, src: Source, s: State)
    requires CanFill(s) && s.f.filled == |s.f.chunk|
    ensures FeederStep(c, src, s) == FillEnd(s)
  {
    hide Config.BufSize;
    PatchNothing(s.m.buf, s.f.wpos + s.f.filled);
    PatchNothing(s.m.live, s.f.wpos + s.f.filled);
    assert s.f.chunk[s.f.filled..] == [];
    assert Constant(0, true) == [];
  }

  function CopyBase(c: Config, s: State): int { (c.size - s.r.todo) + s.r.rpos }

  predicate CanCopy(c: Config, s: State)
  {
    && s.r.pc.RCopy? && 0 <= s.r.copied <= s.r.diff <= |s.r.buffer| && CopyBase(c, s) >= 0
    && CopyBase(c, s) + s.r.diff <= |s.m.buf| == |s.m.live| && !s.m.freed
    && (forall i | CopyBase(c, s) + s.r.copied <= i < CopyBase(c, s) + s.r.diff :: s.m.live[i])
  }

  function CopyEnd(c: Config, s: State): State
    requires CanCopy(c, s)
  {
    var lo, k := CopyBase(c, s) + s.r.copied, s.r.diff - s.r.copied;
    s.(m := s.m.(live := Patch(s.m.live, lo, Constant(k, false))),
       r := s.r.(buffer := Patch(s.r.buffer, s.r.copied, s.m.buf[lo..lo + k]), copied := s.r.diff, pc := RAdvance))
  }

  lemma CopyStep(c: Config, s: State)
    requires CanCopy(c, s) && s.r.copied < s.r.diff
    ensures var t := ReaderStep(c, s);
            CanCopy(c, t) && t.r.copied == s.r.copied + 1 && t.r.diff == s.r.diff && CopyEnd(c, t) == CopyEnd(c, s)
  {
    hide Config.BufSize; hide Patch; hide Constant;
    var t := ReaderStep(c, s);
    var lo, k := CopyBase(c, s) + s.r.copied, s.r.diff - s.r.copied;
    var p := s.m.buf[lo..lo + k];
    assert p[1..] == s.m.buf[lo + 1..lo + k];
    PatchNext(s.r.buffer, s.r.copied, p);
    PatchNext(s.m.live, lo, Constant(k, false));
    assert Constant(k, false)[1..] == Constant(k - 1, false);
  }

  lemma CopyDone(c: Config, s: State)
    requires CanCopy(c, s) && s.r.copied == s.r.diff
    ensures ReaderStep(c, s) == CopyEnd(c, s)
  {
    hide Config.BufSize;
    var lo := CopyBase(c, s) + s.r.copied;
    PatchNothing(s.r.buffer, s.r.copied);
    PatchNothing(s.m.live, lo);
    assert s.m.buf[lo..lo] == [];
    assert Constant(0, false) == [];
  }

  /** The copy loop, run to its end, from cells that are all live. */
  lemma {:induction false} CopyAll(c: Config, s: State) returns (n: nat)
    requires CanCopy(c, s)
    ensures ReaderRun(c, s, n) == CopyEnd(c, s)
    decreases s.r.diff - s.r.copied
  {
    if s.r.copied == s.r.diff {
      n := 1;
      CopyDone(c, s);
      assert ReaderRun(c, ReaderStep(c, s), 0) == ReaderStep(c, s);
    } else {
      hide ReaderStep; hide CopyEnd;
      CopyStep(c, s);
      var k := CopyAll(c, ReaderStep(c, s));
      n := k + 1;
    }
  }

  // ------------------------------------------------------------- whole phases

  /** The state after one chunk has been fed at position w of an empty ring. */
  function Fed(c: Config, src: Source, s: State, w: nat): State
    requires w + c.inp <= |s.m.buf| == |s.m.live| && w + c.inp <= |src.data|
  {
    s.(m := s.m.(buf := Patch(s.m.buf, w, src.data[w..w + c.inp]), live := Patch(s.m.live, w, Constant(c.inp, true)),
                 writepos := if w + c.inp == c.BufSize() then 0 else w + c.inp),
       f := FeederLocals(FLoop, w, false, 0, 0, []),
       h := s.h.(inCounter := w + c.inp, published := w + c.inp))
  }

  predicate CanFeed(c: Config, src: Source, s: State, w: nat)
  {
    && s.f.pc.FLoop? && s.m.endOfConsumption == 0 && s.m.readpos == s.m.writepos == w && s.h.inCounter == w
    && !s.m.freed && |s.m.buf| == |s.m.live| == c.BufSize() && 0 < c.inp < c.BufSize()
    && w + c.inp <= c.BufSize() && w + c.inp <= |src.data| && (forall i | 0 <= i < c.BufSize() :: !s.m.live[i])
  }

  lemma FeedStart(c: Config, src: Source, s: State, w: nat)
    requires CanFeed(c, src, s, w)
    ensures FeederRun(c, src, s, 4) ==
            s.(f := FeederLocals(FFill, w, false, c.inp, 0, src.data[w..w + c.inp]), h := s.h.(inCounter := w + c.inp))
  {
    hide Config.BufSize;
    var s1 := FeederStep(c, src, s);
    assert s1 == s.(f := s.f.(pc := FWritePos));
    var s2 := FeederStep(c, src, s1);
    assert s2 == s.(f := s.f.(wpos := w, pc := FSpace));
    var s3 := FeederStep(c, src, s2);
    assert s3 == s.(f := s.f.(wpos := w, transEnd := false, pc := FObtain));
    var s4 := FeederStep(c, src, s3);
    assert src.data[w..w + c.inp] + [] == src.data[w..w + c.inp];
    FeederRunFour(c, src, s);
  }

  lemma FeederRunFour(c: Config, src: Source, s: State)
    ensures FeederRun(c, src, s, 4) == FeederStep(c, src, FeederStep(c, src, FeederStep(c, src, FeederStep(c, src, s))))
  {
    hide FeederStep;
    var t := FeederStep(c, src, FeederStep(c, src, s));
    assert FeederRun(c, src, s, 4) == FeederRun(c, src, t, 2);
  }

  lemma FeedEnd(c: Config, src: Source, s: State, w: nat)
    requires CanFeed(c, src, s, w)
    ensures var filling := s.(f := FeederLocals(FFill, w, false, c.inp, 0, src.data[w..w + c.inp]),
              h := s.h.(inCounter := w + c.inp));
            CanFill(filling) && FeederStep(c, src, FillEnd(filling)) == Fed(c, src, s, w)
  {
    hide Config.BufSize; hide Patch; hide Constant;
    assert src.data[w..w + c.inp][0..] == src.data[w..w + c.inp];
  }

  lemma FeedChunk(c: Config, src: Source, s: State, w: nat) returns (n: nat)
    requires CanFeed(c, src, s, w)
    ensures FeederRun(c, src, s, n) == Fed(c, src, s, w)
  {
    hide FeederStep; hide FillEnd; hide CanFill; hide Fed;
    FeedStart(c, src, s, w);
    FeedEnd(c, src, s, w);
    var t := FeederRun(c, src, s, 4);
    var k := FillAll(c, src, t);
    var u := FeederRun(c, src, t, k);
    n := 4 + (k + 1);
    FeederRunSum(c, src, s, 4, k + 1);
    FeederRunSum(c, src, t, k, 1);
    assert FeederRun(c, src, u, 1) == FeederRun(c, src, FeederStep(c, src, u), 0) == FeederStep(c, src, u);
  }

  /** One round of the reader's outer loop that copies d bytes. */
  predicate CanTake(c: Config, s: State, d: nat)
  {
    var base := (c.size - s.r.todo) + s.m.readpos;
    && s.r.pc.RLoop? && 0 < s.r.todo <= c.size == |s.r.buffer| && s.m.readpos != s.m.writepos && !s.m.freed
    && d == Min(if s.m.writepos > s.m.readpos then s.m.writepos - s.m.readpos else c.BufSize() - s.m.readpos, s.r.todo)
    && 0 < d && 0 <= s.m.readpos && s.m.readpos + d < c.BufSize()
    && base + d <= |s.m.buf| == |s.m.live| && (forall i | base <= i < base + d :: s.m.live[i])
  }

  function Taken(c: Config, s: State, d: nat): State
    requires CanTake(c, s, d)
  {
    var base := (c.size - s.r.todo) + s.m.readpos;
    s.(m := s.m.(live := Patch(s.m.live, base, Constant(d, false)), readpos := s.m.readpos + d),
       r := ReaderLocals(RLoop, s.r.todo - d, s.m.readpos, d, 0, Patch(s.r.buffer, 0, s.m.buf[base..base + d])),
       h := s.h.(released := s.h.released + d))
  }

  function Copying0(s: State, d: nat): State
  {
    s.(r := ReaderLocals(RCopy, s.r.todo, s.m.readpos, d, 0, s.r.buffer))
  }

  lemma TakeStart(c: Config, s: State, d: nat)
    requires CanTake(c, s, d)
    ensures ReaderRun(c, s, 3) == Copying0(s, d) && CanCopy(c, Copying0(s, d))
  {
    hide Config.BufSize;
    var s1 := ReaderStep(c, s);
    assert s1 == s.(r := s.r.(rpos := s.m.readpos, pc := RCheck));
    var s2 := ReaderStep(c, s1);
    assert s2 == s.(r := s.r.(rpos := s.m.readpos, pc := RDiff));
    var s3 := ReaderStep(c, s2);
    assert s3 == Copying0(s, d);
    assert ReaderRun(c, s, 3) == ReaderRun(c, s1, 2) == ReaderRun(c, s2, 1) == ReaderRun(c, s3, 0);
  }

  lemma TakeEnd(c: Config, s: State, d: nat)
    requires CanTake(c, s, d) && CanCopy(c, Copying0(s, d))
    ensures ReaderStep(c, ReaderStep(c, CopyEnd(c, Copying0(s, d)))) == Taken(c, s, d)
  {
    hide Config.BufSize; hide Patch; hide Constant;
    var t := CopyEnd(c, Copying0(s, d));
    var t1 := ReaderStep(c, t);
    assert t1 == t.(m := t.m.(readpos := s.m.readpos + d), r := t.r.(copied := 0, pc := RWrap),
           h := s.h.(released := s.h.released + d));
  }

  lemma Take(c: Config, s: State, d: nat) returns (n: nat)
    requires CanTake(c, s, d)
    ensures ReaderRun(c, s, n) == Taken(c, s, d)
  {
    hide ReaderStep; hide CopyEnd; hide CanCopy; hide Taken; hide Copying0; hide CanTake;
    TakeStart(c, s, d);
    var t := ReaderRun(c, s, 3);
    var k := CopyAll(c, t);
    var u := ReaderRun(c, t, k);
    TakeEnd(c, s, d);
    n := 3 + (k + 2);
    ReaderRunSum(c, s, 3, k + 2);
    ReaderRunSum(c, t, k, 2);
    assert ReaderRun(c, u, 2) == ReaderRun(c, ReaderStep(c, u), 1) == ReaderRun(c, ReaderStep(c, ReaderStep(c, u)), 0);
  }

  // ------------------------------------------- a request that gets split in two

  /** Two chunks of input: k zeros, then k ones. */
  function TwoChunks(k: nat): (src: Source)
    ensures |src.data| == 2 * k && forall i | 0 <= i < 2 * k :: src.data[i] == if i < k then 0 else 1
  {
    Source(seq(2 * k, i => if i < k then 0 else 1), false)
  }

  predicate Splitting(c: Config)
  {
    0 < c.size && c.inp == c.chunksize && 0 < c.inp && 2 * c.inp <= c.BufSize() && !Aligned(c.inp, c.size)
  }

  /** One chunk stands in the ring, from w on; its first p bytes have been taken. */
  predicate AfterReads(c: Config, s: State, w: nat, p: nat)
  {
    && p <= c.inp && w + c.inp < c.BufSize() && s.f.pc.FLoop? && s.r.pc.RStart? && s.m.endOfConsumption == 0
        && !s.m.freed
    && |s.m.buf| == |s.m.live| == c.BufSize() && |s.r.buffer| == c.size
    && s.m.readpos == w + p && s.m.writepos == w + c.inp && s.h.inCounter == w + c.inp && |s.h.delivered| == w + p
    && (forall i | 0 <= i < c.BufSize() :: s.m.live[i] <==> w + p <= i < w + c.inp)
  }

  lemma RequestStart(c: Config, s: State, w: nat, p: nat)
    requires 0 < c.size && AfterReads(c, s, w, p) && p + c.size <= c.inp
    ensures CanTake(c, ReaderStep(c, s), c.size)
  {
    hide Config.BufSize;
  }

  lemma RequestEnd(c: Config, s: State, w: nat, p: nat)
    requires 0 < c.size && AfterReads(c, s, w, p) && p + c.size <= c.inp && CanTake(c, ReaderStep(c, s), c.size)
    ensures AfterReads(c, ReaderStep(c, ReaderStep(c, Taken(c, ReaderStep(c, s), c.size))), w, p + c.size)
  {
    hide Config.BufSize;
  }

  lemma OneRequest(c: Config, s: State, w: nat, p: nat) returns (n: nat)
    requires 0 < c.size && AfterReads(c, s, w, p) && p + c.size <= c.inp
    ensures AfterReads(c, ReaderRun(c, s, n), w, p + c.size)
  {
    hide AfterReads; hide ReaderStep; hide CanTake; hide Taken;
    RequestStart(c, s, w, p);
    RequestEnd(c, s, w, p);
    var t := ReaderStep(c, s);
    var k := Take(c, t, c.size);
    var u := ReaderRun(c, t, k);
    n := k + 3;
    ReaderRunSum(c, t, k, 2);
    assert ReaderRun(c, u, 2) == ReaderRun(c, ReaderStep(c, u), 1) == ReaderStep(c, ReaderStep(c, u));
    assert ReaderRun(c, s, n) == ReaderRun(c, t, k + 2);
  }

  lemma {:induction false} AllRequests(c: Config, s: State, w: nat, p: nat) returns (n: nat, q: nat)
    requires 0 < c.size && AfterReads(c, s, w, p) && Aligned(p, c.size)
    ensures AfterReads(c, ReaderRun(c, s, n), w, q) && Aligned(q, c.size) && q + c.size > c.inp
    decreases c.inp - p
  {
    hide AfterReads; hide ReaderStep;
    if p + c.size > c.inp {
      n, q := 0, p;
    } else {
      AlignedSize(c, p);
      var k := OneRequest(c, s, w, p);
      var t := ReaderRun(c, s, k);
      var k', q' := AllRequests(c, t, w, p + c.size);
      ReaderRunSum(c, s, k, k');
      n, q := k + k', q';
    }
  }

  lemma AlignedSize(c: Config, p: nat)
    requires c.size > 0 && Aligned(p, c.size)
    ensures Aligned(p + c.size, c.size)
  {
    hide Aligned;
    AlignedBasics(c.size);
    AlignedSum(p, c.size, c.size);
  }

  /** The reader has taken the rest of the chunk and still wants more. */
  predicate Starving(c: Config, s: State, q: nat)
  {
    && q < c.inp < q + c.size && s.r.pc.RLoop? && s.r.todo == c.size - (c.inp - q) && |s.r.buffer| == c.size
    && CanFeed(c, TwoChunks(c.inp), s, c.inp) && |s.h.delivered| == q
  }

  lemma StarveReader(c: Config, s: State, q: nat) returns (n: nat)
    requires Splitting(c) && AfterReads(c, s, 0, q) && q < c.inp < q + c.size
    ensures Starving(c, ReaderRun(c, s, n), q)
  {
    hide Config.BufSize; hide Aligned;
    var t := ReaderStep(c, s);
    assert CanTake(c, t, c.inp - q);
    var k := Take(c, t, c.inp - q);
    n := k + 1;
  }

  /** A request longer than a chunk makes the reader leave the cells that were filled. */
  lemma LongRequestFaults(c: Config, s: State, q: nat)
    requires Splitting(c) && c.size > c.inp && Starving(c, s, q) && q == 0
    ensures ReaderRun(c, Fed(c, TwoChunks(c.inp), s, c.inp), 4).fault
  {
    hide Config.BufSize; hide Aligned;
    var t := Fed(c, TwoChunks(c.inp), s, c.inp);
    var t1 := ReaderStep(c, t);
    assert t1 == t.(r := t.r.(rpos := c.inp, pc := RCheck));
    var t2 := ReaderStep(c, t1);
    assert t2 == t.(r := t.r.(rpos := c.inp, pc := RDiff));
    var t3 := ReaderStep(c, t2);
    assert t3.r.pc.RCopy? && t3.r.copied == 0 && t3.r.diff > 0 && t3.r.rpos == c.inp && t3.r.todo == t.r.todo
           && t3.m == t.m;
    var t4 := ReaderStep(c, t3);
    assert t4.fault;
    assert ReaderRun(c, t, 4) == ReaderRun(c, t1, 3) == ReaderRun(c, t2, 2) == ReaderRun(c, t3, 1)
           == ReaderRun(c, t4, 0);
  }

  /** The second piece of a shorter request overwrites the start of the caller's buffer. */
  lemma ShortRequestGarbles(c: Config, s: State, q: nat) returns (n: nat)
    requires Splitting(c) && c.size < c.inp && Starving(c, s, q)
    ensures !(ReaderRun(c, Fed(c, TwoChunks(c.inp), s, c.inp), n).h.delivered <= TwoChunks(c.inp).data)
  {
    hide Config.BufSize; hide Aligned;
    var t := Fed(c, TwoChunks(c.inp), s, c.inp);
    var r := c.inp - q;
    assert CanTake(c, t, c.size - r);
    n := Take(c, t, c.size - r);
    var u := ReaderRun(c, t, n);
    assert u.r.buffer[0] == t.m.buf[r + c.inp] == 1;
    ReaderRunSum(c, t, n, 2);
    assert ReaderRun(c, u, 2) == ReaderRun(c, ReaderStep(c, u), 1) == ReaderStep(c, ReaderStep(c, u));
    n := n + 2;
    Garbled(c, u, q);
  }

  lemma Garbled(c: Config, u: State, q: nat)
    requires u.r.pc.RLoop? && u.r.todo == 0 && 0 < c.size == |u.r.buffer| && u.r.buffer[0] == 1
    requires |u.h.delivered| == q < c.inp
    ensures !(ReaderStep(c, ReaderStep(c, u)).h.delivered <= TwoChunks(c.inp).data)
  {
    var d := ReaderStep(c, ReaderStep(c, u)).h.delivered;
    assert d[q] == 1 && TwoChunks(c.inp).data[q] == 0;
  }

  lemma RunPhase(c: Config, src: Source, s: State, a: seq<Process>, p: Process, n: nat)
    ensures RunFrom(c, src, s, a + Repeat(p, n)) ==
            if p.Feeder? then FeederRun(c, src, RunFrom(c, src, s, a), n) else ReaderRun(c, RunFrom(c, src, s, a), n)
  {
    hide RunFrom; hide FeederRun; hide ReaderRun;
    RunConcat(c, src, s, a, Repeat(p, n));
    FeederRunIsRun(c, src, RunFrom(c, src, s, a), n);
    ReaderRunIsRun(c, src, RunFrom(c, src, s, a), n);
  }

  lemma FirstChunk(c: Config) returns (n: nat)
    requires Splitting(c)
    ensures AfterReads(c, FeederRun(c, TwoChunks(c.inp), Init(c), n), 0, 0)
  {
    hide Config.BufSize; hide Aligned;
    n := FeedChunk(c, TwoChunks(c.inp), Init(c), 0);
  }

  /** A run in which some request is split and the stream is damaged. */
  lemma SplitRun(c: Config) returns (schedule: seq<Process>)
    requires Splitting(c)
    ensures var s := Run(c, TwoChunks(c.inp), schedule); s.fault || !(s.h.delivered <= TwoChunks(c.inp).data)
  {
    hide AfterReads; hide Starving; hide RunFrom; hide FeederRun; hide ReaderRun; hide Fed; hide Init; hide CanFeed;
    var src := TwoChunks(c.inp);
    var n1 := FirstChunk(c);
    RunPhase(c, src, Init(c), [], Feeder, n1);
    var a := Repeat(Feeder, n1);
    assert [] + a == a;
    NoSteps(c, src, Init(c));
    SplittingSize(c);
    var n2, q := AllRequests(c, Run(c, src, a), 0, 0);
    RunPhase(c, src, Init(c), a, Reader, n2);
    var b := a + Repeat(Reader, n2);
    QBelow(c, Run(c, src, b), q);
    var n3 := StarveReader(c, Run(c, src, b), q);
    RunPhase(c, src, Init(c), b, Reader, n3);
    var d := b + Repeat(Reader, n3);
    var t := Run(c, src, d);
    StarvingFeeds(c, t, q);
    var n4 := FeedChunk(c, src, t, c.inp);
    RunPhase(c, src, Init(c), d, Feeder, n4);
    var e := d + Repeat(Feeder, n4);
    var n5: nat := 4;
    if c.size > c.inp {
      LongRequestFaults(c, t, q);
    } else {
      n5 := ShortRequestGarbles(c, t, q);
    }
    RunPhase(c, src, Init(c), e, Reader, n5);
    schedule := e + Repeat(Reader, n5);
  }

  lemma SplittingSize(c: Config)
    requires Splitting(c)
    ensures c.size > 0 && Aligned(0, c.size)
  {
  }

  lemma NoSteps(c: Config, src: Source, s: State)
    ensures RunFrom(c, src, s, []) == s
  {
  }

  lemma QBelow(c: Config, s: State, q: nat)
    requires Splitting(c) && AfterReads(c, s, 0, q) && Aligned(q, c.size) && q + c.size > c.inp
    ensures q < c.inp && c.size != c.inp && (c.size > c.inp ==> q == 0)
  {
    hide Config.BufSize;
    AlignedBasics(c.size);
  }

  lemma StarvingFeeds(c: Config, s: State, q: nat)
    requires Starving(c, s, q)
    ensures CanFeed(c, TwoChunks(c.inp), s, c.inp)
  {
  }

  lemma {:induction false} AlignedModulo(x: nat, k: nat)
    requires k > 0 && Aligned(x, k)
    ensures x % k == 0
    decreases x
  {
    if x > 0 {
      AlignedModulo(x - k, k);
      Arithmetic.ModStep(x, k);
    }
  }

  /** With the default read size, every stream arrives undamaged in every interleaving
      if and only if the request size divides the chunk size. */
  lemma StreamCorrectExactly(chunksize: int, chunks: int, size: nat)
    requires NewConfig(chunksize, chunks, false, size).Some? && size > 0
    ensures StreamCorrect(NewConfig(chunksize, chunks, false, size).value) <==> chunksize % size == 0
  {
    var c := NewConfig(chunksize, chunks, false, size).value;
    hide Good; hide RunFrom; hide Init;
    if chunksize % size == 0 {
      NewConfigGood(chunksize, chunks, size);
      forall src: Source, schedule: seq<Process>
        ensures var s := Run(c, src, schedule); !s.fault && s.h.delivered <= src.data
      {
        Safety(c, src, schedule);
        DeliveredIsPrefix(c, src, schedule);
      }
    } else {
      if Aligned(chunksize, size) {
        AlignedModulo(chunksize, size);
      }
      Arithmetic.Monotone(1, chunks - 1, chunksize);
      assert c.BufSize() == (chunks - 1) * chunksize + chunksize;
      var schedule := SplitRun(c);
      var s := Run(c, TwoChunks(c.inp), schedule);
      assert s.fault || !(s.h.delivered <= TwoChunks(c.inp).data);
    }
  }
}
