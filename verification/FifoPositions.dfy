/** The positions of the fifo when every call of fifo_read asks for a size of its own. The
    copies of the reader may then go wrong, even leave the ring, but the shoveller still keeps
    off all bytes that are stored and not given free. */
module FifoPositions {
  import opened Fifo
  import opened FifoSafety
  import opened ZeroRuns

  /** The read size divides the ring and leaves room; nothing is said about request sizes. */
  predicate RingGood(c: Config) { 0 < c.inp < c.BufSize() && Aligned(c.BufSize(), c.inp) }

  // ------------------------------------------------------------- mixed requests

  /** The fifo, and the size of the call in progress. */
  datatype Mixed = Mixed(s: State, size: nat)

  /** A step of the shoveller, or one of the reader; a call that begins asks for so many bytes. */
  datatype Choice = Feed | Read(size: nat)

  /** A copy that has left the ring goes on; what it reads there is not told. */
  function ReaderGoesOn(c: Config, s: State): State
  {
    if s.r.pc.RCopy? && s.r.copied < s.r.diff && ReaderStep(c, s) == Fault(s) then
      Fault(s.(r := s.r.(copied := s.r.copied + 1)))
    else ReaderStep(c, s)
  }

  function MixedStep(c: Config, src: Source, x: Mixed, choice: Choice): Mixed
  {
    match choice
    case Feed => x.(s := FeederStep(c, src, x.s))
    case Read(n) =>
      if x.s.r.pc.RStart? then Mixed(ReaderGoesOn(c.(size := n), x.s.(r := x.s.r.(buffer := Zeros(n)))), n)
      else x.(s := ReaderGoesOn(c.(size := x.size), x.s))
  }

  function MixedRunFrom(c: Config, src: Source, x: Mixed, schedule: seq<Choice>): Mixed
    decreases |schedule|
  {
    if schedule == [] then x else MixedRunFrom(c, src, MixedStep(c, src, x, schedule[0]), schedule[1..])
  }

  function MixedRun(c: Config, src: Source, schedule: seq<Choice>): Mixed
  {
    MixedRunFrom(c, src, Mixed(Init(c), c.size), schedule)
  }

  // -------------------------------------------------------------- the invariant

  predicate Places(c: Config, data: seq<bv8>, m: Shared, wrapping: bool, h: History)
  {
    && 0 <= m.readpos <= c.BufSize() && 0 <= m.writepos < c.BufSize()
    && h.released <= h.published <= h.inCounter <= |data|
    && Used(h) < c.BufSize()
    && m.writepos == Cell(c.BufSize(), m.readpos + Used(h))
    && (m.readpos == c.BufSize() ==> wrapping)
    && (h.published < |data| ==> Aligned(h.published, c.inp) && Aligned(m.writepos, c.inp))
  }

  /** The piece being copied is stored and does not reach beyond the ring. */
  predicate Piece(c: Config, m: Shared, r: ReaderLocals, h: History)
  {
    && (PositionLoaded(r.pc) ==> r.rpos == m.readpos && r.todo > 0)
    && (Copying(r.pc) ==> 1 <= r.diff <= Used(h) && m.readpos + r.diff <= c.BufSize())
  }

  predicate PlacesInv(c: Config, data: seq<bv8>, s: State)
  {
    && |s.m.buf| == |s.m.live| == c.BufSize()
    && Places(c, data, s.m, s.r.pc.RWrap?, s.h) && Chunk(c, data, s.m.writepos, s.f, s.h) && Piece(c, s.m, s.r, s.h)
  }

  lemma PlacesFree(c: Config, data: seq<bv8>, m: Shared, wrapping: bool, h: History)
    requires Places(c, data, m, wrapping, h)
    ensures FreeBytes(c.BufSize(), m.readpos, m.writepos) == c.BufSize() - 1 - Used(h)
  {
    hide Aligned; hide Config.BufSize;
  }

  lemma PlacesStart(c: Config, data: seq<bv8>, s: State)
    requires RingGood(c) && |s.m.buf| == |s.m.live| == c.BufSize() && s.m.readpos == s.m.writepos == 0
    requires s.f.pc.FLoop? && s.f.filled == 0 && s.r.pc.RStart?
    requires s.h.inCounter == s.h.published == s.h.released == 0
    ensures PlacesInv(c, data, s)
  {
    hide Aligned; hide Config.BufSize;
    AlignedBasics(c.inp);
  }

  lemma PlacesFeeder(c: Config, src: Source, s: State)
    requires RingGood(c) && PlacesInv(c, src.data, s)
    ensures PlacesInv(c, src.data, FeederStep(c, src, s))
  {
    hide Aligned; hide Config.BufSize; hide FreeBytes; hide Places; hide Chunk; hide Piece;
    match s.f.pc {
      case FSpace => PlacesSpace(c, src, s);
      case FObtain => PlacesObtain(c, src, s);
      case FFill => PlacesFill(c, src, s);
      case FPublish => PlacesPublish(c, src, s);
      case _ => PlacesControl(c, src, s);
    }
  }

  lemma PlacesControl(c: Config, src: Source, s: State)
    requires FeederControls(s.f.pc) && PlacesInv(c, src.data, s)
    ensures PlacesInv(c, src.data, FeederStep(c, src, s))
  {
    hide Aligned; hide Config.BufSize; hide FreeBytes; hide Places; hide Piece; hide FeederStep;
    FeederControlFrame(c, src, s);
    SamePlaces(c, src.data, s, FeederStep(c, src, s));
  }

  /** Positions and counters decide. */
  lemma SamePlaces(c: Config, data: seq<bv8>, s: State, t: State)
    requires Places(c, data, s.m, s.r.pc.RWrap?, s.h) && Piece(c, s.m, s.r, s.h)
    requires t.h == s.h && t.r == s.r && t.m.readpos == s.m.readpos && t.m.writepos == s.m.writepos
    ensures Places(c, data, t.m, t.r.pc.RWrap?, t.h) && Piece(c, t.m, t.r, t.h)
  {
    hide Aligned; hide Config.BufSize;
  }

  lemma PlacesSpace(c: Config, src: Source, s: State)
    requires RingGood(c) && PlacesInv(c, src.data, s) && s.f.pc.FSpace?
    ensures PlacesInv(c, src.data, FeederStep(c, src, s))
  {
    hide Aligned; hide Config.BufSize; hide FreeBytes; hide Piece;
    PlacesFree(c, src.data, s.m, s.r.pc.RWrap?, s.h);
    if s.h.published < |src.data| {
      AlignedDifference(s.m.writepos, c.BufSize(), c.inp);
    }
  }

  lemma PlacesObtain(c: Config, src: Source, s: State)
    requires RingGood(c) && PlacesInv(c, src.data, s) && s.f.pc.FObtain?
    ensures PlacesInv(c, src.data, FeederStep(c, src, s))
  {
    hide Aligned; hide Config.BufSize; hide FreeBytes;
    var t := FeederStep(c, src, s);
    if s.h.published < |src.data| {
      AlignedDifference(s.m.writepos, c.BufSize(), c.inp);
      assert t.f.chunk == src.data[t.h.published..t.h.inCounter];
    }
  }

  lemma PlacesFill(c: Config, src: Source, s: State)
    requires RingGood(c) && PlacesInv(c, src.data, s) && s.f.pc.FFill?
    ensures PlacesInv(c, src.data, FeederStep(c, src, s))
  {
    hide Aligned; hide Config.BufSize; hide FreeBytes; hide NextChunk; hide NextWritePos; hide Places; hide Piece;
    SamePlaces(c, src.data, s, FeederStep(c, src, s));
  }

  lemma PlacesPublish(c: Config, src: Source, s: State)
    requires RingGood(c) && PlacesInv(c, src.data, s) && s.f.pc.FPublish?
    ensures PlacesInv(c, src.data, FeederStep(c, src, s))
  {
    hide Aligned; hide Config.BufSize; hide FreeBytes; hide NextChunk; hide FillIndex;
    if s.h.inCounter < |src.data| {
      AlignedBasics(c.inp);
      AlignedSum(s.m.writepos, c.inp, c.inp);
      AlignedSum(s.h.published, c.inp, c.inp);
    }
  }

  /** The request size plays no part. */
  lemma PlacesReader(c: Config, n: nat, data: seq<bv8>, s: State)
    requires RingGood(c) && PlacesInv(c, data, s)
    ensures PlacesInv(c, data, ReaderGoesOn(c.(size := n), s))
  {
    hide Aligned; hide Config.BufSize; hide Places; hide Chunk; hide Piece; hide ReaderStep;
    var d := c.(size := n);
    SizeAside(c, n);
    if ReaderControls(s.r.pc) {
      ReaderControlFrame(d, s);
      ReaderControlPiece(c, n, s);
      PlacesMoved(c, data, s, ReaderStep(d, s));
    } else if s.r.pc.RDiff? || s.r.pc.RCopy? {
      ReaderPieceStep(c, n, data, s);
      PlacesMoved(c, data, s, ReaderStep(d, s));
    } else if s.r.pc.RAdvance? {
      PlacesAdvance(c, n, data, s);
    } else {
      PlacesWrap(c, n, data, s);
    }
    CopiedAside(c, data, s);
  }

  /** How far a copy has come plays no part either. */
  lemma CopiedAside(c: Config, data: seq<bv8>, s: State)
    requires PlacesInv(c, data, s)
    ensures PlacesInv(c, data, Fault(s.(r := s.r.(copied := s.r.copied + 1))))
  {
    hide Aligned; hide Config.BufSize;
  }

  lemma SizeAside(c: Config, n: nat)
    ensures c.(size := n).BufSize() == c.BufSize()
  {
  }

  /** The positions have not moved, and the reader is not about to wrap. */
  lemma PlacesMoved(c: Config, data: seq<bv8>, s: State, t: State)
    requires Places(c, data, s.m, s.r.pc.RWrap?, s.h) && !s.r.pc.RWrap? && Chunk(c, data, s.m.writepos, s.f, s.h)
    requires t.f == s.f && t.m.readpos == s.m.readpos && t.m.writepos == s.m.writepos
    requires t.h.inCounter == s.h.inCounter && t.h.published == s.h.published && t.h.released == s.h.released
    ensures Places(c, data, t.m, t.r.pc.RWrap?, t.h) && Chunk(c, data, t.m.writepos, t.f, t.h)
  {
    hide Aligned; hide Config.BufSize;
  }

  lemma ReaderControlPiece(c: Config, n: nat, s: State)
    requires ReaderControls(s.r.pc) && Piece(c, s.m, s.r, s.h)
    ensures var t := ReaderStep(c.(size := n), s); Piece(c, t.m, t.r, t.h)
  {
    hide Config.BufSize;
  }

  lemma ReaderPieceStep(c: Config, n: nat, data: seq<bv8>, s: State)
    requires s.r.pc.RDiff? || s.r.pc.RCopy?
    requires Places(c, data, s.m, s.r.pc.RWrap?, s.h) && Piece(c, s.m, s.r, s.h)
               && |s.m.buf| == |s.m.live| == c.BufSize()
    ensures var t := ReaderStep(c.(size := n), s);
            && Piece(c, t.m, t.r, t.h) && |t.m.buf| == |t.m.live| == c.BufSize()
            && t.f == s.f && t.h == s.h && t.m.readpos == s.m.readpos && t.m.writepos == s.m.writepos && !t.r.pc.RWrap?
  {
    hide Aligned;
    SizeAside(c, n);
    hide Config.BufSize;
  }

  lemma PlacesAdvance(c: Config, n: nat, data: seq<bv8>, s: State)
    requires PlacesInv(c, data, s) && s.r.pc.RAdvance?
    ensures PlacesInv(c, data, ReaderStep(c.(size := n), s))
  {
    hide Aligned;
    SizeAside(c, n);
    hide Config.BufSize;
  }

  lemma PlacesWrap(c: Config, n: nat, data: seq<bv8>, s: State)
    requires PlacesInv(c, data, s) && s.r.pc.RWrap?
    ensures PlacesInv(c, data, ReaderStep(c.(size := n), s))
  {
    hide Aligned;
    SizeAside(c, n);
    hide Config.BufSize;
  }

  lemma {:induction false} PlacesRun(c: Config, src: Source, x: Mixed, schedule: seq<Choice>)
    requires RingGood(c) && PlacesInv(c, src.data, x.s)
    ensures PlacesInv(c, src.data, MixedRunFrom(c, src, x, schedule).s)
    decreases |schedule|
  {
    hide PlacesInv; hide RingGood; hide FeederStep; hide ReaderGoesOn;
    if schedule != [] {
      match schedule[0] {
        case Feed => PlacesFeeder(c, src, x.s);
        case Read(n) =>
          if x.s.r.pc.RStart? {
            var s := x.s.(r := x.s.r.(buffer := Zeros(n)));
            NewBuffer(c, src.data, x.s, n);
            PlacesReader(c, n, src.data, s);
          } else {
            PlacesReader(c, x.size, src.data, x.s);
          }
      }
      PlacesRun(c, src, MixedStep(c, src, x, schedule[0]), schedule[1..]);
    }
  }

  lemma NewBuffer(c: Config, data: seq<bv8>, s: State, n: nat)
    requires PlacesInv(c, data, s)
    ensures PlacesInv(c, data, s.(r := s.r.(buffer := Zeros(n))))
  {
    hide Aligned; hide Config.BufSize; hide Places; hide Chunk;
  }

  /** Whatever sizes the calls ask for, in every interleaving: the cell that the shoveller
      fills is inside the ring and holds none of the bytes that are stored and not released. */
  lemma FeederKeepsOff(c: Config, src: Source, schedule: seq<Choice>, k: nat)
    requires RingGood(c)
    requires var s := MixedRun(c, src, schedule).s; s.f.pc.FFill? && s.f.filled < |s.f.chunk| && k < Used(s.h)
    ensures var s := MixedRun(c, src, schedule).s;
            var i := FillIndex(c.BufSize(), s.f);
            0 <= i < c.BufSize() && i != At(c.BufSize(), s.m.readpos, k)
  {
    hide Aligned; hide Config.BufSize; hide MixedRunFrom; hide RingGood;
    RingSize(c);
    PlacesStart(c, src.data, Init(c));
    PlacesRun(c, src, Mixed(Init(c), c.size), schedule);
  }

  lemma RingSize(c: Config)
    requires RingGood(c)
    ensures 0 < c.inp < c.BufSize()
  {
  }
}
