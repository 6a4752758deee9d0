/** The byte stream of a track: libburn/sector.c from get_bytes to sector_data, and the
    sector loop of burn_write_track in libburn/write.c. */
module SectorStream {
  newtype Byte = x: int | 0 <= x < 256

  // ------------------------------------------------------------ the ideal stream

  function Zeros(n: nat): (z: seq<Byte>)
    ensures |z| == n && forall i | 0 <= i < n :: z[i] == 0
  {
    seq(n, _ => 0)
  }

  function At(image: seq<Byte>, i: nat): Byte { if i < |image| then image[i] else 0 }

  /** n bytes from a position of the image, which is followed by endless zeros. */
  function Window(image: seq<Byte>, pos: nat, n: nat): (w: seq<Byte>)
    ensures |w| == n && forall i | 0 <= i < n :: w[i] == At(image, pos + i)
  {
    seq(n, i requires 0 <= i < n => At(image, pos + i))
  }

  lemma WindowChain(image: seq<Byte>, n: nat, m: nat)
    ensures Window(image, 0, n) + Window(image, n, m) == Window(image, 0, n + m)
  {
  }

  /** Beyond its end the image is all zeros. */
  lemma WindowBeyond(image: seq<Byte>, pos: nat, n: nat)
    requires pos >= |image|
    ensures Window(image, pos, n) == Window(image, |image|, n) == Zeros(n)
  {
  }

  /** a with w written over it */
  function Put(a: seq<Byte>, at: nat, w: seq<Byte>): (b: seq<Byte>)
    requires at + |w| <= |a|
    ensures |b| == |a|
  {
    a[..at] + w + a[at + |w|..]
  }

  lemma PutTwice(a: seq<Byte>, at: nat, v: seq<Byte>, w: seq<Byte>)
    requires at + |v| + |w| <= |a|
    ensures Put(Put(a, at, v), at + |v|, w) == Put(a, at, v + w)
  {
    var b := Put(a, at, v);
    assert b[..at + |v|] == a[..at] + v && b[at + |v| + |w|..] == a[at + |v| + |w|..];
  }

  lemma PutNothing(a: seq<Byte>, at: nat)
    requires at <= |a|
    ensures Put(a, at, []) == a
  {
  }

  lemma PutAll(a: seq<Byte>, at: nat, w: seq<Byte>)
    requires at + |w| <= |a|
    ensures Put(a, at, w)[..at] == a[..at] && Put(a, at, w)[at..at + |w|] == w
  {
  }

  function Min(a: int, b: int): int { if a < b then a else b }

  // ------------------------------------------------------------ source and track

  /** A source that keeps to its contract: only its last delivery may be short. */
  class Source {
    const data: seq<Byte>
    var pos: nat

    constructor (data: seq<Byte>)
      ensures this.data == data && pos == 0
    {
      this.data := data;
      this.pos := 0;
    }

    method Read(buf: array<Byte>, at: nat, size: nat) returns (n: nat)
      requires at + size <= buf.Length && pos <= |data|
      modifies this, buf
      ensures n == Min(size, |data| - old(pos)) && pos == old(pos) + n
      ensures buf[..] == Put(old(buf[..]), at, data[old(pos)..pos])
    {
      n := if size < |data| - pos then size else |data| - pos;
      for i := 0 to n
        invariant pos == old(pos)
        invariant buf[..at] == old(buf[..at]) && buf[at..at + i] == data[pos..pos + i]
                    && buf[at + n..] == old(buf[at + n..])
      {
        buf[at + i] := data[pos + i];
      }
      pos := pos + n;
    }
  }

  method Memset(buf: array<Byte>, at: nat, n: nat)
    requires at + n <= buf.Length
    modifies buf
    ensures buf[..] == Put(old(buf[..]), at, Zeros(n))
  {
    for i := 0 to n
      invariant buf[..at] == old(buf[..at]) && buf[at..at + i] == Zeros(i) && buf[at + n..] == old(buf[at + n..])
    {
      buf[at + i] := 0;
    }
  }

  class Track {
    const offset: nat
    const tail: nat
    const source: Source
    const openEnded: bool
    var offsetCount: nat
    var tailCount: nat
    var sourceCount: nat
    var eos: bool
    var writeCount: nat
    var writtenSectors: nat
    var trackDataDone: bool
    var endOnPrematureEoi: nat

    constructor (offset: nat, tail: nat, source: Source, openEnded: bool, endOnPrematureEoi: bool)
      requires source.pos == 0
      ensures Valid() && Position() == 0 && !trackDataDone && writeCount == 0 && writtenSectors == 0
      ensures this.offset == offset && this.tail == tail && this.source == source && this.openEnded == openEnded
      ensures this.endOnPrematureEoi == if endOnPrematureEoi then 1 else 0
    {
      this.offset, this.tail, this.source, this.openEnded := offset, tail, source, openEnded;
      offsetCount, tailCount, sourceCount, eos := 0, 0, 0, false;
      writeCount, writtenSectors, trackDataDone := 0, 0, false;
      this.endOnPrematureEoi := if endOnPrematureEoi then 1 else 0;
    }

    ghost function Image(): (image: seq<Byte>)
      ensures |image| == offset + |source.data| + tail
    {
      Zeros(offset) + source.data + Zeros(tail)
    }

    ghost predicate Valid()
      reads this, source
    {
      && offsetCount <= offset && tailCount <= tail && sourceCount == source.pos <= |source.data|
      && (sourceCount > 0 ==> offsetCount == offset)
      && (tailCount > 0 || eos ==> offsetCount == offset && sourceCount == |source.data|)
    }

    /** How much of the image has been delivered. */
    ghost function Position(): nat
      reads this
    {
      offsetCount + sourceCount + tailCount
    }
  }

  /** Part of a buffer now holds what the image has at a position. */
  twostate predicate Filled(buf: array<Byte>, at: nat, n: nat, image: seq<Byte>, pos: nat)
    requires at + n <= buf.Length
    reads buf
  {
    buf[..] == Put(old(buf[..]), at, Window(image, pos, n))
  }

  lemma OffsetWindow(t: Track, n: nat)
    requires t.Valid() && t.offsetCount + n <= t.offset && (n > 0 ==> t.offsetCount < t.offset)
    ensures Window(t.Image(), t.Position(), n) == Zeros(n)
  {
  }

  lemma SourceWindow(t: Track, n: nat)
    requires t.Valid() && t.offsetCount == t.offset && t.sourceCount + n <= |t.source.data|
               && (n > 0 ==> t.tailCount == 0)
    ensures Window(t.Image(), t.Position(), n) == t.source.data[t.sourceCount..t.sourceCount + n]
  {
  }

  lemma TailWindow(t: Track, n: nat)
    requires t.Valid() && t.offsetCount == t.offset && t.sourceCount == |t.source.data|
    ensures Window(t.Image(), t.Position(), n) == Zeros(n)
  {
  }

  /** The first part of get_bytes: zeros until the offset is used up. */
  method TakeOffset(t: Track, count: nat, buf: array<Byte>, at: nat) returns (valid: nat)
    requires t.Valid() && at + count <= buf.Length
    modifies t`offsetCount, buf
    ensures t.Valid() && valid <= count && t.Position() == old(t.Position()) + valid
    ensures Filled(buf, at, valid, t.Image(), old(t.Position()))
    ensures valid < count ==> t.offsetCount == t.offset
  {
    valid := t.offset - t.offsetCount;
    if valid > count {
      valid := count;
    }
    OffsetWindow(t, valid);
    PutNothing(buf[..], at);
    if valid > 0 {
      t.offsetCount := t.offsetCount + valid;
      Memset(buf, at, valid);
    }
  }

  /** The second part: one read from the source. */
  method TakeSource(t: Track, count: nat, buf: array<Byte>, at: nat) returns (valid: nat)
    requires t.Valid() && at + count <= buf.Length && t.offsetCount == t.offset && count > 0
    modifies t`sourceCount, t`eos, t.source, buf
    ensures t.Valid() && valid <= count && t.Position() == old(t.Position()) + valid
    ensures Filled(buf, at, valid, t.Image(), old(t.Position()))
    ensures valid < count ==> t.sourceCount == |t.source.data|
  {
    hide Window; hide Zeros; hide Put;
    SourceWindow(t, if t.tailCount == 0 then Min(count, |t.source.data| - t.sourceCount) else 0);
    PutNothing(buf[..], at);
    if !t.eos {
      valid := t.source.Read(buf, at, count);
    } else {
      valid := 0;
    }
    if valid <= 0 {
      t.eos := true;
      valid := 0;
    }
    t.sourceCount := t.sourceCount + valid;
  }

  /** The third part: zeros until the tail is used up. */
  method TakeTail(t: Track, count: nat, buf: array<Byte>, at: nat) returns (valid: nat)
    requires t.Valid() && at + count <= buf.Length && t.offsetCount == t.offset && t.sourceCount == |t.source.data|
    modifies t`tailCount, buf
    ensures t.Valid() && valid <= count && t.Position() == old(t.Position()) + valid
    ensures Filled(buf, at, valid, t.Image(), old(t.Position()))
    ensures valid < count ==> t.tailCount == t.tail
  {
    valid := t.tail - t.tailCount;
    if valid > count {
      valid := count;
    }
    TailWindow(t, valid);
    PutNothing(buf[..], at);
    if valid > 0 {
      t.tailCount := t.tailCount + valid;
      Memset(buf, at, valid);
    }
  }

  /** Two neighbouring parts filled one after the other */
  lemma FilledJoin(a: seq<Byte>, b: seq<Byte>, c: seq<Byte>, at: nat, n: nat, m: nat, image: seq<Byte>, pos: nat)
    requires at + n + m <= |a| == |b|
    requires b == Put(a, at, Window(image, pos, n))
    requires c == Put(b, at + n, Window(image, pos + n, m))
    ensures c == Put(a, at, Window(image, pos, n + m))
  {
    hide Put;
    assert Window(image, pos, n + m) == Window(image, pos, n) + Window(image, pos + n, m);
    PutTwice(a, at, Window(image, pos, n), Window(image, pos + n, m));
  }

  lemma EndPosition(t: Track)
    requires t.Valid()
    ensures t.Position() <= |t.Image()|
    ensures t.offsetCount == t.offset && t.sourceCount == |t.source.data| && t.tailCount == t.tail ==>
              t.Position() == |t.Image()|
  {
    hide Track.Image;
  }

  /** The tail, then zeros; shortage is what no part of the track could fill. */
  method TakeRest(t: Track, count: nat, buf: array<Byte>, at: nat) returns (shortage: nat)
    requires t.Valid() && at + count <= buf.Length && t.offsetCount == t.offset && t.sourceCount == |t.source.data|
    modifies t`tailCount, buf
    ensures t.Valid() && Filled(buf, at, count, t.Image(), old(t.Position()))
    ensures t.Position() == old(t.Position()) + count - shortage && shortage <= count
    ensures shortage > 0 ==> t.Position() == |t.Image()|
  {
    hide Window; hide Zeros; hide Track.Image; hide Put; hide Track.Valid; hide Track.Position;
    ghost var b0, start, image := buf[..], t.Position(), t.Image();
    var valid := TakeTail(t, count, buf, at);
    ghost var b1 := buf[..];
    shortage := count - valid;
    TailWindow(t, shortage);
    EndPosition(t);
    Memset(buf, at + valid, shortage);
    FilledJoin(b0, b1, buf[..], at, valid, shortage, image, start);
  }

  /** All parts behind the offset */
  method TakePayload(t: Track, count: nat, buf: array<Byte>, at: nat) returns (shortage: nat)
    requires t.Valid() && at + count <= buf.Length && t.offsetCount == t.offset && count > 0
    modifies t`sourceCount, t`tailCount, t`eos, t.source, buf
    ensures t.Valid() && Filled(buf, at, count, t.Image(), old(t.Position()))
    ensures t.Position() == old(t.Position()) + count - shortage && shortage <= count
    ensures shortage > 0 ==> t.Position() == |t.Image()|
  {
    hide Window; hide Track.Image; hide Put;
    ghost var b0, start, image := buf[..], t.Position(), t.Image();
    var valid := TakeSource(t, count, buf, at);
    ghost var b1 := buf[..];
    shortage := 0;
    if valid < count {
      shortage := TakeRest(t, count - valid, buf, at + valid);
      FilledJoin(b0, b1, buf[..], at, valid, count - valid, image, start);
    }
  }

  /** get_bytes for a track without successor and without byte swapping */
  method GetBytes(t: Track, count: nat, buf: array<Byte>, at: nat)
    requires t.Valid() && at + count <= buf.Length
    modifies t`offsetCount, t`sourceCount, t`tailCount, t`eos, t`trackDataDone, t`endOnPrematureEoi, t.source, buf
    ensures t.Valid() && Filled(buf, at, count, t.Image(), old(t.Position()))
    ensures t.Position() == Min(old(t.Position()) + count, |t.Image()|)
    ensures t.trackDataDone == (old(t.trackDataDone) || (count > 0 && old(t.Position()) == |t.Image()|))
    ensures t.endOnPrematureEoi > 0 <==> old(t.endOnPrematureEoi) > 0
  {
    hide Window; hide Track.Image; hide Put; hide Track.Valid; hide Track.Position;
    ghost var b0, start, image := buf[..], t.Position(), t.Image();
    EndPosition(t);
    var valid := TakeOffset(t, count, buf, at);
    EndPosition(t);
    ghost var b1 := buf[..];
    if valid < count {
      var shortage := TakePayload(t, count - valid, buf, at + valid);
      FilledJoin(b0, b1, buf[..], at, valid, count - valid, image, start);
      EndPosition(t);
      NoteEnd(t, shortage >= count);
    }
  }

  /** Remember that a request found nothing left. */
  method NoteEnd(t: Track, nothingLeft: bool)
    requires t.Valid()
    modifies t`trackDataDone, t`endOnPrematureEoi
    ensures t.Valid() && t.Position() == old(t.Position())
    ensures t.trackDataDone == (old(t.trackDataDone) || nothingLeft)
    ensures t.endOnPrematureEoi > 0 <==> old(t.endOnPrematureEoi) > 0
  {
    if nothingLeft {
      t.trackDataDone := true;
    }
    if t.endOnPrematureEoi > 0 && nothingLeft && !t.openEnded {
      t.endOnPrematureEoi := 2;
    }
  }
}
