/** Collecting sectors in the drive buffer and writing them: get_sector, unget_sector,
    sector_write_buffer and sector_data of libburn/sector.c, for equal input and output
    mode, and the sector loop of burn_write_track in libburn/write.c. */
module SectorWriter {
  import opened SectorStream
  import opened Arithmetic

  const BUFFER_SIZE: nat := 65536

  class Drive {
    const data: array<Byte>
    var bytes: nat
    var sectors: nat
    var nwa: int
    var alba: int
    var rlba: int
    var bufferedBytes: nat
    /** How many more writes the medium takes before it reports cancellation. */
    var writesLeft: nat
    /** Everything the medium has taken. */
    ghost var medium: seq<Byte>

    constructor (nwa: int, rlba: int, writesLeft: nat)
      ensures Valid() && bytes == 0 && sectors == 0 && medium == [] && this.nwa == alba == nwa && this.rlba == rlba
      ensures this.writesLeft == writesLeft && bufferedBytes == 0 && fresh(data)
    {
      data := new Byte[BUFFER_SIZE + 4096];
      bytes, sectors, bufferedBytes := 0, 0, 0;
      this.nwa, this.alba, this.rlba, this.writesLeft := nwa, nwa, rlba, writesLeft;
      medium := [];
    }

    ghost predicate Valid()
      reads this
    {
      data.Length == BUFFER_SIZE + 4096 && bytes <= BUFFER_SIZE && (sectors == 0 ==> bytes == 0)
    }

    /** What is on the medium, and what waits in the buffer. */
    ghost function Emitted(): seq<Byte>
      requires Valid()
      reads this, data
    {
      medium + data[..bytes]
    }

    /** The function pointed to by d->write */
    method Write() returns (cancelled: bool)
      requires Valid()
      modifies this`medium, this`writesLeft
      ensures cancelled == (old(writesLeft) == 0) && (cancelled ==> writesLeft == 0)
      ensures medium == if cancelled then old(medium) else old(medium) + data[..bytes]
    {
      if writesLeft == 0 {
        return true;
      }
      writesLeft := writesLeft - 1;
      medium := medium + data[..bytes];
      cancelled := false;
    }

    /** sector_write_buffer without the index progress: 0 if cancelled, 2 if there was nothing to do */
    method WriteBuffer(t: Track?) returns (ret: nat)
      requires Valid() && (t != null ==> t.Valid())
      modifies this`medium, this`writesLeft, this`bufferedBytes, this`nwa, this`bytes, this`sectors
      modifies if t == null then {} else {t}
      ensures Valid() && Emitted() == old(Emitted())
      ensures ret == (if old(sectors) == 0 then 2 else if old(writesLeft) == 0 then 0 else 1)
      ensures if ret > 0 then bytes == 0 && sectors == 0
              else bytes == old(bytes) && sectors == old(sectors) && writesLeft == 0
      ensures nwa + sectors == old(nwa) + old(sectors) && bufferedBytes + bytes == old(bufferedBytes) + old(bytes)
      ensures t != null ==> Booked(t) == old(Booked(t)) && SameStream(t)
    {
      if sectors <= 0 {
        return 2;
      }
      var cancelled := Write();
      if cancelled {
        return 0;
      }
      if t != null {
        t.writeCount := t.writeCount + bytes;
        t.writtenSectors := t.writtenSectors + sectors;
      }
      bufferedBytes := bufferedBytes + bytes;
      nwa := nwa + sectors;
      bytes := 0;
      sectors := 0;
      ret := 1;
    }

    /** get_sector: hand out the start of the next sector in the buffer */
    method GetSector(t: Track?, seclen: nat, obs: nat) returns (ok: bool, at: nat)
      requires Valid() && 0 < seclen <= 4096 && bytes == Size(sectors, seclen) && (t != null ==> t.Valid())
      modifies this`medium, this`writesLeft, this`bufferedBytes, this`nwa, this`bytes, this`sectors
      modifies if t == null then {} else {t}
      ensures Valid() && bytes == Size(sectors, seclen)
      ensures ok ==> at + seclen == bytes && sectors > 0 && medium + data[..at] == old(Emitted())
      ensures !ok ==> Emitted() == old(Emitted()) && writesLeft == 0
      ensures ok ==>
                nwa + sectors == old(nwa) + old(sectors) + 1
                && bufferedBytes + bytes == old(bufferedBytes) + old(bytes) + seclen
      ensures t != null && ok ==> Booked(t) == (old(Booked(t).0) + seclen, old(Booked(t).1) + 1)
      ensures t != null ==> SameStream(t)
    {
      if bytes + seclen > BUFFER_SIZE || (obs > 0 && bytes + seclen > obs) {
        var ret := WriteBuffer(t);
        if ret <= 0 {
          return false, 0;
        }
      }
      OneMore(sectors, seclen);
      at := bytes;
      bytes := bytes + seclen;
      sectors := sectors + 1;
      ok := true;
    }

    /** unget_sector */
    method UngetSector(seclen: nat)
      requires Valid() && sectors > 0 && bytes == Size(sectors, seclen)
      modifies this`bytes, this`sectors
      ensures Valid() && bytes == Size(sectors, seclen) && bytes == old(bytes) - seclen && sectors == old(sectors) - 1
    {
      OneMore(sectors - 1, seclen);
      bytes := bytes - seclen;
      sectors := sectors - 1;
    }

    /** convert_data and the rest of sector_data for equal modes: 1 a sector was added, 2 the
        track was already at its end and the sector was revoked, 0 cancelled */
    method SectorData(t: Track, seclen: nat, obs: nat) returns (ret: nat)
      requires Valid() && t.Valid() && 0 < seclen <= 4096 && bytes == Size(sectors, seclen)
      modifies this, data, t, t.source
      ensures Valid() && t.Valid() && bytes == Size(sectors, seclen)
      ensures ret <= 2
      ensures ret == 0 ==> Emitted() == old(Emitted()) && writesLeft == 0 && t.Position() == old(t.Position())
      ensures ret > 0 ==>
                && t.Position() == Min(old(t.Position()) + seclen, |t.Image()|)
                && t.trackDataDone == (old(t.trackDataDone) || old(t.Position()) == |t.Image()|)
                && ret == (if Stops(t) && t.trackDataDone then 2 else 1)
                && Stops(t) == old(Stops(t))
      ensures var more := if ret == 1 then 1 else 0;
              && (ret > 0 ==> Emitted() == old(Emitted()) + Window(t.Image(), old(t.Position()), Size(more, seclen)))
              && (ret > 0 ==> nwa + sectors == old(nwa) + old(sectors) + more)
              && (ret > 0 ==> bufferedBytes + bytes == old(bufferedBytes) + old(bytes) + Size(more, seclen))
              && (ret > 0 ==> Booked(t) == (old(Booked(t).0) + Size(more, seclen), old(Booked(t).1) + more))
              && alba == old(alba) + more && rlba == old(rlba) + more
    {
      hide Window; hide Size; hide Put; hide Track.Image; hide Track.Valid;
      ghost var image, pos := t.Image(), t.Position();
      OneMore(0, seclen);
      var ok, at := GetSector(t, seclen, obs);
      if !ok {
        return 0;
      }
      ghost var was := data[..];
      GetBytes(t, seclen, data, at);
      EmittedGrows(medium, was, data[..], at, Window(image, pos, seclen));
      if (t.openEnded || t.endOnPrematureEoi > 0) && t.trackDataDone {
        UngetSector(seclen);
        assert Window(image, pos, 0) == [];
        return 2;
      }
      alba := alba + 1;
      rlba := rlba + 1;
      ret := 1;
    }

    /** Bytes and sectors handed out for a track: written ones and those in the buffer. */
    ghost function Booked(t: Track): (nat, nat)
      reads this, t
    {
      (t.writeCount + bytes, t.writtenSectors + sectors)
    }
  }

  /** Bytes of n sectors */
  function Size(n: nat, seclen: nat): nat { n * seclen }

  lemma OneMore(n: nat, seclen: nat)
    ensures Size(n + 1, seclen) == Size(n, seclen) + seclen
    ensures Size(0, seclen) == 0
  {
  }

  /** Delivery has not gone on. */
  twostate predicate SameStream(t: Track)
    reads t, t.source
  {
    && t.Valid() && t.Position() == old(t.Position())
    && t.trackDataDone == old(t.trackDataDone) && Stops(t) == old(Stops(t))
  }

  /** Tracks that end where their data end */
  predicate Stops(t: Track)
    reads t
  {
    t.openEnded || t.endOnPrematureEoi > 0
  }

  /** Writing one more sector behind what was emitted */
  lemma EmittedGrows(medium: seq<Byte>, was: seq<Byte>, now: seq<Byte>, at: nat, w: seq<Byte>)
    requires at + |w| <= |was| && now == Put(was, at, w)
    ensures medium + now[..at] == medium + was[..at]
    ensures medium + now[..at + |w|] == medium + was[..at] + w
  {
    PutAll(was, at, w);
    assert now[..at + |w|] == now[..at] + now[at..at + |w|];
  }

  // ----------------------------------------------------------------- whole tracks

  /** Sectors needed for n bytes */
  function SectorsFor(n: nat, seclen: nat): nat
    requires seclen > 0
  {
    (n + seclen - 1) / seclen
  }

  lemma Enough(k: nat, n: nat, seclen: nat)
    requires seclen > 0 && Size(k, seclen) >= n && (k > 0 ==> Size(k - 1, seclen) < n)
    ensures k == SectorsFor(n, seclen)
  {
    if k == 0 {
      assert (seclen - 1) / seclen == 0;
    } else {
      var rest := n - Size(k - 1, seclen);
      OneMore(k - 1, seclen);
      assert n + seclen - 1 == k * seclen + (rest - 1);
      DivisionUnique(k, seclen, rest - 1);
    }
  }

  lemma Multiples(a: nat, b: nat, d: nat)
    ensures a < b ==> (a + 1) * d <= b * d
    ensures b < a ==> (b + 1) * d <= a * d
  {
    if a < b {
      Monotone(a + 1, b, d);
    }
    if b < a {
      Monotone(b + 1, a, d);
    }
  }

  lemma NotEnough(k: nat, n: nat, seclen: nat)
    requires seclen > 0 && (k > 0 ==> Size(k - 1, seclen) < n)
    ensures k <= SectorsFor(n, seclen)
  {
    if k > 0 {
      var rest := n - Size(k - 1, seclen);
      var q := SectorsFor(n, seclen);
      assert n + seclen - 1 < (q + 1) * seclen;
      OneMore(k - 1, seclen);
      Multiples(q, k, seclen);
    }
  }

  /** How many sectors the track becomes when a number of sectors is planned for it. */
  function TrackSectors(t: Track, image: nat, planned: nat, seclen: nat): nat
    requires seclen > 0
    reads t
  {
    if t.openEnded then SectorsFor(image, seclen)
    else if t.endOnPrematureEoi > 0 && SectorsFor(image, seclen) < planned then SectorsFor(image, seclen)
    else planned
  }

  /** n sectors hold the image, one less would not. */
  predicate Least(n: nat, image: nat, seclen: nat)
  {
    n * seclen >= image && (n > 0 ==> (n - 1) * seclen < image)
  }

  lemma SectorsForLeast(image: nat, seclen: nat)
    requires seclen > 0
    ensures Least(SectorsFor(image, seclen), image, seclen)
  {
    var n := SectorsFor(image, seclen);
    var r := (image + seclen - 1) % seclen;
    assert image + seclen - 1 == n * seclen + r;
    if n > 0 {
      assert (n - 1) * seclen == n * seclen - seclen;
    }
  }

  /** The number of sectors: as few as hold the image if the track ends where its data end and,
      unless it is open ended, no less were planned; else the planned number. */
  lemma TrackSectorsSay(t: Track, image: nat, planned: nat, seclen: nat)
    requires seclen > 0
    ensures var n := TrackSectors(t, image, planned, seclen);
            if t.openEnded then Least(n, image, seclen)
            else if t.endOnPrematureEoi == 0 then n == planned
            else (Least(n, image, seclen) && n <= planned) || (n == planned && n * seclen < image)
  {
    hide SectorsFor;
    var k := SectorsFor(image, seclen);
    SectorsForLeast(image, seclen);
    if planned < k {
      Monotone(planned, k - 1, seclen);
    }
  }

  /** What is written: the offset as zeros, the source, and zeros to the end of the last sector. */
  lemma WrittenBytes(t: Track, n: nat, i: nat)
    requires i < n
    ensures Window(t.Image(), 0, n)[i]
         == if t.offset <= i < t.offset + |t.source.data| then t.source.data[i - t.offset] else 0
  {
  }

  /** Where a drive and a track stood when the track was begun */
  datatype Start = Start(medium: seq<Byte>, nwa: int, alba: int, rlba: int, writeCount: nat, writtenSectors: nat,
      bufferedBytes: nat)

  /** k sectors of the track have been emitted and are accounted for everywhere. */
  ghost predicate Progress(d: Drive, t: Track, s: Start, k: nat, seclen: nat)
    reads d, d.data, t, t.source
  {
    && d.Valid() && t.Valid() && d.bytes == Size(d.sectors, seclen)
    && t.Position() == Min(Size(k, seclen), |t.Image()|)
    && d.Emitted() == s.medium + Window(t.Image(), 0, Size(k, seclen))
    && d.nwa + d.sectors == s.nwa + k && d.alba == s.alba + k && d.rlba == s.rlba + k
    && d.Booked(t) == (s.writeCount + Size(k, seclen), s.writtenSectors + k)
    && d.bufferedBytes + d.bytes == s.bufferedBytes + Size(k, seclen)
    && (Stops(t) && k > 0 ==> Size(k - 1, seclen) < |t.Image()|)
    && (t.trackDataDone ==> Size(k, seclen) >= |t.Image()|)
  }

  /** The next sector keeps the accounts. */
  method NextSector(d: Drive, t: Track, seclen: nat, obs: nat, ghost s: Start, ghost k: nat) returns (ret: nat)
    requires Progress(d, t, s, k, seclen) && 0 < seclen <= 4096
    modifies d, d.data, t, t.source
    ensures ret == 0 ==>
              d.Valid() && t.Valid() && d.writesLeft == 0
              && d.Emitted() == s.medium + Window(t.Image(), 0, Size(k, seclen))
    ensures ret > 0 ==>
              && Progress(d, t, s, if ret == 1 then k + 1 else k, seclen)
              && ret == (if Stops(t) && t.trackDataDone then 2 else 1)
              && Stops(t) == old(Stops(t))
              && (Stops(t) && ret == 1 ==> !t.trackDataDone && t.Position() > old(t.Position()))
    ensures ret <= 2
    ensures ret > 0 ==> t.Position() <= |t.Image()| && (old(t.trackDataDone) ==> t.trackDataDone)
  {
    hide Window; hide Size; hide Track.Image; hide Track.Valid; hide Drive.Valid;
    ghost var image := t.Image();
    OneMore(k, seclen);
    OneMore(0, seclen);
    ret := d.SectorData(t, seclen, obs);
    if Size(k, seclen) < |image| {
      WindowChain(image, Size(k, seclen), seclen);
    } else {
      WindowBeyond(image, Size(k, seclen), seclen);
      WindowChain(image, Size(k, seclen), seclen);
    }
    assert Window(image, t.Position(), 0) == [] by { EmptyWindow(image, t.Position()); }
  }

  lemma EmptyWindow(image: seq<Byte>, pos: nat)
    ensures Window(image, pos, 0) == []
  {
  }

  /** The sector loop of burn_write_track and the flush behind it */
  method WriteTrack(d: Drive, t: Track, planned: nat, seclen: nat, obs: nat) returns (ok: bool)
    requires d.Valid() && d.sectors == 0 && 0 < seclen <= 4096
    requires t.Valid() && t.Position() == 0 && !t.trackDataDone
    modifies d, d.data, t, t.source
    ensures d.Valid() && t.Valid()
    ensures var n := old(TrackSectors(t, |t.Image()|, planned, seclen));
            ok ==>
              && d.medium == old(d.medium) + Window(t.Image(), 0, Size(n, seclen))
              && d.sectors == 0 && d.bytes == 0
              && d.nwa == old(d.nwa) + n && d.alba == old(d.alba) + n && d.rlba == old(d.rlba) + n
              && t.writeCount == old(t.writeCount) + Size(n, seclen) && t.writtenSectors == old(t.writtenSectors) + n
              && d.bufferedBytes == old(d.bufferedBytes) + Size(n, seclen)
    ensures !ok ==> d.writesLeft == 0 && exists m: nat :: d.Emitted() == old(d.medium) + Window(t.Image(), 0, m)
  {
    hide Window; hide Size; hide Track.Image; hide Progress;
    ghost var image := t.Image();
    ghost var s := Start(d.medium, d.nwa, d.alba, d.rlba, t.writeCount, t.writtenSectors, d.bufferedBytes);
    ghost var k: nat := 0;
    ghost var stops := Stops(t);
    Begin(d, t, s, seclen);
    var i := 0;
    while t.openEnded || i < planned
      invariant Progress(d, t, s, k, seclen) && Stops(t) == stops && t.Position() <= |image|
      invariant k <= i && ((stops && t.trackDataDone) || k == i) && (t.openEnded ==> !t.trackDataDone)
                  && (!t.openEnded ==> i <= planned)
      decreases if t.openEnded then |image| - t.Position() else planned - i
    {
      var ret := NextSector(d, t, seclen, obs, s, k);
      if ret == 0 {
        return false;
      }
      k := if ret == 1 then k + 1 else k;
      if t.openEnded {
        if t.trackDataDone {
          break;
        }
      }
      i := i + 1;
    }
    Total(d, t, s, k, planned, seclen);
    ok := Flush(d, t, s, k, seclen);
  }

  lemma Begin(d: Drive, t: Track, s: Start, seclen: nat)
    requires d.Valid() && d.sectors == 0 && t.Valid() && t.Position() == 0 && !t.trackDataDone
    requires s == Start(d.medium, d.nwa, d.alba, d.rlba, t.writeCount, t.writtenSectors, d.bufferedBytes)
    ensures Progress(d, t, s, 0, seclen)
  {
    hide Track.Image;
    EmptyWindow(t.Image(), 0);
    OneMore(0, seclen);
    assert d.data[..0] == [];
  }

  lemma Total(d: Drive, t: Track, s: Start, k: nat, planned: nat, seclen: nat)
    requires seclen > 0 && Progress(d, t, s, k, seclen)
    requires if t.openEnded then t.trackDataDone else k <= planned && (k == planned || (Stops(t) && t.trackDataDone))
    ensures k == TrackSectors(t, |t.Image()|, planned, seclen)
  {
    hide Size; hide SectorsFor; hide Window; hide Track.Image; hide Drive.Valid; hide Track.Valid;
    if Stops(t) {
      NotEnough(k, |t.Image()|, seclen);
      if t.trackDataDone {
        Enough(k, |t.Image()|, seclen);
      }
    }
  }

  method Flush(d: Drive, t: Track, ghost s: Start, ghost k: nat, seclen: nat) returns (ok: bool)
    requires Progress(d, t, s, k, seclen)
    modifies d, t
    ensures d.Valid() && t.Valid()
    ensures ok ==>
              && d.medium == s.medium + Window(t.Image(), 0, Size(k, seclen)) && d.sectors == 0 && d.bytes == 0
              && d.nwa == s.nwa + k && d.alba == s.alba + k && d.rlba == s.rlba + k
              && t.writeCount == s.writeCount + Size(k, seclen) && t.writtenSectors == s.writtenSectors + k
              && d.bufferedBytes == s.bufferedBytes + Size(k, seclen)
    ensures !ok ==> d.writesLeft == 0 && d.Emitted() == s.medium + Window(t.Image(), 0, Size(k, seclen))
  {
    hide Size; hide Window; hide Track.Image; hide Track.Valid;
    var ret := d.WriteBuffer(t);
    ok := ret > 0;
    if ok {
      assert d.medium + d.data[..0] == d.medium;
    }
  }
}
