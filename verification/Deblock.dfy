/**
  The CP/M 2.0 sector deblocking algorithms: a one-buffer write-back cache of 512-byte host
  sectors under 128-byte CP/M sectors, which skips the pre-read of a host sector while a
  freshly allocated block is written in sequence.  Host I/O succeeds in this model.
 */
module Deblocking {

  type byte = x: int | 0 <= x < 256

  const RECORD := 128           // bytes of a CP/M sector
  const HSTSIZ := 512           // host disk sector size
  const HSTBLK := 4             // CP/M sectors per host buffer
  const CPMSPT := 80            // CP/M sectors per track
  const BLKRECS := 16           // blksiz / 128: CP/M sectors per allocation block

  datatype WriteType = WRALL | WRDIR | WRUAL

  datatype Sector = Sector(dsk: int, trk: int, sec: int)
  datatype HostSector = HostSector(dsk: int, trk: int, sec: int)

  type Disk = map<HostSector, seq<byte>>
  type Flat = map<Sector, seq<byte>>      // the last bytes written to each CP/M sector whose contents matter

  function Host(s: Sector): HostSector { HostSector(s.dsk, s.trk, s.sec / HSTBLK) }

  // The drive is a byte, the track a word whose last value is never reached.
  predicate OnTrack(s: Sector) { 0 <= s.dsk < 256 && 0 <= s.trk < 0xFFFF && 0 <= s.sec < CPMSPT }

  // Sectors s and t belong to one allocation block; a track holds five whole blocks.
  predicate SameBlock(s: Sector, t: Sector) {
    s.dsk == t.dsk && s.trk == t.trk && s.sec / BLKRECS == t.sec / BLKRECS
  }

  // Sector number counted through all tracks of a drive.
  function Linear(s: Sector): int { s.trk * CPMSPT + s.sec }

  // The sectors sharing a host sector with one of the n records from `from` on.
  predicate InWindow(from: Sector, n: int, s: Sector) {
    s.dsk == from.dsk && Linear(from) / HSTBLK <= Linear(s) / HSTBLK <= (Linear(from) + n - 1) / HSTBLK
  }

  // The window of an unallocated write stays inside its block exactly when the write starts the block.
  lemma AlignedWindow(at: Sector)
    requires OnTrack(at) && at.trk + 1 < 0xFFFF
    ensures at.sec % BLKRECS == 0 <==> forall s :: OnTrack(s) && InWindow(at, BLKRECS, s) ==> SameBlock(s, at)
    ensures at.sec % BLKRECS == 0 ==> forall s :: OnTrack(s) && SameBlock(s, at) ==> InWindow(at, BLKRECS, s)
  {
    if at.sec % BLKRECS == 0 {
      forall s | OnTrack(s) && InWindow(at, BLKRECS, s) ensures SameBlock(s, at) {
        assert Linear(at) / HSTBLK == at.trk * 20 + at.sec / 4;
      }
    } else {
      var next := at.sec / BLKRECS * BLKRECS + BLKRECS;
      var s := if next < CPMSPT then at.(sec := next) else at.(trk := at.trk + 1, sec := 0);
      assert Linear(s) == at.trk * CPMSPT + next;
      assert OnTrack(s) && InWindow(at, BLKRECS, s) && !SameBlock(s, at);
    }
  }

  lemma HostIsLinear(s: Sector, t: Sector)
    requires OnTrack(s) && OnTrack(t) && s.dsk == t.dsk
    ensures Host(s) == Host(t) <==> Linear(s) / HSTBLK == Linear(t) / HSTBLK
  {
    assert Linear(s) / HSTBLK == s.trk * 20 + s.sec / 4;
    assert Linear(t) / HSTBLK == t.trk * 20 + t.sec / 4;
  }

  function Slice(buf: seq<byte>, s: Sector): seq<byte>
    requires |buf| == HSTSIZ && OnTrack(s)
  {
    buf[s.sec % HSTBLK * RECORD..][..RECORD]
  }

  // The four sectors of a host sector lie in it in their order, one after the other.
  lemma SlicesInOrder(buf: seq<byte>, s: Sector, k: int)
    requires |buf| == HSTSIZ && OnTrack(s) && OnTrack(s.(sec := s.sec + 3)) && s.sec == HSTBLK * k
    ensures Slice(buf, s) + Slice(buf, s.(sec := s.sec + 1)) + Slice(buf, s.(sec := s.sec + 2))
            + Slice(buf, s.(sec := s.sec + 3)) == buf
    ensures Host(s.(sec := s.sec + 3)) == Host(s) && Host(s).sec == k
  {
    SliceAt(buf, s, k, 0);
    SliceAt(buf, s.(sec := s.sec + 1), k, 1);
    SliceAt(buf, s.(sec := s.sec + 2), k, 2);
    SliceAt(buf, s.(sec := s.sec + 3), k, 3);
    FourParts(buf);
  }

  lemma SliceAt(buf: seq<byte>, s: Sector, k: int, i: int)
    requires |buf| == HSTSIZ && OnTrack(s) && s.sec == HSTBLK * k + i && 0 <= i < HSTBLK
    ensures Slice(buf, s) == buf[i * RECORD..i * RECORD + RECORD] && Host(s).sec == k
  {
    assert s.sec % HSTBLK == i;
  }

  lemma FourParts(buf: seq<byte>)
    requires |buf| == HSTSIZ
    ensures buf[0..128] + buf[128..256] + buf[256..384] + buf[384..512] == buf
  {
  }

  ghost predicate DiskReady(disk: Disk) {
    forall s: Sector {:trigger Host(s)} :: OnTrack(s) ==> Host(s) in disk && |disk[Host(s)]| == HSTSIZ
  }

  // What the cache holds for s: the buffer if it is active on s's host sector, else the disk.
  ghost function Held(active: bool, hst: HostSector, buf: seq<byte>, disk: Disk, s: Sector): seq<byte>
    requires DiskReady(disk) && |buf| == HSTSIZ && OnTrack(s)
  {
    if active && Host(s) == hst then Slice(buf, s) else Slice(disk[Host(s)], s)
  }

  // The cache refines the flat array.
  ghost predicate Refines(active: bool, hst: HostSector, buf: seq<byte>, disk: Disk, flat: Flat) {
    && DiskReady(disk) && |buf| == HSTSIZ
    && forall s :: s in flat ==> OnTrack(s) && Held(active, hst, buf, disk, s) == flat[s]
  }

  // The physical disk alone agrees with the flat array.
  ghost predicate OnDisk(disk: Disk, flat: Flat) {
    && DiskReady(disk)
    && forall s :: s in flat ==> OnTrack(s) && Slice(disk[Host(s)], s) == flat[s]
  }

  // While unallocated records remain, una is the next of them, nothing of value lies in the host
  // sectors from una to the last of them, and a host sector already begun is still in the buffer.
  ghost predicate UnallocOk(unacnt: int, una: Sector, active: bool, hst: HostSector, flat: Flat) {
    unacnt > 0 ==>
      && 0 <= una.sec < CPMSPT
      && (forall s {:trigger InWindow(una, unacnt, s)} ::
            s in flat && InWindow(una, unacnt, s) ==> Linear(s) < Linear(una))
      && ((active && hst == Host(una)) || forall s :: s in flat ==> Host(s) != Host(una))
  }

  // The flat array without the records an unallocated write at `at` gives up.
  ghost function Forget(flat: Flat, at: Sector): Flat {
    map s | s in flat && !InWindow(at, BLKRECS, s) :: flat[s]
  }

  // The flat array without one host sector.
  ghost function WithoutHost(flat: Flat, hst: HostSector): Flat {
    map s | s in flat && Host(s) != hst :: flat[s]
  }

  lemma FlushRefines(hst: HostSector, buf: seq<byte>, disk: Disk, flat: Flat)
    requires Refines(true, hst, buf, disk, flat)
    ensures OnDisk(disk[hst := buf], flat)
  {
    var disk' := disk[hst := buf];
    forall s | s in flat ensures OnTrack(s) && Slice(disk'[Host(s)], s) == flat[s] {
      assert Held(true, hst, buf, disk, s) == flat[s];
    }
  }

  // Moving the buffer to another host sector, read in or holding nothing of value.
  lemma FillRefines(hst: HostSector, buf: seq<byte>, disk: Disk, flat: Flat)
    requires OnDisk(disk, flat) && |buf| == HSTSIZ
    requires hst in disk && (buf == disk[hst] || forall s :: s in flat ==> Host(s) != hst)
    ensures Refines(true, hst, buf, disk, flat)
  {
  }

  lemma SliceUpdated(buf: seq<byte>, buf': seq<byte>, at: Sector, s: Sector, data: seq<byte>)
    requires |buf| == |buf'| == HSTSIZ && OnTrack(at) && OnTrack(s) && |data| == RECORD
    requires var o := at.sec % HSTBLK * RECORD; buf' == buf[..o] + data + buf[o + RECORD..]
    ensures s.sec % HSTBLK == at.sec % HSTBLK ==> Slice(buf', s) == data
    ensures s.sec % HSTBLK != at.sec % HSTBLK ==> Slice(buf', s) == Slice(buf, s)
  {
    var o, p := at.sec % HSTBLK * RECORD, s.sec % HSTBLK * RECORD;
    if s.sec % HSTBLK != at.sec % HSTBLK {
      assert p + RECORD <= o || o + RECORD <= p;
    }
  }

  // Storing a record in the buffer is a store into the flat array.
  lemma StoreRefines(buf: seq<byte>, buf': seq<byte>, disk: Disk, flat: Flat, at: Sector, data: seq<byte>)
    requires Refines(true, Host(at), buf, disk, flat) && OnTrack(at)
    requires |data| == RECORD && |buf'| == HSTSIZ
    requires var o := at.sec % HSTBLK * RECORD; buf' == buf[..o] + data + buf[o + RECORD..]
    ensures Refines(true, Host(at), buf', disk, flat[at := data])
  {
    var flat' := flat[at := data];
    forall s | s in flat' ensures OnTrack(s) && Held(true, Host(at), buf', disk, s) == flat'[s] {
      SliceUpdated(buf, buf', at, s, data);
      if s != at {
        assert Held(true, Host(at), buf, disk, s) == flat[s];
        assert Host(s) == Host(at) ==> s.sec % HSTBLK != at.sec % HSTBLK;
      }
    }
  }

  class Deblocker {
    // Seek request.
    var sek: Sector
    // Host buffer.
    var hst: HostSector
    var hstact: bool
    var hstwrt: bool
    const hstbuf: array<byte>
    // Run of unallocated records.
    var unacnt: int
    var una: Sector
    // Current operation.
    var rsflag: bool
    var readop: bool
    var wrtype: WriteType
    // Transfer buffer of the last SETDMA, and the physical disk.
    var dma: array<byte>
    var disk: Disk
    ghost var flat: Flat

    ghost predicate Valid()
      reads this, hstbuf, dma
    {
      && hstbuf.Length == HSTSIZ && dma.Length == RECORD && hstbuf != dma
      && Refines(hstact, hst, hstbuf[..], disk, flat)
      && (!hstact || !hstwrt ==> OnDisk(disk, flat))
      && UnallocOk(unacnt, una, hstact, hst, flat)
      && unacnt < BLKRECS
    }

    // A cold start; flat says which sectors of the disk already hold something of value.
    constructor (disk: Disk, dma: array<byte>, ghost flat: Flat)
      requires OnDisk(disk, flat) && dma.Length == RECORD
      ensures Valid() && this.flat == flat && this.disk == disk && fresh(hstbuf) && this.dma == dma && !hstact
    {
      hstbuf := new byte[HSTSIZ];
      this.disk, this.dma, this.flat := disk, dma, flat;
      hstact, unacnt := false, 0;
      sek, una := Sector(0, 0, 0), Sector(0, 0, 0);
      hst := HostSector(0, 0, 0);
      hstwrt, rsflag, readop, wrtype := false, false, false, WRALL;
    }

    // Warm boot drops the buffer: only the host sector of a pending write is given up.
    method Wboot()
      requires Valid()
      modifies this`hstact, this`unacnt, this`flat
      ensures Valid() && !hstact && unacnt == 0
      ensures flat == if old(hstact) && hstwrt then WithoutHost(old(flat), hst) else old(flat)
    {
      if hstact && hstwrt {
        flat := WithoutHost(flat, hst);
      }
      hstact := false;
      unacnt := 0;
    }

    method SelDsk(c: int)
      modifies this`sek
      ensures sek == old(sek).(dsk := c)
    {
      sek := sek.(dsk := c);
    }

    method SetTrk(bc: int)
      modifies this`sek
      ensures sek == old(sek).(trk := bc)
    {
      sek := sek.(trk := bc);
    }

    method SetSec(c: int)
      modifies this`sek
      ensures sek == old(sek).(sec := c)
    {
      sek := sek.(sec := c);
    }

    // chkuna: is this write the next one of a run of unallocated records?
    method ChkUna()
      requires OnTrack(sek) && unacnt <= BLKRECS && AllOnTrack(flat)
      requires UnallocOk(unacnt, una, hstact, hst, flat)
      modifies this`unacnt, this`una, this`rsflag
      ensures unacnt < BLKRECS
      ensures !rsflag ==> (hstact && hst == Host(sek)) || forall s :: s in flat ==> Host(s) != Host(sek)
      ensures unacnt > 0 ==>
        !rsflag && una.dsk == sek.dsk && Linear(una) == Linear(sek) + 1 && UnallocOk(unacnt, una, true, Host(sek), flat)
    {
      if unacnt > 0 {
        unacnt := unacnt - 1;
        if sek.dsk == una.dsk && sek.trk == una.trk && sek.sec == una.sec {
          NextRecord(unacnt + 1, una, hstact, hst, flat);
          una := una.(sec := una.sec + 1);
          if una.sec >= CPMSPT {
            una := Sector(una.dsk, una.trk + 1, 0);
          }
          assert una == Next(sek);
          rsflag := false;
          return;
        }
      }
      unacnt := 0;
      rsflag := true;
    }

    // writehst: the buffer goes to its host sector.
    method WriteHst()
      modifies this`disk
      ensures disk == old(disk)[hst := hstbuf[..]]
    {
      disk := disk[hst := hstbuf[..]];
    }

    // readhst: the host sector comes into the buffer.
    method ReadHst()
      requires hst in disk && |disk[hst]| == hstbuf.Length == HSTSIZ
      modifies hstbuf
      ensures hstbuf[..] == disk[hst]
    {
      var i := 0;
      while i < HSTSIZ
        invariant 0 <= i <= HSTSIZ && hstbuf[..i] == disk[hst][..i]
      {
        hstbuf[i] := disk[hst][i];
        i := i + 1;
      }
    }

    // rwoper up to match: bring the host sector of sek into the buffer.
    method Position()
      requires OnTrack(sek) && hstbuf.Length == HSTSIZ
      requires Refines(hstact, hst, hstbuf[..], disk, flat)
      requires !hstact || !hstwrt ==> OnDisk(disk, flat)
      requires !rsflag ==> (hstact && hst == Host(sek)) || forall s :: s in flat ==> Host(s) != Host(sek)
      modifies this`hst, this`hstact, this`hstwrt, this`disk, hstbuf
      ensures hstact && hst == Host(sek)
      ensures Refines(true, hst, hstbuf[..], disk, flat)
      ensures !hstwrt ==> OnDisk(disk, flat)
    {
      var wasActive := hstact;
      hstact := true;
      if !(wasActive && sek.dsk == hst.dsk && sek.trk == hst.trk && sek.sec / HSTBLK == hst.sec) {
        if wasActive && hstwrt {
          FlushRefines(hst, hstbuf[..], disk, flat);
          WriteHst();
        }
        hst := HostSector(sek.dsk, sek.trk, sek.sec / HSTBLK);
        assert hst == Host(sek);
        if rsflag {
          ReadHst();
        }
        hstwrt := false;
        FillRefines(hst, hstbuf[..], disk, flat);
      }
    }

    // match and rwmove for a write: 128 bytes from the transfer buffer into the host buffer.
    method MoveIn()
      requires OnTrack(sek) && hstbuf.Length == HSTSIZ && dma.Length == RECORD && hstbuf != dma
      modifies hstbuf
      ensures var o := sek.sec % HSTBLK * RECORD;
              hstbuf[..] == old(hstbuf[..])[..o] + dma[..] + old(hstbuf[..])[o + RECORD..]
    {
      var o, c := sek.sec % HSTBLK * RECORD, 0;
      while c < RECORD
        invariant 0 <= c <= RECORD
        invariant hstbuf[o..o + c] == dma[..c]
        invariant hstbuf[..o] == old(hstbuf[..o]) && hstbuf[o + c..] == old(hstbuf[..])[o + c..]
      {
        hstbuf[o + c] := dma[c];
        c := c + 1;
      }
    }

    // match and rwmove for a read: 128 bytes from the host buffer into the transfer buffer.
    method MoveOut()
      requires OnTrack(sek) && hstbuf.Length == HSTSIZ && dma.Length == RECORD && hstbuf != dma
      modifies dma
      ensures dma[..] == Slice(hstbuf[..], sek)
    {
      var o, c := sek.sec % HSTBLK * RECORD, 0;
      while c < RECORD
        invariant 0 <= c <= RECORD
        invariant dma[..c] == hstbuf[o..o + c]
      {
        dma[c] := hstbuf[o + c];
        c := c + 1;
      }
    }

    // read: a sector whose contents matter comes back as last written.
    method Read()
      requires Valid() && OnTrack(sek)
      modifies this, hstbuf, dma
      ensures Valid() && sek == old(sek) && dma == old(dma) && flat == old(flat)
      ensures sek in flat ==> dma[..] == flat[sek]
    {
      unacnt := 0;
      readop, rsflag, wrtype := true, true, WRUAL;
      Position();
      MoveOut();
      assert sek in flat ==> Held(true, hst, hstbuf[..], disk, sek) == flat[sek];
    }

    // match onwards for a write: store the record, and write a directory sector through.
    method StoreRecord()
      requires OnTrack(sek) && hstbuf.Length == HSTSIZ && dma.Length == RECORD && hstbuf != dma
      requires hstact && hst == Host(sek) && Refines(true, hst, hstbuf[..], disk, flat)
      modifies this`hstwrt, this`disk, this`flat, hstbuf
      ensures flat == old(flat)[sek := dma[..]]
      ensures Refines(true, hst, hstbuf[..], disk, flat)
      ensures hstwrt <==> wrtype != WRDIR
      ensures !hstwrt ==> OnDisk(disk, flat)
    {
      hstwrt := true;
      MoveIn();
      StoreRefines(old(hstbuf[..]), hstbuf[..], disk, flat, sek, dma[..]);
      flat := flat[sek := dma[..]];
      if wrtype == WRDIR {
        hstwrt := false;
        FlushRefines(hst, hstbuf[..], disk, flat);
        WriteHst();
        FillRefines(hst, hstbuf[..], disk, flat);
      }
    }

    // write: an unallocated write starts a run of records that need no pre-read.
    method NoteUnallocated(c: WriteType)
      requires Valid() && OnTrack(sek)
      modifies this`unacnt, this`una, this`flat
      ensures flat == if c == WRUAL then Forget(old(flat), sek) else old(flat)
      ensures Refines(hstact, hst, hstbuf[..], disk, flat) && AllOnTrack(flat)
      ensures !hstact || !hstwrt ==> OnDisk(disk, flat)
      ensures unacnt <= BLKRECS && UnallocOk(unacnt, una, hstact, hst, flat)
    {
      if c == WRUAL {
        unacnt, una := BLKRECS, sek;
        ForgetRefines(hstact, hst, hstbuf[..], disk, flat, sek);
        flat := Forget(flat, sek);
      }
      RefinesOnTrack(hstact, hst, hstbuf[..], disk, flat);
    }

    // write up to rwoper: note an unallocated block, and decide whether a pre-read is needed.
    method BeginWrite(c: WriteType)
      requires Valid() && OnTrack(sek)
      modifies this`readop, this`wrtype, this`unacnt, this`una, this`rsflag, this`flat
      ensures wrtype == c && flat == if c == WRUAL then Forget(old(flat), sek) else old(flat)
      ensures Refines(hstact, hst, hstbuf[..], disk, flat)
      ensures !hstact || !hstwrt ==> OnDisk(disk, flat)
      ensures unacnt < BLKRECS
      ensures !rsflag ==> (hstact && hst == Host(sek)) || forall s :: s in flat ==> Host(s) != Host(sek)
      ensures unacnt > 0 ==> una.dsk == sek.dsk && Linear(una) == Linear(sek) + 1
      ensures UnallocOk(unacnt, una, true, Host(sek), flat)
    {
      NoteUnallocated(c);
      readop, wrtype := false, c;
      ChkUna();
    }

    // write: the flat array changes at sek only; an unallocated write first gives up its window,
    // which is its block when it starts the block (AlignedWindow).
    method Write(c: WriteType)
      requires Valid() && OnTrack(sek)
      modifies this, hstbuf
      ensures Valid() && sek == old(sek) && dma == old(dma) && dma[..] == old(dma[..])
      ensures flat == (if c == WRUAL then Forget(old(flat), sek) else old(flat))[sek := dma[..]]
      ensures c == WRDIR ==> OnDisk(disk, flat)
    {
      BeginWrite(c);
      Position();
      UnallocAfterStore(unacnt, una, flat, sek, dma[..]);
      StoreRecord();
    }

    // Any run of sector requests.  Every read of a sector with valued contents returns the last bytes written.
    method Serve(requests: seq<Request>) returns (replies: seq<seq<byte>>)
      requires Valid()
      modifies this, hstbuf, dma
      ensures Valid() && dma == old(dma)
      ensures |replies| == |requests|
      ensures flat == FlatAfter(old(flat), requests)
      ensures forall n :: 0 <= n < |requests| ==> AnsweredAt(old(flat), requests, replies, n)
    {
      replies := [];
      for n := 0 to |requests|
        invariant Valid() && dma == old(dma) && |replies| == n
        invariant flat == FlatAfter(old(flat), requests[..n])
        invariant forall m :: 0 <= m < n ==> AnsweredAt(old(flat), requests, replies, m)
      {
        FlatAfterNext(old(flat), requests, n);
        var reply := ServeOne(requests[n]);
        ghost var before := replies;
        replies := replies + [reply];
        StillAnswered(old(flat), requests, before, replies, n);
      }
      assert requests[..|requests|] == requests;
    }

    method ServeOne(request: Request) returns (reply: seq<byte>)
      requires Valid()
      modifies this, hstbuf, dma
      ensures Valid() && dma == old(dma)
      ensures flat == FlatStep(old(flat), request)
      ensures Answered(old(flat), request, reply)
    {
      reply := [];
      if OnTrack(request.at) {
        SelDsk(request.at.dsk);
        SetTrk(request.at.trk);
        SetSec(request.at.sec);
        match request {
          case ReadAt(at) =>
            Read();
            reply := dma[..];
          case WriteAt(at, data, c) =>
            if |data| == RECORD {
              forall i | 0 <= i < RECORD { dma[i] := data[i]; }
              assert dma[..] == data;
              Write(c);
            }
        }
      }
    }
  }

  datatype Request = ReadAt(at: Sector) | WriteAt(at: Sector, data: seq<byte>, c: WriteType)

  // The flat array's own semantics of a request.
  ghost function FlatStep(flat: Flat, request: Request): Flat {
    if request.WriteAt? && OnTrack(request.at) && |request.data| == RECORD
    then (if request.c == WRUAL then Forget(flat, request.at) else flat)[request.at := request.data]
    else flat
  }

  ghost function FlatAfter(flat: Flat, requests: seq<Request>): Flat {
    if requests == [] then flat
    else FlatStep(FlatAfter(flat, requests[..|requests| - 1]), requests[|requests| - 1])
  }

  ghost predicate Answered(flat: Flat, request: Request, reply: seq<byte>) {
    request.ReadAt? && request.at in flat && OnTrack(request.at) ==> reply == flat[request.at]
  }

  // Request n was answered from what the flat array had then.
  ghost predicate AnsweredAt(flat: Flat, requests: seq<Request>, replies: seq<seq<byte>>, n: int)
    requires 0 <= n < |requests| && n < |replies|
  {
    Answered(FlatAfter(flat, requests[..n]), requests[n], replies[n])
  }

  lemma StillAnswered(flat: Flat, requests: seq<Request>, before: seq<seq<byte>>, after: seq<seq<byte>>, n: int)
    requires 0 <= n == |before| < |requests| && |after| == n + 1 && after[..n] == before
    requires forall m :: 0 <= m < n ==> AnsweredAt(flat, requests, before, m)
    requires AnsweredAt(flat, requests, after, n)
    ensures forall m :: 0 <= m < n + 1 ==> AnsweredAt(flat, requests, after, m)
  {
    forall m | 0 <= m < n + 1
      ensures AnsweredAt(flat, requests, after, m)
    {
      if m < n {
        assert AnsweredAt(flat, requests, before, m) && after[..n][m] == before[m];
      }
    }
  }

  lemma RefinesOnTrack(active: bool, hst: HostSector, buf: seq<byte>, disk: Disk, flat: Flat)
    requires Refines(active, hst, buf, disk, flat)
    ensures AllOnTrack(flat)
  {
  }

  lemma FlatAfterNext(flat: Flat, requests: seq<Request>, n: int)
    requires 0 <= n < |requests|
    ensures FlatAfter(flat, requests[..n + 1]) == FlatStep(FlatAfter(flat, requests[..n]), requests[n])
  {
    assert requests[..n + 1][..n] == requests[..n];
  }

  // Giving up the contents of a block asks nothing of the cache.
  lemma ForgetRefines(active: bool, hst: HostSector, buf: seq<byte>, disk: Disk, flat: Flat, at: Sector)
    requires Refines(active, hst, buf, disk, flat) && OnTrack(at)
    ensures Refines(active, hst, buf, disk, Forget(flat, at))
    ensures OnDisk(disk, flat) ==> OnDisk(disk, Forget(flat, at))
    ensures UnallocOk(BLKRECS, at, active, hst, Forget(flat, at))
  {
    forall s | s in Forget(flat, at) ensures Host(s) != Host(at) {
      if s.dsk == at.dsk { HostIsLinear(s, at); }
    }
  }

  lemma UnallocAfterStore(unacnt: int, una: Sector, flat: Flat, at: Sector, data: seq<byte>)
    requires unacnt > 0 ==> una.dsk == at.dsk && Linear(una) == Linear(at) + 1
    requires UnallocOk(unacnt, una, true, Host(at), flat)
    ensures UnallocOk(unacnt, una, true, Host(at), flat[at := data])
  {
  }

  ghost predicate AllOnTrack(flat: Flat) {
    forall s :: s in flat ==> OnTrack(s)
  }

  // The record after una, on the next track if need be.
  function Next(una: Sector): Sector {
    if una.sec + 1 >= CPMSPT then Sector(una.dsk, una.trk + 1, 0) else una.(sec := una.sec + 1)
  }

  // Writing record una leaves the records after it without value.
  lemma NextRecord(unacnt: int, una: Sector, active: bool, hst: HostSector, flat: Flat)
    requires 0 < unacnt <= BLKRECS && OnTrack(una) && AllOnTrack(flat) && UnallocOk(unacnt, una, active, hst, flat)
    ensures (active && hst == Host(una)) || forall s :: s in flat ==> Host(s) != Host(una)
    ensures UnallocOk(unacnt - 1, Next(una), true, Host(una), flat)
    ensures Linear(Next(una)) == Linear(una) + 1
  {
    var next := Next(una);
    forall s | s in flat && InWindow(next, unacnt - 1, s) ensures Linear(s) < Linear(next) {
      assert InWindow(una, unacnt, s);
    }
    if Host(next) != Host(una) {
      forall s | s in flat && unacnt > 1 ensures Host(s) != Host(next) {
        if s.dsk == next.dsk {
          NotInNextHost(una, unacnt, s);
        }
      }
    }
  }

  // Entering a new host sector, none of its records has value.
  lemma NotInNextHost(una: Sector, unacnt: int, s: Sector)
    requires 1 < unacnt && OnTrack(una) && OnTrack(s) && s.dsk == una.dsk && Host(Next(una)) != Host(una)
    requires InWindow(una, unacnt, s) ==> Linear(s) < Linear(una)
    ensures Host(s) != Host(Next(una))
  {
    var next := Next(una);
    assert Linear(next) / HSTBLK == next.trk * 20 + next.sec / 4;
    assert Linear(una) / HSTBLK == una.trk * 20 + una.sec / 4;
    assert Linear(s) / HSTBLK == s.trk * 20 + s.sec / 4;
    assert Linear(next) % HSTBLK == 0;
  }
}
