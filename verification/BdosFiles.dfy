/**
  Whole files under the BDOS (cpm22/bdos.asm): what is written, closed, opened again and read is what was written.
 */
module BdosFiles {
  import opened Arithmetic
  import opened BdosDirectory
  import opened BdosOwnership
  import opened BdosRandom
  import opened BdosPlaces
  import opened BdosContents
  import opened Bdos

  // --- one record, through the directory

  // A table completed without a clash keeps what it had.
  lemma Completed(p: seq<word>, q: seq<word>, i: int)
    requires |p| == |q| && FirstClash(p, q, 0) == |p| && 0 <= i < |p| && p[i] != 0
    ensures FilledUpTo(q, p, |p|)[i] == p[i]
  {
    assert !Clashes(p[i], q[i]);
  }

  // The entry n after the extent x has been closed into it is still the first one listed for it.
  lemma StillListed(d: Drive, x: Entry, y: Entry, dir0: seq<Entry>, g: Entry, dir1: seq<Entry>, n: int)
    requires d.dpb.exm >= 0 && d.FirstListed(x, dir0, n) && Drive.Merged(x, dir0, g, dir1, n)
    requires NameOk(x.name) && NameOk(y.name) && FileId(x.name) == FileId(y.name) && x.ext == y.ext && x.s2 == y.s2
    ensures d.FirstListed(y, dir1, n)
  {
    d.AsksByFile(x, y, dir0);
    var e, c := dir0[n], dir1[n];
    forall b | 0 <= b < 15
      ensures Agrees(y, c, b, d.dpb.exm)
    {
      assert Agrees(y, e, b, d.dpb.exm);
    }
  }

  // What is read from it is what the control block had.
  lemma ReadMerged(d: Drive, f: Fcb, dir0: seq<Entry>, g: Entry, dir1: seq<Entry>, n: int, at: int, sector: int)
    requires DpbOk(d.dpb) && d.Stored(f, at) && Drive.Merged(f.x, dir0, g, dir1, n)
    requires !Drive.ClashesWith(f.x, dir0[n]) && Drive.ReadOf(d.dpb, dir1[n], f.x.ext, f.cr, sector)
    ensures sector == at
  {
    Completed(f.x.ptrs, dir0[n].ptrs, PlaceIn(d.dpb, f.cr, f.x.ext));
  }

  // The control block h has the record that f asks for.
  ghost predicate Asks(f: Fcb, g: Fcb, cr: byte) {
    && NameOk(f.x.name) && FileId(f.x.name) == FileId(g.x.name) && f.r2 == 0
    && RecordOf(f.r0) == cr && ExtentOf(f.r0, f.r1) == g.x.ext && ModuleOf(f.r1) == g.x.s2
  }

  // A close, and whether it went through.
  method Close(d: Drive, h: int) returns (closed: bool)
    requires d.Valid() && h in d.fcbs && d.fcbs[h].x.s2 < 128
    modifies d`status, d`filepos, d`savefcb, d`counter, d`fcbs, d`dir, d`closeflg
    ensures d.Valid()
    ensures closed <==> Closes(d, old(d.fcbs[h].x), old(d.dir))
    ensures closed ==>
      && d.FirstListed(old(d.fcbs[h].x), old(d.dir), d.filepos)
      && !Drive.ClashesWith(old(d.fcbs[h].x), old(d.dir)[d.filepos]) && h in d.fcbs
      && Drive.Merged(old(d.fcbs[h].x), old(d.dir), d.fcbs[h].x, d.dir, d.filepos)
  {
    d.closeflg := false;
    d.CloseIt(h);
    closed := d.closeflg;
    ghost var x, dir0 := old(d.fcbs[h].x), old(d.dir);
    if d.filepos != NOWHERE {
      OneListed(d, x, dir0, d.filepos);
    }
  }

  // The first entry listed for the extent does not clash with it.
  ghost predicate Closes(d: Drive, x: Entry, dir: seq<Entry>)
    requires d.dpb.exm >= 0
  {
    exists n :: d.FirstListed(x, dir, n) && !Drive.ClashesWith(x, dir[n])
  }

  lemma OneListed(d: Drive, x: Entry, dir: seq<Entry>, n: int)
    requires d.dpb.exm >= 0 && d.FirstListed(x, dir, n)
    ensures Closes(d, x, dir) <==> !Drive.ClashesWith(x, dir[n])
    ensures forall m :: d.FirstListed(x, dir, m) ==> m == n
  {
  }

  // Close the control block h, open its file in the control block k, and read a record that h had.
  method CloseAndRead(d: Drive, h: int, k: int, f: Fcb, ghost at: int) returns (closed: bool, sector: int)
    requires d.Valid() && h in d.fcbs && Asks(f, d.fcbs[h], RecordOf(f.r0))
    requires d.Stored(d.fcbs[h].(cr := RecordOf(f.r0)), at)
    modifies d
    ensures d.Valid() && d.disk == old(d.disk)
    ensures closed <==> Closes(d, old(d.fcbs[h].x), old(d.dir))
    ensures closed ==>
      || (d.status == 0 && sector == at)
      || (d.status == 0xFF && sector < 0 && d.NotListed(f.x.(s2 := 0), d.dir))
  {
    ghost var g := d.fcbs[h];
    assert Holds(d.dpb, d.owner, g.x);
    closed := Close(d, h);
    sector := -1;
    if closed {
      ghost var m, g1 := d.filepos, d.fcbs[h].x;
      StillListed(d, g.x, Drive.Asked(f), old(d.dir), g1, d.dir, m);
      sector := Reopen(d, k, f, g.(cr := RecordOf(f.r0)), old(d.dir), g1, m, at);
    }
  }

  method Reopen(d: Drive, k: int, f: Fcb, ghost g: Fcb, ghost dir0: seq<Entry>, ghost g1: Entry, ghost m: int,
                ghost at: int)
      returns (sector: int)
    requires d.Valid() && Asks(f, g, g.cr) && d.Stored(g, at) && d.FirstListed(Drive.Asked(f), d.dir, m)
    requires Drive.Merged(g.x, dir0, g1, d.dir, m) && !Drive.ClashesWith(g.x, dir0[m])
    modifies d
    ensures d.Valid() && d.disk == old(d.disk)
    ensures
      || (d.status == 0 && sector == at)
      || (d.status == 0xFF && sector < 0 && d.NotListed(f.x.(s2 := 0), d.dir))
  {
    ghost var n;
    sector, n := d.OpenAndRead(k, f);
    if d.status <= 1 {
      OneListed(d, Drive.Asked(f), d.dir, m);
      ReadMerged(d, g, dir0, g1, d.dir, m, at, sector);
    }
  }

  // A control block at its record has the record that another one with the same three bytes asks for.
  lemma AsksAt(f: Fcb, g: Fcb)
    requires NameOk(f.x.name) && FileId(f.x.name) == FileId(g.x.name) && f.r2 == 0
    requires Drive.AtRecord(g) && g.x.s2 < 128 && f.r0 == g.r0 && f.r1 == g.r1
    ensures Asks(f, g, RecordOf(f.r0)) && g.(cr := RecordOf(f.r0)) == g
  {
  }

  // A random write, and where it leaves the control block.
  method WriteAt(d: Drive, h: int, rec: seq<byte>) returns (sector: int)
    requires d.Valid() && h in d.fcbs
    modifies d, d.alv
    ensures d.Valid() && (sector >= 0 ==> h in d.fcbs)
    ensures sector >= 0 ==>
      && d.Stored(d.fcbs[h], sector) && d.fcbs[h].x.s2 < 128 && Drive.AtRecord(d.fcbs[h])
      && d.fcbs[h].r0 == old(d.fcbs[h].r0) && d.fcbs[h].r1 == old(d.fcbs[h].r1) && old(d.fcbs[h].r2) == 0
      && FileId(d.fcbs[h].x.name) == FileId(old(d.fcbs[h].x.name))
      && sector in d.disk && d.disk[sector] == rec
    ensures sector < 0 ==>
      || (d.status == 2 && NoSpace(d.dpb, old(d.alv[..])))
      || (d.status == 3 && d.CloseFails(old(d.fcbs[h].x), old(d.dir)))
      || (d.status == 5 && d.Unavailable(Drive.Asked(old(d.fcbs[h])), false))
      || (d.status == 6 && old(d.fcbs[h].r2) != 0)
  {
    ghost var g;
    sector, g := d.WriteRan(h, rec);
  }

  // A record written at random is found by another control block after a close: whoever opens the file reads it.
  method WriteCloseRead(d: Drive, h: int, rec: seq<byte>, k: int, f: Fcb)
      returns (written: bool, closed: bool, sector: int)
    requires d.Valid() && h in d.fcbs && NameOk(f.x.name) && FileId(f.x.name) == FileId(d.fcbs[h].x.name)
    requires f.r0 == d.fcbs[h].r0 && f.r1 == d.fcbs[h].r1 && f.r2 == d.fcbs[h].r2
    modifies d, d.alv
    ensures d.Valid()
    ensures written && closed ==>
      || (d.status == 0 && sector in d.disk && d.disk[sector] == rec)
      || (d.status == 0xFF && d.NotListed(f.x.(s2 := 0), d.dir))
    ensures !written ==>
      || (d.status == 2 && NoSpace(d.dpb, old(d.alv[..])))
      || (d.status == 3 && d.CloseFails(old(d.fcbs[h].x), old(d.dir)))
      || (d.status == 5 && d.Unavailable(Drive.Asked(old(d.fcbs[h])), false))
      || (d.status == 6 && old(d.fcbs[h].r2) != 0)
  {
    closed := false;
    sector := WriteAt(d, h, rec);
    written := sector >= 0;
    if written {
      AsksAt(f, d.fcbs[h]);
      closed, sector := CloseAndRead(d, h, k, f, sector);
    }
  }

  // So is one written in sequence, up to the last of an extent.
  method AppendCloseRead(d: Drive, h: int, rec: seq<byte>, k: int, f: Fcb)
      returns (written: bool, closed: bool, sector: int)
    requires d.Valid() && h in d.fcbs && d.fcbs[h].cr != 127 && d.status == 0
    requires Asks(f, d.fcbs[h].(x := d.fcbs[h].x.(s2 := d.fcbs[h].x.s2 % 128)), d.fcbs[h].cr)
    modifies d, d.alv
    ensures d.Valid()
    ensures written && closed ==>
      || (d.status == 0 && sector in d.disk && d.disk[sector] == rec)
      || (d.status == 0xFF && d.NotListed(f.x.(s2 := 0), d.dir))
    ensures !written ==> d.Refused(old(d.fcbs[h].cr), old(d.alv[..]))
  {
    ghost var b, n;
    closed := false;
    sector, b, n := d.WtSeq1(h, 1, rec);
    written := sector >= 0;
    if written {
      ghost var g := d.AfterWrite(old(d.fcbs[h]), b);
      assert d.fcbs[h].(cr := RecordOf(f.r0)) == g;
      closed, sector := CloseAndRead(d, h, k, f, sector);
    }
  }

  // --- a whole file

  // Nothing more can be written: the last extent is closed, and there is no next one.
  ghost predicate Stopped(d: Drive, h: int, id: Name, pos: seq<int>, tabs: seq<seq<word>>, w: int)
    requires d.dpb.exm >= 0 && h in d.fcbs
    reads d
  {
    && FileAt(d.dpb, d.dir, id, pos, tabs, w) && d.fcbs[h].cr == 128 && d.fcbs[h].x.s2 >= 128
    && (Drive.Full(d.dir) || w == 0x10000)
  }

  // The control block h has written these records. Sealed, so that the loop passes it on unopened.
  ghost predicate Going(d: Drive, h: int, id: Name, pos: seq<int>, tabs: seq<seq<word>>, recs: seq<seq<byte>>)
    reads d
  {
    forall x {:trigger Unfold(x)} :: Unfold(x) ==> DpbOk(d.dpb) && IsGoing(d, h, id, pos, tabs, recs)
  }

  // No more can be written: the disk or the directory is full, or the file.
  ghost predicate Stops(d: Drive, w: int)
    reads d, d.alv
  {
    NoSpace(d.dpb, d.alv[..]) || Drive.Full(d.dir) || w == 0x10000
  }

  ghost predicate IsGoing(d: Drive, h: int, id: Name, pos: seq<int>, tabs: seq<seq<word>>, recs: seq<seq<byte>>)
    requires DpbOk(d.dpb)
    reads d
  {
    && h in d.fcbs && Contents(d.dpb, tabs, d.disk, recs)
    && (Underway(d.dpb, d.dir, d.fcbs[h], id, pos, tabs, |recs|) || Stopped(d, h, id, pos, tabs, |recs|))
  }

  // The block that a record went to: the one of its place, or one that nobody owned.
  lemma BlockIs(d: Drive, f: Fcb, b: word, sector: int, owner: map<int, Name>)
    requires DpbOk(d.dpb) && 0 <= d.PlaceOf(f) < |f.x.ptrs| && d.WrittenAt(f, sector, owner)
    requires d.Stored(d.AfterWrite(f, b), sector)
    ensures b != 0 && sector == b * Pow2(d.dpb.bsh) + f.cr % Pow2(d.dpb.bsh)
    ensures f.x.ptrs[d.PlaceOf(f)] != 0 ==> b == f.x.ptrs[d.PlaceOf(f)]
    ensures f.x.ptrs[d.PlaceOf(f)] == 0 ==> b !in owner
  {
    var s, c := Pow2(d.dpb.bsh), f.cr % Pow2(d.dpb.bsh);
    var i := d.PlaceOf(f);
    assert d.PlaceOf(d.AfterWrite(f, b)) == i;
    if f.x.ptrs[i] != 0 {
      DivisionUnique(s, b, c, f.x.ptrs[i], c);
    } else {
      var k :| sector == k * s + c && 1 <= k <= d.dpb.dsm && k !in owner;
      DivisionUnique(s, b, c, k, c);
    }
  }

  // What a write that went through makes of the tables and the disk.
  lemma Written(d: Drive, dir: seq<Entry>, f: Fcb, id: Name, pos: seq<int>, tabs: seq<seq<word>>,
                disk: map<int, seq<byte>>, recs: seq<seq<byte>>, owner: map<int, Name>, b: word, sector: int,
                rec: seq<byte>)
      returns (tabs': seq<seq<word>>)
    requires DpbOk(d.dpb) && Underway(d.dpb, dir, f, id, pos, tabs, |recs|) && Contents(d.dpb, tabs, disk, recs)
    requires EntriesHold(d.dpb, owner, dir) && Holds(d.dpb, owner, f.x)
    requires 0 <= d.PlaceOf(f) < |f.x.ptrs| && d.WrittenAt(f, sector, owner) && d.Stored(d.AfterWrite(f, b), sector)
    ensures Pending(d.dpb, dir, d.AfterWrite(f, b).x, id, pos, tabs', |recs| + 1)
    ensures d.AfterWrite(f, b).x.s2 < 128 && d.AfterWrite(f, b).x.rc == f.cr + 1
    ensures Contents(d.dpb, tabs', disk[sector := rec], recs + [rec])
  {
    var w, g, j := |recs|, |pos| - 1, d.PlaceOf(f);
    BlockIs(d, f, b, sector, owner);
    WhereNext(d, f, w);
    if f.x.ptrs[j] == 0 {
      FreshBlock(d.dpb, dir, f, id, pos, tabs, w, owner, b);
    }
    WriteStep(d, dir, f, id, pos, tabs, w, b);
    WriteContents(d.dpb, tabs, disk, recs, g, j, b, sector, rec);
    tabs' := Filled(tabs, g, j, b);
  }

  // After the last record of an extent.
  lemma AfterFull(d: Drive, dir: seq<Entry>, x: Entry, id: Name, pos: seq<int>, tabs: seq<seq<word>>, w: int, g: Fcb,
                  n: int)
      returns (pos': seq<int>, tabs': seq<seq<word>>)
    requires DpbOk(d.dpb) && Pending(d.dpb, dir, x, id, pos, tabs, w) && x.s2 < 128 && x.rc == 128
    requires d.MovedOn(x, g, dir, n) && d.Advanced(x, g, dir, n)
    ensures g.cr == 0 ==> Underway(d.dpb, d.dir, g, id, pos', tabs', w)
    ensures g.cr != 0 ==>
      && FileAt(d.dpb, d.dir, id, pos', tabs', w) && g.cr == 128 && g.x.s2 >= 128
      && (Drive.Full(d.dir) || w == 0x10000)
    ensures tabs' == tabs || (g.cr == 0 && tabs' == tabs + [g.x.ptrs] && |g.x.ptrs| == Nptr(d.dpb)
                              && forall j :: 0 <= j < |g.x.ptrs| ==> g.x.ptrs[j] == 0)
  {
    CloseWorks(d, dir, x, id, pos, tabs, w);
    assert Unfold(0);
    if g.cr == 0 {
      pos', tabs' := NextStep(d, dir, x, id, pos, tabs, w, g.x, d.dir, n, d.filepos);
    } else {
      pos', tabs' := pos, tabs;
      CloseStep(d, dir, x, id, pos, tabs, w, n, d.dir);
      LastIs(x, w);
    }
  }

  lemma LastIs(x: Entry, w: int)
    requires x.ext < 32 && x.s2 < 16 && x.rc == 128 && w == EndOf(x)
    ensures Drive.LastExtent(x) ==> w == 0x10000
  {
  }

  // What is known after a write that went through.
  lemma AfterWriting(d: Drive, h: int, dir: seq<Entry>, f: Fcb, id: Name, pos: seq<int>, tabs: seq<seq<word>>,
                     recs: seq<seq<byte>>, b: word, n: int)
      returns (pos': seq<int>, tabs': seq<seq<word>>)
    requires DpbOk(d.dpb) && h in d.fcbs && f.cr < 128 && 0 <= d.PlaceOf(f) < |f.x.ptrs|
    requires Pending(d.dpb, dir, d.AfterWrite(f, b).x, id, pos, tabs, |recs|) && Contents(d.dpb, tabs, d.disk, recs)
    requires d.AfterWrite(f, b).x.s2 < 128 && d.AfterWrite(f, b).x.rc == f.cr + 1
    requires f.cr != 127 ==>
      d.dir == dir && d.fcbs[h].(cr := f.cr) == d.AfterWrite(f, b) && d.fcbs[h].cr == f.cr + 1
    requires f.cr == 127 ==>
      d.MovedOn(d.AfterWrite(f, b).x, d.fcbs[h], dir, n) && d.Advanced(d.AfterWrite(f, b).x, d.fcbs[h], dir, n)
    ensures Going(d, h, id, pos', tabs', recs)
  {
    pos', tabs' := pos, tabs;
    if f.cr == 127 {
      pos', tabs' := AfterFull(d, dir, d.AfterWrite(f, b).x, id, pos, tabs, |recs|, d.fcbs[h], n);
      if tabs' != tabs {
        GrowContents(d.dpb, tabs, d.disk, recs, d.fcbs[h].x.ptrs);
      }
    }
  }

  // One more record.
  method WriteNext(d: Drive, h: int, rec: seq<byte>, ghost id: Name, ghost pos: seq<int>, ghost tabs: seq<seq<word>>,
                   ghost recs: seq<seq<byte>>)
      returns (ok: bool, ghost pos': seq<int>, ghost tabs': seq<seq<word>>)
    requires d.Valid() && Going(d, h, id, pos, tabs, recs)
    modifies d, d.alv
    ensures d.Valid() && (ok ==> Going(d, h, id, pos', tabs', recs + [rec]))
    ensures !ok ==> Going(d, h, id, pos', tabs', recs)
    ensures !ok ==> Stops(d, |recs|)
  {
    GoingMeans(d, h, id, pos, tabs, recs);
    ghost var f, dir0, owner0, disk0 := d.fcbs[h], d.dir, d.owner, d.disk;
    assert Holds(d.dpb, owner0, f.x);
    d.status := 0;
    ghost var b, n;
    var sector;
    sector, b, n := d.WtSeq1(h, 1, rec);
    ok := sector >= 0;
    pos', tabs' := pos, tabs;
    if ok {
      ghost var t := Written(d, dir0, f, id, pos, tabs, disk0, recs, owner0, b, sector, rec);
      pos', tabs' := AfterWriting(d, h, dir0, f, id, pos, t, recs + [rec], b, n);
    }
  }

  lemma GoingMeans(d: Drive, h: int, id: Name, pos: seq<int>, tabs: seq<seq<word>>, recs: seq<seq<byte>>)
    requires DpbOk(d.dpb)
    ensures Going(d, h, id, pos, tabs, recs) <==> IsGoing(d, h, id, pos, tabs, recs)
  {
    assert Unfold(0);
  }

  // The directory and the disk have the file with these records.
  ghost predicate FileIs(d: Drive, id: Name, pos: seq<int>, tabs: seq<seq<word>>, recs: seq<seq<byte>>)
    requires DpbOk(d.dpb)
    reads d
  {
    FileAt(d.dpb, d.dir, id, pos, tabs, |recs|) && Contents(d.dpb, tabs, d.disk, recs)
  }

  // No entry is of the file.
  ghost predicate Absent(dir: seq<Entry>, id: Name) {
    forall i :: 0 <= i < |dir| && Live(dir[i]) ==> FileId(dir[i].name) != id
  }

  // A new file, opened for writing at its first record.
  method Create(d: Drive, h: int, f: Fcb) returns (ok: bool, ghost pos: seq<int>, ghost tabs: seq<seq<word>>)
    requires d.Valid() && NameOk(f.x.name) && f.x.ext == 0 && f.cr == 0 && Absent(d.dir, FileId(f.x.name))
    modifies d
    ensures d.Valid()
    ensures if ok then Going(d, h, FileId(f.x.name), pos, tabs, []) else Drive.Full(d.dir)
  {
    pos, tabs := [], [];
    d.Make(h, f);
    ok := d.filepos != NOWHERE;
    if ok {
      ghost var g := d.fcbs[h];
      pos, tabs := [d.filepos], [g.x.ptrs];
      NewFile(d.dpb, old(d.dir), d.dir, g, FileId(f.x.name), d.filepos);
    }
  }

  // The records one after the other, as far as they go.
  method WriteAll(d: Drive, h: int, recs: seq<seq<byte>>, ghost id: Name, ghost pos: seq<int>,
                  ghost tabs: seq<seq<word>>)
      returns (n: int, ghost pos': seq<int>, ghost tabs': seq<seq<word>>)
    requires d.Valid() && Going(d, h, id, pos, tabs, [])
    modifies d, d.alv
    ensures d.Valid() && 0 <= n <= |recs| && Going(d, h, id, pos', tabs', recs[..n])
    ensures n < |recs| ==> Stops(d, n)
  {
    n, pos', tabs' := 0, pos, tabs;
    assert recs[..0] == [];
    while n < |recs|
      invariant d.Valid() && 0 <= n <= |recs| && Going(d, h, id, pos', tabs', recs[..n])
    {
      var ok;
      ok, pos', tabs' := WriteNext(d, h, recs[n], id, pos', tabs', recs[..n]);
      if !ok {
        return;
      }
      NextPrefix(recs, n);
      n := n + 1;
    }
  }

  lemma NextPrefix(recs: seq<seq<byte>>, n: nat)
    requires n < |recs|
    ensures recs[..n + 1] == recs[..n] + [recs[n]]
  {
  }

  // The close at the end.
  method Finish(d: Drive, h: int, ghost id: Name, ghost pos: seq<int>, ghost tabs: seq<seq<word>>,
                ghost recs: seq<seq<byte>>)
    requires d.Valid() && Going(d, h, id, pos, tabs, recs)
    modifies d
    ensures d.Valid() && FileIs(d, id, pos, tabs, recs)
    ensures Drive.Full(old(d.dir)) ==> Drive.Full(d.dir)
  {
    GoingMeans(d, h, id, pos, tabs, recs);
    if d.fcbs[h].x.s2 < 128 {
      ghost var x, dir0 := d.fcbs[h].x, d.dir;
      CloseWorks(d, dir0, x, id, pos, tabs, |recs|);
      OneListed(d, x, dir0, pos[|pos| - 1]);
      var closed := Close(d, h);
      CloseStep(d, dir0, x, id, pos, tabs, |recs|, d.filepos, d.dir);
    } else {
      if Underway(d.dpb, d.dir, d.fcbs[h], id, pos, tabs, |recs|) {
        NothingToClose(d.dpb, d.dir, d.fcbs[h].x, id, pos, tabs, |recs|);
      }
      d.CloseIt(h);
    }
  }

  // Make a file, write to it in sequence, and close it.
  method StoreFile(d: Drive, h: int, f: Fcb, recs: seq<seq<byte>>)
      returns (n: int, ghost pos: seq<int>, ghost tabs: seq<seq<word>>)
    requires d.Valid() && NameOk(f.x.name) && f.x.ext == 0 && f.cr == 0 && Absent(d.dir, FileId(f.x.name))
    modifies d, d.alv
    ensures d.Valid() && n <= |recs| && (n < 0 ==> Drive.Full(d.dir))
    ensures n >= 0 ==> FileIs(d, FileId(f.x.name), pos, tabs, recs[..n])
    ensures 0 <= n < |recs| ==> NoSpace(d.dpb, d.alv[..]) || Drive.Full(d.dir) || n == 0x10000
  {
    var ok;
    ok, pos, tabs := Create(d, h, f);
    if !ok {
      return -1, pos, tabs;
    }
    n, pos, tabs := WriteAll(d, h, recs, FileId(f.x.name), pos, tabs);
    Finish(d, h, FileId(f.x.name), pos, tabs, recs[..n]);
  }

  // Its size is the number of its records.
  method SizeOfFile(d: Drive, f: Entry, ghost pos: seq<int>, ghost tabs: seq<seq<word>>, ghost recs: seq<seq<byte>>)
      returns (size: int)
    requires d.Valid() && NameOk(f.name) && FileIs(d, FileId(f.name), pos, tabs, recs)
    modifies d`filepos, d`status, d`savefcb, d`counter
    ensures d.Valid() && FileIs(d, FileId(f.name), pos, tabs, recs) && size == |recs|
  {
    var r0, r1, r2 := d.RanSize(f);
    size := Number(r0, r1, r2);
    SizeIs(d.dpb, d.dir, FileId(f.name), pos, tabs, |recs|, f, size);
  }

  // The control block that asks for record r.
  function AskFor(name: Name, r: int): (f: Fcb)
    requires 0 <= r < 0x10000
  {
    Fcb(Entry(name, 0, 0, 0, 0, []), 0, r % 0x100, r / 0x100, 0)
  }

  lemma AskedIs(name: Name, r: int)
    requires 0 <= r < 0x10000 && NameOk(name)
    ensures var f := AskFor(name, r);
      && RecordOf(f.r0) == r % 128 && ExtentOf(f.r0, f.r1) == r / 128 % 32
      && AsksOf(Drive.Asked(f), FileId(name)) && ExtentNumber(Drive.Asked(f)) == r / 128
      && AsksOf(f.x, FileId(name)) && ExtentNumber(f.x) == 0 && f.x.(s2 := 0) == f.x
  {
    var r0, r1 := r % 0x100, r / 0x100;
    AskParts(r, r0, r1, r0 / 128);
  }

  lemma AskParts(r: int, r0: byte, r1: byte, top: int)
    requires r == 0x100 * r1 + r0 && top == r0 / 128
    ensures r % 128 == r0 % 128 && r / 128 == 2 * r1 + top && r / 128 / 32 == r1 / 16
    ensures r1 / 16 < 16 && r1 / 16 % 128 == r1 / 16
  {
    QuotientIs(r, 128, 2 * r1 + top, r0 % 128);
    assert 2 * r1 + top == 32 * (r1 / 16) + (2 * (r1 % 16) + top);
    QuotientIs(2 * r1 + top, 32, r1 / 16, 2 * (r1 % 16) + top);
  }

  // Record r of the file, opened anew: as it was written, or refused if the file has no such record.
  method ReadOne(d: Drive, k: int, name: Name, r: int, ghost pos: seq<int>, ghost tabs: seq<seq<word>>,
                 ghost recs: seq<seq<byte>>)
      returns (sector: int)
    requires d.Valid() && NameOk(name) && FileIs(d, FileId(name), pos, tabs, recs) && 0 <= r < 0x10000
    modifies d
    ensures d.Valid() && d.disk == old(d.disk) && d.dir == old(d.dir) && FileIs(d, FileId(name), pos, tabs, recs)
    ensures if r < |recs| then d.status == 0 && sector in d.disk && d.disk[sector] == recs[r]
            else (d.status == 1 || d.status == 4) && sector < 0
  {
    var f := AskFor(name, r);
    AskedIs(name, r);
    ListedAt(d, d.dir, FileId(name), pos, f.x);
    ListedAt(d, d.dir, FileId(name), pos, Drive.Asked(f));
    FirstGroup(d.dpb);
    GroupNatural(d.dpb, r / 128);
    assert r < |recs| ==> Has(d.dpb, tabs, d.disk, r, recs[r]);
    ghost var n;
    sector, n := d.OpenAndRead(k, f);
    if d.status <= 1 {
      ReadStep(d.dpb, d.dir, FileId(name), pos, tabs, d.disk, recs, r, n, sector);
    }
  }

  lemma FirstGroup(p: Dpb)
    requires DpbOk(p)
    ensures GroupOf(p, 0) == 0
  {
    QuotientIs(0, p.exm + 1, 0, 0);
  }

  lemma GroupNatural(p: Dpb, e: int)
    requires DpbOk(p) && 0 <= e
    ensures 0 <= GroupOf(p, e)
  {
  }

  // Make a file, write it, close it, ask for its size, and read it back: every record that was written, over any number
  // of extents, and none after the last.
  method WriteAndRead(d: Drive, h: int, f: Fcb, recs: seq<seq<byte>>, k: int)
      returns (n: int, size: int, data: seq<seq<byte>>, beyond: bool)
    requires d.Valid() && NameOk(f.x.name) && f.x.ext == 0 && f.cr == 0 && Absent(d.dir, FileId(f.x.name))
    modifies d, d.alv
    ensures d.Valid() && n <= |recs| && (n < 0 ==> Drive.Full(d.dir))
    ensures n >= 0 ==> size == n && data == recs[..n] && !beyond
    ensures 0 <= n < |recs| ==> NoSpace(d.dpb, d.alv[..]) || Drive.Full(d.dir) || n == 0x10000
  {
    ghost var pos, tabs;
    size, data, beyond := 0, [], false;
    n, pos, tabs := StoreFile(d, h, f, recs);
    if n < 0 {
      return;
    }
    size := SizeOfFile(d, f.x, pos, tabs, recs[..n]);
    data := ReadAll(d, k, f.x.name, n, pos, tabs, recs[..n]);
    if n < 0x10000 {
      var sector := ReadOne(d, k, f.x.name, n, pos, tabs, recs[..n]);
      beyond := d.status == 0;
    }
  }

  method ReadAll(d: Drive, k: int, name: Name, n: int, ghost pos: seq<int>, ghost tabs: seq<seq<word>>,
                 ghost recs: seq<seq<byte>>)
      returns (data: seq<seq<byte>>)
    requires d.Valid() && NameOk(name) && FileIs(d, FileId(name), pos, tabs, recs) && 0 <= n == |recs|
    modifies d
    ensures d.Valid() && d.disk == old(d.disk) && FileIs(d, FileId(name), pos, tabs, recs) && data == recs
    ensures d.dir == old(d.dir)
  {
    data := [];
    for r := 0 to n
      invariant d.Valid() && d.disk == old(d.disk) && FileIs(d, FileId(name), pos, tabs, recs) && data == recs[..r]
      invariant d.dir == old(d.dir)
    {
      RecordsFit(d.dpb, d.dir, FileId(name), pos, tabs, |recs|);
      var sector := ReadOne(d, k, name, r, pos, tabs, recs);
      data := data + [d.disk[sector]];
    }
  }

  // A file has at most 65536 records.
  lemma RecordsFit(p: Dpb, dir: seq<Entry>, id: Name, pos: seq<int>, tabs: seq<seq<word>>, w: int)
    requires p.exm >= 0 && FileAt(p, dir, id, pos, tabs, w)
    ensures 0 <= w <= 0x10000
  {
  }
}
