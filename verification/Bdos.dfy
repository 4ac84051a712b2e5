/**
  The file system of the CP/M 2.2 BDOS (cpm22/bdos.asm): directory search, block allocation, and the
  sequential and random writes that extend a file. One method for each labelled routine.
 */
module Bdos {
  import opened Arithmetic
  import opened BdosDirectory
  import opened BdosBitmap
  import opened BdosOwnership
  import opened BdosRandom

  const NOWHERE: word := 0xFFFF
  const EMPTYFCB := Entry([EMPTY, 0, 0, 0, 0, 0, 0, 0, 0, 0, 0, 0], 0, 0, 0, 0, [])

  // v is the largest record number among the entries at the given places, or 0 when there is none.
  ghost predicate IsLargest(dir: seq<Entry>, places: seq<int>, v: int) {
    && v >= 0
    && (forall k :: 0 <= k < |places| && 0 <= places[k] < |dir| ==> Size(dir[places[k]]) <= v)
    && (v == 0 || exists k :: 0 <= k < |places| && 0 <= places[k] < |dir| && Size(dir[places[k]]) == v)
  }

  // The record number that an entry reaches, as COMPRAND computes it.
  ghost function Size(e: Entry): int { Combined(e.rc, e.ext, e.s2) }

  lemma LargestStep(dir: seq<Entry>, places: seq<int>, at: int, v: int)
    requires 0 <= at < |dir| && IsLargest(dir, places, v)
    ensures IsLargest(dir, places + [at], if Size(dir[at]) > v then Size(dir[at]) else v)
  {
    var more := places + [at];
    assert more[|places|] == at;
    if v > 0 {
      var k :| 0 <= k < |places| && 0 <= places[k] < |dir| && Size(dir[places[k]]) == v;
      assert more[k] == places[k];
    }
  }

  // Calls that a program makes.
  datatype Action =
    | MakeFile(h: int, f: Fcb)
    | OpenFile(h: int, f: Fcb)
    | WriteNext(h: int, rec: seq<byte>)
    | WriteAt(h: int, rec: seq<byte>)
    | ReadNext(h: int)
    | ReadAt(h: int)
    | CloseFile(h: int)
    | SetBytes(h: int, cr: byte, r0: byte, r1: byte, r2: byte)
    | GiveUp(h: int)
    | EraseFiles(pattern: Entry)
    | Reset

  /** The active drive with the BDOS's own cells. */
  class Drive {
    const dpb: Dpb
    const alv: array<Octet>
    var dir: seq<Entry>
    var mark: int               // the word at SCRATCH1
    var disk: map<int, seq<byte>>
    var fcbs: map<int, Fcb>     // control blocks that a program has open, by address
    ghost var owner: map<int, Name>

    var filepos: word
    var status: byte
    var savefcb: Entry
    var counter: int
    var savnrec: byte
    var savnxt: byte
    var savext: byte
    var closeflg: bool

    ghost predicate Valid()
      reads this, alv
    {
      Sound(dpb, dir, mark, fcbs, alv[..], owner)
    }

    // What a search relies on: every live entry lies below the mark.
    ghost predicate Searchable()
      reads this
    {
      dpb.exm >= 0 && mark >= 0 && |dir| == dpb.drm + 1 && 0 <= dpb.drm < 0xFFFF && BelowMark(dir, mark)
    }

    // --- search

    // FNDNXT2: compare counter bytes of the control block with the entry.
    method Compare(e: Entry) returns (same: bool)
      requires 0 <= counter <= 15 && dpb.exm >= 0
      ensures same == Matches(savefcb, e, counter, dpb.exm)
    {
      var c, b := counter, 0;
      while c != 0
        invariant 0 <= b <= counter && c == counter - b
        invariant forall i :: 0 <= i < b ==> Agrees(savefcb, e, i, dpb.exm)
        decreases c
      {
        var d := ByteAt(savefcb, b);
        if d != WILD && b != 13 {
          if b == 12 {
            if !SameExt(d, e.ext, dpb.exm) {
              assert !Agrees(savefcb, e, b, dpb.exm);
              return false;
            }
          } else if (d - ByteAt(e, b)) % 128 != 0 {
            assert !Agrees(savefcb, e, b, dpb.exm);
            return false;
          }
        }
        b := b + 1;
        c := c - 1;
      }
      return true;
    }

    // FINDNXT: on from the current place to the next match below the limit.
    method FindNxt()
      requires 0 <= counter <= 15 && dpb.exm >= 0 && mark >= 0 && |dir| == dpb.drm + 1 && 0 <= dpb.drm < 0xFFFF
      modifies `filepos, `status
      ensures var limit := Limit(dir, mark, savefcb);
        var from := (old(filepos) + 1) % 0x10000;
        var n := if from <= limit then NextMatch(dir, savefcb, counter, dpb.exm, from, limit) else limit;
        filepos == (if n < limit then n else NOWHERE) && status == (if n < limit then n % 4 else 0xFF)
    {
      ghost var limit := Limit(dir, mark, savefcb);
      ghost var from := (filepos + 1) % 0x10000;
      while true
        invariant var next := (filepos + 1) % 0x10000;
          && from <= next
          && forall i :: from <= i < next && i < |dir| ==> i < limit && !Matches(savefcb, dir[i], counter, dpb.exm)
        decreases 0x10000 - (filepos + 1) % 0x10000
      {
        filepos := (filepos + 1) % 0x10000;
        if filepos > dpb.drm {
          filepos, status := NOWHERE, 0xFF;
          return;
        }
        if savefcb.name[0] != EMPTY && filepos >= mark {
          filepos, status := NOWHERE, 0xFF;
          return;
        }
        var same := Compare(dir[filepos]);
        if same {
          status := filepos % 4;
          return;
        }
      }
    }

    // FINDFST: the first match below the limit, for every length of match.
    method FindFst(f: Entry, count: int)
      requires 0 <= count <= 15 && dpb.exm >= 0 && mark >= 0 && |dir| == dpb.drm + 1 && 0 <= dpb.drm < 0xFFFF
      modifies `filepos, `status, `savefcb, `counter
      ensures savefcb == f && counter == count
      ensures var limit := Limit(dir, mark, f);
        var n := NextMatch(dir, f, count, dpb.exm, 0, limit);
        filepos == (if n < limit then n else NOWHERE) && status == (if n < limit then n % 4 else 0xFF)
    {
      counter, savefcb, filepos := count, f, NOWHERE;
      FindNxt();
    }

    // With the mark in order that is the first match of the whole directory.
    method FindWhole(f: Entry, count: int)
      requires Searchable() && 1 <= count <= 15 && Discerning(f.name[0])
      modifies `filepos, `status, `savefcb, `counter
      ensures savefcb == f && counter == count
      ensures FoundFrom(f, count, 0)
    {
      FindFst(f, count);
      MarkLosesNothing(dir, mark, f, count, dpb.exm);
    }

    // The search stands at the first match from `from` on of the whole directory, or has found none.
    ghost predicate FoundFrom(f: Entry, count: int, from: int)
      requires 1 <= count <= 15 && dpb.exm >= 0 && from >= 0
      reads this
    {
      if filepos == NOWHERE then
        status == 0xFF && forall i :: from <= i < |dir| ==> !Matches(f, dir[i], count, dpb.exm)
      else
        && from <= filepos < |dir| && status == filepos % 4 && Matches(f, dir[filepos], count, dpb.exm)
        && forall i :: from <= i < filepos ==> !Matches(f, dir[i], count, dpb.exm)
    }

    // FINDNXT after a match, with the mark in order.
    method FindOn(f: Entry, count: int)
      requires Searchable() && 1 <= count <= 15 && Discerning(f.name[0])
      requires savefcb == f && counter == count && filepos < |dir|
      modifies `filepos, `status
      ensures FoundFrom(f, count, old(filepos) + 1)
    {
      FindNxt();
      MarkLosesNothing(dir, mark, f, count, dpb.exm);
    }

    // The places found so far are those of the full scan up to where the search stands.
    ghost predicate Scanning(f: Entry, count: int, found: seq<int>)
      requires 1 <= count <= 15 && dpb.exm >= 0
      reads this
    {
      && savefcb == f && counter == count
      && if filepos == NOWHERE then found == AllMatches(dir, f, count, dpb.exm)
         else filepos < |dir| && Matches(f, dir[filepos], count, dpb.exm)
              && found == MatchesBefore(dir, f, count, dpb.exm, filepos)
    }

    method ScanFirst(f: Entry, count: int)
      requires Searchable() && 1 <= count <= 15 && Discerning(f.name[0])
      modifies `filepos, `status, `savefcb, `counter
      ensures Scanning(f, count, [])
    {
      FindWhole(f, count);
      SkipToNext(dir, f, count, dpb.exm, 0, if filepos == NOWHERE then |dir| else filepos);
    }

    method ScanNext(f: Entry, count: int, ghost found: seq<int>)
      requires Searchable() && 1 <= count <= 15 && Discerning(f.name[0])
      requires filepos != NOWHERE && Scanning(f, count, found)
      modifies `filepos, `status
      ensures Scanning(f, count, found + [old(filepos)]) && filepos > old(filepos)
    {
      ghost var at := filepos;
      FindOn(f, count);
      SkipToNext(dir, f, count, dpb.exm, at + 1, if filepos == NOWHERE then |dir| else filepos);
    }

    // Search first, then search next until there is no more: the full scan, although every search stops
    // at the mark.
    method Enumerate(f: Entry, count: int) returns (found: seq<int>)
      requires Searchable() && 1 <= count <= 15 && Discerning(f.name[0])
      modifies `filepos, `status, `savefcb, `counter
      ensures found == AllMatches(dir, f, count, dpb.exm)
    {
      found := [];
      ScanFirst(f, count);
      while filepos != NOWHERE
        invariant Scanning(f, count, found)
        decreases NOWHERE - filepos
      {
        ghost var before := found;
        found := found + [filepos];
        ScanNext(f, count, before);
      }
    }

    // RANSIZE: the size of a file in records, over all its entries.
    method RanSize(f: Entry) returns (r0: byte, r1: byte, r2: byte)
      requires Searchable() && Discerning(f.name[0])
      modifies `filepos, `status, `savefcb, `counter
      ensures IsLargest(dir, AllMatches(dir, f, 12, dpb.exm), Number(r0, r1, r2))
    {
      ScanFirst(f, 12);
      r0, r1, r2 := 0, 0, 0;
      ghost var found: seq<int> := [];
      while filepos != NOWHERE
        invariant Scanning(f, 12, found)
        invariant IsLargest(dir, found, Number(r0, r1, r2))
        decreases NOWHERE - filepos
      {
        ghost var at := filepos;
        LargestStep(dir, found, at, Number(r0, r1, r2));
        r0, r1, r2 := Larger(r0, r1, r2, dir[filepos]);
        ScanNext(f, 12, found);
        found := found + [at];
      }
    }

    // RANSIZ1: the three bytes replaced unless those of the entry are smaller.
    method Larger(r0: byte, r1: byte, r2: byte, e: Entry) returns (s0: byte, s1: byte, s2: byte)
      ensures Number(s0, s1, s2) == if Size(e) > Number(r0, r1, r2) then Size(e) else Number(r0, r1, r2)
    {
      var c, b, a := Comprand(e.rc, e.ext, e.s2);
      if Less(c, b, a, r0, r1, r2) {
        return r0, r1, r2;
      }
      return c, b, a;
    }

    // The borrow of SUB and two SBC over three bytes.
    static predicate Less(c: byte, b: byte, a: byte, r0: byte, r1: byte, r2: byte)
      ensures Less(c, b, a, r0, r1, r2) <==> Number(c, b, a) < Number(r0, r1, r2)
    {
      var borrow0 := if c < r0 then 1 else 0;
      var borrow1 := if b - r1 - borrow0 < 0 then 1 else 0;
      a - r2 - borrow1 < 0
    }

    // SETRAN: the record a control block stands at.
    method SetRan(f: Fcb) returns (g: Fcb)
      ensures g == f.(r0 := g.r0, r1 := g.r1, r2 := g.r2)
      ensures Number(g.r0, g.r1, g.r2) == Combined(f.cr, f.x.ext, f.x.s2)
    {
      var c, b, a := Comprand(f.cr, f.x.ext, f.x.s2);
      g := f.(r0 := c, r1 := b, r2 := a);
    }

    // --- addresses

    // STRDATA: take record, record count and extent from the control block.
    method StrData(h: int)
      requires h in fcbs && dpb.exm >= 0
      modifies `savnrec, `savnxt, `savext
      ensures savnrec == fcbs[h].cr && savnxt == fcbs[h].x.rc && savext == fcbs[h].x.ext % (dpb.exm + 1)
    {
      savnrec, savnxt := fcbs[h].cr, fcbs[h].x.rc;
      savext := fcbs[h].x.ext % (dpb.exm + 1);
    }

    // GETBLK1: halve the record number BLKSHFT times.
    method GetBlk1() returns (a: int)
      requires DpbOk(dpb)
      ensures a == savnrec / Pow2(dpb.bsh)
    {
      a := savnrec;
      var c := dpb.bsh;
      while c != 0
        invariant 0 <= c <= dpb.bsh && a == savnrec / Pow2(dpb.bsh - c)
        decreases c
      {
        HalveAgain(savnrec, dpb.bsh - c);
        a := a / 2;
        c := c - 1;
      }
    }

    // GETBLK2: double the extent 7 - BLKSHFT times; the byte never overflows.
    method GetBlk2() returns (a: int)
      requires DpbOk(dpb) && savext <= dpb.exm
      ensures a == savext * Pow2(7 - dpb.bsh) && 0 <= a < 0x100
    {
      a := savext;
      var c := 8 - dpb.bsh - 1;
      while c != 0
        invariant 0 <= c <= 7 - dpb.bsh && a == savext * Pow2(7 - dpb.bsh - c) && 0 <= a < 0x100
        decreases c
      {
        DoublingFits(dpb, savext, 7 - dpb.bsh - c);
        a := a * 2 % 0x100;
        c := c - 1;
      }
    }

    // GETBLOCK: the place of the current record's block in the table.
    method GetBlock() returns (idx: int)
      requires DpbOk(dpb) && savext <= dpb.exm && savnrec + 128 * savext < 128 * (dpb.exm + 1)
      ensures idx == savnrec / Pow2(dpb.bsh) + savext * Pow2(7 - dpb.bsh) && 0 <= idx < Nptr(dpb)
    {
      var b := GetBlk1();
      var a := GetBlk2();
      BlockIndexFits(dpb, savnrec, savext);
      idx := a + b;
    }

    // LOGICL1: the first sector of block b, by doubling.
    method Logicl1(b: int) returns (hl: int)
      requires DpbOk(dpb) && 0 <= b <= dpb.dsm
      ensures hl == b * Pow2(dpb.bsh)
    {
      hl := b;
      var a := dpb.bsh;
      while a != 0
        invariant 0 <= a <= dpb.bsh && hl == b * Pow2(dpb.bsh - a)
        decreases a
      {
        SectorDoubles(dpb, b, dpb.bsh - a);
        hl := hl * 2 % 0x10000;
        a := a - 1;
      }
    }

    // LOGICAL: the sector of the current record in block b. The low bits of HL are zero, so the OR adds.
    method Logical(b: int) returns (hl: int)
      requires DpbOk(dpb) && 0 <= b <= dpb.dsm
      ensures hl == b * Pow2(dpb.bsh) + savnrec % Pow2(dpb.bsh) && 0 <= hl < 0x10000
      ensures hl / Pow2(dpb.bsh) == b
    {
      hl := Logicl1(b);
      SectorFits(dpb, b, dpb.bsh);
      hl := hl + savnrec % Pow2(dpb.bsh);
      QuotientIs(hl, Pow2(dpb.bsh), b, savnrec % Pow2(dpb.bsh));
    }

    // --- allocation

    // WTSEQ2: the free block nearest to the block before it in the table goes to the empty place idx.
    method Allocate(h: int, idx: int) returns (ok: bool)
      requires Valid() && h in fcbs && 0 <= idx < Nptr(dpb) == |fcbs[h].x.ptrs|
      modifies `fcbs, `owner, `status, alv
      ensures Valid()
      ensures ok <==> !NoSpace(dpb, old(alv[..]))
      ensures !ok ==> status == 2 && fcbs == old(fcbs) && owner == old(owner)
      ensures ok ==> h in fcbs && |fcbs[h].x.ptrs| == Nptr(dpb) && status == old(status)
      ensures ok ==> var b := fcbs[h].x.ptrs[idx];
        && fcbs == old(fcbs)[h := WithBlock(old(fcbs[h]), idx, b)]
        && b !in old(owner) && owner == old(owner)[b as int := FileId(fcbs[h].x.name)]
        && Nearest(old(alv[..]), dpb.dsm, if idx == 0 then 0 else old(fcbs[h].x.ptrs[idx - 1]), b)
    {
      var f := fcbs[h];
      assert Holds(dpb, owner, f.x);
      var target := if idx == 0 then 0 else f.x.ptrs[idx - 1];
      assert target != 0 ==> Owned(owner, target, FileId(f.x.name));
      assert Reserved(dpb, 0);
      var hl := FndSpace(alv, dpb.dsm, target);
      if hl == 0 {
        TargetInUse(dpb, alv[..], owner, target);
        status := 2;
        return false;
      }
      OneBitChanges(old(alv[..]), dpb.dsm, target, hl);
      GrantKeepsSound(dpb, dir, mark, fcbs, old(alv[..]), owner, h, idx, hl);
      owner := owner[hl := FileId(f.x.name)];
      fcbs := fcbs[h := WithBlock(f, idx, hl)];
      return true;
    }

    // --- closing an extent

    // CLOSEIT1: complete each table from the other, up to the first place where they differ.
    method MergeTables(p: seq<word>, q: seq<word>) returns (user: seq<word>, entry: seq<word>, clash: bool)
      requires |p| == |q|
      ensures var k := FirstClash(p, q, 0);
        user == FilledUpTo(p, q, k) && entry == FilledUpTo(q, p, k) && clash == (k < |p|)
    {
      user, entry := p, q;
      var i := 0;
      while i < |p|
        invariant 0 <= i <= |p| && FirstClash(p, q, i) == FirstClash(p, q, 0)
        invariant user == FilledUpTo(p, q, i) && entry == FilledUpTo(q, p, i)
      {
        if user[i] == 0 {
          user := user[i := entry[i]];
        }
        if entry[i] == 0 {
          entry := entry[i := user[i]];
        }
        if user[i] != entry[i] {
          return user, entry, true;
        }
        i := i + 1;
      }
      return user, entry, false;
    }

    // The entry as a close without a clash leaves it: the later extent gives the record count.
    static function ClosedEntry(x: Entry, e: Entry, table: seq<word>): Entry {
      if x.ext >= e.ext then e.(ptrs := table, ext := x.ext, rc := x.rc) else e.(ptrs := table)
    }

    // What closing the control block f against the entry e at place n makes of both.
    ghost predicate ClosedAt(f: Fcb, dir0: seq<Entry>, fcbs0: map<int, Fcb>, flag0: bool, h: int, n: int)
      requires 0 <= n < |dir0|
      reads this
    {
      var p, q := f.x.ptrs, dir0[n].ptrs;
      && |p| == |q|
      && var k := FirstClash(p, q, 0);
      && fcbs == fcbs0[h := f.(x := f.x.(ptrs := FilledUpTo(p, q, k)))]
      && if k < |p| then dir == dir0 && closeflg == flag0 && status == (n % 4 + 0xFF) % 0x100
         else closeflg && status == n % 4 && dir == dir0[n := ClosedEntry(f.x, dir0[n], FilledUpTo(q, p, k))]
    }

    // After a clash the entry is as it was, and the caller is told so exactly if the entry comes first in its
    // sector: for the others the status is that of a close that worked.
    lemma ClashReported(f: Fcb, dir0: seq<Entry>, fcbs0: map<int, Fcb>, flag0: bool, h: int, n: int)
      requires 0 <= n < |dir0| && ClosedAt(f, dir0, fcbs0, flag0, h, n) && ClashesWith(f.x, dir0[n])
      ensures dir == dir0 && (status == 0xFF <==> n % 4 == 0) && (n % 4 != 0 ==> status == n % 4 - 1)
    {
    }

    // CLOSEIT1 to CLOSEIT7, the entry found. A clash counts the status down from the entry's place in its
    // sector, so that it is 0FFH only for an entry that comes first in its sector.
    method CloseFound(h: int)
      requires Valid() && h in fcbs && filepos < |dir| && status == filepos % 4
      requires Live(dir[filepos]) && FileId(dir[filepos].name) == FileId(fcbs[h].x.name)
      modifies `status, `fcbs, `dir, `closeflg
      ensures Valid()
      ensures ClosedAt(old(fcbs[h]), old(dir), old(fcbs), old(closeflg), h, filepos)
    {
      var f, e := fcbs[h], dir[filepos];
      assert Holds(dpb, owner, f.x) && Holds(dpb, owner, e);
      var p, q, clash := MergeTables(f.x.ptrs, e.ptrs);
      ghost var k := FirstClash(f.x.ptrs, e.ptrs, 0);
      FilledHolds(dpb, owner, f.x, e, k);
      FilledHolds(dpb, owner, e, f.x, k);
      PutFcb(dpb, dir, mark, fcbs, alv[..], owner, h, f.(x := f.x.(ptrs := p)));
      fcbs := fcbs[h := f.(x := f.x.(ptrs := p))];
      if clash {
        status := (status + 0xFF) % 0x100;
        return;
      }
      var closed := ClosedEntry(f.x, e, q);
      assert Holds(dpb, owner, closed);
      PutEntry(dpb, dir, mark, fcbs, alv[..], owner, filepos, closed, mark);
      dir := dir[filepos := closed];
      closeflg := true;
    }

    // CLOSEIT
    method CloseIt(h: int)
      requires Valid() && h in fcbs
      modifies `status, `filepos, `savefcb, `counter, `fcbs, `dir, `closeflg
      ensures Valid()
      ensures old(fcbs[h].x.s2) >= 128 ==>
        fcbs == old(fcbs) && dir == old(dir) && closeflg == old(closeflg) && status == 0 && filepos == 0
      ensures old(fcbs[h].x.s2) < 128 && filepos == NOWHERE ==>
        && fcbs == old(fcbs) && dir == old(dir) && closeflg == old(closeflg) && status == 0xFF
        && forall i :: 0 <= i < |dir| ==> !Matches(fcbs[h].x, dir[i], 15, dpb.exm)
      ensures old(fcbs[h].x.s2) < 128 && filepos != NOWHERE ==>
        && FirstListed(old(fcbs[h].x), old(dir), filepos)
        && SameFileAt(old(dir), filepos, FileId(old(fcbs[h].x.name)))
        && ClosedAt(old(fcbs[h]), old(dir), old(fcbs), old(closeflg), h, filepos)
    {
      status, filepos := 0, 0;
      var f := fcbs[h];
      if f.x.s2 >= 128 {
        return;
      }
      assert Holds(dpb, owner, f.x);
      FindWhole(f.x, 15);
      if filepos == NOWHERE {
        return;
      }
      MatchSameFile(f.x, dir[filepos], 15, dpb.exm);
      CloseFound(h);
    }

    static ghost predicate SameFileAt(d: seq<Entry>, n: int, id: Name)
      requires 0 <= n < |d|
    {
      Live(d[n]) && FileId(d[n].name) == id
    }

    // --- opening an extent

    // SETS2B7
    static function Unmodified(x: Entry): Entry {
      if x.s2 < 128 then x.(s2 := x.s2 + 128) else x
    }

    // The extent part of a control block after opening the entry e: all of the entry but the extent that
    // the caller asked for, marked unmodified, with the record count of that extent.
    static function Opened(x: Entry, e: Entry): Entry {
      Unmodified(e).(ext := x.ext, rc := CountIn(e, x.ext))
    }

    // The records that an entry has of the extent ext: its count is that of its last extent.
    static function CountIn(e: Entry, ext: byte): byte {
      if e.ext == ext then e.rc else if e.ext < ext then 0 else 128
    }

    // OPENIT1: copy the entry at the current place into the control block.
    method OpenIt1(h: int)
      requires Valid() && h in fcbs && filepos < |dir| && Live(dir[filepos])
      modifies `fcbs
      ensures Valid()
      ensures fcbs == old(fcbs)[h := old(fcbs[h]).(x := Opened(old(fcbs[h].x), dir[filepos]))]
    {
      var f := fcbs[h];
      var g := f.(x := Opened(f.x, dir[filepos]));
      assert Holds(dpb, owner, dir[filepos]);
      PutFcb(dpb, dir, mark, fcbs, alv[..], owner, h, g);
      fcbs := fcbs[h := g];
    }

    // The extent part of a control block for a new, empty extent.
    static function Cleared(x: Entry, n: int): Entry
      requires n >= 0
    {
      x.(rc := 0, s1 := 0, ptrs := seq(n, i => 0))
    }

    // n is the first empty place.
    static ghost predicate FirstEmpty(d: seq<Entry>, n: int) {
      0 <= n < |d| && !Live(d[n]) && forall i :: 0 <= i < n ==> Live(d[i])
    }

    // No entry is empty.
    static ghost predicate Full(d: seq<Entry>) { forall i :: 0 <= i < |d| ==> Live(d[i]) }

    // The search for an empty place: the first one, and never an entry that a file uses.
    method FindEmpty()
      requires Valid()
      modifies `status, `filepos, `savefcb, `counter
      ensures filepos == NOWHERE ==> status == 0xFF && Full(dir)
      ensures filepos != NOWHERE ==> status == filepos % 4 && FirstEmpty(dir, filepos)
    {
      LiveHaveUsers(dpb, owner, dir);
      FindWhole(EMPTYFCB, 1);
      assert forall i :: 0 <= i < |dir| && !Live(dir[i]) ==> Agrees(EMPTYFCB, dir[i], 0, dpb.exm);
      if filepos != NOWHERE {
        assert Agrees(EMPTYFCB, dir[filepos], 0, dpb.exm);
      }
    }

    // GETEMPTY: a new entry in the first empty place, raising the mark over it.
    method GetEmpty(h: int)
      requires Valid() && h in fcbs
      modifies `status, `filepos, `savefcb, `counter, `fcbs, `dir, `mark
      ensures Valid()
      ensures filepos == NOWHERE ==>
        status == 0xFF && fcbs == old(fcbs) && dir == old(dir) && mark == old(mark) && Full(dir)
      ensures filepos != NOWHERE ==> status == filepos % 4 && FirstEmpty(old(dir), filepos)
      ensures filepos != NOWHERE ==> var x := Cleared(old(fcbs[h].x), Nptr(dpb));
        && dir == old(dir)[filepos := x] && fcbs == old(fcbs)[h := old(fcbs[h]).(x := Unmodified(x))]
        && mark == (if filepos < old(mark) then old(mark) else filepos + 1)
    {
      FindEmpty();
      if filepos == NOWHERE {
        return;
      }
      var f := fcbs[h];
      assert Holds(dpb, owner, f.x);
      var x := Cleared(f.x, Nptr(dpb));
      assert Holds(dpb, owner, x);
      var top := if filepos < mark then mark else filepos + 1;
      PutEntry(dpb, dir, mark, fcbs, alv[..], owner, filepos, x, top);
      mark := top;
      dir := dir[filepos := x];
      PutFcb(dpb, dir, mark, fcbs, alv[..], owner, h, f.(x := Unmodified(x)));
      fcbs := fcbs[h := f.(x := Unmodified(x))];
    }

    // --- going on to the next extent

    // Only the file id has been touched: its control block h, its entries and empty entries.
    ghost predicate Private(h: int, id: Name, fcbs0: map<int, Fcb>, dir0: seq<Entry>)
      reads this
    {
      && h in fcbs && FileId(fcbs[h].x.name) == id && fcbs == fcbs0[h := fcbs[h]]
      && OthersKept(dir0, dir, id)
    }

    // Bytes 12 to 15 of a control block changed in place.
    method Restate(h: int, x: Entry)
      requires Valid() && h in fcbs && x.name == fcbs[h].x.name && x.ptrs == fcbs[h].x.ptrs
      modifies `fcbs
      ensures Valid() && fcbs == old(fcbs)[h := old(fcbs[h]).(x := x)]
    {
      var f := fcbs[h];
      assert Holds(dpb, owner, f.x);
      PutFcb(dpb, dir, mark, fcbs, alv[..], owner, h, f.(x := x));
      fcbs := fcbs[h := f.(x := x)];
    }

    // Bytes 32 to 35 are as they were.
    static predicate SameTail(f: Fcb, g: Fcb) {
      f.cr == g.cr && f.r0 == g.r0 && f.r1 == g.r1 && f.r2 == g.r2
    }

    // Entries in use are as they were.
    static ghost predicate LiveKept(dir0: seq<Entry>, dir1: seq<Entry>) {
      |dir1| == |dir0| && forall i :: 0 <= i < |dir0| && Live(dir0[i]) ==> dir1[i] == dir0[i]
    }

    // Extent 31 of the last module of extents.
    static predicate LastExtent(x: Entry) { (x.ext + 1) % 32 == 0 && (x.s2 + 1) % 16 == 0 }

    ghost predicate NotListed(x: Entry, d: seq<Entry>)
      requires dpb.exm >= 0
    {
      forall i :: 0 <= i < |d| ==> !Matches(x, d[i], 15, dpb.exm)
    }

    // The extent x is closed into the entry n of its file, unless the two name different blocks at one place:
    // all its blocks are in the directory.
    static ghost predicate Saved(x: Entry, dir0: seq<Entry>, dir1: seq<Entry>, n: int) {
      && 0 <= n < |dir0| == |dir1| && SameFileAt(dir0, n, FileId(x.name)) && |x.ptrs| == |dir0[n].ptrs|
      && (FirstClash(x.ptrs, dir0[n].ptrs, 0) == |x.ptrs| ==>
            dir1[n] == ClosedEntry(x, dir0[n], FilledUpTo(dir0[n].ptrs, x.ptrs, |x.ptrs|)))
    }

    // n is the first entry that matches the extent x.
    ghost predicate FirstListed(x: Entry, d: seq<Entry>, n: int)
      requires dpb.exm >= 0
    {
      0 <= n < |d| && Matches(x, d[n], 15, dpb.exm) && forall i :: 0 <= i < n ==> !Matches(x, d[i], 15, dpb.exm)
    }

    // A control block that asked for the extent x now holds the entry n of its file: opened, or new and empty.
    static ghost predicate HoldsEntry(x: Entry, g: Entry, d: seq<Entry>, n: int) {
      && 0 <= n < |d| && SameFileAt(d, n, FileId(x.name))
      && (g == Opened(x, d[n]) || (d[n] == Cleared(x, |d[n].ptrs|) && g == Unmodified(d[n])))
    }

    // Search for the extent that the control block names and open it.
    method OpenListed(h: int) returns (ok: bool)
      requires Valid() && h in fcbs
      modifies `status, `filepos, `savefcb, `counter, `fcbs
      ensures Valid() && Private(h, FileId(old(fcbs[h].x.name)), old(fcbs), dir)
      ensures SameTail(fcbs[h], old(fcbs[h]))
      ensures ok ==> FirstListed(old(fcbs[h].x), dir, filepos) && fcbs[h].x == Opened(old(fcbs[h].x), dir[filepos])
      ensures ok ==> SameFileAt(dir, filepos, FileId(old(fcbs[h].x.name)))
      ensures ok && old(fcbs[h].x.s2) != WILD ==> fcbs[h].x.s2 % 128 == old(fcbs[h].x.s2) % 128
      ensures !ok ==> fcbs == old(fcbs) && NotListed(fcbs[h].x, dir)
    {
      assert Holds(dpb, owner, fcbs[h].x);
      FindWhole(fcbs[h].x, 15);
      if filepos == NOWHERE {
        return false;
      }
      MatchSameFile(fcbs[h].x, dir[filepos], 15, dpb.exm);
      MatchSameModule(fcbs[h].x, dir[filepos], dpb.exm);
      OpenIt1(h);
      return true;
    }

    // Make the extent that the control block names, which is then the only one listed.
    method MakeExtent(h: int) returns (ok: bool)
      requires Valid() && h in fcbs && NotListed(fcbs[h].x, dir)
      modifies `status, `filepos, `savefcb, `counter, `fcbs, `dir, `mark
      ensures Valid() && Private(h, FileId(old(fcbs[h].x.name)), old(fcbs), old(dir))
      ensures SameTail(fcbs[h], old(fcbs[h])) && LiveKept(old(dir), dir)
      ensures !ok ==> Full(dir) && fcbs == old(fcbs) && dir == old(dir)
      ensures ok ==> FirstListed(old(fcbs[h].x), dir, filepos)
      ensures ok ==> dir[filepos] == Cleared(old(fcbs[h].x), Nptr(dpb)) && fcbs[h].x == Unmodified(dir[filepos])
      ensures ok ==> FirstEmpty(old(dir), filepos) && dir == old(dir)[filepos := Cleared(old(fcbs[h].x), Nptr(dpb))]
    {
      ghost var x := fcbs[h].x;
      assert Holds(dpb, owner, x);
      GetEmpty(h);
      ok := filepos != NOWHERE;
      if ok {
        MatchesItself(x, Nptr(dpb), dpb.exm);
      }
    }

    // An empty extent matches the control block it was made for.
    static lemma MatchesItself(x: Entry, n: int, exm: int)
      requires n >= 0 && exm >= 0
      ensures Matches(x, Cleared(x, n), 15, exm)
    {
    }

    // The extent x is not listed, and none can be made.
    ghost predicate Unavailable(x: Entry, reading: bool)
      requires dpb.exm >= 0
      reads this
    {
      NotListed(x, dir) && (reading || Full(dir))
    }

    // The extent x taken from the entry n, or made there.
    ghost predicate Gotten(x: Entry, dir0: seq<Entry>, g: Entry, dir1: seq<Entry>, n: int) {
      && 0 <= n < |dir0|
      && ((dir1 == dir0 && g == Opened(x, dir0[n]))
          || (FirstEmpty(dir0, n) && dir1 == dir0[n := Cleared(x, Nptr(dpb))] && g == Unmodified(dir1[n])))
    }

    // GTNEXT2: open the extent that the control block names, or make it when writing.
    // Says whether the control block now holds that extent.
    method OpenOrMake(h: int, reading: bool) returns (ok: bool)
      requires Valid() && h in fcbs
      modifies `status, `filepos, `savefcb, `counter, `fcbs, `dir, `mark
      ensures Valid() && Private(h, FileId(old(fcbs[h].x.name)), old(fcbs), old(dir))
      ensures SameTail(fcbs[h], old(fcbs[h])) && (reading ==> dir == old(dir))
      ensures LiveKept(old(dir), dir)
      ensures ok ==> FirstListed(old(fcbs[h].x), dir, filepos) && HoldsEntry(old(fcbs[h].x), fcbs[h].x, dir, filepos)
      ensures !ok ==> fcbs == old(fcbs) && dir == old(dir) && Unavailable(old(fcbs[h].x), reading)
      ensures ok && old(fcbs[h].x.s2) != WILD ==> fcbs[h].x.s2 % 128 == old(fcbs[h].x.s2) % 128
      ensures ok ==> Gotten(old(fcbs[h].x), old(dir), fcbs[h].x, dir, filepos)
    {
      ok := OpenListed(h);
      if !ok && !reading {
        ok := MakeExtent(h);
      }
    }

    // The close at the head of GETNEXT.
    method CloseForNext(h: int)
      requires Valid() && h in fcbs
      modifies `status, `filepos, `savefcb, `counter, `fcbs, `dir, `closeflg
      ensures Valid() && Private(h, FileId(old(fcbs[h].x.name)), old(fcbs), old(dir))
      ensures SameAsk(fcbs[h].x, old(fcbs[h].x)) && SameTail(fcbs[h], old(fcbs[h]))
      ensures filepos == NOWHERE ==> status == 0xFF && NotListed(old(fcbs[h].x), old(dir))
      ensures filepos != NOWHERE && closeflg ==>
        filepos < |dir| && SameFileAt(dir, filepos, FileId(old(fcbs[h].x.name)))
      ensures old(fcbs[h].x.s2) < 128 && filepos != NOWHERE ==> Saved(old(fcbs[h].x), old(dir), dir, filepos)
      ensures old(fcbs[h].x.s2) < 128 && filepos != NOWHERE ==> Live(dir[filepos])
      ensures old(fcbs[h].x.s2) < 128 && filepos != NOWHERE ==>
        && FirstListed(old(fcbs[h].x), old(dir), filepos)
        && (ClashesWith(old(fcbs[h].x), old(dir)[filepos])
            || (closeflg && Merged(old(fcbs[h].x), old(dir), fcbs[h].x, dir, filepos)))
    {
      closeflg := false;
      CloseIt(h);
    }

    // The extent x closed without a clash into the entry n: what that makes of both.
    static ghost predicate Merged(x: Entry, dir0: seq<Entry>, g: Entry, dir1: seq<Entry>, n: int) {
      && 0 <= n < |dir0| && |x.ptrs| == |dir0[n].ptrs|
      && g == x.(ptrs := FilledUpTo(x.ptrs, dir0[n].ptrs, |x.ptrs|))
      && dir1 == dir0[n := ClosedEntry(x, dir0[n], FilledUpTo(dir0[n].ptrs, x.ptrs, |x.ptrs|))]
    }

    // The extent after x; after extent 31 comes extent 0 of the next module.
    static function NextNamed(x: Entry): Entry {
      Bumped(x.(ext := (x.ext + 1) % 32))
    }

    static function Bumped(x: Entry): Entry {
      if x.ext == 0 then x.(s2 := (x.s2 + 1) % 0x100) else x
    }

    // The next extent begins with the record after the last of this one.
    static lemma NextGoesOn(x: Entry)
      requires x.ext < 32 && !LastExtent(x)
      ensures Position(0, NextNamed(x).ext, NextNamed(x).s2) == Position(128, x.ext, x.s2)
    {
      if x.ext == 31 {
        assert (x.ext + 1) % 32 == 0;
        NotLastModule(x.s2);
      } else {
        assert (x.ext + 1) % 32 == x.ext + 1;
      }
    }

    static lemma NotLastModule(s2: byte)
      requires (s2 + 1) % 16 != 0
      ensures (s2 + 1) % 0x100 == s2 + 1
    {
    }

    // x and y ask for the same extent.
    static predicate SameAsk(x: Entry, y: Entry) {
      x.name == y.name && x.ext == y.ext && x.s1 == y.s1 && x.s2 == y.s2
    }

    lemma AsksTheSame(x: Entry, y: Entry, g: Entry, d: seq<Entry>, n: int)
      requires dpb.exm >= 0 && SameAsk(x, y)
      ensures HoldsEntry(x, g, d, n) == HoldsEntry(y, g, d, n)
      ensures FirstListed(x, d, n) == FirstListed(y, d, n) && NotListed(x, d) == NotListed(y, d)
    {
      assert forall i :: 0 <= i < 15 ==> ByteAt(x, i) == ByteAt(y, i);
      forall i | 0 <= i < |d|
        ensures Matches(x, d[i], 15, dpb.exm) == Matches(y, d[i], 15, dpb.exm)
      {
        assert forall b :: 0 <= b < 15 ==> Agrees(x, d[i], b, dpb.exm) == Agrees(y, d[i], b, dpb.exm);
      }
    }

    // The extent y entered: in the entry m0 just closed, or in the first listed for it.
    ghost predicate EnteredIn(y: Entry, dir1: seq<Entry>, g: Entry, dir2: seq<Entry>, m0: int, m: int, flag: bool)
      requires dpb.exm >= 0
    {
      if flag && y.ext % (dpb.exm + 1) != 0 then
        m == m0 && 0 <= m < |dir1| && dir2 == dir1 && g == Opened(y, dir1[m])
      else FirstListed(y, dir2, m) && Gotten(y, dir1, g, dir2, m)
    }

    // GTNEXT1 to GTNEXT3: the control block, already naming the next extent, gets hold of it, in the entry
    // just closed or in the first that is listed for it.
    method EnterExtent(h: int, reading: bool) returns (ok: bool)
      requires Valid() && h in fcbs
      requires closeflg ==> filepos < |dir| && SameFileAt(dir, filepos, FileId(fcbs[h].x.name))
      modifies `status, `filepos, `savefcb, `counter, `fcbs, `dir, `mark
      ensures Valid() && Private(h, FileId(old(fcbs[h].x.name)), old(fcbs), old(dir))
      ensures SameTail(fcbs[h], old(fcbs[h])) && LiveKept(old(dir), dir)
      ensures ok ==>
        && HoldsEntry(Bumped(old(fcbs[h].x)), fcbs[h].x, dir, filepos)
        && ((closeflg && filepos == old(filepos)) || FirstListed(Bumped(old(fcbs[h].x)), dir, filepos))
      ensures !ok ==>
        || Unavailable(Bumped(old(fcbs[h].x)), reading)
        || (old(fcbs[h].x.ext) == 0 && (old(fcbs[h].x.s2) + 1) % 16 == 0)
      ensures if ok then EnteredIn(Bumped(old(fcbs[h].x)), old(dir), fcbs[h].x, dir, old(filepos), filepos, closeflg)
              else dir == old(dir)
      ensures ok ==> old(fcbs[h].x.ext) != 0 || (old(fcbs[h].x.s2) + 1) % 16 != 0
    {
      var ext := fcbs[h].x.ext;
      if ext == 0 {
        Restate(h, fcbs[h].x.(s2 := (fcbs[h].x.s2 + 1) % 0x100));
        if fcbs[h].x.s2 % 16 == 0 {
          return false;
        }
      }
      if closeflg && ext % (dpb.exm + 1) != 0 {
        OpenIt1(h);
        ok := true;
      } else {
        ok := OpenOrMake(h, reading);
      }
    }

    // The same for a control block that names the extent after x.
    method EnterAfter(h: int, reading: bool, ghost x: Entry) returns (ok: bool)
      requires Valid() && h in fcbs && SameAsk(fcbs[h].x, x.(ext := (x.ext + 1) % 32))
      requires closeflg ==> filepos < |dir| && SameFileAt(dir, filepos, FileId(fcbs[h].x.name))
      modifies `status, `filepos, `savefcb, `counter, `fcbs, `dir, `mark
      ensures Valid() && Private(h, FileId(old(fcbs[h].x.name)), old(fcbs), old(dir))
      ensures SameTail(fcbs[h], old(fcbs[h])) && LiveKept(old(dir), dir)
      ensures ok ==>
        && HoldsEntry(NextNamed(x), fcbs[h].x, dir, filepos)
        && (filepos == old(filepos) || FirstListed(NextNamed(x), dir, filepos))
      ensures !ok ==> Unavailable(NextNamed(x), reading) || LastExtent(x)
      ensures if ok then EnteredIn(Bumped(old(fcbs[h].x)), old(dir), fcbs[h].x, dir, old(filepos), filepos, closeflg)
              else dir == old(dir)
      ensures ok ==> !LastExtent(x)
    {
      ghost var y := fcbs[h].x;
      ok := EnterExtent(h, reading);
      AsksTheSame(Bumped(y), NextNamed(x), fcbs[h].x, dir, filepos);
    }

    // The same, the control block then renamed to the next extent.
    static ghost predicate Left(x: Entry, dir0: seq<Entry>, g: Entry, dir1: seq<Entry>, n: int) {
      Merged(x, dir0, g.(ext := x.ext), dir1, n) && g.ext == (x.ext + 1) % 32
    }

    // GETNEXT up to the choice of the next entry: this extent closed, the control block naming the next one.
    method LeaveExtent(h: int)
      requires Valid() && h in fcbs
      modifies `status, `filepos, `savefcb, `counter, `fcbs, `dir, `closeflg
      ensures Valid() && Private(h, FileId(old(fcbs[h].x.name)), old(fcbs), old(dir))
      ensures filepos == NOWHERE ==> status == 0xFF && NotListed(old(fcbs[h].x), old(dir))
      ensures filepos != NOWHERE ==>
        && SameAsk(fcbs[h].x, old(fcbs[h].x).(ext := (old(fcbs[h].x.ext) + 1) % 32)) && SameTail(fcbs[h], old(fcbs[h]))
        && (old(fcbs[h].x.s2) < 128 ==> Saved(old(fcbs[h].x), old(dir), dir, filepos) && Live(dir[filepos]))
        && (closeflg ==> filepos < |dir| && SameFileAt(dir, filepos, FileId(fcbs[h].x.name)))
      ensures old(fcbs[h].x.s2) < 128 && filepos != NOWHERE ==>
        && FirstListed(old(fcbs[h].x), old(dir), filepos)
        && (ClashesWith(old(fcbs[h].x), old(dir)[filepos])
            || (closeflg && Left(old(fcbs[h].x), old(dir), fcbs[h].x, dir, filepos)))
    {
      CloseForNext(h);
      if filepos != NOWHERE {
        Restate(h, fcbs[h].x.(ext := (fcbs[h].x.ext + 1) % 32));
      }
    }

    // GTNEXT4 and GTNEXT5
    method EndNext(h: int, ok: bool)
      requires Valid() && h in fcbs
      modifies `status, `fcbs, `savnrec, `savnxt, `savext
      ensures Valid() && h in fcbs && status == (if ok then 0 else 1)
      ensures ok ==>
        && fcbs == old(fcbs)
        && savnrec == fcbs[h].cr && savnxt == fcbs[h].x.rc && savext == fcbs[h].x.ext % (dpb.exm + 1)
      ensures !ok ==>
        && fcbs == old(fcbs)[h := old(fcbs[h]).(x := Unmodified(old(fcbs[h].x)))]
        && savnrec == old(savnrec) && savnxt == old(savnxt)
    {
      if ok {
        StrData(h);
        status := 0;
      } else {
        status := 1;
        Restate(h, Unmodified(fcbs[h].x));
      }
    }

    // The extent x closed into the entry n, and the next one entered at m: by way of the control block y and the
    // directory dir1.
    ghost predicate NextIn(x: Entry, dir0: seq<Entry>, g: Entry, dir2: seq<Entry>, n: int, m: int)
      requires dpb.exm >= 0
    {
      !LastExtent(x)
      && exists y, dir1 :: Left(x, dir0, y, dir1, n) && EnteredIn(Bumped(y), dir1, g, dir2, n, m, true)
    }

    // The directory with the extent x closed into the entry n.
    static ghost predicate ClosedInto(x: Entry, dir0: seq<Entry>, dir1: seq<Entry>, n: int) {
      && 0 <= n < |dir0| && |x.ptrs| == |dir0[n].ptrs|
      && dir1 == dir0[n := ClosedEntry(x, dir0[n], FilledUpTo(dir0[n].ptrs, x.ptrs, |x.ptrs|))]
    }

    // Where GETNEXT leads from the listed extent x, unless its table clashes with the entry's.
    ghost predicate Goes(x: Entry, dir0: seq<Entry>, g: Entry, dir2: seq<Entry>, n: int, m: int, ok: bool)
      requires dpb.exm >= 0
    {
      && FirstListed(x, dir0, n)
      && (ClashesWith(x, dir0[n])
          || (if ok then NextIn(x, dir0, g, dir2, n, m) else ClosedInto(x, dir0, dir2, n)))
    }

    // Sealed, so that the callers pass it on unopened.
    ghost predicate Went(x: Entry, dir0: seq<Entry>, g: Entry, dir2: seq<Entry>, n: int, m: int, ok: bool)
      requires dpb.exm >= 0
    {
      forall u {:trigger Unfold(u)} :: Unfold(u) ==> Goes(x, dir0, g, dir2, n, m, ok)
    }

    lemma WentFrom(x: Entry, dir0: seq<Entry>, y: Entry, dir1: seq<Entry>, g: Entry, dir2: seq<Entry>, n: int, m: int,
                   flag: bool, ok: bool)
      requires dpb.exm >= 0 && FirstListed(x, dir0, n)
      requires ClashesWith(x, dir0[n]) || (flag && Left(x, dir0, y, dir1, n))
      requires if ok then EnteredIn(Bumped(y), dir1, g, dir2, n, m, flag) && !LastExtent(x) else dir2 == dir1
      ensures Went(x, dir0, g, dir2, n, m, ok)
    {
    }

    // GETNEXT: close this extent and go on to the next, which is in the same entry or in another. On success the
    // old extent is saved in entry n, and the control block holds the entry at the current place.
    method GetNext(h: int, reading: bool) returns (ghost n: int)
      requires Valid() && h in fcbs
      modifies `status, `filepos, `savefcb, `counter, `fcbs, `dir, `mark, `closeflg, `savnrec, `savnxt, `savext
      ensures Valid() && Private(h, FileId(old(fcbs[h].x.name)), old(fcbs), old(dir))
      ensures status == 0 || status == 1 || status == 0xFF
      ensures status == 0 ==>
        && HoldsEntry(NextNamed(old(fcbs[h].x)), fcbs[h].x, dir, filepos) && SameTail(fcbs[h], old(fcbs[h]))
        && (filepos == n || FirstListed(NextNamed(old(fcbs[h].x)), dir, filepos))
      ensures status == 0 ==>
        savnrec == fcbs[h].cr && savnxt == fcbs[h].x.rc && savext == fcbs[h].x.ext % (dpb.exm + 1)
      ensures status != 0 ==> savnrec == old(savnrec) && savnxt == old(savnxt)
      ensures status == 0xFF ==> NotListed(old(fcbs[h].x), old(dir))
      ensures status == 1 ==> Unavailable(NextNamed(old(fcbs[h].x)), reading) || LastExtent(old(fcbs[h].x))
      ensures status == 0 && old(fcbs[h].x.s2) < 128 ==> Saved(old(fcbs[h].x), old(dir), dir, n)
      ensures old(fcbs[h].x.s2) < 128 && status == 0 ==>
        Went(old(fcbs[h].x), old(dir), fcbs[h].x, dir, n, filepos, true)
      ensures old(fcbs[h].x.s2) < 128 && status == 1 ==>
        Went(old(fcbs[h].x), old(dir), old(fcbs[h].x), dir, n, filepos, false)
      ensures status == 1 ==> fcbs[h].x.s2 >= 128
    {
      ghost var x := fcbs[h].x;
      LeaveExtent(h);
      n := filepos;
      if filepos == NOWHERE {
        return;
      }
      EnterNext(h, reading, x, old(dir));
    }

    // GETNEXT from the choice of the next entry on, the extent x being closed.
    method EnterNext(h: int, reading: bool, ghost x: Entry, ghost dir0: seq<Entry>)
      requires Valid() && h in fcbs && SameAsk(fcbs[h].x, x.(ext := (x.ext + 1) % 32))
      requires closeflg ==> filepos < |dir| && SameFileAt(dir, filepos, FileId(fcbs[h].x.name))
      requires x.s2 < 128 ==>
        && FirstListed(x, dir0, filepos)
        && (ClashesWith(x, dir0[filepos]) || (closeflg && Left(x, dir0, fcbs[h].x, dir, filepos)))
      modifies `status, `filepos, `savefcb, `counter, `fcbs, `dir, `mark, `savnrec, `savnxt, `savext
      ensures Valid() && Private(h, FileId(old(fcbs[h].x.name)), old(fcbs), old(dir)) && LiveKept(old(dir), dir)
      ensures status == 0 || status == 1
      ensures status == 0 ==>
        && HoldsEntry(NextNamed(x), fcbs[h].x, dir, filepos) && SameTail(fcbs[h], old(fcbs[h]))
        && (filepos == old(filepos) || FirstListed(NextNamed(x), dir, filepos))
        && savnrec == fcbs[h].cr && savnxt == fcbs[h].x.rc && savext == fcbs[h].x.ext % (dpb.exm + 1)
      ensures status == 1 ==>
        && savnrec == old(savnrec) && savnxt == old(savnxt) && fcbs[h].x.s2 >= 128
        && (Unavailable(NextNamed(x), reading) || LastExtent(x))
      ensures x.s2 < 128 ==>
        Went(x, dir0, if status == 0 then fcbs[h].x else x, dir, old(filepos), filepos, status == 0)
    {
      ghost var y, dir1, flag, n := fcbs[h].x, dir, closeflg, filepos;
      var ok := EnterAfter(h, reading, x);
      EndNext(h, ok);
      if x.s2 < 128 {
        WentFrom(x, dir0, y, dir1, if ok then fcbs[h].x else x, dir, n, filepos, flag, ok);
      }
    }

    // --- writing

    // Place in the block table of the record that a control block stands at.
    ghost function PlaceOf(f: Fcb): int
      requires DpbOk(dpb)
    {
      PlaceIn(dpb, f.cr, f.x.ext)
    }

    // The control block with its place i filled, if need be with a free block.
    ghost predicate FilledAt(f: Fcb, g: Fcb, i: int) {
      && 0 <= i < |f.x.ptrs| && |g.x.ptrs| == |f.x.ptrs|
      && g == WithBlock(f, i, g.x.ptrs[i])
      && g.x.ptrs[i] != 0 && (f.x.ptrs[i] != 0 ==> g == f)
    }

    // COMBLK and WTSEQ2 to WTSEQ5: the block that the record goes to, 0 when the disk is full.
    method BlockToWrite(h: int) returns (b: int)
      requires Valid() && h in fcbs && status == 0
      requires savnrec == fcbs[h].cr < 128 && savext == fcbs[h].x.ext % (dpb.exm + 1)
      modifies `status, `fcbs, `owner, alv
      ensures Valid() && Grows(old(owner), owner) && h in fcbs && fcbs == old(fcbs)[h := fcbs[h]]
      ensures b == 0 ==> status == 2 && fcbs == old(fcbs) && owner == old(owner) && NoSpace(dpb, old(alv[..]))
      ensures b != 0 ==> status == 0 && 0 < b <= dpb.dsm && Owned(owner, b, FileId(old(fcbs[h].x.name)))
      ensures b != 0 ==> var i := PlaceOf(old(fcbs[h]));
        && FilledAt(old(fcbs[h]), fcbs[h], i) && fcbs[h].x.ptrs[i] == b
        && (old(fcbs[h]).x.ptrs[i] == 0 ==> b !in old(owner))
    {
      var idx := GetBlock();
      assert Holds(dpb, owner, fcbs[h].x);
      if fcbs[h].x.ptrs[idx] == 0 {
        var ok := Allocate(h, idx);
        if !ok {
          return 0;
        }
      }
      assert Holds(dpb, owner, fcbs[h].x);
      b := fcbs[h].x.ptrs[idx];
      assert Owned(owner, b, FileId(fcbs[h].x.name));
    }

    // Why a write is refused: no such record in the extent, or no block is free.
    ghost predicate Refused(cr: byte, alv0: seq<Octet>)
      reads this
    {
      if cr >= 128 then status == 1 else status == 2 && NoSpace(dpb, alv0)
    }

    // WTSEQ1 up to the disk write: the sector written, or -1.
    method WriteRecord(h: int, rec: seq<byte>) returns (sector: int, ghost b: int)
      requires Valid() && h in fcbs && status == 0
      modifies `status, `fcbs, `owner, `disk, `savnrec, `savnxt, `savext, alv
      ensures Valid() && Grows(old(owner), owner) && h in fcbs && fcbs == old(fcbs)[h := fcbs[h]]
      ensures sector < 0 ==> disk == old(disk) && fcbs == old(fcbs) && owner == old(owner)
      ensures sector < 0 ==> Refused(old(fcbs[h].cr), old(alv[..]))
      ensures sector >= 0 ==> status == 0 && savnrec == old(fcbs[h].cr) < 128 && disk == old(disk)[sector := rec]
      ensures sector >= 0 ==> savnxt == if savnrec >= old(fcbs[h].x.rc) then savnrec + 1 else old(fcbs[h].x.rc)
      ensures sector >= 0 ==> sector == b * Pow2(dpb.bsh) + savnrec % Pow2(dpb.bsh) && sector / Pow2(dpb.bsh) == b
                              && Owned(owner, b, FileId(old(fcbs[h].x.name)))
      ensures sector >= 0 ==> WrittenAt(old(fcbs[h]), sector, old(owner))
      ensures sector >= 0 ==> 0 < b <= dpb.dsm < 0x10000 && 0 <= PlaceOf(old(fcbs[h])) < |old(fcbs[h].x.ptrs)|
      ensures sector >= 0 ==> fcbs[h].(x := fcbs[h].x.(rc := savnxt)) == AfterWrite(old(fcbs[h]), b)
      ensures sector >= 0 ==> Stored(AfterWrite(old(fcbs[h]), b), sector)
    {
      b := 0;
      StrData(h);
      if savnrec >= 128 {
        status := 1;
        return -1, b;
      }
      var block := BlockToWrite(h);
      if block == 0 {
        return -1, b;
      }
      b := block;
      sector := Logical(block);
      disk := disk[sector := rec];
      if savnrec >= savnxt {
        savnxt := savnrec + 1;
      }
      ghost var g := fcbs[h];
      Restate(h, fcbs[h].x.(s2 := fcbs[h].x.s2 % 128));
      FilledIsAfter(old(fcbs[h]), g, b);
      StoredAfter(old(fcbs[h]), b, sector);
    }

    // The record that f stands at is one of its extent, and it is in the sector.
    ghost predicate Stored(f: Fcb, sector: int)
      requires DpbOk(dpb)
    {
      f.cr < f.x.rc && f.cr < 128 && ReadFrom(f, sector)
    }

    lemma StoredAfter(f: Fcb, b: word, sector: int)
      requires DpbOk(dpb) && 0 <= PlaceOf(f) < |f.x.ptrs| && f.cr < 128 && b != 0 && 0 <= sector < 0x10000
      requires sector == b * Pow2(dpb.bsh) + f.cr % Pow2(dpb.bsh) && sector / Pow2(dpb.bsh) == b
      ensures Stored(AfterWrite(f, b), sector)
    {
      assert PlaceOf(AfterWrite(f, b)) == PlaceOf(f);
    }

    // What the block found or taken makes of the control block.
    lemma FilledIsAfter(f: Fcb, g: Fcb, b: word)
      requires DpbOk(dpb) && FilledAt(f, g, PlaceOf(f)) && g.x.ptrs[PlaceOf(f)] == b && f.cr < 128
      ensures g.(x := g.x.(s2 := g.x.s2 % 128, rc := if f.cr >= f.x.rc then f.cr + 1 else f.x.rc)) == AfterWrite(f, b)
    {
    }

    // SETNREC: the next record and the record count back into the control block.
    method SetNrec(h: int, mode: int)
      requires Valid() && h in fcbs && 0 <= mode <= 2
      modifies `fcbs
      ensures Valid()
      ensures fcbs == old(fcbs)[h := old(fcbs[h]).(x := old(fcbs[h].x).(rc := savnxt),
                                                   cr := (savnrec + (if mode == 2 then 0 else mode)) % 0x100)]
    {
      var f := fcbs[h];
      var g := f.(x := f.x.(rc := savnxt), cr := (savnrec + (if mode == 2 then 0 else mode)) % 0x100);
      assert Holds(dpb, owner, f.x);
      PutFcb(dpb, dir, mark, fcbs, alv[..], owner, h, g);
      fcbs := fcbs[h := g];
    }

    // Nothing outside the file id has changed, on the disk, in the map of owners, or in the directory.
    ghost predicate FileOnly(h: int, id: Name, fcbs0: map<int, Fcb>, dir0: seq<Entry>, owner0: map<int, Name>,
                             disk0: map<int, seq<byte>>)
      reads this
    {
      && Private(h, id, fcbs0, dir0) && Grows(owner0, owner) && dpb.bsh >= 0
      && DiskKept(disk0, disk, owner, id, dpb.bsh)
    }

    // The control block after a full extent: at record 0 of the next, the full one x saved in the entry n, or
    // left at record 128 for want of a next one.
    ghost predicate Advanced(x: Entry, g: Fcb, dir0: seq<Entry>, n: int)
      requires dpb.exm >= 0
      reads this
    {
      || (g.cr == 128 && (NotListed(x, dir0) || Unavailable(NextNamed(x), false) || LastExtent(x)))
      || (g.cr == 0 && HoldsEntry(NextNamed(x), g.x, dir, filepos)
          && (filepos == n || FirstListed(NextNamed(x), dir, filepos)) && (x.s2 < 128 ==> Saved(x, dir0, dir, n)))
    }

    // How it got there, unless the extent x is not listed or its table clashes with the entry's.
    ghost predicate MovedOn(x: Entry, g: Fcb, dir0: seq<Entry>, n: int)
      requires dpb.exm >= 0
      reads this
    {
      || NotListed(x, dir0)
      || (g.cr == 0 && Went(x, dir0, g.x, dir, n, filepos, true))
      || (g.cr == 128 && g.x.s2 >= 128 && Went(x, dir0, x, dir, n, filepos, false))
    }

    // WTSEQ99: after record 127 a sequential write goes on to the next extent.
    method NextIfFull(h: int, mode: int) returns (ghost n: int)
      requires Valid() && h in fcbs && 0 <= mode <= 1 && status == 0 && savnrec < 128
      modifies `status, `filepos, `savefcb, `counter, `fcbs, `dir, `mark, `closeflg, `savnrec, `savnxt, `savext
      ensures Valid() && Private(h, FileId(old(fcbs[h].x.name)), old(fcbs), old(dir)) && status == 0
      ensures old(savnrec) != 127 || mode != 1 ==>
        && dir == old(dir) && filepos == old(filepos)
        && fcbs[h] == old(fcbs[h]).(x := old(fcbs[h].x).(rc := old(savnxt)), cr := old(savnrec) + mode)
      ensures old(savnrec) == 127 && mode == 1 ==>
        Advanced(old(fcbs[h].x).(rc := old(savnxt)), fcbs[h], old(dir), n)
      ensures old(savnrec) == 127 && mode == 1 && old(fcbs[h].x.s2) < 128 ==>
        MovedOn(old(fcbs[h].x).(rc := old(savnxt)), fcbs[h], old(dir), n)
    {
      n := -1;
      if savnrec == 127 && mode == 1 {
        SetNrec(h, mode);
        n := GetNext(h, false);
        if status == 0 {
          savnrec := 0xFF;
        }
        status := 0;
      }
      SetNrec(h, mode);
    }

    // The sector is that of the record f stands at: in the block its table names, or in one that was free.
    ghost predicate WrittenAt(f: Fcb, sector: int, owner0: map<int, Name>)
      requires DpbOk(dpb)
    {
      var i := PlaceOf(f);
      && 0 <= i < |f.x.ptrs|
      && (f.x.ptrs[i] != 0 ==> sector == f.x.ptrs[i] * Pow2(dpb.bsh) + f.cr % Pow2(dpb.bsh))
      && (f.x.ptrs[i] == 0 ==>
            exists b :: sector == b * Pow2(dpb.bsh) + f.cr % Pow2(dpb.bsh) && 1 <= b <= dpb.dsm && b !in owner0)
    }

    // The control block f after its record has been written into the block b, up to the choice of the next.
    ghost function AfterWrite(f: Fcb, b: word): Fcb
      requires DpbOk(dpb) && 0 <= PlaceOf(f) < |f.x.ptrs|
    {
      var rc := if f.cr >= f.x.rc && f.cr < 255 then f.cr + 1 else f.x.rc;
      f.(x := f.x.(s2 := f.x.s2 % 128, rc := rc, ptrs := f.x.ptrs[PlaceOf(f) := b]))
    }

    // WTSEQ1: write the record that the control block stands at.
    method WtSeq1(h: int, mode: int, rec: seq<byte>) returns (sector: int, ghost b: int, ghost n: int)
      requires Valid() && h in fcbs && status == 0 && 0 <= mode <= 1
      modifies `status, `filepos, `savefcb, `counter, `fcbs, `dir, `mark, `closeflg, `savnrec, `savnxt, `savext,
               `owner, `disk, alv
      ensures Valid() && FileOnly(h, FileId(old(fcbs[h].x.name)), old(fcbs), old(dir), old(owner), old(disk))
      ensures sector < 0 ==> disk == old(disk) && fcbs == old(fcbs) && dir == old(dir)
      ensures sector < 0 ==> Refused(old(fcbs[h].cr), old(alv[..]))
      ensures sector >= 0 ==> status == 0 && disk == old(disk)[sector := rec]
      ensures sector >= 0 ==> WrittenAt(old(fcbs[h]), sector, old(owner))
      ensures sector >= 0 ==>
        0 < b < 0x10000 && sector / Pow2(dpb.bsh) == b && 0 <= PlaceOf(old(fcbs[h])) < |old(fcbs[h].x.ptrs)|
      ensures sector >= 0 ==> Stored(AfterWrite(old(fcbs[h]), b), sector)
      ensures sector >= 0 && (old(fcbs[h].cr) != 127 || mode == 0) ==>
        && dir == old(dir) && filepos == old(filepos)
        && fcbs[h].(cr := old(fcbs[h].cr)) == AfterWrite(old(fcbs[h]), b) && fcbs[h].cr == old(fcbs[h].cr) + mode
      ensures sector >= 0 && old(fcbs[h].cr) == 127 && mode == 1 ==>
        Advanced(AfterWrite(old(fcbs[h]), b).x, fcbs[h], old(dir), n)
      ensures sector >= 0 && old(fcbs[h].cr) == 127 && mode == 1 ==>
        MovedOn(AfterWrite(old(fcbs[h]), b).x, fcbs[h], old(dir), n)
    {
      n := -1;
      sector, b := WriteRecord(h, rec);
      if sector < 0 {
        return;
      }
      OneSector(old(disk), owner, sector, rec, FileId(old(fcbs[h].x.name)), dpb.bsh);
      ghost var f := fcbs[h];
      assert f.x.name == old(fcbs[h].x.name) && f.cr == old(fcbs[h].cr) == savnrec;
      assert f.(x := f.x.(rc := savnxt)) == AfterWrite(old(fcbs[h]), b);
      n := NextIfFull(h, mode);
    }

    // --- reading

    // The record that the control block stands at is one of its entry.
    predicate InEntry(f: Fcb)
      requires dpb.exm >= 0
    {
      f.cr + 128 * (f.x.ext % (dpb.exm + 1)) < 128 * (dpb.exm + 1)
    }

    // The table of f has a block for the record it stands at, and the sector is that of the record in it.
    ghost predicate ReadFrom(f: Fcb, sector: int)
      requires DpbOk(dpb)
    {
      var i := PlaceOf(f);
      && 0 <= i < |f.x.ptrs| && f.x.ptrs[i] != 0
      && sector == f.x.ptrs[i] * Pow2(dpb.bsh) + f.cr % Pow2(dpb.bsh) && 0 <= sector < 0x10000
      && sector / Pow2(dpb.bsh) == f.x.ptrs[i]
    }

    // The table of f has no block there.
    ghost predicate NoBlock(f: Fcb)
      requires DpbOk(dpb)
    {
      0 <= PlaceOf(f) < |f.x.ptrs| && f.x.ptrs[PlaceOf(f)] == 0
    }

    // RDSEQ2: the sector of the record that the cells stand for, or -1.
    method ReadBlock(h: int) returns (sector: int)
      requires Valid() && h in fcbs && status == 0 && InEntry(fcbs[h].(cr := savnrec))
      requires savnxt == fcbs[h].x.rc && savext == fcbs[h].x.ext % (dpb.exm + 1)
      modifies `status
      ensures var f := fcbs[h].(cr := savnrec);
        if sector < 0 then status == 1 && NoBlock(f) else status == 0 && ReadFrom(f, sector)
    {
      var idx := GetBlock();
      assert Holds(dpb, owner, fcbs[h].x);
      var b := fcbs[h].x.ptrs[idx];
      if b == 0 {
        status := 1;
        return -1;
      }
      assert Owned(owner, b, FileId(fcbs[h].x.name));
      sector := Logical(b);
    }

    // RDSEQ2 to its end: the record read, and the control block moved past it.
    method ReadHere(h: int, mode: int) returns (sector: int)
      requires Valid() && h in fcbs && status == 0 && 0 <= mode <= 1 && InEntry(fcbs[h].(cr := savnrec))
      requires savnxt == fcbs[h].x.rc && savext == fcbs[h].x.ext % (dpb.exm + 1)
      modifies `status, `fcbs
      ensures Valid() && status == (if sector < 0 then 1 else 0)
      ensures var f := old(fcbs[h]).(cr := savnrec);
        if sector < 0 then NoBlock(f) && fcbs == old(fcbs)
        else ReadFrom(f, sector) && fcbs == old(fcbs)[h := f.(cr := (savnrec + mode) % 0x100)]
    {
      sector := ReadBlock(h);
      if sector >= 0 {
        SetNrec(h, mode);
      }
    }

    // The control block after an extent read to its end, x: holding the next one, in the entry n or in the first
    // that is listed for it.
    ghost predicate Entered(x: Entry, g: Fcb, n: int)
      requires dpb.exm >= 0
      reads this
    {
      && HoldsEntry(NextNamed(x), g.x, dir, filepos)
      && (filepos == n || FirstListed(NextNamed(x), dir, filepos))
    }

    // Reading on after the extent x has ended: the sector of record 0 of the next one, or why there is none.
    ghost predicate ReadAfter(x: Entry, g: Fcb, dir0: seq<Entry>, sector: int, n: int)
      requires DpbOk(dpb)
      reads this
    {
      if sector >= 0 then Entered(x, g, n) && ReadFrom(g.(cr := 0), sector)
      else
        || NotListed(x, dir0) || Unavailable(NextNamed(x), true) || LastExtent(x)
        || (Entered(x, g, n) && NoBlock(g.(cr := 0)))
    }

    // RDSEQ1: read the record that the control block stands at; record 128 is record 0 of the next extent, where
    // the record count is not looked at.
    method RdSeq1(h: int, mode: int) returns (sector: int, ghost n: int)
      requires Valid() && h in fcbs && status == 0 && 0 <= mode <= 1
      requires fcbs[h].cr < fcbs[h].x.rc ==> InEntry(fcbs[h])
      modifies `status, `filepos, `savefcb, `counter, `fcbs, `dir, `mark, `closeflg, `savnrec, `savnxt, `savext
      ensures Valid() && Private(h, FileId(old(fcbs[h].x.name)), old(fcbs), old(dir))
      ensures status == (if sector < 0 then 1 else 0)
      ensures old(fcbs[h].cr) < old(fcbs[h].x.rc) ==>
        && dir == old(dir) && filepos == old(filepos)
        && if sector < 0 then NoBlock(old(fcbs[h])) && fcbs == old(fcbs)
           else ReadFrom(old(fcbs[h]), sector)
                && fcbs == old(fcbs)[h := old(fcbs[h]).(cr := (old(fcbs[h].cr) + mode) % 0x100)]
      ensures old(fcbs[h].cr) >= old(fcbs[h].x.rc) && old(fcbs[h].cr) != 128 ==>
        sector < 0 && dir == old(dir) && filepos == old(filepos) && fcbs == old(fcbs)
      ensures old(fcbs[h].cr) == 128 >= old(fcbs[h].x.rc) ==>
        ReadAfter(old(fcbs[h].x), fcbs[h], old(dir), sector, n) && (sector >= 0 ==> fcbs[h].cr == mode)
    {
      n := -1;
      StrData(h);
      if savnrec < savnxt {
        sector := ReadHere(h, mode);
      } else if savnrec != 128 {
        status := 1;
        sector := -1;
      } else {
        sector, n := ReadOn(h, mode);
      }
    }

    // The extent read to its end.
    method ReadOn(h: int, mode: int) returns (sector: int, ghost n: int)
      requires Valid() && h in fcbs && status == 0 && 0 <= mode <= 1
      modifies `status, `filepos, `savefcb, `counter, `fcbs, `dir, `mark, `closeflg, `savnrec, `savnxt, `savext
      ensures Valid() && Private(h, FileId(old(fcbs[h].x.name)), old(fcbs), old(dir))
      ensures status == (if sector < 0 then 1 else 0)
      ensures ReadAfter(old(fcbs[h].x), fcbs[h], old(dir), sector, n) && (sector >= 0 ==> fcbs[h].cr == mode)
    {
      n := GetNext(h, true);
      savnrec := 0;
      if status != 0 {
        status := 1;
        return -1, n;
      }
      sector := ReadHere(h, mode);
    }

    // --- random access

    // The program sets the record bytes of a control block.
    method SetRecord(h: int, cr: byte, r0: byte, r1: byte, r2: byte)
      requires Valid() && h in fcbs
      modifies `fcbs
      ensures Valid() && fcbs == old(fcbs)[h := Fcb(old(fcbs[h].x), cr, r0, r1, r2)]
    {
      var g := Fcb(fcbs[h].x, cr, r0, r1, r2);
      assert Holds(dpb, owner, fcbs[h].x);
      PutFcb(dpb, dir, mark, fcbs, alv[..], owner, h, g);
      fcbs := fcbs[h := g];
    }

    // POSITN4 and POSITN5
    method Fail(h: int, code: byte, bad: bool)
      requires Valid() && h in fcbs
      modifies `fcbs, `status
      ensures Valid() && status == code
      ensures var f := old(fcbs[h]);
        fcbs == old(fcbs)[h := f.(x := Unmodified(if bad then f.x.(s2 := 0xC0) else f.x))]
    {
      if bad {
        Restate(h, fcbs[h].x.(s2 := 0xC0));
      }
      status := code;
      Restate(h, Unmodified(fcbs[h].x));
    }

    // The control block stands at the record that its three bytes ask for.
    static predicate AtRecord(f: Fcb) {
      f.cr == RecordOf(f.r0) && f.x.ext == ExtentOf(f.r0, f.r1) && f.x.s2 % 128 == ModuleOf(f.r1)
    }

    // There SETRAN gives back the number asked for.
    static lemma AtRecordCombines(f: Fcb)
      requires AtRecord(f)
      ensures Combined(f.cr, f.x.ext, f.x.s2) == Number(f.r0, f.r1, 0)
    {
      assert f.x.s2 == 32 * (4 * (f.x.s2 / 128)) + ModuleOf(f.r1);
      SplitThenCombine(f.r0, f.r1, f.x.s2);
    }

    // The close at the head of POSITN2.
    method CloseForSeek(h: int)
      requires Valid() && h in fcbs
      modifies `status, `filepos, `savefcb, `counter, `fcbs, `dir, `closeflg
      ensures Valid() && Private(h, FileId(old(fcbs[h].x.name)), old(fcbs), old(dir)) && SameTail(fcbs[h], old(fcbs[h]))
      ensures SameAsk(fcbs[h].x, old(fcbs[h].x))
      ensures old(fcbs[h].x.s2) < 128 && status != 0xFF ==>
        Saved(old(fcbs[h].x), old(dir), dir, filepos) && Live(dir[filepos])
      ensures status == 0xFF ==> CloseFails(old(fcbs[h].x), old(dir)) && old(fcbs[h].x.s2) < 128
      ensures old(fcbs[h].x.s2) >= 128 ==> dir == old(dir)
    {
      ghost var x, d := fcbs[h].x, dir;
      CloseIt(h);
      if status == 0xFF && filepos != NOWHERE {
        assert FirstListed(x, d, filepos) && filepos % 4 == 0 && ClashesWith(x, d[filepos]);
      }
    }

    // The extent that the random record bytes of f ask for.
    static function Asked(f: Fcb): Entry {
      f.x.(ext := ExtentOf(f.r0, f.r1), s2 := ModuleOf(f.r1))
    }

    // The block table x is that of the entry listed for the extent f asks for.
    ghost predicate HoldsAsked(f: Fcb, x: Entry)
      requires dpb.exm >= 0
      reads this
    {
      FirstListed(Asked(f), dir, filepos) && HoldsEntry(Asked(f), x, dir, filepos)
    }

    // Why a close is refused: the extent is not listed, or its table clashes with the first entry of a sector.
    ghost predicate CloseFails(x: Entry, dir0: seq<Entry>)
      requires dpb.exm >= 0
    {
      NotListed(x, dir0) || exists n :: FirstListed(x, dir0, n) && n % 4 == 0 && ClashesWith(x, dir0[n])
    }

    static ghost predicate ClashesWith(x: Entry, e: Entry) {
      |x.ptrs| == |e.ptrs| && FirstClash(x.ptrs, e.ptrs, 0) < |x.ptrs|
    }

    // POSITN2: leave this extent for the one wanted.
    method ChangeExtent(h: int, reading: bool) returns (ghost n: int)
      requires Valid() && h in fcbs
      modifies `status, `filepos, `savefcb, `counter, `fcbs, `dir, `mark, `closeflg
      ensures Valid() && Private(h, FileId(old(fcbs[h].x.name)), old(fcbs), old(dir))
      ensures status == 0 || status == 3 || status == 4 || status == 5
      ensures SameTail(fcbs[h], old(fcbs[h]))
      ensures status == 0 ==>
        fcbs[h].x.ext == ExtentOf(fcbs[h].r0, fcbs[h].r1) && fcbs[h].x.s2 % 128 == ModuleOf(fcbs[h].r1)
      ensures status == 0 ==> HoldsAsked(old(fcbs[h]), fcbs[h].x)
      ensures status == 3 ==> CloseFails(old(fcbs[h].x), old(dir)) && old(fcbs[h].x.s2) < 128
      ensures status == 4 || status == 5 ==> reading == (status == 4) && Unavailable(Asked(old(fcbs[h])), reading)
      ensures reading && old(fcbs[h].x.s2) >= 128 ==> dir == old(dir)
      ensures status == 0 && old(fcbs[h].x.s2) < 128 ==> Saved(old(fcbs[h].x), old(dir), dir, n)
    {
      var f := fcbs[h];
      CloseForSeek(h);
      n := filepos;
      if status == 0xFF {
        Fail(h, 3, true);
        return;
      }
      EnterAsked(h, reading, f);
    }

    // POSITN2 to its end: the control block renamed to the extent that f asks for.
    method EnterAsked(h: int, reading: bool, ghost f: Fcb)
      requires Valid() && h in fcbs && SameAsk(fcbs[h].x, f.x) && SameTail(fcbs[h], f)
      modifies `status, `filepos, `savefcb, `counter, `fcbs, `dir, `mark
      ensures Valid() && Private(h, FileId(old(fcbs[h].x.name)), old(fcbs), old(dir))
      ensures SameTail(fcbs[h], old(fcbs[h])) && LiveKept(old(dir), dir)
      ensures status == 0 || status == if reading then 4 else 5
      ensures status == 0 ==> HoldsAsked(f, fcbs[h].x)
      ensures status == 0 ==> fcbs[h].x.ext == ExtentOf(f.r0, f.r1) && fcbs[h].x.s2 % 128 == ModuleOf(f.r1)
      ensures status != 0 ==> Unavailable(Asked(f), reading)
      ensures reading ==> dir == old(dir)
    {
      Restate(h, Asked(fcbs[h]));
      OpenForSeek(h, reading, f);
    }

    // POSITN3: the extent asked for, or status 4 or 5.
    method OpenForSeek(h: int, reading: bool, ghost f: Fcb)
      requires Valid() && h in fcbs && SameAsk(fcbs[h].x, Asked(f))
      modifies `status, `filepos, `savefcb, `counter, `fcbs, `dir, `mark
      ensures Valid() && Private(h, FileId(old(fcbs[h].x.name)), old(fcbs), old(dir))
      ensures SameTail(fcbs[h], old(fcbs[h])) && LiveKept(old(dir), dir)
      ensures status == 0 || status == if reading then 4 else 5
      ensures status == 0 ==> HoldsAsked(f, fcbs[h].x)
      ensures status == 0 ==> fcbs[h].x.ext == ExtentOf(f.r0, f.r1) && fcbs[h].x.s2 % 128 == ModuleOf(f.r1)
      ensures status != 0 ==> Unavailable(Asked(f), reading)
      ensures reading ==> dir == old(dir)
    {
      var ok := OpenAsked(h, reading, f);
      if ok {
        status := 0;
      } else {
        Fail(h, if reading then 4 else 5, true);
      }
    }

    // OPENIT and GETEMPTY for the extent that f asks for.
    method OpenAsked(h: int, reading: bool, ghost f: Fcb) returns (ok: bool)
      requires Valid() && h in fcbs && SameAsk(fcbs[h].x, Asked(f))
      modifies `status, `filepos, `savefcb, `counter, `fcbs, `dir, `mark
      ensures Valid() && Private(h, FileId(old(fcbs[h].x.name)), old(fcbs), old(dir))
      ensures SameTail(fcbs[h], old(fcbs[h])) && LiveKept(old(dir), dir)
      ensures ok ==> HoldsAsked(f, fcbs[h].x)
      ensures ok ==> fcbs[h].x.ext == ExtentOf(f.r0, f.r1) && fcbs[h].x.s2 % 128 == ModuleOf(f.r1)
      ensures !ok ==> fcbs == old(fcbs) && Unavailable(Asked(f), reading)
      ensures reading ==> dir == old(dir)
    {
      ghost var y := fcbs[h].x;
      ok := OpenOrMake(h, reading);
      AsksTheSame(y, Asked(f), fcbs[h].x, dir, filepos);
    }

    // POSITION: move the control block to the record of its random record bytes.
    method SeekRandom(h: int, reading: bool)
      requires Valid() && h in fcbs
      modifies `status, `filepos, `savefcb, `counter, `fcbs, `dir, `mark, `closeflg
      ensures Valid() && Private(h, FileId(old(fcbs[h].x.name)), old(fcbs), old(dir))
      ensures status == 0 || 3 <= status <= 6
      ensures status == 6 <==> old(fcbs[h].r2) != 0
      ensures status == 0 ==> AtRecord(fcbs[h])
      ensures status == 0 ==> (fcbs[h].x == old(fcbs[h].x) && dir == old(dir)) || HoldsAsked(old(fcbs[h]), fcbs[h].x)
      ensures status == 3 ==> CloseFails(old(fcbs[h].x), old(dir)) && old(fcbs[h].x.s2) < 128
      ensures status == 4 || status == 5 ==> reading == (status == 4) && Unavailable(Asked(old(fcbs[h])), reading)
      ensures reading && old(fcbs[h].x.s2) >= 128 ==> dir == old(dir)
      ensures AtRecord(old(fcbs[h])) && status != 6 ==> status == 0 && fcbs == old(fcbs) && dir == old(dir)
      ensures SameTail(fcbs[h], old(fcbs[h]).(cr := fcbs[h].cr))
    {
      var f := fcbs[h];
      if f.r2 != 0 {
        Fail(h, 6, false);
        return;
      }
      SetRecord(h, RecordOf(f.r0), f.r0, f.r1, f.r2);
      InExtentExact(f);
      if InExtent(f) {
        status := 0;
      } else {
        ghost var n := ChangeExtent(h, reading);
      }
    }

    // POSITN1: the extent asked for is the one that the control block holds.
    static predicate InExtent(f: Fcb) {
      f.x.ext == ExtentOf(f.r0, f.r1) && (ModuleOf(f.r1) - f.x.s2) % 128 == 0
    }

    static lemma InExtentExact(f: Fcb)
      ensures InExtent(f) <==> AtRecord(f.(cr := RecordOf(f.r0)))
      ensures AtRecord(f) ==> InExtent(f) && f.(cr := RecordOf(f.r0)) == f
    {
      if InExtent(f) {
        SameLow(ModuleOf(f.r1), f.x.s2);
      }
    }

    // The write of WRITERAN, the control block positioned.
    method WriteHere(h: int, rec: seq<byte>) returns (sector: int)
      requires Valid() && h in fcbs && status == 0 && fcbs[h].cr < 128
      modifies `status, `filepos, `savefcb, `counter, `fcbs, `dir, `mark, `closeflg, `savnrec, `savnxt, `savext,
               `owner, `disk, alv
      ensures Valid() && FileOnly(h, FileId(old(fcbs[h].x.name)), old(fcbs), old(dir), old(owner), old(disk))
      ensures sector >= 0 ==>
        status == 0 && disk == old(disk)[sector := rec] && WrittenAt(old(fcbs[h]), sector, old(owner))
      ensures sector >= 0 ==> dir == old(dir) && filepos == old(filepos) && Stored(fcbs[h], sector)
      ensures sector >= 0 && AtRecord(old(fcbs[h])) ==> AtRecord(fcbs[h])
      ensures sector >= 0 ==> fcbs[h].x.s2 < 128 && SameTail(fcbs[h], old(fcbs[h]))
      ensures sector < 0 ==> disk == old(disk) && dir == old(dir) && status == 2 && NoSpace(dpb, old(alv[..]))
    {
      ghost var b, n;
      sector, b, n := WtSeq1(h, 0, rec);
      if sector >= 0 {
        StillThere(old(fcbs[h]), fcbs[h], b, sector);
      }
    }

    // A random write leaves the control block at its record.
    lemma StillThere(f: Fcb, g: Fcb, b: word, sector: int)
      requires DpbOk(dpb) && 0 <= PlaceOf(f) < |f.x.ptrs| && g.(cr := f.cr) == AfterWrite(f, b) && g.cr == f.cr
      requires Stored(AfterWrite(f, b), sector)
      ensures Stored(g, sector) && (AtRecord(f) ==> AtRecord(g)) && SameTail(g, f) && g.x.s2 < 128
    {
      assert g == g.(cr := f.cr);
    }

    // WRITERAN: position the control block, giving g, and write the record there.
    method WriteRan(h: int, rec: seq<byte>) returns (sector: int, ghost g: Fcb)
      requires Valid() && h in fcbs
      modifies `status, `filepos, `savefcb, `counter, `fcbs, `dir, `mark, `closeflg, `savnrec, `savnxt, `savext,
               `owner, `disk, alv
      ensures Valid() && FileOnly(h, FileId(old(fcbs[h].x.name)), old(fcbs), old(dir), old(owner), old(disk))
      ensures sector >= 0 ==> status == 0 && disk == old(disk)[sector := rec]
      ensures sector >= 0 ==> AtRecord(g) && g.r0 == old(fcbs[h].r0) && g.r1 == old(fcbs[h].r1)
      ensures sector >= 0 ==> WrittenAt(g, sector, old(owner))
      ensures sector >= 0 ==> AtRecord(fcbs[h]) && fcbs[h].r2 == 0 && Stored(fcbs[h], sector)
      ensures sector >= 0 ==> fcbs[h].r0 == g.r0 && fcbs[h].r1 == g.r1 && fcbs[h].x.s2 < 128
      ensures sector >= 0 ==> g.x == old(fcbs[h].x) || HoldsAsked(old(fcbs[h]), g.x)
      ensures sector < 0 ==> disk == old(disk) && (status == 2 || 3 <= status <= 6)
      ensures status == 2 ==> NoSpace(dpb, old(alv[..]))
      ensures status == 3 ==> CloseFails(old(fcbs[h].x), old(dir))
      ensures status != 4 && (status == 5 ==> Unavailable(Asked(old(fcbs[h])), false))
      ensures status == 6 <==> old(fcbs[h].r2) != 0
    {
      SeekRandom(h, false);
      g := fcbs[h];
      if status != 0 {
        return -1, g;
      }
      ghost var dir1 := dir;
      sector := WriteHere(h, rec);
      OthersKeptTwice(old(dir), dir1, dir, FileId(old(fcbs[h].x.name)));
    }

    // The read of READRAN, the control block positioned.
    method ReadAtRecord(h: int) returns (sector: int)
      requires Valid() && h in fcbs && status == 0 && fcbs[h].cr < 128
      modifies `status, `filepos, `savefcb, `counter, `fcbs, `dir, `mark, `closeflg, `savnrec, `savnxt, `savext
      ensures Valid() && fcbs == old(fcbs) && dir == old(dir) && filepos == old(filepos)
      ensures if sector < 0 then status == 1 && (fcbs[h].x.rc <= fcbs[h].cr || NoBlock(fcbs[h]))
              else status == 0 && fcbs[h].cr < fcbs[h].x.rc && ReadFrom(fcbs[h], sector)
    {
      ghost var n;
      sector, n := RdSeq1(h, 0);
    }

    // READRAN: position the control block, giving g, and read the record there.
    method ReadRan(h: int) returns (sector: int, ghost g: Fcb)
      requires Valid() && h in fcbs
      modifies `status, `filepos, `savefcb, `counter, `fcbs, `dir, `mark, `closeflg, `savnrec, `savnxt, `savext
      ensures Valid() && Private(h, FileId(old(fcbs[h].x.name)), old(fcbs), old(dir))
      ensures sector >= 0 <==> status == 0
      ensures status <= 1 ==> AtRecord(g) && g.r0 == old(fcbs[h].r0) && g.r1 == old(fcbs[h].r1) && fcbs[h] == g
      ensures status <= 1 ==> g.x == old(fcbs[h].x) || HoldsAsked(old(fcbs[h]), g.x)
      ensures status == 0 ==> g.cr < g.x.rc && ReadFrom(g, sector)
      ensures status == 1 ==> g.x.rc <= g.cr || NoBlock(g)
      ensures status <= 1 || status == 3 || status == 4 || status == 6
      ensures status == 3 ==> CloseFails(old(fcbs[h].x), old(dir)) && old(fcbs[h].x.s2) < 128
      ensures status == 4 ==> Unavailable(Asked(old(fcbs[h])), true)
      ensures status == 6 <==> old(fcbs[h].r2) != 0
      ensures old(fcbs[h].x.s2) >= 128 ==> dir == old(dir)
      ensures AtRecord(old(fcbs[h])) && status != 6 ==> g == old(fcbs[h]) && status <= 1
    {
      SeekRandom(h, true);
      g := fcbs[h];
      if status != 0 {
        return -1, g;
      }
      sector := ReadAtRecord(h);
    }

    // --- the allocation map as a whole

    // SETFILE: give every block of a table the bit v; numbers beyond the disk are passed over.
    method SetFile(ptrs: seq<word>, v: bool)
      requires 0 <= dpb.dsm && alv.Length == dpb.dsm / 8 + 1
      modifies alv
      ensures BitsSet(dpb, old(alv[..]), alv[..], Blocks(ptrs), v)
    {
      var i := 0;
      while i < |ptrs|
        invariant 0 <= i <= |ptrs| && BitsSet(dpb, old(alv[..]), alv[..], Blocks(ptrs[..i]), v)
      {
        BlocksNext(ptrs, i);
        if ptrs[i] != 0 && ptrs[i] <= dpb.dsm {
          ghost var before := alv[..];
          StBitmap(alv, ptrs[i], v);
          OneMoreBit(dpb, old(alv[..]), before, Blocks(ptrs[..i]), ptrs[i], v);
        }
        i := i + 1;
      }
      assert ptrs[..|ptrs|] == ptrs;
    }

    // CHKNMBR: raise the mark over the current place.
    method ChkNmbr()
      modifies `mark
      ensures mark == if filepos < old(mark) then old(mark) else filepos + 1
    {
      if filepos >= mark {
        mark := filepos + 1;
      }
    }

    // Where the search stands, the end of the directory if it has found no more.
    ghost function Place(): int
      reads this
    {
      if filepos == NOWHERE then |dir| else filepos
    }

    // The wanted entries before the place n are empty and their blocks free, the rest is as it was.
    ghost predicate ErasedBefore(f: Entry, dir0: seq<Entry>, owner0: map<int, Name>, n: int)
      requires DpbOk(dpb)
      reads this, alv
    {
      && savefcb == f && counter == 12 && Searchable()
      && HalfErased(f, dir0, dir, dpb.exm, n)
      && Mapped(dpb, alv[..], owner) && owner == owner0 - Freed(dir0, f, dpb.exm, n)
    }

    ghost predicate ErasedSoFar(f: Entry, dir0: seq<Entry>, owner0: map<int, Name>)
      requires DpbOk(dpb)
      reads this, alv
    {
      && ErasedBefore(f, dir0, owner0, Place())
      && (filepos != NOWHERE ==> filepos < |dir| && Matches(f, dir[filepos], 12, dpb.exm))
    }

    // ERAFILE: empty every entry of every wanted file and free their blocks. The system stays sound and safe
    // if and only if no open control block names one of these.
    method EraFile(f: Entry)
      requires Valid() && OfFile(f.name[0])
      modifies `filepos, `status, `savefcb, `counter, `dir, `owner, alv
      ensures Sound(dpb, dir, mark, map[], alv[..], owner)
      ensures Valid() <==> Clear(fcbs, Freed(old(dir), f, dpb.exm, |old(dir)|))
      ensures NoSharedBlock(dpb, dir, fcbs, alv[..]) <==> Clear(fcbs, Freed(old(dir), f, dpb.exm, |old(dir)|))
      ensures |dir| == |old(dir)| && forall i :: 0 <= i < |dir| ==> dir[i] == Erased(f, old(dir)[i], dpb.exm)
      ensures owner == old(owner) - Freed(old(dir), f, dpb.exm, |dir|)
    {
      ghost var dir0, owner0 := dir, owner;
      FindWhole(f, 12);
      HalfErasedSkip(f, dir0, dir, dpb.exm, 0, Place());
      while filepos != NOWHERE
        invariant ErasedSoFar(f, dir0, owner0)
        decreases NOWHERE - filepos
      {
        EraseNext(f, dir0, owner0);
      }
      SurvivorsHold(dpb, owner0, dir0, dir, map[], f);
      EraseSafe(dpb, dir, mark, fcbs, alv[..], owner0, Freed(dir0, f, dpb.exm, |dir0|));
    }

    // ERAFIL1: one entry emptied, and on to the next.
    method EraseNext(f: Entry, ghost dir0: seq<Entry>, ghost owner0: map<int, Name>)
      requires DpbOk(dpb) && OfFile(f.name[0]) && filepos != NOWHERE && ErasedSoFar(f, dir0, owner0)
      requires EntriesHold(dpb, owner0, dir0) && InRange(dpb, owner0)
      modifies `filepos, `status, `dir, `owner, alv
      ensures ErasedSoFar(f, dir0, owner0) && filepos > old(filepos)
    {
      EraseHere(f, dir0, owner0);
      FindToErase(f, dir0, owner0);
    }

    method FindToErase(f: Entry, ghost dir0: seq<Entry>, ghost owner0: map<int, Name>)
      requires DpbOk(dpb) && OfFile(f.name[0]) && filepos < |dir| && ErasedBefore(f, dir0, owner0, filepos + 1)
      modifies `filepos, `status
      ensures ErasedSoFar(f, dir0, owner0) && filepos > old(filepos)
    {
      ghost var gone := filepos;
      FindOn(f, 12);
      HalfErasedSkip(f, dir0, dir, dpb.exm, gone + 1, Place());
    }

    method EraseHere(f: Entry, ghost dir0: seq<Entry>, ghost owner0: map<int, Name>)
      requires DpbOk(dpb) && OfFile(f.name[0]) && filepos != NOWHERE && ErasedSoFar(f, dir0, owner0)
      requires EntriesHold(dpb, owner0, dir0) && InRange(dpb, owner0)
      modifies `dir, `owner, alv
      ensures ErasedBefore(f, dir0, owner0, filepos + 1) && |dir| == |old(dir)|
    {
      HalfErasedStep(f, dir0, dir, dpb.exm, filepos, mark);
      EraseStep(f, dir0, owner0);
    }

    // One entry emptied, its blocks freed.
    method EraseStep(f: Entry, ghost dir0: seq<Entry>, ghost owner0: map<int, Name>)
      requires DpbOk(dpb) && OfFile(f.name[0]) && filepos < |dir| == |dir0| && dir[filepos] == dir0[filepos]
      requires Matches(f, dir0[filepos], 12, dpb.exm)
      requires Mapped(dpb, alv[..], owner) && owner == owner0 - Freed(dir0, f, dpb.exm, filepos)
      requires EntriesHold(dpb, owner0, dir0) && InRange(dpb, owner0)
      modifies `dir, `owner, alv
      ensures Mapped(dpb, alv[..], owner) && owner == owner0 - Freed(dir0, f, dpb.exm, filepos + 1)
      ensures dir == old(dir)[filepos := Erased(f, old(dir)[filepos], dpb.exm)]
    {
      var e := dir[filepos];
      dir := dir[filepos := e.(name := e.name[0 := EMPTY])];
      assert Agrees(f, e, 0, dpb.exm);
      assert Holds(dpb, owner0, e);
      SetFile(e.ptrs, false);
      forall b | b in Blocks(e.ptrs)
        ensures 1 <= b <= dpb.dsm && !Reserved(dpb, b)
      {
        BlocksHeld(dpb, owner0, e, b);
      }
      ReleasedAll(dpb, old(alv[..]), alv[..], owner, Blocks(e.ptrs));
      owner := owner - Blocks(e.ptrs);
    }

    // BITMAP1: the map cleared but for the directory's own blocks.
    method ClearMap()
      requires DpbOk(dpb) && alv.Length == dpb.dsm / 8 + 1
      modifies alv
      ensures Fresh(dpb, alv[..])
    {
      var zero: Octet := seq(8, _ => false);
      var i := 0;
      while i < alv.Length
        invariant 0 <= i <= alv.Length && forall k :: 0 <= k < i ==> alv[k] == zero
      {
        alv[i] := zero;
        i := i + 1;
      }
      alv[0], alv[1] := dpb.reserved[0], dpb.reserved[1];
      FreshMap(dpb, alv[..]);
    }

    // What logging in needs: a directory in which no block belongs to two files, and every block of an
    // open control block already closed into it.
    ghost predicate Loggable()
      reads this, alv
    {
      && DpbOk(dpb) && |dir| == dpb.drm + 1 && alv.Length == dpb.dsm / 8 + 1
      && EntriesHold(dpb, owner, dir) && FcbsHold(dpb, owner, fcbs) && InRange(dpb, owner)
      && forall h :: h in fcbs ==> Blocks(fcbs[h].x.ptrs) <= Listed(dir, |dir|)
    }

    // The first n entries are in the map and below the mark, which stands just above a live entry.
    ghost predicate MarkedBefore(base: seq<Octet>, n: int)
      requires 0 <= n <= |dir|
      reads this, alv
    {
      && BitsSet(dpb, base, alv[..], Listed(dir, n), true)
      && (mark == 3 || (3 < mark <= n && Live(dir[mark - 1])))
      && forall i :: 0 <= i < n && Live(dir[i]) ==> i < mark
    }

    // BITMAP3: one live entry.
    method MarkEntry(n: int, ghost base: seq<Octet>)
      requires DpbOk(dpb) && alv.Length == dpb.dsm / 8 + 1 && 0 <= n < |dir| <= NOWHERE && MarkedBefore(base, n)
      modifies `filepos, `mark, alv
      ensures MarkedBefore(base, n + 1)
    {
      filepos := n;
      if Live(dir[n]) {
        ghost var before := alv[..];
        SetFile(dir[n].ptrs, true);
        BitsSetTwice(dpb, base, before, alv[..], Listed(dir, n), Blocks(dir[n].ptrs), true);
        ChkNmbr();
      }
    }

    // BITMAP2: mark the blocks of every live entry, and raise the mark over it.
    method MarkEntries()
      requires DpbOk(dpb) && alv.Length == dpb.dsm / 8 + 1 && |dir| <= NOWHERE
      modifies `filepos, `mark, alv
      ensures MarkedBefore(old(alv[..]), |dir|)
    {
      mark := 3;
      var n := 0;
      while n < |dir|
        invariant 0 <= n <= |dir| && MarkedBefore(old(alv[..]), n)
      {
        MarkEntry(n, old(alv[..]));
        n := n + 1;
      }
      filepos := NOWHERE;
    }

    // BITMAP: build the map and the mark from the directory.
    method BitMap()
      requires Loggable()
      modifies `filepos, `mark, `owner, alv
      ensures Valid() && owner == Restricted(old(owner), Listed(dir, |dir|))
      ensures mark == 3 || (3 < mark <= |dir| && Live(dir[mark - 1]))
    {
      ClearMap();
      ghost var base := alv[..];
      MarkEntries();
      BuiltMap(dpb, dir, owner, base, alv[..]);
      ListedHold(dpb, owner, dir, fcbs);
      owner := Restricted(owner, Listed(dir, |dir|));
    }

    // Log in a disk whose directory gives no block to two files.
    constructor (dpb: Dpb, dir: seq<Entry>, ghost owner: map<int, Name>)
      requires DpbOk(dpb) && |dir| == dpb.drm + 1 && EntriesHold(dpb, owner, dir) && InRange(dpb, owner)
      ensures Valid() && this.dpb == dpb && this.dir == dir && fcbs == map[] && fresh(alv)
    {
      this.dpb, this.dir, this.owner := dpb, dir, owner;
      alv := new Octet[dpb.dsm / 8 + 1];
      fcbs, disk := map[], map[];
      filepos, status, savefcb, counter := NOWHERE, 0, EMPTYFCB, 0;
      savnrec, savnxt, savext, closeflg := 0, 0, 0, false;
      mark := 3;
      new;
      BitMap();
    }

    // --- calls of a program

    // Function 22: a new file. The caller's block table is garbage until GETEMPTY clears it.
    method Make(h: int, f: Fcb)
      requires Valid() && NameOk(f.x.name)
      modifies `status, `filepos, `savefcb, `counter, `fcbs, `dir, `mark
      ensures Valid() && OthersKept(old(dir), dir, FileId(f.x.name))
      ensures filepos == NOWHERE ==> status == 0xFF && fcbs == old(fcbs) - {h} && dir == old(dir) && Full(dir)
      ensures filepos != NOWHERE ==>
        && status == filepos % 4 && FirstEmpty(old(dir), filepos)
        && dir == old(dir)[filepos := Cleared(f.x.(s2 := 0), Nptr(dpb))]
        && fcbs == old(fcbs)[h := f.(x := Unmodified(dir[filepos]))]
      ensures filepos != NOWHERE ==> var e := dir[filepos];
        && e.name == f.x.name && e.ext == f.x.ext && e.s1 == 0 && e.s2 == 0 && e.rc == 0
        && forall i :: 0 <= i < |e.ptrs| ==> e.ptrs[i] == 0
    {
      var g := f.(x := Cleared(f.x.(s2 := 0), Nptr(dpb)));
      assert Holds(dpb, owner, g.x);
      PutFcb(dpb, dir, mark, fcbs, alv[..], owner, h, g);
      fcbs := fcbs[h := g];
      GetEmpty(h);
      if filepos == NOWHERE {
        fcbs := fcbs - {h};
      }
    }

    // Function 15: open the first extent that matches; wild cards are allowed.
    method Open(h: int, f: Fcb)
      requires Valid() && OfFile(f.x.name[0])
      modifies `status, `filepos, `savefcb, `counter, `fcbs
      ensures Valid()
      ensures filepos == NOWHERE ==>
        && status == 0xFF && fcbs == old(fcbs) - {h}
        && forall i :: 0 <= i < |dir| ==> !Matches(f.x.(s2 := 0), dir[i], 15, dpb.exm)
      ensures filepos != NOWHERE ==>
        && status == filepos % 4 && FirstListed(f.x.(s2 := 0), dir, filepos) && Live(dir[filepos])
        && fcbs == old(fcbs)[h := f.(x := Opened(f.x, dir[filepos]))]
    {
      var x := f.x.(s2 := 0);
      FindWhole(x, 15);
      if filepos == NOWHERE {
        fcbs := fcbs - {h};
        return;
      }
      assert Agrees(x, dir[filepos], 0, dpb.exm);
      assert Holds(dpb, owner, dir[filepos]);
      var g := f.(x := Opened(f.x, dir[filepos]));
      PutFcb(dpb, dir, mark, fcbs, alv[..], owner, h, g);
      fcbs := fcbs[h := g];
    }

    // Names of one file ask for the same entries.
    lemma AsksByFile(x: Entry, y: Entry, d: seq<Entry>)
      requires dpb.exm >= 0 && NameOk(x.name) && NameOk(y.name) && FileId(x.name) == FileId(y.name)
      requires x.ext == y.ext && x.s2 == y.s2
      ensures forall i :: 0 <= i < |d| ==> Matches(x, d[i], 15, dpb.exm) == Matches(y, d[i], 15, dpb.exm)
    {
      forall i | 0 <= i < |d|
        ensures Matches(x, d[i], 15, dpb.exm) == Matches(y, d[i], 15, dpb.exm)
      {
        forall b | 0 <= b < 15
          ensures Agrees(x, d[i], b, dpb.exm) == Agrees(y, d[i], b, dpb.exm)
        {
          if b < 12 {
            assert FileId(x.name)[b] == FileId(y.name)[b];
            SameDifference(x.name[b], y.name[b], ByteAt(d[i], b));
          }
        }
      }
    }

    // What a random read makes of the entry e: the sector of the record of its extent ext, or none if the extent
    // has no such record or the record no block.
    static ghost predicate ReadOf(p: Dpb, e: Entry, ext: byte, record: byte, sector: int)
      requires DpbOk(p)
    {
      var i := PlaceIn(p, record, ext);
      && 0 <= i < |e.ptrs|
      && (sector >= 0 <==> record < CountIn(e, ext) && e.ptrs[i] != 0)
      && (sector >= 0 ==> sector == e.ptrs[i] * Pow2(p.bsh) + record % Pow2(p.bsh) && sector < 0x10000)
    }

    lemma ReadIs(g: Fcb, e: Entry, sector: int)
      requires DpbOk(dpb) && |e.ptrs| == Nptr(dpb) && g.x.ptrs == e.ptrs && g.x.rc == CountIn(e, g.x.ext) && g.cr < 128
      requires if sector < 0 then g.x.rc <= g.cr || NoBlock(g) else g.cr < g.x.rc && ReadFrom(g, sector)
      ensures ReadOf(dpb, e, g.x.ext, g.cr, sector)
    {
      BlockIndexFits(dpb, g.cr, g.x.ext % (dpb.exm + 1));
    }

    // The entry that a control block has, opened for f at the entry first and then moved to the record f asks for.
    lemma ReadEntry(f: Fcb, first: int, f1: Fcb, g: Fcb, place: int) returns (n: int)
      requires DpbOk(dpb) && NameOk(f.x.name) && NameOk(f1.x.name) && FirstListed(f.x.(s2 := 0), dir, first)
      requires f1 == f.(x := Opened(f.x, dir[first])) && AtRecord(g) && g.r0 == f.r0 && g.r1 == f.r1
      requires g.x == f1.x || (FirstListed(Asked(f1), dir, place) && HoldsEntry(Asked(f1), g.x, dir, place))
      ensures FirstListed(Asked(f), dir, n) && g.x.ptrs == dir[n].ptrs && g.x.rc == CountIn(dir[n], g.x.ext)
    {
      MatchSameFile(f.x.(s2 := 0), dir[first], 15, dpb.exm);
      MatchSameModule(f.x.(s2 := 0), dir[first], dpb.exm);
      if g.x == f1.x {
        n := first;
        assert Asked(f) == f.x.(s2 := 0);
      } else {
        n := place;
        AsksByFile(Asked(f1), Asked(f), dir);
      }
    }

    // Open a file and read a record: it comes from the first entry listed for the record's extent, n.
    method OpenAndRead(h: int, f: Fcb) returns (sector: int, ghost n: int)
      requires Valid() && NameOk(f.x.name) && f.r2 == 0
      modifies `status, `filepos, `savefcb, `counter, `fcbs, `dir, `mark, `closeflg, `savnrec, `savnxt, `savext
      ensures Valid() && dir == old(dir)
      ensures sector >= 0 <==> status == 0
      ensures status <= 1 || status == 4 || status == 0xFF
      ensures status == 0xFF ==> NotListed(f.x.(s2 := 0), dir)
      ensures status == 4 ==> NotListed(Asked(f), dir)
      ensures status <= 1 ==>
        FirstListed(Asked(f), dir, n) && ReadOf(dpb, dir[n], ExtentOf(f.r0, f.r1), RecordOf(f.r0), sector)
    {
      Open(h, f);
      n := filepos;
      if filepos == NOWHERE {
        return -1, n;
      }
      sector, n := ReadOpened(h, f);
    }

    // The read after the open.
    method ReadOpened(h: int, f: Fcb) returns (sector: int, ghost n: int)
      requires Valid() && NameOk(f.x.name) && f.r2 == 0 && FirstListed(f.x.(s2 := 0), dir, filepos)
      requires h in fcbs && fcbs[h] == f.(x := Opened(f.x, dir[filepos]))
      modifies `status, `filepos, `savefcb, `counter, `fcbs, `dir, `mark, `closeflg, `savnrec, `savnxt, `savext
      ensures Valid() && dir == old(dir)
      ensures sector >= 0 <==> status == 0
      ensures status <= 1 || status == 4
      ensures status == 4 ==> NotListed(Asked(f), dir)
      ensures status <= 1 ==>
        FirstListed(Asked(f), dir, n) && ReadOf(dpb, dir[n], ExtentOf(f.r0, f.r1), RecordOf(f.r0), sector)
    {
      ghost var f1, first := fcbs[h], filepos;
      assert Holds(dpb, owner, f1.x);
      ghost var g;
      sector, g := ReadRan(h);
      n := first;
      if status <= 1 {
        n := ReadEntry(f, first, f1, g, filepos);
        assert Holds(dpb, owner, fcbs[h].x);
        ReadIs(g, dir[n], sector);
      } else {
        StillNotListed(f, f1, first);
      }
    }

    lemma StillNotListed(f: Fcb, f1: Fcb, first: int)
      requires DpbOk(dpb) && NameOk(f.x.name) && NameOk(f1.x.name) && FirstListed(f.x.(s2 := 0), dir, first)
      requires f1 == f.(x := Opened(f.x, dir[first])) && NotListed(Asked(f1), dir)
      ensures NotListed(Asked(f), dir)
    {
      MatchSameFile(f.x.(s2 := 0), dir[first], 15, dpb.exm);
      AsksByFile(Asked(f1), Asked(f), dir);
    }

    // The program gives up a control block.
    method Drop(h: int)
      requires Valid()
      modifies `fcbs
      ensures Valid() && fcbs == old(fcbs) - {h}
    {
      fcbs := fcbs - {h};
    }

    // Whether a call keeps to what the BDOS asks of programs: a name of one file for a new file, no erasing of
    // blocks that an open control block names, no disk reset while one holds blocks not yet closed.
    predicate Permitted(a: Action)
      requires dpb.exm >= 0
      reads this
    {
      match a
      case MakeFile(_, f) => NameOk(f.x.name)
      case OpenFile(_, f) => OfFile(f.x.name[0])
      case WriteNext(h, _) => h in fcbs
      case WriteAt(h, _) => h in fcbs
      case ReadNext(h) => h in fcbs && (fcbs[h].cr < fcbs[h].x.rc ==> InEntry(fcbs[h]))
      case ReadAt(h) => h in fcbs
      case CloseFile(h) => h in fcbs
      case SetBytes(h, _, _, _, _) => h in fcbs
      case GiveUp(_) => true
      case EraseFiles(f) => OfFile(f.name[0]) && Clear(fcbs, Freed(dir, f, dpb.exm, |dir|))
      case Reset => forall h :: h in fcbs ==> Blocks(fcbs[h].x.ptrs) <= Listed(dir, |dir|)
    }

    // Whether a call leaves alone the control block k and the contents of its file: it does not use k, and does
    // not write to the file.
    static predicate Foreign(a: Action, k: int, fcbs: map<int, Fcb>)
      requires k in fcbs
    {
      match a
      case MakeFile(h, _) => h != k
      case OpenFile(h, _) => h != k
      case WriteNext(h, _) => Apart(h, k, fcbs)
      case WriteAt(h, _) => Apart(h, k, fcbs)
      case ReadNext(h) => h != k
      case ReadAt(h) => h != k
      case CloseFile(h) => h != k
      case SetBytes(h, _, _, _, _) => h != k
      case GiveUp(h) => h != k
      case EraseFiles(_) => true
      case Reset => true
    }

    // Two control blocks of different files.
    static predicate Apart(h: int, k: int, fcbs: map<int, Fcb>)
      requires k in fcbs
    {
      h != k && (h in fcbs ==> FileId(fcbs[h].x.name) != FileId(fcbs[k].x.name))
    }

    // The sectors of the blocks that a table names are as they were.
    static ghost predicate SectorsKept(x: Entry, disk0: map<int, seq<byte>>, disk1: map<int, seq<byte>>, bsh: int)
      requires bsh >= 0
    {
      forall s :: s / Pow2(bsh) in Blocks(x.ptrs) ==> SameSector(disk0, disk1, s)
    }

    static ghost predicate SameSector(disk0: map<int, seq<byte>>, disk1: map<int, seq<byte>>, s: int) {
      (s in disk0 <==> s in disk1) && (s in disk0 ==> disk0[s] == disk1[s])
    }

    // A write to another file keeps the sectors of this one.
    static lemma OtherFileKept(p: Dpb, owner: map<int, Name>, x: Entry, id: Name, disk0: map<int, seq<byte>>,
                               disk1: map<int, seq<byte>>)
      requires p.bsh >= 0 && Holds(p, owner, x) && FileId(x.name) != id && DiskKept(disk0, disk1, owner, id, p.bsh)
      ensures SectorsKept(x, disk0, disk1, p.bsh)
    {
      forall s | s / Pow2(p.bsh) in Blocks(x.ptrs)
        ensures SameSector(disk0, disk1, s)
      {
        BlocksHeld(p, owner, x, s / Pow2(p.bsh));
      }
    }

    // The control block k is as it was, and so are the sectors of the blocks that it names.
    ghost predicate Leaves(k: int, fcbs0: map<int, Fcb>, disk0: map<int, seq<byte>>)
      requires k in fcbs0 && dpb.bsh >= 0
      reads this
    {
      k in fcbs && fcbs[k] == fcbs0[k] && SectorsKept(fcbs[k].x, disk0, disk, dpb.bsh)
    }

    lemma LeavesApart(h: int, id: Name, fcbs0: map<int, Fcb>, dir0: seq<Entry>, owner0: map<int, Name>,
                      disk0: map<int, seq<byte>>)
      requires Valid() && h in fcbs0 && id == FileId(fcbs0[h].x.name) && FileOnly(h, id, fcbs0, dir0, owner0, disk0)
      ensures forall k :: k in fcbs0 && Apart(h, k, fcbs0) ==> Leaves(k, fcbs0, disk0)
    {
      forall k | k in fcbs0 && Apart(h, k, fcbs0)
        ensures Leaves(k, fcbs0, disk0)
      {
        assert fcbs[k] == fcbs0[k] && Holds(dpb, owner, fcbs[k].x);
        OtherFileKept(dpb, owner, fcbs[k].x, id, disk0, disk);
      }
    }

    // A sequential or a random write.
    method Write(h: int, random: bool, rec: seq<byte>)
      requires Valid() && h in fcbs && status == 0
      modifies `status, `filepos, `savefcb, `counter, `fcbs, `dir, `mark, `closeflg, `savnrec, `savnxt, `savext,
               `owner, `disk, alv
      ensures Valid()
      ensures forall k :: k in old(fcbs) && Apart(h, k, old(fcbs)) ==> Leaves(k, old(fcbs), old(disk))
    {
      if random {
        var _, _ := WriteRan(h, rec);
      } else {
        var _, _, _ := WtSeq1(h, 1, rec);
      }
      LeavesApart(h, FileId(old(fcbs[h].x.name)), old(fcbs), old(dir), old(owner), old(disk));
    }

    // A call by the program. It leaves every control block that it is foreign to as it is, and the sectors of the
    // blocks which that names.
    method Perform(a: Action)
      requires Valid() && Permitted(a)
      modifies this, alv
      ensures Valid()
      ensures forall k :: k in old(fcbs) && Foreign(a, k, old(fcbs)) ==> Leaves(k, old(fcbs), old(disk))
    {
      status := 0;
      match a {
        case MakeFile(h, f) => Make(h, f);
        case OpenFile(h, f) => Open(h, f);
        case WriteNext(h, rec) => Write(h, false, rec);
        case WriteAt(h, rec) => Write(h, true, rec);
        case ReadNext(h) => var _, _ := RdSeq1(h, 1);
        case ReadAt(h) => var _, _ := ReadRan(h);
        case CloseFile(h) => CloseIt(h);
        case SetBytes(h, cr, r0, r1, r2) => SetRecord(h, cr, r0, r1, r2);
        case GiveUp(h) => Drop(h);
        case EraseFiles(f) => EraFile(f);
        case Reset => BitMap();
      }
    }

    // Calls of other programs, which leave the control block h and the sectors of its blocks alone.
    method Meanwhile(h: int, actions: seq<Action>)
      requires Valid() && h in fcbs
      modifies this, alv
      ensures Valid() && Leaves(h, old(fcbs), old(disk))
    {
      for i := 0 to |actions|
        invariant Valid() && Leaves(h, old(fcbs), old(disk))
      {
        if Permitted(actions[i]) && Foreign(actions[i], h, fcbs) {
          Perform(actions[i]);
        }
      }
    }

    // A record written is read back after every run of calls that do not use its control block or write to its file.
    method WriteThenRead(h: int, rec: seq<byte>, actions: seq<Action>) returns (sector: int)
      requires Valid() && h in fcbs
      modifies this, alv
      ensures Valid()
      ensures sector >= 0 ==> status == 0 && sector in disk && disk[sector] == rec
      ensures sector < 0 ==>
        || (status == 2 && NoSpace(dpb, old(alv[..]))) || (status == 3 && CloseFails(old(fcbs[h].x), old(dir)))
        || (status == 5 && Unavailable(Asked(old(fcbs[h])), false)) || (status == 6 && old(fcbs[h].r2) != 0)
    {
      ghost var g;
      sector, g := WriteRan(h, rec);
      if sector < 0 {
        return;
      }
      SectorNamed(fcbs[h], sector);
      Meanwhile(h, actions);
      sector, g := ReadRan(h);
    }

    // The same for sequential access, the record set back to the one written, up to the end of an extent.
    method AppendThenRead(h: int, rec: seq<byte>, actions: seq<Action>) returns (sector: int)
      requires Valid() && h in fcbs && fcbs[h].cr != 127
      modifies this, alv
      ensures Valid()
      ensures sector >= 0 ==> status == 0 && sector in disk && disk[sector] == rec
      ensures sector < 0 ==> Refused(old(fcbs[h].cr), old(alv[..]))
    {
      status := 0;
      var f := fcbs[h];
      ghost var b, n;
      sector, b, n := WtSeq1(h, 1, rec);
      if sector < 0 {
        return;
      }
      SectorNamed(AfterWrite(f, b), sector);
      Meanwhile(h, actions);
      sector := ReadAgain(h, f.cr, sector);
    }

    // A sequential read of a record that the control block has, wherever it stands.
    method ReadAgain(h: int, cr: byte, ghost at: int) returns (sector: int)
      requires Valid() && h in fcbs && Stored(fcbs[h].(cr := cr), at)
      modifies `status, `filepos, `savefcb, `counter, `fcbs, `dir, `mark, `closeflg, `savnrec, `savnxt, `savext
      ensures Valid() && status == 0 && sector == at
    {
      SetRecord(h, cr, fcbs[h].r0, fcbs[h].r1, fcbs[h].r2);
      status := 0;
      ghost var n;
      sector, n := RdSeq1(h, 1);
    }

    lemma SectorNamed(f: Fcb, sector: int)
      requires DpbOk(dpb) && Stored(f, sector)
      ensures sector / Pow2(dpb.bsh) in Blocks(f.x.ptrs)
    {
    }

    // Over every run of calls the live entries stay below the mark and no block comes to two files.
    method Run(actions: seq<Action>)
      requires Valid()
      modifies this, alv
      ensures Valid() && BelowMark(dir, mark) && NoSharedBlock(dpb, dir, fcbs, alv[..])
    {
      for i := 0 to |actions|
        invariant Valid()
      {
        if Permitted(actions[i]) {
          Perform(actions[i]);
        }
      }
      SoundIsSafe(dpb, dir, mark, fcbs, alv[..], owner);
    }
  }
}
