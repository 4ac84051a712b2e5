/**
  A host directory seen as a CP/M disk (src/biosapi.cpp, src/biosapi.h): which byte of which host file a data
  sector stands for, and why no two sectors share one.
 */
module HostDirectory {
  import opened Arithmetic

  type byte = x: int | 0 <= x < 0x100
  type Name = string    // user number and file name, as GetName gives them
  type Path = string

  // A directory entry: an extent of a file with its record count and block numbers.
  datatype Extent = Extent(used: bool, name: Name, xl: int, xh: int, rc: int, ptrs: seq<int>)

  // Sectors in a block, block numbers in an extent, blocks of the directory, blocks of the disk.
  datatype Shape = Shape(spb: int, bps: int, first: int, last: int)

  ghost predicate ShapeOk(p: Shape) {
    && p.spb > 0 && (p.bps == 8 || p.bps == 16) && 0 < p.first
    && p.last <= 0x10000 && (p.bps == 16 ==> p.last <= 0x100)
  }

  // The shape of a disk parameter block, its directory taking the first blocks.
  function ShapeOf(bsh: int, dsm: int, first: int): Shape
    requires bsh >= 0
  {
    Shape(Pow2(bsh), if 128 * Pow2(bsh) > 1024 && dsm + 1 >= 256 then 8 else 16, first, dsm + 1)
  }

  // CP/M allows blocks of 1024 bytes on disks of less than 256 blocks only; then byte pointers suffice.
  lemma ShapeOfOk(bsh: int, dsm: int, first: int)
    requires 3 <= bsh <= 7 && 0 <= dsm < 0x10000 && (bsh == 3 ==> dsm < 256) && 0 < first
    ensures ShapeOk(ShapeOf(bsh, dsm, first))
  {
    PowValues();
    if bsh > 3 {
      PowRises(4, bsh);
    }
  }

  // The constructor's loop over the allocation word, bits top first: the blocks up to the last one set.
  // The zeros that a shift brings in at the bottom do not matter and are left off.
  method DirectoryBlocks(a01: seq<bool>) returns (n: int)
    ensures 0 <= n <= |a01| && true !in a01[n..] && (n > 0 ==> a01[n - 1])
  {
    n := 0;
    var left := a01;
    while true in left
      invariant 0 <= n <= |a01| && left == a01[n..] && (n > 0 ==> true in a01[n - 1..])
      decreases |a01| - n
    {
      left := left[1..];
      n := n + 1;
    }
    if n > 0 {
      assert a01[n - 1..] == [a01[n - 1]] + a01[n..];
    }
  }

  // --- extent numbers

  // GetExtNumber: Xh is shifted by eight bits.
  function ExtNumber(xl: int, xh: int): int { (0x100 * xh + xl) % 0x200 }

  // addfile splits an extent number at four bits, so the two agree on the first sixteen extents only.
  lemma SplitAgrees(d: int)
    requires 0 <= d
    ensures ExtNumber(d % 16, d / 16 % 32) == d <==> d < 16
  {
    var k := d / 16 % 32;
    assert (0x100 * k + d % 16) % 0x200 == 0x100 * (k % 2) + d % 16 by {
      assert 0x100 * k + d % 16 == 0x200 * (k / 2) + (0x100 * (k % 2) + d % 16);
    }
    assert d == 16 * (d / 16) + d % 16;
    assert d < 0x200 ==> d / 16 == k;
    assert k % 2 == 1 ==> k != 16;
  }

  // --- owners

  // Place of a block number in a table, or -1.
  ghost function SlotOf(ptrs: seq<int>, block: int): (b: int)
    ensures -1 <= b < |ptrs|
    ensures b >= 0 ==> ptrs[b] == block
    ensures b < 0 ==> block !in ptrs
    ensures forall c :: 0 <= c < b ==> ptrs[c] != block
  {
    if ptrs == [] then -1
    else if ptrs[0] == block then 0
    else
      var b := SlotOf(ptrs[1..], block);
      if b < 0 then -1 else b + 1
  }

  // The extent i holds the block at place b.
  ghost predicate At(dir: seq<Extent>, i: int, b: int, block: int) {
    0 <= i < |dir| && dir[i].used && 0 <= b < |dir[i].ptrs| && dir[i].ptrs[b] == block
  }

  // The first extent that holds the block, or -1.
  ghost function OwnerOf(dir: seq<Extent>, block: int, n: int): (i: int)
    requires 0 <= n <= |dir|
    ensures -1 <= i < n
    ensures i >= 0 ==> dir[i].used && block in dir[i].ptrs
    ensures i < 0 ==> forall j :: 0 <= j < n ==> !dir[j].used || block !in dir[j].ptrs
  {
    if n == 0 then -1
    else
      var i := OwnerOf(dir, block, n - 1);
      if i >= 0 then i
      else if dir[n - 1].used && block in dir[n - 1].ptrs then n - 1
      else -1
  }

  ghost function Owner(dir: seq<Extent>, block: int): int { OwnerOf(dir, block, |dir|) }

  // No data block is held twice.
  ghost predicate OneOwner(dir: seq<Extent>, first: int) {
    forall i, b, j, c, block :: At(dir, i, b, block) && At(dir, j, c, block) && first <= block ==> i == j && b == c
  }

  // No two used extents are the same part of the same file.
  ghost predicate DistinctExtents(dir: seq<Extent>) {
    forall i, j :: 0 <= i < j < |dir| && dir[i].used && dir[j].used && dir[i].name == dir[j].name ==>
      ExtNumber(dir[i].xl, dir[i].xh) != ExtNumber(dir[j].xl, dir[j].xh)
  }

  // Every file has its own host file.
  ghost predicate Mapped(dir: seq<Extent>, names: map<Name, Path>, host: map<Path, seq<byte>>) {
    && (forall i :: 0 <= i < |dir| && dir[i].used ==> dir[i].name in names)
    && (forall n :: n in names ==> names[n] in host)
    && (forall n, m :: n in names && m in names && names[n] == names[m] ==> n == m)
  }

  ghost predicate Sane(p: Shape, dir: seq<Extent>, names: map<Name, Path>, host: map<Path, seq<byte>>) {
    && ShapeOk(p) && (forall i :: 0 <= i < |dir| ==> |dir[i].ptrs| == p.bps)
    && OneOwner(dir, p.first) && DistinctExtents(dir) && Mapped(dir, names, host)
  }

  // --- from a sector to a byte of a host file

  // The block within its file, counted over all extents.
  ghost function FileBlock(p: Shape, e: Extent, block: int): int {
    ExtNumber(e.xl, e.xh) * p.bps + SlotOf(e.ptrs, block)
  }

  function Record(spb: int, fileBlock: int, s: int): int { fileBlock * spb + s }

  // The record of the host file that a sector stands for.
  ghost function RecordAt(p: Shape, dir: seq<Extent>, sid: int): int
    requires p.spb > 0 && Owner(dir, sid / p.spb) >= 0
  {
    Record(p.spb, FileBlock(p, dir[Owner(dir, sid / p.spb)], sid / p.spb), sid % p.spb)
  }

  ghost function PathAt(p: Shape, dir: seq<Extent>, names: map<Name, Path>, sid: int): Path
    requires p.spb > 0 && Owner(dir, sid / p.spb) >= 0 && dir[Owner(dir, sid / p.spb)].name in names
  {
    names[dir[Owner(dir, sid / p.spb)].name]
  }

  lemma RecordUnique(spb: int, k: int, s: int, l: int, t: int)
    requires spb > 0 && 0 <= s < spb && 0 <= t < spb && Record(spb, k, s) == Record(spb, l, t)
    ensures k == l && s == t
  {
    DivisionUnique(spb, k, s, l, t);
  }

  lemma SectorUnique(spb: int, a: int, b: int)
    requires spb > 0 && a / spb == b / spb && a % spb == b % spb
    ensures a == b
  {
    assert a == spb * (a / spb) + a % spb;
    assert b == spb * (b / spb) + b % spb;
  }

  // Two data sectors never stand for the same record of the same host file.
  lemma PlaceUnique(p: Shape, dir: seq<Extent>, names: map<Name, Path>, host: map<Path, seq<byte>>, a: int, b: int)
    requires Sane(p, dir, names, host) && p.first <= a / p.spb && p.first <= b / p.spb
    requires Owner(dir, a / p.spb) >= 0 && Owner(dir, b / p.spb) >= 0
    requires PathAt(p, dir, names, a) == PathAt(p, dir, names, b) && RecordAt(p, dir, a) == RecordAt(p, dir, b)
    ensures a == b
  {
    var i, j := Owner(dir, a / p.spb), Owner(dir, b / p.spb);
    var s, t := SlotOf(dir[i].ptrs, a / p.spb), SlotOf(dir[j].ptrs, b / p.spb);
    RecordUnique(p.spb, FileBlock(p, dir[i], a / p.spb), a % p.spb, FileBlock(p, dir[j], b / p.spb), b % p.spb);
    RecordUnique(p.bps, ExtNumber(dir[i].xl, dir[i].xh), s, ExtNumber(dir[j].xl, dir[j].xh), t);
    assert dir[i].name == dir[j].name;
    assert i == j;
    SectorUnique(p.spb, a, b);
  }

  // A held data block is held by its owner alone.
  lemma OnlyOwner(p: Shape, dir: seq<Extent>, block: int, i: int)
    requires OneOwner(dir, p.first) && p.first <= block && 0 <= i < |dir| && dir[i].used && block in dir[i].ptrs
    ensures i == Owner(dir, block)
  {
    var o := Owner(dir, block);
    var b, c := SlotOf(dir[i].ptrs, block), SlotOf(dir[o].ptrs, block);
    assert At(dir, i, b, block) && At(dir, o, c, block);
  }

  lemma OwnerAndSlot(p: Shape, dir: seq<Extent>, i: int, b: int, block: int)
    requires OneOwner(dir, p.first) && At(dir, i, b, block) && p.first <= block
    ensures Owner(dir, block) == i && SlotOf(dir[i].ptrs, block) == b
  {
    OnlyOwner(p, dir, block, i);
    assert At(dir, i, SlotOf(dir[i].ptrs, block), block);
  }

  lemma SplitSector(spb: int, block: int, s: int)
    requires spb > 0 && 0 <= s < spb
    ensures Record(spb, block, s) / spb == block && Record(spb, block, s) % spb == s
  {
    var x := Record(spb, block, s);
    assert x == x / spb * spb + x % spb;
    RecordUnique(spb, block, s, x / spb, x % spb);
  }

  // The sector s of the block at place b of extent i stands for that sector of that block of the file.
  lemma SectorStands(p: Shape, dir: seq<Extent>, i: int, b: int, s: int)
    requires p.spb > 0 && OneOwner(dir, p.first) && 0 <= i < |dir| && dir[i].used && 0 <= b < |dir[i].ptrs|
    requires p.first <= dir[i].ptrs[b] && 0 <= s < p.spb
    ensures var sid := Record(p.spb, dir[i].ptrs[b], s);
      && sid / p.spb == dir[i].ptrs[b] && Owner(dir, sid / p.spb) == i
      && RecordAt(p, dir, sid) == Record(p.spb, Record(p.bps, ExtNumber(dir[i].xl, dir[i].xh), b), s)
  {
    var block := dir[i].ptrs[b];
    SplitSector(p.spb, block, s);
    assert At(dir, i, b, block);
    OwnerAndSlot(p, dir, i, b, block);
  }

  // --- host files

  // WriteHost: 128 bytes over or beyond the old contents; a gap reads as zeros.
  function Patched(file: seq<byte>, pos: int, data: seq<byte>): (r: seq<byte>)
    requires 0 <= pos && |data| == 128
    ensures |r| == if pos + 128 > |file| then pos + 128 else |file|
    ensures r[pos..pos + 128] == data
    ensures forall i :: 0 <= i < |file| && !(pos <= i < pos + 128) ==> r[i] == file[i]
  {
    var n := if pos + 128 > |file| then pos + 128 else |file|;
    var r := seq(n, i requires 0 <= i < n =>
      if pos <= i < pos + 128 then data[i - pos] else if i < |file| then file[i] else 0);
    assert forall i :: 0 <= i < 128 ==> r[pos + i] == data[i];
    assert r[pos..pos + 128] == data;
    r
  }

  // ReadHost: what the file has of the 128 bytes; the rest of the buffer stays.
  function Overlaid(file: seq<byte>, pos: int, dma: seq<byte>): (r: seq<byte>)
    requires 0 <= pos && |dma| == 128
    ensures |r| == 128
    ensures forall i :: 0 <= i < 128 ==> r[i] == if pos + i < |file| then file[pos + i] else dma[i]
  {
    seq(128, i requires 0 <= i < 128 => if pos + i < |file| then file[pos + i] else dma[i])
  }

  // The buffer has the bytes of record r that the file has, and keeps its own beyond the end.
  ghost predicate RecordRead(file: seq<byte>, r: int, dma: seq<byte>, data: seq<byte>) {
    && 0 <= r && |dma| == 128 && |data| == 128
    && forall i :: 0 <= i < 128 ==> data[i] == if 128 * r + i < |file| then file[128 * r + i] else dma[i]
  }

  // So a full record is read whole.
  lemma FullRead(file: seq<byte>, r: int, dma: seq<byte>, data: seq<byte>)
    requires RecordRead(file, r, dma, data) && HasRecord(file, r)
    ensures data == file[128 * r..128 * r + 128]
  {
  }

  // The file has some byte of a record.
  predicate HasPart(file: seq<byte>, r: int) { 0 <= r && 128 * r < |file| }

  // The file has all 128 bytes of a record.
  predicate HasRecord(file: seq<byte>, r: int) { 0 <= r && 128 * r + 128 <= |file| }

  // Writing one record keeps every other one.
  lemma PatchKeeps(file: seq<byte>, r: int, data: seq<byte>, q: int)
    requires 0 <= r && |data| == 128 && HasRecord(file, q) && q != r
    ensures HasRecord(Patched(file, 128 * r, data), q)
    ensures Patched(file, 128 * r, data)[128 * q..128 * q + 128] == file[128 * q..128 * q + 128]
  {
    var after := Patched(file, 128 * r, data);
    assert 128 * q + 128 <= 128 * r || 128 * r + 128 <= 128 * q;
    assert forall i :: 128 * q <= i < 128 * q + 128 ==> after[i] == file[i];
  }

  // Some key that is left, in whatever order the map gives them.
  method Pick(left: set<int>) returns (sid: int)
    requires left != {}
    ensures sid in left
  {
    EmptyOrNot(left);
    sid :| sid in left;
  }

  lemma EmptyOrNot(left: set<int>)
    ensures left == {} || exists s :: s in left
  {
    if !(exists s :: s in left) {
      assert left == {};
    }
  }
}
