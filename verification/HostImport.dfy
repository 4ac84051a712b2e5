/**
  How host files become extents of the CP/M directory (addfile in src/biosapi.cpp), and why every record of
  an imported file is found again under the sector that the directory gives it.
 */
module HostImport {
  import opened HostDirectory

  function BlocksOf(p: Shape, size: nat): int
    requires p.spb > 0
  {
    (size + 128 * p.spb - 1) / (128 * p.spb)
  }

  // They are enough, and one fewer is not.
  lemma BlocksLeast(p: Shape, size: nat)
    requires p.spb > 0
    ensures (BlocksOf(p, size) - 1) * (128 * p.spb) < size <= BlocksOf(p, size) * (128 * p.spb)
  {
    var m := 128 * p.spb;
    var n, c := (size + m - 1) / m, (size + m - 1) % m;
    assert size + m - 1 == n * m + c;
    assert (n - 1) * m == n * m - m;
  }

  // Extents that a file occupies: one more than needed when the last one is full.
  function ExtentsOf(p: Shape, total: int): int
    requires p.bps > 0
  {
    1 + total / p.bps
  }

  // All but the last are full, and the last is not.
  lemma ExtentsExact(p: Shape, total: int)
    requires p.bps > 0 && 0 <= total
    ensures (ExtentsOf(p, total) - 1) * p.bps <= total < ExtentsOf(p, total) * p.bps
  {
    var q := total / p.bps;
    assert total == q * p.bps + total % p.bps;
    assert (q + 1) * p.bps == q * p.bps + p.bps;
  }

  // Extent d of a file of `total` blocks that are numbered from `free` on.
  function ExtentFor(p: Shape, name: Name, d: int, free: int, total: int): Extent
    requires p.bps > 0
  {
    Extent(true, name, d % 16, d / 16 % 32, CountFor(p, d, total),
           seq(p.bps, b => if d * p.bps + b < total then free + d * p.bps + b else 0))
  }

  // Blocks of a file that are in its extent d.
  function InExtent(p: Shape, d: int, total: int): int {
    if total - d * p.bps < p.bps then total - d * p.bps else p.bps
  }

  // The byte that is stored for the records of n blocks, and for those of extent d.
  function CountOf(p: Shape, n: int): int { n * p.spb % 0x100 }

  function CountFor(p: Shape, d: int, total: int): int { CountOf(p, InExtent(p, d, total)) }

  // Where an entry is one extent, the count ends with the extent or with the last block of the file.
  lemma CountExact(p: Shape, d: int, total: int)
    requires p.spb > 0 && p.bps > 0 && p.bps * p.spb == 128 && 0 <= d < ExtentsOf(p, total) && 0 <= total
    ensures 128 * d + CountFor(p, d, total) == if total * p.spb < 128 * (d + 1) then total * p.spb else 128 * (d + 1)
  {
    ExtentsExact(p, total);
    var k := total - d * p.bps;
    LaterBlocks(p.bps, d, ExtentsOf(p, total) - 1);
    Sectors(p.spb, p.bps, d, total, k);
    Compared(p.spb, p.bps, k);
  }

  lemma LaterBlocks(bps: int, d: int, last: int)
    requires 0 < bps && d <= last
    ensures d * bps <= last * bps
  {
  }

  lemma Sectors(spb: int, bps: int, d: int, total: int, k: int)
    requires bps * spb == 128 && k == total - d * bps
    ensures total * spb == 128 * d + k * spb
  {
    assert d * bps * spb == d * (bps * spb);
    assert (d * bps + k) * spb == d * bps * spb + k * spb;
  }

  lemma Compared(spb: int, bps: int, k: int)
    requires 0 < spb && bps * spb == 128 && 0 <= k
    ensures 0 <= k * spb && (k < bps <==> k * spb < 128)
  {
    if k < bps {
      LaterBlocks(spb, k + 1, bps);
      assert (k + 1) * spb == k * spb + spb;
    } else {
      LaterBlocks(spb, bps, k);
    }
    LaterBlocks(spb, 0, k);
  }

  // The extent's number in the directory is its number in the file for the first sixteen extents only;
  // after them GetExtNumber puts its blocks elsewhere in the host file.
  lemma ExtentInPlace(p: Shape, name: Name, d: int, free: int, total: int)
    requires p.bps > 0 && d >= 0
    ensures var e := ExtentFor(p, name, d, free, total); ExtNumber(e.xl, e.xh) == d <==> d < 16
  {
    SplitAgrees(d);
  }

  // --- a directory made by importing

  ghost predicate Zeros(ptrs: seq<int>) { forall b :: 0 <= b < |ptrs| ==> ptrs[b] == 0 }

  // Block numbers lie between the directory blocks and the next free block; unused extents have none.
  ghost predicate PointersIn(p: Shape, dir: seq<Extent>, free: int) {
    forall i :: 0 <= i < |dir| ==>
      && |dir[i].ptrs| == p.bps
      && (!dir[i].used ==> Zeros(dir[i].ptrs))
      && forall b :: 0 <= b < |dir[i].ptrs| ==> dir[i].ptrs[b] == 0 || p.first <= dir[i].ptrs[b] < free
  }

  // Block k of the file is in extent i.
  predicate HasBlock(p: Shape, dir: seq<Extent>, i: int, name: Name, k: int)
    requires p.bps > 0
  {
    && 0 <= i < |dir| && dir[i].used && dir[i].name == name && ExtNumber(dir[i].xl, dir[i].xh) == k / p.bps
    && |dir[i].ptrs| == p.bps && dir[i].ptrs[k % p.bps] != 0
  }

  ghost predicate Complete(p: Shape, dir: seq<Extent>, name: Name, total: int)
    requires p.bps > 0
  {
    forall k :: 0 <= k < total ==> Present(p, dir, name, k)
  }

  ghost predicate Present(p: Shape, dir: seq<Extent>, name: Name, k: int)
    requires p.bps > 0
  {
    exists i :: HasBlock(p, dir, i, name, k)
  }

  ghost predicate AllComplete(p: Shape, dir: seq<Extent>, names: map<Name, Path>, host: map<Path, seq<byte>>)
    requires p.bps > 0 && p.spb > 0
  {
    forall n :: n in names && names[n] in host ==> Complete(p, dir, n, BlocksOf(p, |host[names[n]]|))
  }

  ghost predicate ImportOk(p: Shape, dir: seq<Extent>, free: int, names: map<Name, Path>, host: map<Path, seq<byte>>) {
    && ShapeOk(p) && p.first <= free
    && PointersIn(p, dir, free) && OneOwner(dir, p.first) && DistinctExtents(dir) && Mapped(dir, names, host)
    && InOrder(dir) && AllComplete(p, dir, names, host) && Counted(p, dir, names, host)
  }

  // Every extent has the record count of its blocks.
  ghost predicate Counted(p: Shape, dir: seq<Extent>, names: map<Name, Path>, host: map<Path, seq<byte>>)
    requires p.spb > 0
  {
    forall i :: 0 <= i < |dir| && dir[i].used && dir[i].name in names && names[dir[i].name] in host ==>
      dir[i].rc == CountFor(p, Numbered(dir[i]), BlocksOf(p, |host[names[dir[i].name]]|))
  }

  // The number that addfile gave an extent.
  function Numbered(e: Extent): int { e.xl + 16 * e.xh }

  // The seventeenth extent, if there is one, is empty.
  ghost predicate NumberOk(e: Extent) {
    0 <= e.xl < 16 && 0 <= Numbered(e) <= 16 && (Numbered(e) == 16 ==> Zeros(e.ptrs))
  }

  // The extents of a file are listed by rising numbers.
  ghost predicate InOrder(dir: seq<Extent>) {
    && (forall i :: 0 <= i < |dir| && dir[i].used ==> NumberOk(dir[i]))
    && (forall i, j :: 0 <= i < j < |dir| && dir[i].used && dir[j].used && dir[i].name == dir[j].name ==>
          Numbered(dir[i]) < Numbered(dir[j]))
  }

  // --- one more file

  // Every entry before place i is in use.
  ghost predicate UsedBefore(dir: seq<Extent>, i: int) { forall j :: 0 <= j < i && j < |dir| ==> dir[j].used }

  // The extents of a new file stand at these places, which were unused; everything else is as it was.
  ghost predicate Added(p: Shape, dir: seq<Extent>, after: seq<Extent>, places: seq<int>, name: Name, free: int,
                        total: int)
    requires p.bps > 0
  {
    && |after| == |dir|
    && (forall d :: 0 <= d < |places| ==>
          0 <= places[d] < |dir| && !dir[places[d]].used && after[places[d]] == ExtentFor(p, name, d, free, total))
    && (forall d, e :: 0 <= d < e < |places| ==> places[d] < places[e])
    && (forall d :: 0 <= d < |places| ==> UsedBefore(after, places[d]))
    && (forall i :: 0 <= i < |dir| && i !in places ==> after[i] == dir[i])
  }

  // The extent at place i is extent d of the new file.
  lemma NewExtent(p: Shape, dir: seq<Extent>, after: seq<Extent>, places: seq<int>, name: Name, free: int,
                  total: int, i: int)
      returns (d: int)
    requires p.bps > 0 && Added(p, dir, after, places, name, free, total) && i in places
    ensures 0 <= d < |places| && places[d] == i && after[i] == ExtentFor(p, name, d, free, total)
  {
    d :| 0 <= d < |places| && places[d] == i;
  }

  lemma AddedPointers(p: Shape, dir: seq<Extent>, after: seq<Extent>, places: seq<int>, name: Name, free: int,
                      total: int)
    requires ShapeOk(p) && p.first <= free && 0 <= total && PointersIn(p, dir, free)
    requires Added(p, dir, after, places, name, free, total)
    ensures PointersIn(p, after, free + total)
  {
    forall i | 0 <= i < |after|
      ensures |after[i].ptrs| == p.bps && (!after[i].used ==> Zeros(after[i].ptrs))
      ensures forall b :: 0 <= b < |after[i].ptrs| ==>
        after[i].ptrs[b] == 0 || p.first <= after[i].ptrs[b] < free + total
    {
      if i in places {
        var d := NewExtent(p, dir, after, places, name, free, total, i);
        assert d * p.bps >= 0;
      } else {
        assert after[i] == dir[i];
      }
    }
  }

  // A block number in the new directory is either an old one in its old place or a new one.
  lemma WherePointer(p: Shape, dir: seq<Extent>, after: seq<Extent>, places: seq<int>, name: Name, free: int,
                     total: int, i: int, b: int, block: int)
    requires ShapeOk(p) && p.first <= free && PointersIn(p, dir, free)
    requires Added(p, dir, after, places, name, free, total) && At(after, i, b, block) && p.first <= block
    ensures i in places ==> block >= free
    ensures i in places ==>
      exists d :: 0 <= d < |places| && places[d] == i && b < p.bps && block == free + Record(p.bps, d, b)
    ensures i !in places ==> At(dir, i, b, block) && block < free
  {
    if i in places {
      var d := NewExtent(p, dir, after, places, name, free, total, i);
      assert after[i].ptrs[b] == free + d * p.bps + b;
      Above(p.bps, d, b);
    } else {
      assert after[i] == dir[i];
    }
  }

  lemma AddedOneOwner(p: Shape, dir: seq<Extent>, after: seq<Extent>, places: seq<int>, name: Name, free: int,
                      total: int)
    requires ShapeOk(p) && p.first <= free && PointersIn(p, dir, free) && OneOwner(dir, p.first)
    requires Added(p, dir, after, places, name, free, total)
    ensures OneOwner(after, p.first)
  {
    forall i, b, j, c, block | At(after, i, b, block) && At(after, j, c, block) && p.first <= block
      ensures i == j && b == c
    {
      SamePointer(p, dir, after, places, name, free, total, i, b, j, c, block);
    }
  }

  lemma SamePointer(p: Shape, dir: seq<Extent>, after: seq<Extent>, places: seq<int>, name: Name, free: int, total: int,
                    i: int, b: int, j: int, c: int, block: int)
    requires ShapeOk(p) && p.first <= free && PointersIn(p, dir, free) && OneOwner(dir, p.first)
    requires Added(p, dir, after, places, name, free, total)
    requires At(after, i, b, block) && At(after, j, c, block) && p.first <= block
    ensures i == j && b == c
  {
    WherePointer(p, dir, after, places, name, free, total, i, b, block);
    WherePointer(p, dir, after, places, name, free, total, j, c, block);
    assert i in places <==> j in places;
    if i in places {
      var d :| 0 <= d < |places| && places[d] == i && b < p.bps && block == free + Record(p.bps, d, b);
      var e :| 0 <= e < |places| && places[e] == j && c < p.bps && block == free + Record(p.bps, e, c);
      RecordUnique(p.bps, d, b, e, c);
    }
  }

  lemma Above(m: int, d: int, b: int)
    requires 0 <= d && 0 <= m && 0 <= b
    ensures Record(m, d, b) >= 0
  {
  }

  lemma AddedDistinct(p: Shape, dir: seq<Extent>, after: seq<Extent>, places: seq<int>, name: Name, free: int,
                      total: int)
    requires ShapeOk(p) && DistinctExtents(dir) && |places| <= 32
    requires Added(p, dir, after, places, name, free, total)
    requires forall i :: 0 <= i < |dir| && dir[i].used ==> dir[i].name != name
    ensures DistinctExtents(after)
  {
    forall i, j | 0 <= i < j < |after| && after[i].used && after[j].used && after[i].name == after[j].name
      ensures ExtNumber(after[i].xl, after[i].xh) != ExtNumber(after[j].xl, after[j].xh)
    {
      assert i in places <==> j in places by {
        assert i !in places ==> after[i] == dir[i];
        assert j !in places ==> after[j] == dir[j];
      }
      if i in places {
        var d := NewExtent(p, dir, after, places, name, free, total, i);
        var e := NewExtent(p, dir, after, places, name, free, total, j);
        SplitDistinct(d, e);
      }
    }
  }

  // The first 32 extents of a file get numbers of their own.
  lemma SplitDistinct(d: int, e: int)
    requires 0 <= d < 32 && 0 <= e < 32 && d != e
    ensures ExtNumber(d % 16, d / 16 % 32) != ExtNumber(e % 16, e / 16 % 32)
  {
    EarlyNumber(d);
    EarlyNumber(e);
  }

  lemma EarlyNumber(d: int)
    requires 0 <= d < 32
    ensures ExtNumber(d % 16, d / 16 % 32) == if d < 16 then d else 0x100 + d - 16
  {
    assert d / 16 == if d < 16 then 0 else 1;
  }

  lemma AddedInOrder(p: Shape, dir: seq<Extent>, after: seq<Extent>, places: seq<int>, name: Name, free: int,
                     total: int)
    requires ShapeOk(p) && InOrder(dir) && |places| <= 17 && total <= 16 * p.bps
    requires Added(p, dir, after, places, name, free, total)
    requires forall i :: 0 <= i < |dir| && dir[i].used ==> dir[i].name != name
    ensures InOrder(after)
  {
    forall i | 0 <= i < |after| && after[i].used
      ensures NumberOk(after[i])
    {
      if i in places {
        var d := NewExtent(p, dir, after, places, name, free, total, i);
        EarlyNumbered(p, name, d, free, total);
      } else {
        assert after[i] == dir[i];
      }
    }
    forall i, j | 0 <= i < j < |after| && after[i].used && after[j].used && after[i].name == after[j].name
      ensures Numbered(after[i]) < Numbered(after[j])
    {
      assert i in places <==> j in places by {
        assert i !in places ==> after[i] == dir[i];
        assert j !in places ==> after[j] == dir[j];
      }
      if i in places {
        var d := NewExtent(p, dir, after, places, name, free, total, i);
        var e := NewExtent(p, dir, after, places, name, free, total, j);
        EarlyNumbered(p, name, d, free, total);
        EarlyNumbered(p, name, e, free, total);
      } else {
        assert after[i] == dir[i] && after[j] == dir[j];
      }
    }
  }

  lemma EarlyNumbered(p: Shape, name: Name, d: int, free: int, total: int)
    requires p.bps > 0 && 0 <= d < 32
    ensures Numbered(ExtentFor(p, name, d, free, total)) == d
  {
    assert d == 16 * (d / 16) + d % 16;
  }

  lemma AddedComplete(p: Shape, dir: seq<Extent>, after: seq<Extent>, places: seq<int>, name: Name, free: int,
                      total: int)
    requires ShapeOk(p) && 0 < free && 0 <= total && Added(p, dir, after, places, name, free, total)
    requires |places| == ExtentsOf(p, total) && total <= 16 * p.bps
    ensures Complete(p, after, name, total)
  {
    forall k | 0 <= k < total
      ensures Present(p, after, name, k)
    {
      Quotients(k, total, p.bps);
      Below(k, p.bps, 16);
      NewBlock(p, dir, after, places, name, free, total, k / p.bps, k % p.bps);
      assert HasBlock(p, after, places[k / p.bps], name, k);
    }
  }

  lemma NewBlock(p: Shape, dir: seq<Extent>, after: seq<Extent>, places: seq<int>, name: Name, free: int, total: int,
                 d: int, b: int)
    requires p.bps > 0 && 0 < free && Added(p, dir, after, places, name, free, total)
    requires 0 <= d < |places| && d < 16 && 0 <= b < p.bps && d * p.bps + b < total
    ensures var e := after[places[d]];
      e.used && e.name == name && ExtNumber(e.xl, e.xh) == d && |e.ptrs| == p.bps && e.ptrs[b] != 0
  {
    ExtentInPlace(p, name, d, free, total);
    assert after[places[d]] == ExtentFor(p, name, d, free, total);
    Above(p.bps, d, b);
  }

  lemma Quotients(k: int, total: int, m: int)
    requires 0 <= k < total && m > 0
    ensures 0 <= k / m <= total / m && k / m * m + k % m == k
  {
    var a, b := k / m, total / m;
    assert m * (a - b) == m * a - m * b;
    assert m * (a - b) < m;
    assert a - b >= 1 ==> m * (a - b) >= m;
  }

  lemma Below(k: int, m: int, n: int)
    requires m > 0 && 0 <= k < n * m
    ensures k / m < n
  {
    var q := k / m;
    assert q * m <= k;
    assert q >= n ==> q * m >= n * m;
  }

  // Files imported before stay complete.
  lemma StillComplete(p: Shape, dir: seq<Extent>, after: seq<Extent>, places: seq<int>, name: Name, free: int,
                      total: int, n: Name, size: int)
    requires ShapeOk(p) && Added(p, dir, after, places, name, free, total) && Complete(p, dir, n, size)
    ensures Complete(p, after, n, size)
  {
    forall k | 0 <= k < size
      ensures Present(p, after, n, k)
    {
      assert Present(p, dir, n, k);
      var i :| HasBlock(p, dir, i, n, k);
      assert i !in places;
      assert after[i] == dir[i];
      assert HasBlock(p, after, i, n, k);
    }
  }

  // Importing a file keeps all that was imported and adds every block of the new file.
  lemma AddedKeeps(p: Shape, dir: seq<Extent>, after: seq<Extent>, places: seq<int>, free: int,
                   names: map<Name, Path>, host: map<Path, seq<byte>>, name: Name, path: Path)
    requires ImportOk(p, dir, free, names, host) && name !in names && path in host
    requires forall n :: n in names ==> names[n] != path
    requires Added(p, dir, after, places, name, free, BlocksOf(p, |host[path]|))
    requires |places| == ExtentsOf(p, BlocksOf(p, |host[path]|)) && 0 <= BlocksOf(p, |host[path]|) <= 16 * p.bps
    ensures ImportOk(p, after, free + BlocksOf(p, |host[path]|), names[name := path], host)
  {
    var total := BlocksOf(p, |host[path]|);
    AddedPointers(p, dir, after, places, name, free, total);
    AddedOneOwner(p, dir, after, places, name, free, total);
    AddedInOrder(p, dir, after, places, name, free, total);
    AddedDistinct(p, dir, after, places, name, free, total);
    AddedComplete(p, dir, after, places, name, free, total);
    var more := names[name := path];
    forall n | n in more
      ensures Complete(p, after, n, BlocksOf(p, |host[more[n]]|))
    {
      if n != name {
        StillComplete(p, dir, after, places, name, free, total, n, BlocksOf(p, |host[names[n]]|));
      }
    }
    AddedMapped(p, dir, after, places, free, total, names, host, name, path);
    AddedCounted(p, dir, after, places, free, names, host, name, path);
  }

  lemma AddedCounted(p: Shape, dir: seq<Extent>, after: seq<Extent>, places: seq<int>, free: int,
                     names: map<Name, Path>, host: map<Path, seq<byte>>, name: Name, path: Path)
    requires ShapeOk(p) && Counted(p, dir, names, host) && Mapped(dir, names, host) && name !in names && path in host
    requires Added(p, dir, after, places, name, free, BlocksOf(p, |host[path]|)) && |places| <= 32
    ensures Counted(p, after, names[name := path], host)
  {
    var total, more := BlocksOf(p, |host[path]|), names[name := path];
    forall i | 0 <= i < |after| && after[i].used && after[i].name in more && more[after[i].name] in host
      ensures after[i].rc == CountFor(p, Numbered(after[i]), BlocksOf(p, |host[more[after[i].name]]|))
    {
      if i in places {
        var d := NewExtent(p, dir, after, places, name, free, total, i);
        EarlyNumbered(p, name, d, free, total);
      } else {
        assert after[i] == dir[i];
      }
    }
  }

  lemma AddedMapped(p: Shape, dir: seq<Extent>, after: seq<Extent>, places: seq<int>, free: int, total: int,
                    names: map<Name, Path>, host: map<Path, seq<byte>>, name: Name, path: Path)
    requires ShapeOk(p) && Mapped(dir, names, host) && name !in names && path in host
    requires forall n :: n in names ==> names[n] != path
    requires Added(p, dir, after, places, name, free, total)
    ensures Mapped(after, names[name := path], host)
  {
    forall i | 0 <= i < |after| && after[i].used
      ensures after[i].name in names[name := path]
    {
      if i in places {
        var d := NewExtent(p, dir, after, places, name, free, total, i);
      } else {
        assert after[i] == dir[i];
      }
    }
  }

  // One more extent of the new file in an unused place.
  lemma AddedMore(p: Shape, dir: seq<Extent>, after: seq<Extent>, places: seq<int>, name: Name, free: int,
                  total: int, i: int)
    requires p.bps > 0 && Added(p, dir, after, places, name, free, total)
    requires 0 <= i < |dir| && !after[i].used && UsedBefore(after, i)
    ensures Added(p, dir, after[i := ExtentFor(p, name, |places|, free, total)], places + [i], name, free, total)
    ensures i !in places && after[i] == dir[i]
  {
    forall d | 0 <= d < |places| ensures places[d] < i {
      assert after[places[d]].used && UsedBefore(after, places[d]);
    }
    var more, e := places + [i], ExtentFor(p, name, |places|, free, total);
    forall d | 0 <= d < |more| ensures UsedBefore(after[i := e], more[d]) {
      assert d < |places| ==> UsedBefore(after, places[d]);
    }
    assert forall d :: 0 <= d < |places| ==> more[d] == places[d];
    assert more[|places|] == i;
    assert forall j :: 0 <= j < |dir| && j !in more ==> j !in places;
  }

  // A sector of the new file stands for its own record of the host file exactly in the first sixteen extents.
  lemma RecordInPlace(p: Shape, dir: seq<Extent>, after: seq<Extent>, places: seq<int>, name: Name, free: int,
                      total: int, d: int, b: int, s: int)
    requires ShapeOk(p) && p.first <= free && PointersIn(p, dir, free) && OneOwner(dir, p.first)
    requires Added(p, dir, after, places, name, free, total)
    requires 0 <= d < |places| && 0 <= b < p.bps && Record(p.bps, d, b) < total && 0 <= s < p.spb
    ensures var sid := Record(p.spb, after[places[d]].ptrs[b], s);
      && Owner(after, sid / p.spb) == places[d]
      && (RecordAt(p, after, sid) == Record(p.spb, Record(p.bps, d, b), s) <==> d < 16)
  {
    var e, block := after[places[d]], free + Record(p.bps, d, b);
    Above(p.bps, d, b);
    assert e.ptrs[b] == block;
    AddedOneOwner(p, dir, after, places, name, free, total);
    SectorStands(p, after, places[d], b, s);
    ExtentInPlace(p, name, d, free, total);
    SameRecord(p, ExtNumber(e.xl, e.xh), d, b, s);
  }

  // Two extents have the same record only if they are the same.
  lemma SameRecord(p: Shape, x: int, d: int, b: int, s: int)
    requires p.spb > 0 && p.bps > 0 && 0 <= b < p.bps && 0 <= s < p.spb
    ensures Record(p.spb, Record(p.bps, x, b), s) == Record(p.spb, Record(p.bps, d, b), s) <==> x == d
  {
    var k, l := Record(p.bps, x, b), Record(p.bps, d, b);
    if Record(p.spb, k, s) == Record(p.spb, l, s) {
      RecordUnique(p.spb, k, s, l, s);
      RecordUnique(p.bps, x, b, d, b);
    }
  }

  // --- room for a file

  // Entries that are still unused.
  ghost function UnusedPlaces(dir: seq<Extent>): set<int> { set i | 0 <= i < |dir| && !dir[i].used }

  ghost function Unused(dir: seq<Extent>): (n: nat)
    ensures n == 0 <==> forall i :: 0 <= i < |dir| ==> dir[i].used
  {
    assert (forall i :: 0 <= i < |dir| ==> dir[i].used) <==> UnusedPlaces(dir) == {} by {
      assert forall i :: 0 <= i < |dir| && !dir[i].used ==> i in UnusedPlaces(dir);
    }
    |UnusedPlaces(dir)|
  }

  // Using an entry leaves one fewer.
  lemma UnusedLess(dir: seq<Extent>, i: int, e: Extent)
    requires 0 <= i < |dir| && !dir[i].used && e.used
    ensures Unused(dir[i := e]) == Unused(dir) - 1
  {
    assert UnusedPlaces(dir[i := e]) == UnusedPlaces(dir) - {i};
  }

  lemma {:induction false} AllUnused(dir: seq<Extent>)
    requires forall i :: 0 <= i < |dir| ==> !dir[i].used
    ensures Unused(dir) == |dir|
  {
    if dir != [] {
      var n := |dir| - 1;
      AllUnused(dir[..n]);
      assert UnusedPlaces(dir) == UnusedPlaces(dir[..n]) + {n};
    }
  }

  // A regular file of the host with the name it gets.
  datatype HostFile = HostFile(path: Path, name: Name)

  // No file before it gets the same name.
  ghost predicate FirstOfName(files: seq<HostFile>, i: int)
    requires 0 <= i < |files|
  {
    forall j :: 0 <= j < i ==> files[j].name != files[i].name
  }

  // Blocks and extents that the first n files of the host take, those with a name already taken left out.
  ghost function BlocksNeeded(p: Shape, host: map<Path, seq<byte>>, files: seq<HostFile>, n: nat): (r: int)
    requires p.spb > 0 && n <= |files| && forall i :: 0 <= i < |files| ==> files[i].path in host
  {
    if n == 0 then 0
    else
      BlocksNeeded(p, host, files, n - 1)
      + if FirstOfName(files, n - 1) then BlocksOf(p, |host[files[n - 1].path]|) else 0
  }

  ghost function ExtentsNeeded(p: Shape, host: map<Path, seq<byte>>, files: seq<HostFile>, n: nat): (r: int)
    requires p.spb > 0 && p.bps > 0 && n <= |files| && forall i :: 0 <= i < |files| ==> files[i].path in host
  {
    if n == 0 then 0
    else
      ExtentsNeeded(p, host, files, n - 1)
      + if FirstOfName(files, n - 1) then ExtentsOf(p, BlocksOf(p, |host[files[n - 1].path]|)) else 0
  }

  // The name map after the first n files: each of their names, with the path of the first file that has it.
  ghost predicate Named(files: seq<HostFile>, n: int, names: map<Name, Path>)
    requires 0 <= n <= |files|
  {
    && (forall m :: m in names ==> exists j :: 0 <= j < n && files[j].name == m && files[j].path == names[m])
    && (forall j :: 0 <= j < n ==> files[j].name in names)
    && (forall j :: 0 <= j < n && FirstOfName(files, j) ==> names[files[j].name] == files[j].path)
  }

  // One more file is passed over or comes in under a path that no other has.
  lemma NamedMore(files: seq<HostFile>, n: int, names: map<Name, Path>)
    requires 0 <= n < |files| && Named(files, n, names)
    requires forall i, j :: 0 <= i < j < |files| ==> files[i].path != files[j].path
    ensures FirstOfName(files, n) <==> files[n].name !in names
    ensures forall m :: m in names ==> names[m] != files[n].path
    ensures Named(files, n + 1, if FirstOfName(files, n) then names[files[n].name := files[n].path] else names)
  {
    var more := if FirstOfName(files, n) then names[files[n].name := files[n].path] else names;
    forall m | m in more
      ensures exists j :: 0 <= j < n + 1 && files[j].name == m && files[j].path == more[m]
    {
      if m in names && more[m] == names[m] {
        var j :| 0 <= j < n && files[j].name == m && files[j].path == names[m];
      } else {
        assert files[n].name == m && files[n].path == more[m];
      }
    }
  }

  // Enough unused entries and enough free blocks; the code keeps the last block of the disk free.
  ghost predicate HasRoom(p: Shape, dir: seq<Extent>, free: int, extents: int, blocks: int) {
    extents <= Unused(dir) && free + blocks < p.last
  }

  lemma BlocksNatural(p: Shape, size: nat)
    requires p.spb > 0
    ensures BlocksOf(p, size) >= 0
  {
  }

  // More files need no less.
  lemma {:induction false} NeedsRise(p: Shape, host: map<Path, seq<byte>>, files: seq<HostFile>, m: nat, n: nat)
    requires p.spb > 0 && p.bps > 0 && m <= n <= |files| && forall i :: 0 <= i < |files| ==> files[i].path in host
    ensures BlocksNeeded(p, host, files, m) <= BlocksNeeded(p, host, files, n)
    ensures ExtentsNeeded(p, host, files, m) <= ExtentsNeeded(p, host, files, n)
  {
    if m < n {
      NeedsRise(p, host, files, m, n - 1);
      BlocksNatural(p, |host[files[n - 1].path]|);
    }
  }

  // What one more file needs.
  lemma NeedsNext(p: Shape, host: map<Path, seq<byte>>, files: seq<HostFile>, n: nat)
    requires p.spb > 0 && p.bps > 0 && n < |files| && forall i :: 0 <= i < |files| ==> files[i].path in host
    ensures var blocks := BlocksOf(p, |host[files[n].path]|);
      if FirstOfName(files, n) then
        && BlocksNeeded(p, host, files, n + 1) == BlocksNeeded(p, host, files, n) + blocks
        && ExtentsNeeded(p, host, files, n + 1) == ExtentsNeeded(p, host, files, n) + ExtentsOf(p, blocks)
      else
        && BlocksNeeded(p, host, files, n + 1) == BlocksNeeded(p, host, files, n)
        && ExtentsNeeded(p, host, files, n + 1) == ExtentsNeeded(p, host, files, n)
  {
  }

  // A file that has no room after the ones before it leaves none for all files.
  lemma NoRoomLater(p: Shape, host: map<Path, seq<byte>>, files: seq<HostFile>, n: nat,
                    dir0: seq<Extent>, free0: int, dir: seq<Extent>, free: int)
    requires p.spb > 0 && p.bps > 0 && n < |files| && forall i :: 0 <= i < |files| ==> files[i].path in host
    requires Unused(dir) == Unused(dir0) - ExtentsNeeded(p, host, files, n)
    requires free == free0 + BlocksNeeded(p, host, files, n) && FirstOfName(files, n)
    requires var blocks := BlocksOf(p, |host[files[n].path]|); !HasRoom(p, dir, free, ExtentsOf(p, blocks), blocks)
    ensures !HasRoom(p, dir0, free0, ExtentsNeeded(p, host, files, |files|), BlocksNeeded(p, host, files, |files|))
  {
    var blocks := BlocksOf(p, |host[files[n].path]|);
    NeedsAfter(p, host, files, n, |files|, blocks);
    RoomIsLess(p, dir0, free0, dir, free, ExtentsNeeded(p, host, files, n), BlocksNeeded(p, host, files, n),
               ExtentsOf(p, blocks), blocks, ExtentsNeeded(p, host, files, |files|),
               BlocksNeeded(p, host, files, |files|));
  }

  lemma NeedsAfter(p: Shape, host: map<Path, seq<byte>>, files: seq<HostFile>, n: nat, m: nat, blocks: int)
    requires p.spb > 0 && p.bps > 0 && n < m <= |files| && forall i :: 0 <= i < |files| ==> files[i].path in host
    requires FirstOfName(files, n) && blocks == BlocksOf(p, |host[files[n].path]|)
    ensures BlocksNeeded(p, host, files, n) + blocks <= BlocksNeeded(p, host, files, m)
    ensures ExtentsNeeded(p, host, files, n) + ExtentsOf(p, blocks) <= ExtentsNeeded(p, host, files, m)
  {
    NeedsNext(p, host, files, n);
    NeedsRise(p, host, files, n + 1, m);
  }

  lemma RoomIsLess(p: Shape, dir0: seq<Extent>, free0: int, dir: seq<Extent>, free: int, extents: int, blocks: int,
                   e: int, b: int, allExtents: int, allBlocks: int)
    requires Unused(dir) == Unused(dir0) - extents && free == free0 + blocks
    requires !HasRoom(p, dir, free, e, b) && extents + e <= allExtents && blocks + b <= allBlocks
    ensures !HasRoom(p, dir0, free0, allExtents, allBlocks)
  {
  }

  // Blocks taken by the first d extents.
  function Taken(p: Shape, d: int, total: int): int { if d * p.bps <= total then d * p.bps else total }

  lemma TakenNext(p: Shape, d: int, total: int)
    requires p.bps > 0 && 0 <= d < ExtentsOf(p, total) && 0 <= total
    ensures Taken(p, d, total) == d * p.bps <= total
    ensures Taken(p, d + 1, total) == d * p.bps + InExtent(p, d, total) && 0 <= InExtent(p, d, total) <= p.bps
  {
    assert d * p.bps <= total / p.bps * p.bps;
    assert total / p.bps * p.bps <= total;
    assert (d + 1) * p.bps == d * p.bps + p.bps;
  }

  lemma TakenAll(p: Shape, total: int)
    requires p.bps > 0 && 0 <= total
    ensures Taken(p, ExtentsOf(p, total), total) == total
  {
    assert total == total / p.bps * p.bps + total % p.bps;
    assert (1 + total / p.bps) * p.bps == total / p.bps * p.bps + p.bps;
  }
}
