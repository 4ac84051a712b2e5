/**
  The data path of the host-directory disk (src/biosapi.cpp): reads and writes of data sectors through a
  write cache that Flush empties into host files.
 */
module HostDisk {
  import opened Arithmetic
  import opened HostDirectory
  import opened HostImport
  import BdosTracks

  // --- what a sector holds

  // All 128 bytes of the sector are in a host file.
  ghost predicate Backed(p: Shape, dir: seq<Extent>, names: map<Name, Path>, host: map<Path, seq<byte>>, s: int) {
    && p.spb > 0 && Owner(dir, s / p.spb) >= 0 && dir[Owner(dir, s / p.spb)].name in names
    && PathAt(p, dir, names, s) in host && HasRecord(host[PathAt(p, dir, names, s)], RecordAt(p, dir, s))
  }

  // A data sector that is cached or backed.
  ghost predicate Steady(p: Shape, dir: seq<Extent>, names: map<Name, Path>, host: map<Path, seq<byte>>,
                         cache: map<int, seq<byte>>, s: int)
  {
    p.spb > 0 && p.first <= s / p.spb && (s in cache || Backed(p, dir, names, host, s))
  }

  // What such a sector holds: the cache lies over the host files.
  ghost function Content(p: Shape, dir: seq<Extent>, names: map<Name, Path>, host: map<Path, seq<byte>>,
                         cache: map<int, seq<byte>>, s: int): seq<byte>
    requires Steady(p, dir, names, host, cache, s)
  {
    if s in cache then cache[s]
    else
      var r := RecordAt(p, dir, s);
      host[PathAt(p, dir, names, s)][128 * r..128 * r + 128]
  }

  lemma RecordNatural(p: Shape, dir: seq<Extent>, s: int)
    requires p.spb > 0 && p.bps >= 0 && Owner(dir, s / p.spb) >= 0
    ensures RecordAt(p, dir, s) >= 0
  {
    var e := dir[Owner(dir, s / p.spb)];
    assert SlotOf(e.ptrs, s / p.spb) >= 0;
    Products(ExtNumber(e.xl, e.xh), p.bps);
    Products(FileBlock(p, e, s / p.spb), p.spb);
  }

  lemma Products(a: int, b: int)
    requires 0 <= a && 0 <= b
    ensures 0 <= a * b
  {
  }

  // The byte offset that the code computes is that of the record.
  lemma OffsetOfRecord(spb: int, k: int, s: int)
    ensures k * (128 * spb) + s * 128 == 128 * Record(spb, k, s)
  {
    assert k * (128 * spb) == 128 * (k * spb);
  }

  // Moving one cached sector to its host file changes no sector's content.
  lemma FlushOneInvisible(p: Shape, dir: seq<Extent>, names: map<Name, Path>, host: map<Path, seq<byte>>,
                          cache: map<int, seq<byte>>, sid: int, s: int)
    requires Sane(p, dir, names, host) && sid in cache && |cache[sid]| == 128 && p.first <= sid / p.spb
    requires Owner(dir, sid / p.spb) >= 0 && RecordAt(p, dir, sid) >= 0
    requires Steady(p, dir, names, host, cache, s)
    ensures var path := PathAt(p, dir, names, sid);
      var after := host[path := Patched(host[path], 128 * RecordAt(p, dir, sid), cache[sid])];
      && Steady(p, dir, names, after, cache - {sid}, s)
      && Content(p, dir, names, after, cache - {sid}, s) == Content(p, dir, names, host, cache, s)
  {
    if s != sid && s !in cache {
      var path, r := PathAt(p, dir, names, sid), RecordAt(p, dir, sid);
      if PathAt(p, dir, names, s) == path {
        if RecordAt(p, dir, s) == r {
          PlaceUnique(p, dir, names, host, s, sid);
        } else {
          PatchKeeps(host[path], r, cache[sid], RecordAt(p, dir, s));
        }
      }
    }
  }

  // --- what a flush does to the host files, byte by byte

  // The sector goes to the file at path.
  ghost predicate Lands(p: Shape, dir: seq<Extent>, names: map<Name, Path>, s: int, path: Path) {
    && p.spb > 0 && Owner(dir, s / p.spb) >= 0 && dir[Owner(dir, s / p.spb)].name in names
    && PathAt(p, dir, names, s) == path
  }

  // And holds its byte pos.
  ghost predicate Covers(p: Shape, dir: seq<Extent>, names: map<Name, Path>, s: int, path: Path, pos: int) {
    Lands(p, dir, names, s, path) && RecordAt(p, dir, s) == pos / 128
  }

  // A file as long as the last of the sectors that went to it asks for, if that is longer than it was.
  ghost predicate LengthAfter(p: Shape, dir: seq<Extent>, names: map<Name, Path>, done: set<int>, path: Path,
                              before: seq<byte>, after: seq<byte>)
  {
    && |before| <= |after|
    && (forall s :: s in done && Lands(p, dir, names, s, path) ==> 128 * RecordAt(p, dir, s) + 128 <= |after|)
    && (|before| < |after| ==>
          exists s :: s in done && Lands(p, dir, names, s, path) && |after| == 128 * RecordAt(p, dir, s) + 128)
  }

  // A byte comes from the sector that holds it, or is as it was, zero beyond the old end.
  ghost predicate ByteAfter(p: Shape, dir: seq<Extent>, names: map<Name, Path>, cache: map<int, seq<byte>>,
                            done: set<int>, path: Path, before: seq<byte>, after: seq<byte>, pos: int)
    requires 0 <= pos < |after|
  {
    if exists s :: s in done && Covers(p, dir, names, s, path, pos) then
      exists s :: s in done && Covers(p, dir, names, s, path, pos) && s in cache && |cache[s]| == 128
                  && after[pos] == cache[s][pos % 128]
    else
      after[pos] == if pos < |before| then before[pos] else 0
  }

  ghost predicate FileAfter(p: Shape, dir: seq<Extent>, names: map<Name, Path>, cache: map<int, seq<byte>>,
                            done: set<int>, path: Path, before: seq<byte>, after: seq<byte>)
  {
    && LengthAfter(p, dir, names, done, path, before, after)
    && forall pos :: 0 <= pos < |after| ==> ByteAfter(p, dir, names, cache, done, path, before, after, pos)
  }

  // Every host file after the sectors of `done` have gone to theirs, and no file besides.
  ghost predicate HostAfter(p: Shape, dir: seq<Extent>, names: map<Name, Path>, host0: map<Path, seq<byte>>,
                            cache: map<int, seq<byte>>, done: set<int>, host: map<Path, seq<byte>>)
  {
    && host.Keys == host0.Keys
    && forall path :: path in host0 ==> AllAfter(p, dir, names, cache, done, path, host0[path], host[path])
  }

  // Sealed, so that a flush passes it on unopened.
  ghost predicate AllAfter(p: Shape, dir: seq<Extent>, names: map<Name, Path>, cache: map<int, seq<byte>>,
                           done: set<int>, path: Path, before: seq<byte>, after: seq<byte>)
  {
    forall x {:trigger Unfold(x)} :: Unfold(x) ==> FileAfter(p, dir, names, cache, done, path, before, after)
  }

  // What one turn of a flush does: the data go to the owner's file.
  ghost predicate Turned(p: Shape, dir: seq<Extent>, names: map<Name, Path>, host: map<Path, seq<byte>>, sid: int,
                         data: seq<byte>, after: map<Path, seq<byte>>)
    requires p.spb > 0 && |data| == 128
  {
    if Owner(dir, sid / p.spb) < 0 then after == host
    else
      && RecordAt(p, dir, sid) >= 0 && dir[Owner(dir, sid / p.spb)].name in names
      && var path := PathAt(p, dir, names, sid);
         path in host && after == host[path := Patched(host[path], 128 * RecordAt(p, dir, sid), data)]
  }

  lemma TurnInvisible(p: Shape, dir: seq<Extent>, names: map<Name, Path>, host: map<Path, seq<byte>>,
                      cache: map<int, seq<byte>>, sid: int, after: map<Path, seq<byte>>)
    requires Sane(p, dir, names, host) && sid in cache && |cache[sid]| == 128 && p.first <= sid / p.spb
    requires Turned(p, dir, names, host, sid, cache[sid], after)
    ensures SameContent(p, dir, names, host, cache, after, if Owner(dir, sid / p.spb) < 0 then cache else cache - {sid})
  {
    if Owner(dir, sid / p.spb) >= 0 {
      forall s | Steady(p, dir, names, host, cache, s)
        ensures Steady(p, dir, names, after, cache - {sid}, s)
        ensures Content(p, dir, names, after, cache - {sid}, s) == Content(p, dir, names, host, cache, s)
      {
        FlushOneInvisible(p, dir, names, host, cache, sid, s);
      }
    }
  }

  lemma HostTurn(p: Shape, dir: seq<Extent>, names: map<Name, Path>, host0: map<Path, seq<byte>>,
                 cache: map<int, seq<byte>>, done: set<int>, host: map<Path, seq<byte>>, sid: int,
                 after: map<Path, seq<byte>>)
    requires HostAfter(p, dir, names, host0, cache, done, host) && p.spb > 0 && sid in cache && |cache[sid]| == 128
    requires Turned(p, dir, names, host, sid, cache[sid], after)
    ensures HostAfter(p, dir, names, host0, cache, done + {sid}, after)
  {
    if Owner(dir, sid / p.spb) < 0 {
      HostKept(p, dir, names, host0, cache, done, host, sid);
    } else {
      HostPatched(p, dir, names, host0, cache, done, host, sid, PathAt(p, dir, names, sid), after);
    }
  }

  // The sectors of `done` have left the cache if they have an owner; the others are still there.
  ghost predicate Flushed(p: Shape, dir: seq<Extent>, cache0: map<int, seq<byte>>, done: set<int>,
                          cache: map<int, seq<byte>>)
    requires p.spb > 0
  {
    && (forall s :: s in cache <==> s in cache0 && (s in done ==> Owner(dir, s / p.spb) < 0))
    && forall s :: s in cache ==> cache[s] == cache0[s]
  }

  // Every steady sector holds what it held. Sealed as well.
  ghost predicate Unchanged(p: Shape, dir: seq<Extent>, names: map<Name, Path>, host0: map<Path, seq<byte>>,
                            cache0: map<int, seq<byte>>, host: map<Path, seq<byte>>, cache: map<int, seq<byte>>)
  {
    forall x {:trigger Unfold(x)} :: Unfold(x) ==> SameContent(p, dir, names, host0, cache0, host, cache)
  }

  ghost predicate SameContent(p: Shape, dir: seq<Extent>, names: map<Name, Path>, host0: map<Path, seq<byte>>,
                              cache0: map<int, seq<byte>>, host: map<Path, seq<byte>>, cache: map<int, seq<byte>>)
  {
    forall s :: Steady(p, dir, names, host0, cache0, s) ==>
      && Steady(p, dir, names, host, cache, s)
      && Content(p, dir, names, host, cache, s) == Content(p, dir, names, host0, cache0, s)
  }

  lemma UnchangedMeans(p: Shape, dir: seq<Extent>, names: map<Name, Path>, host0: map<Path, seq<byte>>,
                       cache0: map<int, seq<byte>>, host: map<Path, seq<byte>>, cache: map<int, seq<byte>>)
    requires Unchanged(p, dir, names, host0, cache0, host, cache)
    ensures SameContent(p, dir, names, host0, cache0, host, cache)
  {
    assert Unfold(0);
  }

  lemma UnchangedOn(p: Shape, dir: seq<Extent>, names: map<Name, Path>, host0: map<Path, seq<byte>>,
                    cache0: map<int, seq<byte>>, host1: map<Path, seq<byte>>, cache1: map<int, seq<byte>>,
                    host2: map<Path, seq<byte>>, cache2: map<int, seq<byte>>)
    requires Unchanged(p, dir, names, host0, cache0, host1, cache1)
    requires SameContent(p, dir, names, host1, cache1, host2, cache2)
    ensures Unchanged(p, dir, names, host0, cache0, host2, cache2)
  {
    UnchangedMeans(p, dir, names, host0, cache0, host1, cache1);
    assert SameContent(p, dir, names, host0, cache0, host2, cache2);
  }

  lemma NothingYet(p: Shape, dir: seq<Extent>, names: map<Name, Path>, host: map<Path, seq<byte>>,
                   cache: map<int, seq<byte>>)
    ensures HostAfter(p, dir, names, host, cache, {}, host) && Unchanged(p, dir, names, host, cache, host, cache)
  {
    assert SameContent(p, dir, names, host, cache, host, cache);
    forall path | path in host
      ensures AllAfter(p, dir, names, cache, {}, path, host[path], host[path])
    {
      assert FileAfter(p, dir, names, cache, {}, path, host[path], host[path]);
    }
  }

  // One more sector, for a file that it does not go to.
  lemma FileKept(p: Shape, dir: seq<Extent>, names: map<Name, Path>, cache: map<int, seq<byte>>, done: set<int>,
                 sid: int, path: Path, before: seq<byte>, after: seq<byte>)
    requires AllAfter(p, dir, names, cache, done, path, before, after) && !Lands(p, dir, names, sid, path)
    ensures AllAfter(p, dir, names, cache, done + {sid}, path, before, after)
  {
    assert Unfold(0);
    forall pos | 0 <= pos < |after|
      ensures ByteAfter(p, dir, names, cache, done + {sid}, path, before, after, pos)
    {
      assert ByteAfter(p, dir, names, cache, done, path, before, after, pos);
    }
    assert FileAfter(p, dir, names, cache, done + {sid}, path, before, after);
  }

  // And for the file that it does go to.
  lemma FilePatched(p: Shape, dir: seq<Extent>, names: map<Name, Path>, cache: map<int, seq<byte>>, done: set<int>,
                    sid: int, path: Path, before: seq<byte>, after: seq<byte>)
    requires sid in cache && |cache[sid]| == 128
    requires FileAfter(p, dir, names, cache, done, path, before, after)
    requires Lands(p, dir, names, sid, path) && RecordAt(p, dir, sid) >= 0
    ensures FileAfter(p, dir, names, cache, done + {sid}, path, before,
                      Patched(after, 128 * RecordAt(p, dir, sid), cache[sid]))
  {
    var r := RecordAt(p, dir, sid);
    var more := Patched(after, 128 * r, cache[sid]);
    forall pos | 0 <= pos < |more|
      ensures ByteAfter(p, dir, names, cache, done + {sid}, path, before, more, pos)
    {
      if pos / 128 == r {
        assert Covers(p, dir, names, sid, path, pos);
        assert more[pos] == more[128 * r..128 * r + 128][pos % 128];
      } else {
        ByteKept(p, dir, names, cache, done, sid, path, before, after, r, pos);
      }
    }
  }

  lemma SealedPatched(p: Shape, dir: seq<Extent>, names: map<Name, Path>, cache: map<int, seq<byte>>, done: set<int>,
                      sid: int, path: Path, before: seq<byte>, after: seq<byte>)
    requires sid in cache && |cache[sid]| == 128
    requires AllAfter(p, dir, names, cache, done, path, before, after)
    requires Lands(p, dir, names, sid, path) && RecordAt(p, dir, sid) >= 0
    ensures AllAfter(p, dir, names, cache, done + {sid}, path, before,
                     Patched(after, 128 * RecordAt(p, dir, sid), cache[sid]))
  {
    assert Unfold(0);
    FilePatched(p, dir, names, cache, done, sid, path, before, after);
  }

  lemma ByteKept(p: Shape, dir: seq<Extent>, names: map<Name, Path>, cache: map<int, seq<byte>>, done: set<int>,
                 sid: int, path: Path, before: seq<byte>, after: seq<byte>, r: int, pos: int)
    requires FileAfter(p, dir, names, cache, done, path, before, after) && sid in cache && |cache[sid]| == 128
    requires Lands(p, dir, names, sid, path) && RecordAt(p, dir, sid) == r >= 0
    requires 0 <= pos < |Patched(after, 128 * r, cache[sid])| && pos / 128 != r
    ensures ByteAfter(p, dir, names, cache, done + {sid}, path, before, Patched(after, 128 * r, cache[sid]), pos)
  {
    var more := Patched(after, 128 * r, cache[sid]);
    assert !(128 * r <= pos < 128 * r + 128);
    if pos < |after| {
      assert ByteAfter(p, dir, names, cache, done, path, before, after, pos);
      assert more[pos] == after[pos];
    } else {
      assert more[pos] == 0;
    }
  }

  // One turn of a flush, for a sector without an owner.
  lemma HostKept(p: Shape, dir: seq<Extent>, names: map<Name, Path>, host0: map<Path, seq<byte>>,
                 cache: map<int, seq<byte>>, done: set<int>, host: map<Path, seq<byte>>, sid: int)
    requires HostAfter(p, dir, names, host0, cache, done, host) && p.spb > 0 && Owner(dir, sid / p.spb) < 0
    ensures HostAfter(p, dir, names, host0, cache, done + {sid}, host)
  {
    forall path | path in host0
      ensures AllAfter(p, dir, names, cache, done + {sid}, path, host0[path], host[path])
    {
      FileKept(p, dir, names, cache, done, sid, path, host0[path], host[path]);
    }
  }

  // And for a sector that has one.
  lemma HostPatched(p: Shape, dir: seq<Extent>, names: map<Name, Path>, host0: map<Path, seq<byte>>,
                    cache: map<int, seq<byte>>, done: set<int>, host: map<Path, seq<byte>>, sid: int, path: Path,
                    after: map<Path, seq<byte>>)
    requires HostAfter(p, dir, names, host0, cache, done, host) && path in host
    requires sid in cache && |cache[sid]| == 128 && Lands(p, dir, names, sid, path) && RecordAt(p, dir, sid) >= 0
    requires after == host[path := Patched(host[path], 128 * RecordAt(p, dir, sid), cache[sid])]
    ensures HostAfter(p, dir, names, host0, cache, done + {sid}, after)
  {
    SealedPatched(p, dir, names, cache, done, sid, path, host0[path], host[path]);
    forall other | other in host0
      ensures AllAfter(p, dir, names, cache, done + {sid}, other, host0[other], after[other])
    {
      if other != path {
        FileKept(p, dir, names, cache, done, sid, other, host0[other], host[other]);
      }
    }
  }

  // Host files change, but none comes or goes.
  lemma SaneAfter(p: Shape, dir: seq<Extent>, names: map<Name, Path>, host: map<Path, seq<byte>>,
                  after: map<Path, seq<byte>>)
    requires Sane(p, dir, names, host) && after.Keys == host.Keys
    ensures Sane(p, dir, names, after)
  {
  }

  // What finding a sector in the directory needs.
  ghost predicate Placed(p: Shape, dir: seq<Extent>, names: map<Name, Path>) {
    && ShapeOk(p) && OneOwner(dir, p.first)
    && forall i :: 0 <= i < |dir| ==> |dir[i].ptrs| == p.bps && (dir[i].used ==> dir[i].name in names)
  }

  // What a program and the drive may do to data sectors.
  datatype Step = Store(sid: int, data: seq<byte>) | FlushAll

  predicate StepOk(p: Shape, step: Step) {
    step.Store? ==> |step.data| == 128 && p.spb > 0 && p.first <= step.sid / p.spb
  }

  ghost predicate Written(steps: seq<Step>, s: int) {
    steps != [] && ((steps[|steps| - 1].Store? && steps[|steps| - 1].sid == s) || Written(steps[..|steps| - 1], s))
  }

  ghost function LastWritten(steps: seq<Step>, s: int): seq<byte>
    requires Written(steps, s)
  {
    var last := steps[|steps| - 1];
    if last.Store? && last.sid == s then last.data else LastWritten(steps[..|steps| - 1], s)
  }

  // An imported directory is a sane one.
  lemma ImportIsSane(p: Shape, dir: seq<Extent>, free: int, names: map<Name, Path>, host: map<Path, seq<byte>>)
    requires ImportOk(p, dir, free, names, host)
    ensures Sane(p, dir, names, host)
  {
  }

  // Every record of an imported file, the last part of one included, is in some extent.
  lemma RecordPresent(p: Shape, dir: seq<Extent>, free: int, names: map<Name, Path>, host: map<Path, seq<byte>>,
                      name: Name, r: int)
    requires ImportOk(p, dir, free, names, host) && name in names && HasPart(host[names[name]], r)
    ensures Present(p, dir, name, r / p.spb)
  {
    EnoughBlocks(p.spb, |host[names[name]]|, r);
    assert Complete(p, dir, name, BlocksOf(p, |host[names[name]]|));
  }

  lemma EnoughBlocks(spb: int, size: int, r: int)
    requires spb > 0 && 0 <= r && 128 * r < size
    ensures 0 <= r / spb < (size + 128 * spb - 1) / (128 * spb)
  {
    var m, k := 128 * spb, r / spb;
    var n := (size + m - 1) / m;
    assert spb * k <= r;
    assert m * k <= 128 * r by { assert m * k == 128 * (spb * k); }
    assert m * n + m > size + m - 1 by { assert size + m - 1 == m * n + (size + m - 1) % m; }
    assert m * (k - n) == m * k - m * n;
    assert m * (k - n) < 0;
    assert k - n >= 0 ==> m * (k - n) >= 0;
  }

  // The sector that the directory gives to record r of the file: the block that extent i has for it.
  function SectorFor(p: Shape, dir: seq<Extent>, i: int, r: int): int
    requires p.spb > 0 && p.bps > 0 && 0 <= i < |dir| && |dir[i].ptrs| == p.bps
  {
    Record(p.spb, dir[i].ptrs[r / p.spb % p.bps], r % p.spb)
  }

  // That sector is a data sector and stands for exactly that record of the host file.
  lemma RecordFound(p: Shape, dir: seq<Extent>, free: int, names: map<Name, Path>, host: map<Path, seq<byte>>,
                    name: Name, r: int, i: int)
    requires ImportOk(p, dir, free, names, host) && name in names && HasPart(host[names[name]], r)
    requires HasBlock(p, dir, i, name, r / p.spb)
    ensures var sid := SectorFor(p, dir, i, r);
      && p.first <= sid / p.spb && Owner(dir, sid / p.spb) == i
      && PathAt(p, dir, names, sid) == names[name] && RecordAt(p, dir, sid) == r
  {
    SectorFound(p, dir, names, host, name, r, i);
  }

  lemma SectorFound(p: Shape, dir: seq<Extent>, names: map<Name, Path>, host: map<Path, seq<byte>>,
                    name: Name, r: int, i: int)
    requires p.spb > 0 && p.bps > 0 && OneOwner(dir, p.first) && name in names && names[name] in host
    requires HasPart(host[names[name]], r) && HasBlock(p, dir, i, name, r / p.spb)
    requires dir[i].ptrs[r / p.spb % p.bps] >= p.first
    ensures var sid := SectorFor(p, dir, i, r);
      && p.first <= sid / p.spb && Owner(dir, sid / p.spb) == i
      && PathAt(p, dir, names, sid) == names[name] && RecordAt(p, dir, sid) == r
  {
    SectorStands(p, dir, i, r / p.spb % p.bps, r % p.spb);
    WholeAndPart(r / p.spb, p.bps);
    WholeAndPart(r, p.spb);
  }

  lemma WholeAndPart(k: int, m: int)
    requires m > 0
    ensures k / m * m + k % m == k
  {
  }

  /** The disk: directory, name map, write cache, and the host's files. */
  class Disk {
    const shape: Shape
    const smap: seq<int>      // from physical to logical sectors of a track
    const reserved: int       // tracks before the directory
    var dir: seq<Extent>
    var names: map<Name, Path>
    var cache: map<int, seq<byte>>
    var host: map<Path, seq<byte>>
    var freeblock: int

    ghost predicate Valid()
      reads this
    {
      && Sane(shape, dir, names, host)
      && forall s :: s in cache ==> |cache[s]| == 128 && shape.first <= s / shape.spb
    }

    ghost predicate Stable(s: int)
      reads this
    {
      Steady(shape, dir, names, host, cache, s)
    }

    ghost function Holds(s: int): seq<byte>
      requires Stable(s)
      reads this
    {
      Content(shape, dir, names, host, cache, s)
    }

    // FindBlockIndex: one more than the number of the block in its file, or 0.
    method FindBlockIndex(e: Extent, block: int) returns (r: int)
      requires |e.ptrs| == shape.bps
      ensures r == if e.used && block in e.ptrs then FileBlock(shape, e, block) + 1 else 0
    {
      if e.used {
        var b := 0;
        while b < shape.bps
          invariant 0 <= b <= shape.bps && forall c :: 0 <= c < b ==> e.ptrs[c] != block
        {
          if e.ptrs[b] == block {
            return b + 1 + ExtNumber(e.xl, e.xh) * shape.bps;
          }
          b := b + 1;
        }
      }
      return 0;
    }

    // Whether extent i holds the sector, and where in its file.
    method Locate(i: int, sid: int) returns (mine: bool, pos: int)
      requires Placed(shape, dir, names) && 0 <= i < |dir| && shape.first <= sid / shape.spb
      ensures mine <==> i == Owner(dir, sid / shape.spb)
      ensures mine ==>
        && pos == 128 * RecordAt(shape, dir, sid) >= 0 && dir[i].name in names
        && names[dir[i].name] == PathAt(shape, dir, names, sid)
    {
      var block := sid / shape.spb;
      var k := FindBlockIndex(dir[i], block);
      mine, pos := k != 0, 0;
      if mine {
        OnlyOwner(shape, dir, block, i);
        RecordNatural(shape, dir, sid);
        OffsetOfRecord(shape.spb, k - 1, sid % shape.spb);
        pos := (k - 1) * (128 * shape.spb) + sid % shape.spb * 128;
      }
    }

    // The inner loop of Flush: the sector goes to the extent that holds its block, and leaves the cache.
    method FlushSector(sid: int)
      requires Valid() && sid in cache
      modifies `cache, `host
      ensures Owner(dir, sid / shape.spb) < 0 ==> cache == old(cache) && host == old(host)
      ensures Owner(dir, sid / shape.spb) >= 0 ==>
        && cache == old(cache) - {sid} && RecordAt(shape, dir, sid) >= 0
        && var path := PathAt(shape, dir, names, sid);
           host == old(host)[path := Patched(old(host)[path], 128 * RecordAt(shape, dir, sid), old(cache)[sid])]
    {
      var data := cache[sid];
      ghost var o := Owner(dir, sid / shape.spb);
      if o >= 0 {
        RecordNatural(shape, dir, sid);
      }
      var i := 0;
      while i < |dir|
        invariant 0 <= i <= |dir| && host.Keys == old(host).Keys
        invariant !(0 <= o < i) ==> cache == old(cache) && host == old(host)
        invariant 0 <= o < i ==>
          && cache == old(cache) - {sid}
          && var path := PathAt(shape, dir, names, sid);
             host == old(host)[path := Patched(old(host)[path], 128 * RecordAt(shape, dir, sid), data)]
      {
        var mine, pos := Locate(i, sid);
        if mine {
          var path := names[dir[i].name];
          host := host[path := Patched(host[path], pos, data)];
          cache := cache - {sid};
        }
        i := i + 1;
      }
    }

    // One turn of Flush keeps the content of every steady sector.
    method FlushOne(sid: int)
      requires Valid() && sid in cache
      modifies `cache, `host
      ensures Valid() && cache.Keys <= old(cache.Keys) && cache.Keys >= old(cache.Keys) - {sid}
      ensures sid in cache <==> Owner(dir, sid / shape.spb) < 0
      ensures forall s :: s in cache ==> cache[s] == old(cache)[s]
      ensures Turned(shape, dir, names, old(host), sid, old(cache)[sid], host)
      ensures SameContent(shape, dir, names, old(host), old(cache), host, cache)
    {
      FlushSector(sid);
      SaneAfter(shape, dir, names, old(host), host);
      TurnInvisible(shape, dir, names, old(host), old(cache), sid, host);
    }

    // The same turn in the course of a flush that began with host0 and cache0, when the sectors of `done` had
    // gone to their files.
    method FlushOneMore(sid: int, ghost host0: map<Path, seq<byte>>, ghost cache0: map<int, seq<byte>>,
                        ghost done: set<int>)
      requires Valid() && sid in cache && sid !in done && Flushed(shape, dir, cache0, done, cache)
      requires HostAfter(shape, dir, names, host0, cache0, done, host)
      requires Unchanged(shape, dir, names, host0, cache0, host, cache)
      modifies `cache, `host
      ensures Valid() && Flushed(shape, dir, cache0, done + {sid}, cache)
      ensures HostAfter(shape, dir, names, host0, cache0, done + {sid}, host)
      ensures Unchanged(shape, dir, names, host0, cache0, host, cache)
    {
      FlushOne(sid);
      HostTurn(shape, dir, names, host0, cache0, done, old(host), sid, host);
      UnchangedOn(shape, dir, names, host0, cache0, old(host), old(cache), host, cache);
    }

    // Flush, over a snapshot of the cache's keys: every sector whose block is in the directory goes to its
    // host file, which changes in no other byte, and nothing that can be read changes.
    method Flush()
      requires Valid()
      modifies `cache, `host
      ensures Valid()
      ensures forall s :: s in cache <==> s in old(cache) && Owner(dir, s / shape.spb) < 0
      ensures forall s :: old(Stable(s)) ==> Stable(s) && Holds(s) == old(Holds(s))
      ensures HostAfter(shape, dir, names, old(host), old(cache), old(cache.Keys), host)
    {
      ghost var host0, cache0 := host, cache;
      var left := cache.Keys;
      ghost var done: set<int> := {};
      NothingYet(shape, dir, names, host, cache);
      while left != {}
        invariant Valid() && left <= cache0.Keys && done == cache0.Keys - left
        invariant Flushed(shape, dir, cache0, done, cache)
        invariant HostAfter(shape, dir, names, host0, cache0, done, host)
        invariant Unchanged(shape, dir, names, host0, cache0, host, cache)
        decreases |left|
      {
        var sid := Pick(left);
        FlushOneMore(sid, host0, cache0, done);
        left := left - {sid};
        done := done + {sid};
      }
      assert done == cache0.Keys;
      UnchangedMeans(shape, dir, names, host0, cache0, host, cache);
    }

    // Write of a data sector: into the cache.
    method WriteSector(sid: int, dma: seq<byte>)
      requires Valid() && |dma| == 128 && shape.first <= sid / shape.spb
      modifies `cache
      ensures Valid() && cache == old(cache)[sid := dma]
      ensures Stable(sid) && Holds(sid) == dma
      ensures forall s :: s != sid && old(Stable(s)) ==> Stable(s) && Holds(s) == old(Holds(s))
    {
      cache := cache[sid := dma];
    }

    // Read of a data sector: the cache, or the host bytes of the extent that holds the block.
    method ReadSector(sid: int, dma: seq<byte>) returns (r: seq<byte>)
      requires Valid() && |dma| == 128 && shape.first <= sid / shape.spb
      ensures |r| == 128
      ensures Stable(sid) ==> r == Holds(sid)
      ensures sid !in cache && Owner(dir, sid / shape.spb) < 0 ==> r == dma
      ensures sid !in cache && Owner(dir, sid / shape.spb) >= 0 ==>
        RecordRead(host[PathAt(shape, dir, names, sid)], RecordAt(shape, dir, sid), dma, r)
    {
      if sid in cache {
        return cache[sid];
      }
      r := dma;
      ghost var o := Owner(dir, sid / shape.spb);
      if o >= 0 {
        RecordNatural(shape, dir, sid);
      }
      var i := 0;
      while i < |dir|
        invariant 0 <= i <= |dir| && |r| == 128
        invariant !(0 <= o < i) ==> r == dma
        invariant 0 <= o < i ==>
          r == Overlaid(host[PathAt(shape, dir, names, sid)], 128 * RecordAt(shape, dir, sid), dma)
      {
        var mine, pos := Locate(i, sid);
        if mine {
          r := Overlaid(host[names[dir[i].name]], pos, r);
        }
        i := i + 1;
      }
      if Backed(shape, dir, names, host, sid) {
        FullRead(host[PathAt(shape, dir, names, sid)], RecordAt(shape, dir, sid), dma, r);
      }
    }

    // Over any run of data writes and flushes, every sector holds what was last written to it.
    method Run(steps: seq<Step>)
      requires Valid() && forall i :: 0 <= i < |steps| ==> StepOk(shape, steps[i])
      modifies `cache, `host
      ensures Valid()
      ensures forall s :: Written(steps, s) ==> Stable(s) && Holds(s) == LastWritten(steps, s)
      ensures forall s :: !Written(steps, s) && old(Stable(s)) ==> Stable(s) && Holds(s) == old(Holds(s))
    {
      for i := 0 to |steps|
        invariant Valid()
        invariant forall s :: Written(steps[..i], s) ==> Stable(s) && Holds(s) == LastWritten(steps[..i], s)
        invariant forall s :: !Written(steps[..i], s) && old(Stable(s)) ==> Stable(s) && Holds(s) == old(Holds(s))
      {
        assert steps[..i + 1][..i] == steps[..i];
        match steps[i] {
          case Store(sid, data) => WriteSector(sid, data);
          case FlushAll => Flush();
        }
      }
      assert steps[..|steps|] == steps;
    }

    // --- importing host files

    // What importing keeps; it makes the disk valid.
    ghost predicate Importing()
      reads this
    {
      ImportOk(shape, dir, freeblock, names, host) && freeblock < shape.last && cache == map[]
    }

    // A disk without files: its data begin after the last block that the allocation word reserves, and its
    // sector map undoes the skew table.
    constructor (bsh: int, dsm: int, a01: seq<bool>, entries: nat, spt: int, table: seq<BdosTracks.byte>,
                 reserved: nat, host: map<Path, seq<byte>>)
      requires 3 <= bsh <= 7 && 0 <= dsm < 0x10000 && (bsh == 3 ==> dsm < 256)
      requires true in a01 && forall i :: 0 <= i < |a01| && a01[i] ==> i < dsm
      requires spt > 0 && BdosTracks.SkewTable(table, spt)
      ensures Importing() && this.host == host && names == map[] && |dir| == entries && Unused(dir) == entries
      ensures shape == ShapeOf(bsh, dsm, freeblock)
      ensures 0 < freeblock <= |a01| && a01[freeblock - 1] && true !in a01[freeblock..]
      ensures BdosTracks.Inverts(smap, table, spt) && this.reserved == reserved
    {
      var inverse := BdosTracks.InverseMap(table, spt);
      smap, this.reserved := inverse[..], reserved;
      var n := DirectoryBlocks(a01);
      ShapeOfOk(bsh, dsm, n);
      var p := ShapeOf(bsh, dsm, n);
      shape, freeblock := p, n;
      this.host, names, cache := host, map[], map[];
      dir := seq(entries, _ => Extent(false, "", 0, 0, 0, seq(p.bps, _ => 0)));
      new;
      AllUnused(dir);
    }

    // NewDir: the first unused entry, or -1.
    method NewDir() returns (i: int)
      ensures -1 <= i < |dir| && (i >= 0 ==> !dir[i].used && forall j :: 0 <= j < i ==> dir[j].used)
      ensures i < 0 ==> forall j :: 0 <= j < |dir| ==> dir[j].used
    {
      i := 0;
      while i < |dir|
        invariant 0 <= i <= |dir| && forall j :: 0 <= j < i ==> dir[j].used
      {
        if !dir[i].used {
          return;
        }
        i := i + 1;
      }
      i := -1;
    }

    // The block numbers of one extent, cut to their width as SetALByte and SetALWord do; false when the
    // disk is full.
    method TakeBlocks(n: int, empty: seq<int>) returns (ptrs: seq<int>, ok: bool)
      requires ShapeOk(shape) && 0 <= n <= shape.bps == |empty| && Zeros(empty) && 0 <= freeblock < shape.last
      modifies `freeblock
      ensures ok == (n == 0 || old(freeblock) + n < shape.last)
      ensures ok ==> freeblock == old(freeblock) + n && |ptrs| == shape.bps
      ensures ok ==> forall b :: 0 <= b < shape.bps ==> ptrs[b] == if b < n then old(freeblock) + b else 0
    {
      ptrs := empty;
      var i := 0;
      while i < n
        invariant 0 <= i <= n && freeblock == old(freeblock) + i < shape.last && |ptrs| == shape.bps
        invariant forall b :: 0 <= b < shape.bps ==> ptrs[b] == if b < i then old(freeblock) + b else 0
      {
        ptrs := ptrs[i := freeblock % (if shape.bps == 8 then 0x10000 else 0x100)];
        freeblock := freeblock + 1;
        if freeblock >= shape.last {
          return ptrs, false;
        }
        i := i + 1;
      }
      ok := true;
    }

    // One turn of addfile's loop: extent d of the file into an unused entry.
    method AddExtent(name: Name, d: int, total: int, ghost dir0: seq<Extent>, ghost places: seq<int>, ghost free: int)
        returns (ok: bool, ghost i: int)
      requires ShapeOk(shape) && 0 <= d == |places| < ExtentsOf(shape, total) && 0 <= total
      requires 0 <= freeblock < shape.last
      requires PointersIn(shape, dir0, free) && Added(shape, dir0, dir, places, name, free, total)
      requires freeblock == free + Taken(shape, d, total)
      modifies `dir, `freeblock
      ensures ok <==> Unused(old(dir)) > 0 && free + Taken(shape, d + 1, total) < shape.last
      ensures ok ==> Unused(dir) == Unused(old(dir)) - 1
      ensures ok ==> Added(shape, dir0, dir, places + [i], name, free, total)
      ensures ok ==> freeblock == free + Taken(shape, d + 1, total) < shape.last
    {
      i := -1;
      var at := NewDir();
      if at < 0 {
        return false, i;
      }
      i := at;
      AddedMore(shape, dir0, dir, places, name, free, total, at);
      TakenNext(shape, d, total);
      var n := InExtent(shape, d, total);
      var ptrs, taken := TakeBlocks(n, dir[at].ptrs);
      if !taken {
        return false, i;
      }
      var e := Extent(true, name, d % 16, d / 16 % 32, CountOf(shape, n), ptrs);
      assert e.ptrs == ExtentFor(shape, name, d, free, total).ptrs;
      UnusedLess(dir, at, e);
      dir := dir[at := e];
      return true, i;
    }

    // The loop of addfile: all extents of the file, or not enough unused entries or free blocks.
    method AddExtents(name: Name, blocks: int) returns (ok: bool, ghost places: seq<int>)
      requires ShapeOk(shape) && 0 <= blocks && 0 <= freeblock < shape.last && PointersIn(shape, dir, freeblock)
      modifies `dir, `freeblock
      ensures ok == HasRoom(shape, old(dir), old(freeblock), ExtentsOf(shape, blocks), blocks)
      ensures ok ==> Added(shape, old(dir), dir, places, name, old(freeblock), blocks)
      ensures ok ==> |places| == ExtentsOf(shape, blocks) && Unused(dir) == Unused(old(dir)) - |places|
      ensures ok ==> freeblock == old(freeblock) + blocks
    {
      var dirs := ExtentsOf(shape, blocks);
      places := [];
      var d := 0;
      while d < dirs
        invariant 0 <= d == |places| <= dirs && 0 <= freeblock < shape.last
        invariant Added(shape, old(dir), dir, places, name, old(freeblock), blocks)
        invariant freeblock == old(freeblock) + Taken(shape, d, blocks) && Unused(dir) == Unused(old(dir)) - d
      {
        ghost var i;
        ok, i := AddExtent(name, d, blocks, old(dir), places, old(freeblock));
        if !ok {
          return;
        }
        places := places + [i];
        d := d + 1;
      }
      TakenAll(shape, blocks);
      ok := true;
    }

    // addfile: a file whose name is taken is passed over; false exactly when the directory has too few unused
    // entries or the disk too few free blocks.
    method AddFile(path: Path, name: Name) returns (ok: bool)
      requires Importing() && path in host && forall n :: n in names ==> names[n] != path
      requires BlocksOf(shape, |host[path]|) <= 16 * shape.bps
      modifies `dir, `freeblock, `names
      ensures var blocks := BlocksOf(shape, |host[path]|);
        && ok == (name in old(names) || HasRoom(shape, old(dir), old(freeblock), ExtentsOf(shape, blocks), blocks))
        && (ok && name !in old(names) ==>
              && names == old(names)[name := path] && freeblock == old(freeblock) + blocks
              && Unused(dir) == Unused(old(dir)) - ExtentsOf(shape, blocks))
      ensures ok ==> Importing()
      ensures ok && name in old(names) ==> dir == old(dir) && names == old(names) && freeblock == old(freeblock)
    {
      if name in names {
        return true;
      }
      var blocks := BlocksOf(shape, |host[path]|);
      BlocksNatural(shape, |host[path]|);
      ghost var places;
      ok, places := AddExtents(name, blocks);
      if ok {
        AddedKeeps(shape, old(dir), dir, places, old(freeblock), names, host, name, path);
        names := names[name := path];
      }
    }

    // Every file exists, has a path of its own and keeps within sixteen full extents.
    ghost predicate Importable(files: seq<HostFile>)
      requires ShapeOk(shape)
      reads `host
    {
      && (forall i :: 0 <= i < |files| ==> files[i].path in host)
      && (forall i :: 0 <= i < |files| ==> BlocksOf(shape, |host[files[i].path]|) <= 16 * shape.bps)
      && (forall i, j :: 0 <= i < j < |files| ==> files[i].path != files[j].path)
    }

    // Room for all files whose name no earlier file has.
    ghost predicate RoomForAll(files: seq<HostFile>, dir0: seq<Extent>, free0: int)
      requires ShapeOk(shape) && Importable(files)
      reads `host
    {
      HasRoom(shape, dir0, free0, ExtentsNeeded(shape, host, files, |files|), BlocksNeeded(shape, host, files, |files|))
    }

    // The disk after the first n files, from directory dir0 and free block free0.
    ghost predicate Imported(files: seq<HostFile>, n: int, dir0: seq<Extent>, free0: int)
      reads this
    {
      && Importing() && Importable(files) && 0 <= n <= |files| && Named(files, n, names)
      && Unused(dir) == Unused(dir0) - ExtentsNeeded(shape, host, files, n)
      && freeblock == free0 + BlocksNeeded(shape, host, files, n)
    }

    method ImportNext(files: seq<HostFile>, n: int, ghost dir0: seq<Extent>, ghost free0: int) returns (ok: bool)
      requires Imported(files, n, dir0, free0) && n < |files|
      modifies `dir, `freeblock, `names
      ensures ok ==> Imported(files, n + 1, dir0, free0)
      ensures !ok ==> !RoomForAll(files, dir0, free0)
    {
      NamedMore(files, n, names);
      NeedsNext(shape, host, files, n);
      ghost var dir1, free1 := dir, freeblock;
      ok := AddFile(files[n].path, files[n].name);
      if !ok {
        NoRoomLater(shape, host, files, n, dir0, free0, dir1, free1);
      }
    }

    method ImportFiles(files: seq<HostFile>, ghost dir0: seq<Extent>, ghost free0: int) returns (ok: bool)
      requires Imported(files, 0, dir0, free0)
      modifies `dir, `freeblock, `names
      ensures ok ==> Imported(files, |files|, dir0, free0)
      ensures !ok ==> !RoomForAll(files, dir0, free0)
    {
      for i := 0 to |files|
        invariant Imported(files, i, dir0, free0)
      {
        ok := ImportNext(files, i, dir0, free0);
        if !ok {
          return;
        }
      }
      ok := true;
    }

    // readhost: all files of the host directory, in the order it lists them. They come in exactly when the
    // directory and the disk have room for all of them.
    method ImportAll(files: seq<HostFile>) returns (ok: bool)
      requires Importing() && names == map[] && Importable(files)
      modifies `dir, `freeblock, `names
      ensures ok == RoomForAll(files, old(dir), old(freeblock))
      ensures ok ==> Importing() && Valid() && Named(files, |files|, names)
    {
      ok := ImportFiles(files, dir, freeblock);
      if ok {
        ImportIsSane(shape, dir, freeblock, names, host);
      }
    }

    // Read of a sector of a track. System tracks and directory sectors are not modelled.
    method ReadAt(track: int, sector: int, dma: seq<byte>) returns (isData: bool, r: seq<byte>)
      requires Valid() && |dma| == 128 && 1 <= sector <= |smap|
      ensures var sid := BdosTracks.GetAbsSector(smap, |smap|, reserved, track, sector)
                         - BdosTracks.First(reserved, |smap|);
        && isData == (shape.first <= sid / shape.spb)
        && (isData && Stable(sid) ==> r == Holds(sid))
        && (isData && sid !in cache && Owner(dir, sid / shape.spb) >= 0 ==>
              RecordRead(host[PathAt(shape, dir, names, sid)], RecordAt(shape, dir, sid), dma, r))
    {
      var sid := BdosTracks.GetAbsSector(smap, |smap|, reserved, track, sector) - BdosTracks.First(reserved, |smap|);
      isData, r := DataFrom(shape.first, shape.spb, sid), dma;
      if isData {
        r := ReadSector(sid, dma);
      }
    }

    // The extent that has block k of the file.
    method FindBlock(name: Name, k: int) returns (i: int)
      requires shape.bps > 0 && Present(shape, dir, name, k)
      ensures HasBlock(shape, dir, i, name, k)
    {
      i := 0;
      while !HasBlock(shape, dir, i, name, k)
        invariant 0 <= i <= |dir| && forall j :: 0 <= j < i ==> !HasBlock(shape, dir, j, name, k)
        decreases |dir| - i
      {
        i := i + 1;
      }
    }

    // A record of an imported file, found through the directory, has the bytes of the host file; the buffer keeps its
    // own beyond the end of the file.
    method ReadImported(name: Name, r: int, dma: seq<byte>) returns (data: seq<byte>)
      requires Importing() && Valid() && name in names && HasPart(host[names[name]], r) && |dma| == 128
      ensures |data| == 128
      ensures forall i :: 0 <= i < 128 ==>
        data[i] == if 128 * r + i < |host[names[name]]| then host[names[name]][128 * r + i] else dma[i]
    {
      RecordPresent(shape, dir, freeblock, names, host, name, r);
      var i := FindBlock(name, r / shape.spb);
      RecordFound(shape, dir, freeblock, names, host, name, r, i);
      var sid := SectorFor(shape, dir, i, r);
      data := ReadSector(sid, dma);
    }
  }

  // The test for a data sector: from the first sector after the directory on.
  function DataFrom(first: int, spb: int, sid: int): (data: bool)
    requires spb > 0
    ensures data == (first <= sid / spb)
  {
    DividesAt(first, spb, sid);
    sid >= first * spb
  }

  lemma DividesAt(first: int, spb: int, sid: int)
    requires spb > 0
    ensures sid >= first * spb <==> first <= sid / spb
  {
    var q := sid / spb;
    assert sid == q * spb + sid % spb;
    if first <= q {
      assert first * spb <= q * spb;
    } else {
      assert (q + 1) * spb <= first * spb;
      assert (q + 1) * spb == q * spb + spb;
    }
  }
}
