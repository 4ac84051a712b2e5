/**
  Who owns which block: what must agree between the directory, the open file control blocks and the
  allocation map, and how the steps of the BDOS keep it so.
 */
module BdosOwnership {
  import opened Arithmetic
  import opened BdosDirectory
  import opened BdosBitmap

  // --- the disk parameter block

  datatype Dpb = Dpb(bsh: int, exm: int, dsm: int, drm: int, reserved: seq<Octet>)

  // Block numbers in an entry: sixteen bytes, or eight words on a disk of more than 256 blocks.
  function Nptr(p: Dpb): int { if p.dsm < 256 then 16 else 8 }

  // What CP/M asks of a disk parameter block, and that block 0 belongs to the directory.
  ghost predicate DpbOk(p: Dpb) {
    && 3 <= p.bsh <= 7
    && (p.exm == 0 || p.exm == 1 || p.exm == 3 || p.exm == 7 || p.exm == 15)
    && 8 <= p.dsm < 0x10000 && 0 <= p.drm < 0xFFFF
    && |p.reserved| == 2 && p.reserved[0][0]
    && (forall x {:trigger Unfold(x)} :: Unfold(x) ==> Geometry(p))
  }

  // An entry has room for its extents, and every sector has a 16-bit number. (DpbOk is opened to these
  // products by mentioning Unfold, so that only the address lemmas meet them.)
  ghost predicate Geometry(p: Dpb)
    requires p.bsh >= 0
  {
    && (p.exm + 1) * 128 == Nptr(p) * Pow2(p.bsh)
    && (p.dsm + 1) * Pow2(p.bsh) <= 0x10000
  }

  // A block that the parameter block gives to the directory.
  ghost predicate Reserved(p: Dpb, b: int)
    requires |p.reserved| == 2
  {
    0 <= b < 16 && Bit(p.reserved, b)
  }

  // --- files

  // A file control block in the caller's memory.
  datatype Fcb = Fcb(x: Entry, cr: byte, r0: byte, r1: byte, r2: byte)

  // The file an entry belongs to: user number and letters without their attribute bits.
  function FileId(n: Name): Name {
    seq(12, i requires 0 <= i < 12 => n[i] % 128)
  }

  // A name of one file: the first byte of a file and no wild card.
  predicate NameOk(n: Name) {
    OfFile(n[0]) && forall i :: 1 <= i < 12 ==> n[i] != WILD
  }

  lemma MatchSameFile(f: Entry, e: Entry, count: int, exm: int)
    requires 12 <= count <= 15 && exm >= 0 && NameOk(f.name) && Matches(f, e, count, exm)
    ensures FileId(f.name) == FileId(e.name) && Live(e)
  {
    forall i | 0 <= i < 12
      ensures f.name[i] % 128 == e.name[i] % 128
    {
      assert Agrees(f, e, i, exm);
      SameLow(f.name[i], e.name[i]);
    }
    assert Agrees(f, e, 0, exm);
  }

  lemma SameLow(a: byte, b: byte)
    requires (a - b) % 128 == 0
    ensures a % 128 == b % 128
  {
    assert a - b == -128 || a - b == 0 || a - b == 128;
  }

  // A match of fifteen bytes finds the module of extents asked for.
  lemma MatchSameModule(f: Entry, e: Entry, exm: int)
    requires exm >= 0 && Matches(f, e, 15, exm)
    ensures f.s2 != WILD ==> e.s2 % 128 == f.s2 % 128
  {
    assert Agrees(f, e, 14, exm);
    if f.s2 != WILD {
      assert f.s2 == e.s2 + 128 * ((f.s2 - e.s2) / 128);
    }
  }

  // Twelve bytes match or not by the file alone.
  lemma MatchByFile(f: Entry, e: Entry, g: Entry, exm: int)
    requires exm >= 0 && FileId(e.name) == FileId(g.name)
    ensures Matches(f, e, 12, exm) == Matches(f, g, 12, exm)
  {
    forall i | 0 <= i < 12
      ensures Agrees(f, e, i, exm) == Agrees(f, g, i, exm)
    {
      assert FileId(e.name)[i] == FileId(g.name)[i];
      SameResidue(f.name[i], e.name[i], g.name[i]);
    }
  }

  lemma SameResidue(a: int, b: int, c: int)
    requires b % 128 == c % 128
    ensures (a - b) % 128 == 0 <==> (a - c) % 128 == 0
  {
    assert a - c == (a - b) + 128 * (b / 128 - c / 128);
  }

  lemma SameDifference(a: int, b: int, c: int)
    requires a % 128 == b % 128
    ensures (a - c) % 128 == 0 <==> (b - c) % 128 == 0
  {
    assert b - c == (a - c) + 128 * (b / 128 - a / 128);
  }

  // --- ownership

  // Every block named here is owned by the file named here.
  ghost predicate Holds(p: Dpb, owner: map<int, Name>, x: Entry) {
    && |x.ptrs| == Nptr(p) && NameOk(x.name)
    && forall i :: 0 <= i < |x.ptrs| && x.ptrs[i] != 0 ==> Owned(owner, x.ptrs[i], FileId(x.name))
  }

  ghost predicate Owned(owner: map<int, Name>, b: int, id: Name) {
    b in owner && owner[b] == id
  }

  ghost predicate EntriesHold(p: Dpb, owner: map<int, Name>, dir: seq<Entry>) {
    forall i :: 0 <= i < |dir| && Live(dir[i]) ==> Holds(p, owner, dir[i])
  }

  ghost predicate FcbsHold(p: Dpb, owner: map<int, Name>, fcbs: map<int, Fcb>) {
    forall h :: h in fcbs ==> Holds(p, owner, fcbs[h].x)
  }

  // The bits of the allocation map are those of the reserved and the owned blocks, and no others.
  ghost predicate Mapped(p: Dpb, alv: seq<Octet>, owner: map<int, Name>)
    requires |p.reserved| == 2
  {
    && |alv| == p.dsm / 8 + 1
    && (forall b :: 0 <= b < 8 * |alv| ==> (Bit(alv, b) <==> Reserved(p, b) || b in owner))
    && (forall b :: b in owner ==> 1 <= b <= p.dsm && !Reserved(p, b))
  }

  ghost predicate Sound(p: Dpb, dir: seq<Entry>, mark: int, fcbs: map<int, Fcb>, alv: seq<Octet>,
                        owner: map<int, Name>)
  {
    && DpbOk(p) && |dir| == p.drm + 1 && mark >= 0
    && BelowMark(dir, mark)
    && EntriesHold(p, owner, dir)
    && FcbsHold(p, owner, fcbs)
    && Mapped(p, alv, owner)
  }

  // The block b is named by a live entry or an open control block of the file id.
  ghost predicate Names(dir: seq<Entry>, fcbs: map<int, Fcb>, id: Name, b: int) {
    || (exists i :: 0 <= i < |dir| && Live(dir[i]) && FileId(dir[i].name) == id && b in dir[i].ptrs)
    || (exists h :: h in fcbs && FileId(fcbs[h].x.name) == id && b in fcbs[h].x.ptrs)
  }

  // The safety of the file system: a named block is a data block of the disk, is marked in use, and
  // belongs to no second file.
  ghost predicate NoSharedBlock(p: Dpb, dir: seq<Entry>, fcbs: map<int, Fcb>, alv: seq<Octet>)
    requires |p.reserved| == 2
  {
    forall id, b :: b != 0 && Names(dir, fcbs, id, b) ==>
      && 1 <= b <= p.dsm && !Reserved(p, b) && b < 8 * |alv| && Bit(alv, b)
      && forall other :: Names(dir, fcbs, other, b) ==> other == id
  }

  lemma SoundIsSafe(p: Dpb, dir: seq<Entry>, mark: int, fcbs: map<int, Fcb>, alv: seq<Octet>, owner: map<int, Name>)
    requires Sound(p, dir, mark, fcbs, alv, owner)
    ensures NoSharedBlock(p, dir, fcbs, alv)
  {
    forall id, b | b != 0 && Names(dir, fcbs, id, b)
      ensures 1 <= b <= p.dsm && !Reserved(p, b) && b < 8 * |alv| && Bit(alv, b)
      ensures forall other :: Names(dir, fcbs, other, b) ==> other == id
    {
      NamedIsOwned(p, dir, fcbs, owner, id, b);
      forall other | Names(dir, fcbs, other, b)
        ensures other == id
      {
        NamedIsOwned(p, dir, fcbs, owner, other, b);
      }
    }
  }

  lemma NamedIsOwned(p: Dpb, dir: seq<Entry>, fcbs: map<int, Fcb>, owner: map<int, Name>, id: Name, b: int)
    requires EntriesHold(p, owner, dir) && FcbsHold(p, owner, fcbs) && b != 0 && Names(dir, fcbs, id, b)
    ensures Owned(owner, b, id)
  {
    if i :| 0 <= i < |dir| && Live(dir[i]) && FileId(dir[i].name) == id && b in dir[i].ptrs {
      assert Holds(p, owner, dir[i]);
    } else {
      var h :| h in fcbs && FileId(fcbs[h].x.name) == id && b in fcbs[h].x.ptrs;
      assert Holds(p, owner, fcbs[h].x);
    }
  }

  lemma LiveHaveUsers(p: Dpb, owner: map<int, Name>, dir: seq<Entry>)
    requires EntriesHold(p, owner, dir)
    ensures forall i :: 0 <= i < |dir| && Live(dir[i]) ==> OfFile(dir[i].name[0])
  {
    forall i | 0 <= i < |dir| && Live(dir[i])
      ensures OfFile(dir[i].name[0])
    {
      assert Holds(p, owner, dir[i]);
    }
  }

  // --- steps

  // Every block keeps its owner; more may be owned.
  ghost predicate Grows(owner: map<int, Name>, after: map<int, Name>) {
    forall b :: b in owner ==> b in after && after[b] == owner[b]
  }

  lemma HoldsMore(p: Dpb, owner: map<int, Name>, after: map<int, Name>, x: Entry)
    requires Grows(owner, after) && Holds(p, owner, x)
    ensures Holds(p, after, x)
  {
    forall i | 0 <= i < |x.ptrs| && x.ptrs[i] != 0
      ensures Owned(after, x.ptrs[i], FileId(x.name))
    {
      assert Owned(owner, x.ptrs[i], FileId(x.name));
    }
  }

  lemma AllHoldMore(p: Dpb, dir: seq<Entry>, fcbs: map<int, Fcb>, owner: map<int, Name>, after: map<int, Name>)
    requires Grows(owner, after) && EntriesHold(p, owner, dir) && FcbsHold(p, owner, fcbs)
    ensures EntriesHold(p, after, dir) && FcbsHold(p, after, fcbs)
  {
    forall i | 0 <= i < |dir| && Live(dir[i])
      ensures Holds(p, after, dir[i])
    {
      HoldsMore(p, owner, after, dir[i]);
    }
    forall h | h in fcbs
      ensures Holds(p, after, fcbs[h].x)
    {
      HoldsMore(p, owner, after, fcbs[h].x);
    }
  }

  // A free block given to a file.
  lemma Granted(p: Dpb, alv: seq<Octet>, owner: map<int, Name>, b: int, id: Name)
    requires DpbOk(p) && Mapped(p, alv, owner) && 1 <= b <= p.dsm && !Bit(alv, b)
    ensures b !in owner && Grows(owner, owner[b := id])
    ensures Mapped(p, WithBit(alv, b, true), owner[b := id])
  {
    assert !Reserved(p, b) && b !in owner;
    forall c | 0 <= c < 8 * |alv|
      ensures Bit(WithBit(alv, b, true), c) <==> Reserved(p, c) || c in owner[b := id]
    {
      BitOfWithBit(alv, b, true, c);
    }
  }

  // The control block f with the block b at place idx.
  function WithBlock(f: Fcb, idx: int, b: word): Fcb
    requires 0 <= idx < |f.x.ptrs|
  {
    f.(x := f.x.(ptrs := f.x.ptrs[idx := b]))
  }

  // Granting a free block to an open file keeps everything sound.
  lemma GrantKeepsSound(p: Dpb, dir: seq<Entry>, mark: int, fcbs: map<int, Fcb>, alv: seq<Octet>, owner: map<int, Name>,
                        h: int, idx: int, b: int)
    requires Sound(p, dir, mark, fcbs, alv, owner) && h in fcbs && 0 <= idx < Nptr(p)
    requires 1 <= b <= p.dsm && !Bit(alv, b)
    ensures |fcbs[h].x.ptrs| == Nptr(p) && b !in owner
    ensures Sound(p, dir, mark, fcbs[h := WithBlock(fcbs[h], idx, b)], WithBit(alv, b, true),
                  owner[b := FileId(fcbs[h].x.name)])
  {
    var f := fcbs[h];
    var after := owner[b := FileId(f.x.name)];
    assert Holds(p, owner, f.x);
    Granted(p, alv, owner, b, FileId(f.x.name));
    AllHoldMore(p, dir, fcbs, owner, after);
    assert Holds(p, after, f.x);
    assert Holds(p, after, WithBlock(f, idx, b).x);
  }

  // A control block replaced by one that holds its blocks.
  lemma PutFcb(p: Dpb, dir: seq<Entry>, mark: int, fcbs: map<int, Fcb>, alv: seq<Octet>, owner: map<int, Name>,
               h: int, g: Fcb)
    requires Sound(p, dir, mark, fcbs, alv, owner) && Holds(p, owner, g.x)
    ensures Sound(p, dir, mark, fcbs[h := g], alv, owner)
  {
  }

  // An entry replaced by one that holds its blocks, with the mark raised over it.
  lemma PutEntry(p: Dpb, dir: seq<Entry>, mark: int, fcbs: map<int, Fcb>, alv: seq<Octet>, owner: map<int, Name>,
                 n: int, e: Entry, top: int)
    requires Sound(p, dir, mark, fcbs, alv, owner) && 0 <= n < |dir| && Holds(p, owner, e) && mark <= top && n < top
    ensures Sound(p, dir[n := e], top, fcbs, alv, owner)
  {
  }

  // Every block of the disk is in use.
  ghost predicate NoSpace(p: Dpb, alv: seq<Octet>) {
    forall c :: 0 <= c <= p.dsm && c < 8 * |alv| ==> Bit(alv, c)
  }

  // When no block but the one before it is free, none is.
  lemma TargetInUse(p: Dpb, alv: seq<Octet>, owner: map<int, Name>, target: int)
    requires DpbOk(p) && Mapped(p, alv, owner) && (target == 0 || target in owner) && AllUsed(alv, 0, p.dsm, target)
    ensures NoSpace(p, alv)
  {
    assert Reserved(p, 0);
    forall c | 0 <= c <= p.dsm && c < 8 * |alv|
      ensures Bit(alv, c)
    {
      assert p.dsm < 8 * |alv|;
    }
  }

  // --- closing: the two block tables completed from each other

  // Which places clash: both tables name a block, and not the same.
  predicate Clashes(p: word, q: word) { p != 0 && q != 0 && p != q }

  // The first place that clashes, or the length.
  function FirstClash(p: seq<word>, q: seq<word>, i: int): (k: int)
    requires 0 <= i <= |p| == |q|
    ensures i <= k <= |p|
    ensures forall j :: i <= j < k ==> !Clashes(p[j], q[j])
    ensures k < |p| ==> Clashes(p[k], q[k])
    decreases |p| - i
  {
    if i == |p| || Clashes(p[i], q[i]) then i else FirstClash(p, q, i + 1)
  }

  // A small disk of eight data blocks whose directory ends with an entry of the file A at place n.
  function SmallDisk(n: nat): Dpb {
    Dpb(3, 0, 8, n, [[true, false, false, false, false, false, false, false],
                     [false, false, false, false, false, false, false, false]])
  }

  function EntryOfA(block: word): Entry {
    Entry([0, 65, 32, 32, 32, 32, 32, 32, 32, 32, 32, 32], 0, 0, 0, 8, [block] + seq(15, _ => 0))
  }

  function NoFile(): Entry { Entry([EMPTY] + seq(11, _ => EMPTY), 0, 0, 0, 0, seq(16, _ => 0)) }

  function OnlyA(n: nat): seq<Entry> { seq(n, _ => NoFile()) + [EntryOfA(1)] }

  // Two control blocks of one empty file may each take a first block of its own; when the second is closed,
  // the tables clash. This can happen at every place of a directory.
  lemma ClashAnywhere(n: nat)
    requires n < 0xFFFF
    ensures var id := FileId(EntryOfA(1).name);
      var alv := [[true, true, true, false, false, false, false, false],
                  [false, false, false, false, false, false, false, false]];
      Sound(SmallDisk(n), OnlyA(n), n + 1, map[0 := Fcb(EntryOfA(2), 0, 0, 0, 0)], alv, map[1 := id, 2 := id])
    ensures Matches(EntryOfA(2), OnlyA(n)[n], 15, 0)
    ensures forall i :: 0 <= i < n ==> !Matches(EntryOfA(2), OnlyA(n)[i], 15, 0)
    ensures FirstClash(EntryOfA(2).ptrs, OnlyA(n)[n].ptrs, 0) < 16
  {
    ClashSound(n);
    assert Clashes(EntryOfA(2).ptrs[0], EntryOfA(1).ptrs[0]);
    MatchesOnlyA(n);
  }

  lemma ClashSound(n: nat)
    requires n < 0xFFFF
    ensures var id := FileId(EntryOfA(1).name);
      var alv := [[true, true, true, false, false, false, false, false],
                  [false, false, false, false, false, false, false, false]];
      Sound(SmallDisk(n), OnlyA(n), n + 1, map[0 := Fcb(EntryOfA(2), 0, 0, 0, 0)], alv, map[1 := id, 2 := id])
  {
    var p, id := SmallDisk(n), FileId(EntryOfA(1).name);
    PowValues();
    assert Geometry(p);
    var owner := map[1 := id, 2 := id];
    assert Holds(p, owner, EntryOfA(1)) && Holds(p, owner, EntryOfA(2));
  }

  lemma MatchesOnlyA(n: nat)
    ensures Matches(EntryOfA(2), OnlyA(n)[n], 15, 0)
    ensures forall i :: 0 <= i < n ==> !Matches(EntryOfA(2), OnlyA(n)[i], 15, 0)
  {
    forall i | 0 <= i < n
      ensures !Matches(EntryOfA(2), OnlyA(n)[i], 15, 0)
    {
      assert !Agrees(EntryOfA(2), OnlyA(n)[i], 0, 0);
    }
  }

  // The table p with the empty places before k taken from q.
  function FilledUpTo(p: seq<word>, q: seq<word>, k: int): (r: seq<word>)
    requires 0 <= k <= |p| == |q|
    ensures |r| == |p|
    ensures forall i :: 0 <= i < |p| ==> r[i] == if i < k && p[i] == 0 then q[i] else p[i]
  {
    seq(|p|, i requires 0 <= i < |p| => if i < k && p[i] == 0 then q[i] else p[i])
  }

  lemma FilledHolds(p: Dpb, owner: map<int, Name>, x: Entry, y: Entry, k: int)
    requires Holds(p, owner, x) && Holds(p, owner, y) && FileId(x.name) == FileId(y.name) && 0 <= k <= Nptr(p)
    ensures Holds(p, owner, x.(ptrs := FilledUpTo(x.ptrs, y.ptrs, k)))
  {
    forall i | 0 <= i < |x.ptrs| && FilledUpTo(x.ptrs, y.ptrs, k)[i] != 0
      ensures Owned(owner, FilledUpTo(x.ptrs, y.ptrs, k)[i], FileId(x.name))
    {
      assert x.ptrs[i] != 0 ==> Owned(owner, x.ptrs[i], FileId(x.name));
      assert y.ptrs[i] != 0 ==> Owned(owner, y.ptrs[i], FileId(y.name));
    }
  }

  // Without a clash both tables end up the same.
  lemma FilledAgree(p: seq<word>, q: seq<word>)
    requires |p| == |q| && FirstClash(p, q, 0) == |p|
    ensures FilledUpTo(p, q, |p|) == FilledUpTo(q, p, |p|)
  {
    forall i | 0 <= i < |p|
      ensures FilledUpTo(p, q, |p|)[i] == FilledUpTo(q, p, |p|)[i]
    {
      assert !Clashes(p[i], q[i]);
    }
  }

  // --- the directory under a change of one file

  // Live entries of other files are as they were.
  ghost predicate OthersKept(dir: seq<Entry>, after: seq<Entry>, id: Name) {
    && |after| == |dir|
    && forall i :: 0 <= i < |dir| && Live(dir[i]) && FileId(dir[i].name) != id ==> after[i] == dir[i]
  }

  lemma OthersKeptTwice(a: seq<Entry>, b: seq<Entry>, c: seq<Entry>, id: Name)
    requires OthersKept(a, b, id) && OthersKept(b, c, id)
    ensures OthersKept(a, c, id)
  {
  }

  // Every sector that changed lies in a block of the file id.
  ghost predicate DiskKept(disk: map<int, seq<byte>>, after: map<int, seq<byte>>, owner: map<int, Name>, id: Name,
                           bsh: int)
    requires bsh >= 0
  {
    forall s :: (s in disk) != (s in after) || (s in disk && disk[s] != after[s]) ==> Owned(owner, s / Pow2(bsh), id)
  }

  // Writing a sector of an owned block keeps all others.
  lemma OneSector(disk: map<int, seq<byte>>, owner: map<int, Name>, sector: int, rec: seq<byte>, id: Name, bsh: int)
    requires bsh >= 0 && Owned(owner, sector / Pow2(bsh), id)
    ensures DiskKept(disk, disk[sector := rec], owner, id, bsh)
  {
  }

  // --- sets of blocks

  // The blocks that a table names.
  function Blocks(ptrs: seq<word>): set<int> {
    set i | 0 <= i < |ptrs| && ptrs[i] != 0 :: ptrs[i] as int
  }

  lemma BlocksHeld(p: Dpb, owner: map<int, Name>, x: Entry, b: int)
    requires Holds(p, owner, x) && b in Blocks(x.ptrs)
    ensures b != 0 && Owned(owner, b, FileId(x.name))
  {
    var i :| 0 <= i < |x.ptrs| && x.ptrs[i] != 0 && x.ptrs[i] == b;
  }

  lemma HeldByBlocks(p: Dpb, owner: map<int, Name>, after: map<int, Name>, x: Entry)
    requires Holds(p, owner, x)
    requires forall b :: b in Blocks(x.ptrs) ==> b in after && b in owner && after[b] == owner[b]
    ensures Holds(p, after, x)
  {
    forall i | 0 <= i < |x.ptrs| && x.ptrs[i] != 0
      ensures Owned(after, x.ptrs[i], FileId(x.name))
    {
      assert (x.ptrs[i] as int) in Blocks(x.ptrs);
      assert Owned(owner, x.ptrs[i], FileId(x.name));
    }
  }

  // A map with the bits of a set of blocks given the value v.
  ghost predicate BitsSet(p: Dpb, alv: seq<Octet>, after: seq<Octet>, blocks: set<int>, v: bool) {
    && |after| == |alv|
    && forall b :: 0 <= b < 8 * |alv| ==> Bit(after, b) == if b in blocks && b <= p.dsm then v else Bit(alv, b)
  }

  lemma BlocksNext(ptrs: seq<word>, i: int)
    requires 0 <= i < |ptrs|
    ensures Blocks(ptrs[..i + 1]) == Blocks(ptrs[..i]) + (if ptrs[i] == 0 then {} else {ptrs[i] as int})
  {
    var more, less := ptrs[..i + 1], ptrs[..i];
    forall b | b in Blocks(less)
      ensures b in Blocks(more)
    {
      var k :| 0 <= k < |less| && less[k] != 0 && less[k] == b;
      assert more[k] == b;
    }
    forall b | b in Blocks(more)
      ensures b in Blocks(less) || (ptrs[i] != 0 && b == ptrs[i])
    {
      var k :| 0 <= k < |more| && more[k] != 0 && more[k] == b;
      assert k < i ==> less[k] == b;
    }
    assert more[i] == ptrs[i];
  }

  lemma OneMoreBit(p: Dpb, alv: seq<Octet>, before: seq<Octet>, blocks: set<int>, b: int, v: bool)
    requires BitsSet(p, alv, before, blocks, v) && 0 <= b <= p.dsm && b < 8 * |alv|
    ensures BitsSet(p, alv, WithBit(before, b, v), blocks + {b}, v)
  {
    forall c | 0 <= c < 8 * |alv|
      ensures Bit(WithBit(before, b, v), c) == if c in blocks + {b} && c <= p.dsm then v else Bit(alv, c)
    {
      BitOfWithBit(before, b, v, c);
    }
  }

  // --- erasing

  // The pattern asks for the file.
  predicate Wanted(f: Entry, n: Name, exm: int)
    requires exm >= 0
  {
    Matches(f, Entry(n, 0, 0, 0, 0, []), 12, exm)
  }

  lemma WantedByFile(f: Entry, e: Entry, exm: int)
    requires exm >= 0
    ensures Matches(f, e, 12, exm) == Wanted(f, FileId(e.name), exm)
  {
    assert FileId(FileId(e.name)) == FileId(e.name);
    MatchByFile(f, e, Entry(FileId(e.name), 0, 0, 0, 0, []), exm);
  }

  // The blocks that the wanted entries before `to` name.
  function Freed(dir: seq<Entry>, f: Entry, exm: int, to: int): set<int>
    requires exm >= 0 && 0 <= to <= |dir|
  {
    if to == 0 then {}
    else Freed(dir, f, exm, to - 1) + (if Matches(f, dir[to - 1], 12, exm) then Blocks(dir[to - 1].ptrs) else {})
  }

  lemma {:induction false} FreedSkip(dir: seq<Entry>, f: Entry, exm: int, from: int, n: int)
    requires exm >= 0 && 0 <= from <= n <= |dir|
    requires forall i :: from <= i < n ==> !Matches(f, dir[i], 12, exm)
    ensures Freed(dir, f, exm, from) == Freed(dir, f, exm, n)
  {
    if from < n {
      FreedSkip(dir, f, exm, from, n - 1);
    }
  }

  // Blocks that are freed belong to wanted files.
  lemma {:induction false} FreedIsWanted(p: Dpb, owner: map<int, Name>, dir: seq<Entry>, f: Entry, to: int, b: int)
    requires p.exm >= 0 && 0 <= to <= |dir| && EntriesHold(p, owner, dir) && OfFile(f.name[0])
    requires b in Freed(dir, f, p.exm, to)
    ensures b in owner && b != 0 && Wanted(f, owner[b], p.exm)
  {
    if to > 0 {
      var e := dir[to - 1];
      if b in Freed(dir, f, p.exm, to - 1) {
        FreedIsWanted(p, owner, dir, f, to - 1, b);
      } else {
        assert Agrees(f, e, 0, p.exm);
        assert Live(e);
        BlocksHeld(p, owner, e, b);
        WantedByFile(f, e, p.exm);
      }
    }
  }

  // What is left after erasing every wanted entry.
  ghost function Erased(f: Entry, e: Entry, exm: int): Entry
    requires exm >= 0
  {
    if Matches(f, e, 12, exm) then e.(name := e.name[0 := EMPTY]) else e
  }

  // A directory of which the part before `at` has been erased.
  ghost predicate HalfErased(f: Entry, dir0: seq<Entry>, dir: seq<Entry>, exm: int, at: int)
    requires exm >= 0
  {
    && |dir| == |dir0| && 0 <= at <= |dir|
    && (forall i :: 0 <= i < at ==> dir[i] == Erased(f, dir0[i], exm))
    && (forall i :: at <= i < |dir| ==> dir[i] == dir0[i])
  }

  lemma HalfErasedStep(f: Entry, dir0: seq<Entry>, dir: seq<Entry>, exm: int, at: int, mark: int)
    requires exm >= 0 && HalfErased(f, dir0, dir, exm, at) && at < |dir| && BelowMark(dir, mark)
    ensures HalfErased(f, dir0, dir[at := Erased(f, dir[at], exm)], exm, at + 1)
    ensures BelowMark(dir[at := Erased(f, dir[at], exm)], mark)
  {
    assert Live(Erased(f, dir[at], exm)) ==> Live(dir[at]);
  }

  // Where nothing matches nothing is to be erased, nor freed.
  lemma HalfErasedSkip(f: Entry, dir0: seq<Entry>, dir: seq<Entry>, exm: int, at: int, n: int)
    requires exm >= 0 && HalfErased(f, dir0, dir, exm, at) && at <= n <= |dir|
    requires forall i :: at <= i < n ==> !Matches(f, dir[i], 12, exm)
    ensures HalfErased(f, dir0, dir, exm, n)
    ensures Freed(dir0, f, exm, at) == Freed(dir0, f, exm, n)
  {
    forall i | at <= i < n
      ensures !Matches(f, dir0[i], 12, exm)
    {
      assert dir[i] == dir0[i];
    }
    FreedSkip(dir0, f, exm, at, n);
  }

  // No open control block names a block of the set.
  predicate Clear(fcbs: map<int, Fcb>, freed: set<int>) {
    forall h :: h in fcbs ==> Blocks(fcbs[h].x.ptrs) !! freed
  }

  // The survivors still hold their blocks, and the open control blocks do if they name no freed one.
  lemma SurvivorsHold(p: Dpb, owner: map<int, Name>, dir: seq<Entry>, after: seq<Entry>, fcbs: map<int, Fcb>, f: Entry)
    requires p.exm >= 0 && EntriesHold(p, owner, dir) && FcbsHold(p, owner, fcbs) && OfFile(f.name[0])
    requires |after| == |dir| && forall i :: 0 <= i < |dir| ==> after[i] == Erased(f, dir[i], p.exm)
    ensures EntriesHold(p, owner - Freed(dir, f, p.exm, |dir|), after)
    ensures Clear(fcbs, Freed(dir, f, p.exm, |dir|)) ==> FcbsHold(p, owner - Freed(dir, f, p.exm, |dir|), fcbs)
  {
    var freed := Freed(dir, f, p.exm, |dir|);
    forall i | 0 <= i < |after| && Live(after[i])
      ensures Holds(p, owner - freed, after[i])
    {
      assert !Matches(f, dir[i], 12, p.exm);
      UnwantedHolds(p, owner, dir, f, dir[i]);
    }
    if Clear(fcbs, freed) {
      forall h | h in fcbs
        ensures Holds(p, owner - freed, fcbs[h].x)
      {
        ClearHolds(p, owner, freed, fcbs[h].x);
      }
    }
  }

  lemma ClearHolds(p: Dpb, owner: map<int, Name>, freed: set<int>, x: Entry)
    requires Holds(p, owner, x) && Blocks(x.ptrs) !! freed
    ensures Holds(p, owner - freed, x)
  {
    forall b | b in Blocks(x.ptrs)
      ensures b in owner && b !in freed
    {
      BlocksHeld(p, owner, x, b);
    }
    HeldByBlocks(p, owner, owner - freed, x);
  }

  // Control blocks of files that are not erased name no freed block.
  lemma UnwantedClear(p: Dpb, owner: map<int, Name>, dir: seq<Entry>, fcbs: map<int, Fcb>, f: Entry)
    requires p.exm >= 0 && EntriesHold(p, owner, dir) && FcbsHold(p, owner, fcbs) && OfFile(f.name[0])
    requires forall h :: h in fcbs ==> !Matches(f, fcbs[h].x, 12, p.exm)
    ensures Clear(fcbs, Freed(dir, f, p.exm, |dir|))
  {
    forall h, b | h in fcbs && b in Blocks(fcbs[h].x.ptrs)
      ensures b !in Freed(dir, f, p.exm, |dir|)
    {
      UnwantedHolds(p, owner, dir, f, fcbs[h].x);
      BlocksHeld(p, owner - Freed(dir, f, p.exm, |dir|), fcbs[h].x, b);
    }
  }

  // After an erase the system is safe if and only if no open control block names a freed block.
  lemma EraseSafe(p: Dpb, dir: seq<Entry>, mark: int, fcbs: map<int, Fcb>, alv: seq<Octet>, owner: map<int, Name>,
                  freed: set<int>)
    requires DpbOk(p) && FcbsHold(p, owner, fcbs) && Sound(p, dir, mark, map[], alv, owner - freed)
    requires forall b :: b in owner ==> 1 <= b <= p.dsm && !Reserved(p, b)
    ensures NoSharedBlock(p, dir, fcbs, alv) <==> Clear(fcbs, freed)
    ensures Sound(p, dir, mark, fcbs, alv, owner - freed) <==> Clear(fcbs, freed)
  {
    if Clear(fcbs, freed) {
      forall h | h in fcbs
        ensures Holds(p, owner - freed, fcbs[h].x)
      {
        ClearHolds(p, owner, freed, fcbs[h].x);
      }
      SoundIsSafe(p, dir, mark, fcbs, alv, owner - freed);
    } else {
      var h, b :| h in fcbs && b in Blocks(fcbs[h].x.ptrs) && b in freed;
      FreedUnderOpen(p, dir, mark, fcbs, alv, owner, freed, h, b);
    }
  }

  // A control block that names a freed block names one that is marked free.
  lemma FreedUnderOpen(p: Dpb, dir: seq<Entry>, mark: int, fcbs: map<int, Fcb>, alv: seq<Octet>,
                       owner: map<int, Name>, freed: set<int>, h: int, b: int)
    requires DpbOk(p) && FcbsHold(p, owner, fcbs) && Sound(p, dir, mark, map[], alv, owner - freed)
    requires forall c :: c in owner ==> 1 <= c <= p.dsm && !Reserved(p, c)
    requires h in fcbs && b in Blocks(fcbs[h].x.ptrs) && b in freed
    ensures !NoSharedBlock(p, dir, fcbs, alv) && !Sound(p, dir, mark, fcbs, alv, owner - freed)
  {
    BlocksHeld(p, owner, fcbs[h].x, b);
    assert Names(dir, fcbs, FileId(fcbs[h].x.name), b);
    assert b < 8 * |alv| ==> !Bit(alv, b);
    if Sound(p, dir, mark, fcbs, alv, owner - freed) {
      SoundIsSafe(p, dir, mark, fcbs, alv, owner - freed);
    }
  }

  lemma UnwantedHolds(p: Dpb, owner: map<int, Name>, dir: seq<Entry>, f: Entry, x: Entry)
    requires p.exm >= 0 && EntriesHold(p, owner, dir) && OfFile(f.name[0])
    requires Holds(p, owner, x) && !Matches(f, x, 12, p.exm)
    ensures Holds(p, owner - Freed(dir, f, p.exm, |dir|), x)
  {
    var freed := Freed(dir, f, p.exm, |dir|);
    WantedByFile(f, x, p.exm);
    forall b | b in Blocks(x.ptrs)
      ensures b in owner && b !in freed
    {
      BlocksHeld(p, owner, x, b);
      if b in freed {
        FreedIsWanted(p, owner, dir, f, |dir|, b);
        assert false;
      }
    }
    HeldByBlocks(p, owner, owner - freed, x);
  }

  // Clearing the bits of a set of owned blocks takes them from their files.
  lemma ReleasedAll(p: Dpb, alv: seq<Octet>, after: seq<Octet>, owner: map<int, Name>, blocks: set<int>)
    requires DpbOk(p) && Mapped(p, alv, owner) && BitsSet(p, alv, after, blocks, false)
    requires forall b :: b in blocks ==> 1 <= b <= p.dsm && !Reserved(p, b)
    ensures Mapped(p, after, owner - blocks)
  {
  }

  // --- logging in

  // The blocks that the live entries before `to` name.
  function Listed(dir: seq<Entry>, to: int): set<int>
    requires 0 <= to <= |dir|
  {
    if to == 0 then {} else Listed(dir, to - 1) + (if Live(dir[to - 1]) then Blocks(dir[to - 1].ptrs) else {})
  }

  lemma {:induction false} ListedOwned(p: Dpb, owner: map<int, Name>, dir: seq<Entry>, to: int, b: int)
    requires 0 <= to <= |dir| && EntriesHold(p, owner, dir) && b in Listed(dir, to)
    ensures b in owner
  {
    if to > 0 {
      if b in Listed(dir, to - 1) {
        ListedOwned(p, owner, dir, to - 1, b);
      } else {
        BlocksHeld(p, owner, dir[to - 1], b);
      }
    }
  }

  lemma {:induction false} ListedHas(dir: seq<Entry>, to: int, i: int)
    requires 0 <= i < to <= |dir| && Live(dir[i])
    ensures Blocks(dir[i].ptrs) <= Listed(dir, to)
  {
    if i < to - 1 {
      ListedHas(dir, to - 1, i);
    }
  }

  // The owners of the listed blocks alone.
  ghost function Restricted(owner: map<int, Name>, blocks: set<int>): map<int, Name> {
    map b | b in owner && b in blocks :: owner[b]
  }

  lemma BitsSetTwice(p: Dpb, a: seq<Octet>, b: seq<Octet>, c: seq<Octet>, x: set<int>, y: set<int>, v: bool)
    requires BitsSet(p, a, b, x, v) && BitsSet(p, b, c, y, v)
    ensures BitsSet(p, a, c, x + y, v)
  {
  }

  // A fresh map holds the bits of the parameter block alone.
  ghost predicate Fresh(p: Dpb, alv: seq<Octet>)
    requires |p.reserved| == 2
  {
    |alv| == p.dsm / 8 + 1 && forall b :: 0 <= b < 8 * |alv| ==> (Bit(alv, b) <==> Reserved(p, b))
  }

  lemma FreshMap(p: Dpb, alv: seq<Octet>)
    requires DpbOk(p) && |alv| == p.dsm / 8 + 1 && alv[0] == p.reserved[0] && alv[1] == p.reserved[1]
    requires forall i :: 2 <= i < |alv| ==> alv[i] == seq(8, _ => false)
    ensures Fresh(p, alv)
  {
    forall b | 0 <= b < 8 * |alv|
      ensures Bit(alv, b) <==> Reserved(p, b)
    {
      assert b / 8 == 0 || b / 8 == 1 || 2 <= b / 8 < |alv|;
    }
  }

  // The range of the owned blocks.
  ghost predicate InRange(p: Dpb, owner: map<int, Name>)
    requires |p.reserved| == 2
  {
    forall b :: b in owner ==> 1 <= b <= p.dsm && !Reserved(p, b)
  }

  // A map built from the directory agrees with the owners of the listed blocks.
  lemma BuiltMap(p: Dpb, dir: seq<Entry>, owner: map<int, Name>, base: seq<Octet>, alv: seq<Octet>)
    requires DpbOk(p) && EntriesHold(p, owner, dir) && InRange(p, owner)
    requires Fresh(p, base) && BitsSet(p, base, alv, Listed(dir, |dir|), true)
    ensures Mapped(p, alv, Restricted(owner, Listed(dir, |dir|)))
  {
    var after := Restricted(owner, Listed(dir, |dir|));
    forall b | 0 <= b < 8 * |alv|
      ensures Bit(alv, b) <==> Reserved(p, b) || b in after
    {
      if b in Listed(dir, |dir|) {
        ListedOwned(p, owner, dir, |dir|, b);
      }
    }
  }

  lemma ListedHold(p: Dpb, owner: map<int, Name>, dir: seq<Entry>, fcbs: map<int, Fcb>)
    requires EntriesHold(p, owner, dir) && FcbsHold(p, owner, fcbs)
    requires forall h :: h in fcbs ==> Blocks(fcbs[h].x.ptrs) <= Listed(dir, |dir|)
    ensures EntriesHold(p, Restricted(owner, Listed(dir, |dir|)), dir)
    ensures FcbsHold(p, Restricted(owner, Listed(dir, |dir|)), fcbs)
  {
    var after := Restricted(owner, Listed(dir, |dir|));
    forall i | 0 <= i < |dir| && Live(dir[i])
      ensures Holds(p, after, dir[i])
    {
      ListedHas(dir, |dir|, i);
      ListedKeeps(p, owner, dir, dir[i]);
    }
    forall h | h in fcbs
      ensures Holds(p, after, fcbs[h].x)
    {
      ListedKeeps(p, owner, dir, fcbs[h].x);
    }
  }

  lemma ListedKeeps(p: Dpb, owner: map<int, Name>, dir: seq<Entry>, x: Entry)
    requires Holds(p, owner, x) && Blocks(x.ptrs) <= Listed(dir, |dir|)
    ensures Holds(p, Restricted(owner, Listed(dir, |dir|)), x)
  {
    forall b | b in Blocks(x.ptrs)
      ensures b in owner && b in Listed(dir, |dir|)
    {
      BlocksHeld(p, owner, x, b);
    }
    HeldByBlocks(p, owner, Restricted(owner, Listed(dir, |dir|)), x);
  }

  // --- addresses

  // Place in the block table of a record of an extent.
  function PlaceIn(p: Dpb, record: int, ext: int): int
    requires 0 <= p.bsh <= 7 && p.exm >= 0
  {
    record / Pow2(p.bsh) + ext % (p.exm + 1) * Pow2(7 - p.bsh)
  }

  // It is one of the table, for every size of block. A record beyond 127 is one of the next extent in the entry, if
  // there is one.
  lemma BlockIndexFits(p: Dpb, record: int, ext: int)
    requires DpbOk(p) && 0 <= record && 0 <= ext && record + 128 * ext < 128 * (p.exm + 1)
    ensures 0 <= record / Pow2(p.bsh) + ext * Pow2(7 - p.bsh) < Nptr(p)
  {
    assert Unfold(0);
    PowValues();
    if p.bsh == 3 {
    } else if p.bsh == 4 {
    } else if p.bsh == 5 {
    } else if p.bsh == 6 {
    } else {
    }
  }

  // The doublings of an extent number stay inside the block table.
  lemma DoublingFits(p: Dpb, ext: int, j: int)
    requires DpbOk(p) && 0 <= ext <= p.exm && 0 <= j < 7 - p.bsh
    ensures 2 * (ext * Pow2(j)) == ext * Pow2(j + 1)
    ensures 0 <= ext * Pow2(j + 1) < 0x100
  {
    BlockIndexFits(p, 0, ext);
    PowRises(j + 1, 7 - p.bsh);
    assert ext * Pow2(j + 1) <= ext * Pow2(7 - p.bsh);
  }

  // Every sector of every block has a 16-bit number.
  lemma SectorFits(p: Dpb, b: int, k: int)
    requires DpbOk(p) && 0 <= b <= p.dsm && 0 <= k <= p.bsh
    ensures 0 <= b * Pow2(k) <= 0x10000 - Pow2(p.bsh)
  {
    assert Unfold(0);
    PowRises(k, p.bsh);
    ProductBelow(b, p.dsm, Pow2(k), Pow2(p.bsh));
  }

  lemma ProductBelow(b: int, d: int, x: int, y: int)
    requires 0 <= b <= d && 0 <= x <= y
    ensures 0 <= b * x <= (d + 1) * y - y
  {
    assert b * x <= b * y;
    assert b * y <= d * y;
  }

  // One doubling of a block number on its way to a sector number.
  lemma SectorDoubles(p: Dpb, b: int, j: int)
    requires DpbOk(p) && 0 <= b <= p.dsm && 0 <= j < p.bsh
    ensures b * Pow2(j) * 2 % 0x10000 == b * Pow2(j + 1)
  {
    SectorFits(p, b, j + 1);
    DoubleProduct(b, Pow2(j));
  }

  lemma DoubleProduct(b: int, x: int)
    ensures 2 * (b * x) == b * (2 * x)
  {
  }

  lemma HalveAgain(x: int, k: int)
    requires 0 <= x && 0 <= k
    ensures x / Pow2(k) / 2 == x / Pow2(k + 1)
  {
    var d := Pow2(k);
    var q, r := x / d, x % d;
    assert x == d * q + r;
    assert q == 2 * (q / 2) + q % 2;
    assert x == (q / 2) * (2 * d) + (d * (q % 2) + r) by {
      assert d * q == d * (2 * (q / 2)) + d * (q % 2);
    }
    assert 0 <= d * (q % 2) + r < 2 * d;
    QuotientIs(x, 2 * d, q / 2, d * (q % 2) + r);
  }
}
