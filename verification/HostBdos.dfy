/**
  Does the BDOS find what addfile has imported? The BDOS (cpm22/bdos.asm) asks the directory for extents numbered by
  128 records, shares an entry between exm + 1 of them, and reads no record beyond the entry's count; addfile
  (src/biosapi.cpp) numbers whole entries and stores the count of all their records in a byte. This says for which
  parameter blocks and which records the two mean the same sector of the disk.
 */
module HostBdos {
  import opened Arithmetic
  import opened HostDirectory
  import opened HostImport
  import opened HostDisk
  import BdosDirectory
  import BdosOwnership
  import opened BdosPlaces
  import BdosRandom
  import BdosTracks
  import Bdos

  // --- the entry

  // The BDOS, after extent e of a file, accepts an entry with extent byte xl and module byte xh.
  predicate Accepts(exm: int, e: int, xl: int, xh: int)
    requires exm >= 0 && 0 <= e && 0 <= xl < 16
  {
    BdosDirectory.SameExt(e % 32, xl, exm) && (e / 32 - xh) % 128 == 0
  }

  // That is what a match of fifteen bytes comes to for a control block and an entry of one file.
  lemma AcceptsIsMatch(f: BdosDirectory.Entry, g: BdosDirectory.Entry, exm: int, e: int)
    requires exm >= 0 && 0 <= e < 512 && f.ext == e % 32 && f.s2 == e / 32 && f.name == g.name && g.ext < 16
    ensures BdosDirectory.Matches(f, g, 15, exm) <==> Accepts(exm, e, g.ext, g.s2)
  {
    assert BdosDirectory.Agrees(f, g, 12, exm) <==> BdosDirectory.SameExt(f.ext, g.ext, exm);
    assert BdosDirectory.Agrees(f, g, 14, exm) <==> (f.s2 - g.s2) % 128 == 0;
    forall i | 0 <= i < 14 && i != 12
      ensures BdosDirectory.Agrees(f, g, i, exm)
    {
    }
  }

  // Entry d of a file, which holds exm + 1 extents, is the one the BDOS accepts for them.
  predicate Found(exm: int, d: int) { d == 0 || (exm == 0 && d < 16) || (exm == 1 && d % 16 == 0) }

  lemma AcceptsExact(exm: int, e: int, d: int, x: int)
    requires MaskOk(exm) && 0 <= e < 512 && e == (exm + 1) * d + x && 0 <= x <= exm
    ensures Accepts(exm, e, d % 16, d / 16) <==> Found(exm, d)
  {
    if exm == 0 {
      Mask0(exm, e, d);
    } else if exm == 1 {
      Mask1(exm, e, x, d / 16, d % 16);
    } else if exm == 3 {
      Mask3(exm, e, x, d);
    } else if exm == 7 {
      Mask7(exm, e, x, d);
    } else {
      Mask15(exm, e, x, d);
    }
  }

  lemma Mask3(exm: int, e: int, x: int, d: int)
    requires exm == 3 && 0 <= e < 512 && e == 4 * d + x && 0 <= x < 4
    ensures Accepts(exm, e, d % 16, d / 16) <==> d == 0
  {
    WideMask(4, 8, e, x, d, d / 8, d % 8);
  }

  lemma Mask7(exm: int, e: int, x: int, d: int)
    requires exm == 7 && 0 <= e < 512 && e == 8 * d + x && 0 <= x < 8
    ensures Accepts(exm, e, d % 16, d / 16) <==> d == 0
  {
    WideMask(8, 4, e, x, d, d / 4, d % 4);
  }

  lemma Mask15(exm: int, e: int, x: int, d: int)
    requires exm == 15 && 0 <= e < 512 && e == 16 * d + x && 0 <= x < 16
    ensures Accepts(exm, e, d % 16, d / 16) <==> d == 0
  {
    WideMask(16, 2, e, x, d, d / 2, d % 2);
  }

  lemma Mask0(exm: int, e: int, d: int)
    requires exm == 0 && 0 <= d < 512 && e == d
    ensures Accepts(exm, e, d % 16, d / 16) <==> d < 16
  {
    var u, v := d / 16, d % 16;
    assert d / 32 == u / 2;
    assert u >= 2 ==> 0 < u - u / 2 < 128;
    assert u == 1 ==> d % 32 == v + 16;
  }

  lemma Mask1(exm: int, e: int, x: int, u: int, v: int)
    requires exm == 1 && e == 32 * u + 2 * v + x && 0 <= x < 2 && 0 <= v < 16 && 0 <= u < 16
    ensures Accepts(exm, e, v, u) <==> v == 0
  {
    Split32(e, u, 2 * v + x);
    QuotientIs(2 * v + x, 2, v, x);
  }

  lemma Split32(e: int, u: int, w: int)
    requires e == 32 * u + w && 0 <= w < 32
    ensures e / 32 == u && e % 32 == w
  {
  }

  // m extents to an entry and n entries to a module, m being 4 or more: entry d is entry v of module u.
  lemma WideMask(m: int, n: int, e: int, x: int, d: int, u: int, v: int)
    requires m * n == 32 && 4 <= m && 0 < n <= 8 && 0 <= x < m && 0 <= v < n && 0 <= u < 16
    requires d == n * u + v && e == m * d + x && 0 <= d && 0 <= e
    ensures Accepts(m - 1, e, d % 16, d / 16) <==> d == 0
  {
    Expand(m, n, e, x, u, v);
    Split32(e, u, m * v + x);
    QuotientIs(m * v + x, m, v, x);
    if u > 0 {
      assert d / 16 < u;
    } else {
      assert d == v && d % 16 == v && d / 16 == 0;
      Masked(m, n, v);
    }
  }

  lemma Expand(m: int, n: int, e: int, x: int, u: int, v: int)
    requires m * n == 32 && 0 < m && 0 < n <= 8 && 0 <= x < m && 0 <= v < n && 0 <= u
    requires e == m * (n * u + v) + x
    ensures e == 32 * u + (m * v + x) && 0 <= m * v + x < 32
    ensures 0 <= n * u + v <= 8 * u + 7
  {
    assert m * (n * u + v) == (m * n) * u + m * v;
    assert m * (v + 1) <= m * n;
    assert m * (v + 1) == m * v + m;
    assert 0 <= m * v;
    assert 0 <= n * u <= 8 * u;
  }

  lemma Masked(m: int, n: int, v: int)
    requires m * n == 32 && 4 <= m && 0 <= v < n
    ensures (m * v - (v - v % m)) % 32 == 0 <==> v == 0
  {
    assert m * (v + 1) <= m * n;
    assert m * (v + 1) == m * v + m;
    assert 4 * v <= m * v;
    assert 0 <= v - v % m <= v;
    assert v > 0 ==> 0 < m * v - (v - v % m) < 32;
  }

  // And no entry before it is accepted in its place.
  lemma NoneEarlier(exm: int, e: int, d: int, x: int, c: int)
    requires MaskOk(exm) && 0 <= e < 512 && e == (exm + 1) * d + x && 0 <= x <= exm && Found(exm, d) && 0 <= c < d
    ensures !Accepts(exm, e, c % 16, c / 16)
  {
    if exm == 0 {
      LowerExtent(e, c);
    } else {
      LowerModule(e, x, d / 16, c);
    }
  }

  lemma LowerExtent(e: int, c: int)
    requires 0 <= c < e < 16
    ensures !Accepts(0, e, c % 16, c / 16)
  {
    assert e % 32 == e && c % 16 == c && 0 < e - c < 32;
  }

  lemma LowerModule(e: int, x: int, u: int, c: int)
    requires e == 32 * u + x && 0 <= x < 2 && 0 <= c < 16 * u && u < 16
    ensures !Accepts(1, e, c % 16, c / 16)
  {
    Split32(e, u, x);
    assert 0 <= c / 16 < u;
  }

  // Both use pointers of the same width unless a disk of 256 blocks has blocks above 1024 bytes.
  lemma WidthsAgree(p: BdosOwnership.Dpb, first: int)
    requires 3 <= p.bsh <= 7 && 0 <= p.dsm < 0x10000 && (p.bsh == 3 ==> p.dsm < 256)
    ensures ShapeOf(p.bsh, p.dsm, first).bps == BdosOwnership.Nptr(p) <==> p.bsh == 3 || p.dsm != 255
  {
    PowValues();
    if p.bsh > 3 {
      PowRises(4, p.bsh);
    }
  }

  // --- the directory

  // Entry i is of the file, and the BDOS accepts it for extent e.
  predicate Offered(dir: seq<Extent>, i: int, name: Name, exm: int, e: int)
    requires exm >= 0 && 0 <= e && 0 <= i < |dir|
  {
    dir[i].used && dir[i].name == name && 0 <= dir[i].xl < 16 && Accepts(exm, e, dir[i].xl, dir[i].xh)
  }

  // What both sides ask of a parameter block: extents of 128 records, and as many blocks to an entry.
  predicate Agreed(p: Shape, dpb: BdosOwnership.Dpb) {
    && 3 <= dpb.bsh <= 7 && MaskOk(dpb.exm) && p.spb == Pow2(dpb.bsh)
    && (p.bps == 8 || p.bps == 16) && (dpb.exm + 1) * 128 == p.bps * p.spb
  }

  // An entry that has a block has the number of the block's entry.
  lemma EntryNumber(p: Shape, dir: seq<Extent>, i: int, name: Name, k: int)
    requires p.bps > 0 && InOrder(dir) && HasBlock(p, dir, i, name, k) && 0 <= k
    ensures Numbered(dir[i]) == k / p.bps < 16 && dir[i].xh == 0
  {
    NumberFrom(dir[i], k / p.bps, k % p.bps);
  }

  lemma NumberFrom(e: Extent, d: int, b: int)
    requires NumberOk(e) && ExtNumber(e.xl, e.xh) == d && 0 <= b < |e.ptrs| && e.ptrs[b] != 0
    ensures Numbered(e) == d < 16 && e.xh == 0
  {
  }

  // The entry that holds record r is offered to the BDOS if and only if it is Found, and then it comes first.
  lemma BdosFinds(p: Shape, dir: seq<Extent>, dpb: BdosOwnership.Dpb, exm: int, name: Name, r: int, i: int,
                  e: int, d: int)
    requires dpb.exm == exm && Agreed(p, dpb) && InOrder(dir) && HasBlock(p, dir, i, name, r / p.spb)
    requires 0 <= r < 0x10000 && e == r / 128 && d == e / (exm + 1)
    ensures Offered(dir, i, name, exm, e) <==> Found(exm, d)
    ensures Found(exm, d) ==> forall j :: 0 <= j < i ==> !Offered(dir, j, name, exm, e)
  {
    RecordNumber(p, dir, dpb, exm, name, r, i, d);
    DividedAt(dir, i, name, exm, e, d);
  }

  lemma RecordNumber(p: Shape, dir: seq<Extent>, dpb: BdosOwnership.Dpb, exm: int, name: Name, r: int, i: int, d: int)
    requires dpb.exm == exm && Agreed(p, dpb) && InOrder(dir) && 0 <= r && HasBlock(p, dir, i, name, r / p.spb)
    requires d == r / 128 / (exm + 1)
    ensures Numbered(dir[i]) == d < 16 && dir[i].xh == 0
  {
    NumberAgrees(p, dpb, exm, r);
    EntryNumber(p, dir, i, name, r / p.spb);
  }

  lemma NumberAgrees(p: Shape, dpb: BdosOwnership.Dpb, exm: int, r: int)
    requires dpb.exm == exm && Agreed(p, dpb) && 0 <= r
    ensures r / p.spb / p.bps == r / 128 / (exm + 1) && 0 <= r / p.spb
  {
    PlaceAgrees(dpb, dpb.bsh, exm, p.bps, r);
    NotNegative(r, p.spb);
  }

  lemma NotNegative(r: int, s: int)
    requires 0 <= r && 0 < s
    ensures 0 <= r / s
  {
  }

  lemma DividedAt(dir: seq<Extent>, i: int, name: Name, exm: int, e: int, d: int)
    requires InOrder(dir) && 0 <= i < |dir| && dir[i].used && dir[i].name == name
    requires Numbered(dir[i]) == d < 16 && dir[i].xh == 0
    requires MaskOk(exm) && 0 <= e < 512 && d == e / (exm + 1)
    ensures Offered(dir, i, name, exm, e) <==> Found(exm, d)
    ensures Found(exm, d) ==> forall j :: 0 <= j < i ==> !Offered(dir, j, name, exm, e)
  {
    Parts(e, exm + 1);
    OfferedAt(dir, i, name, exm, e, d, e % (exm + 1));
  }

  lemma OfferedAt(dir: seq<Extent>, i: int, name: Name, exm: int, e: int, d: int, x: int)
    requires InOrder(dir) && 0 <= i < |dir| && dir[i].used && dir[i].name == name
    requires Numbered(dir[i]) == d < 16 && dir[i].xh == 0
    requires MaskOk(exm) && 0 <= e < 512 && e == (exm + 1) * d + x && 0 <= x <= exm
    ensures Offered(dir, i, name, exm, e) <==> Found(exm, d)
    ensures Found(exm, d) ==> forall j :: 0 <= j < i ==> !Offered(dir, j, name, exm, e)
  {
    assert NumberOk(dir[i]);
    AcceptsExact(exm, e, d, x);
    assert dir[i].xl == d % 16 && d / 16 == 0;
    if Found(exm, d) {
      forall j | 0 <= j < i
        ensures !Offered(dir, j, name, exm, e)
      {
        if dir[j].used && dir[j].name == name {
          EarlierEntry(dir, i, j, name, exm, e, d, x);
        }
      }
    }
  }

  lemma EarlierEntry(dir: seq<Extent>, i: int, j: int, name: Name, exm: int, e: int, d: int, x: int)
    requires InOrder(dir) && 0 <= j < i < |dir| && dir[i].used && dir[i].name == name && Numbered(dir[i]) == d < 16
    requires dir[j].used && dir[j].name == name
    requires MaskOk(exm) && 0 <= e < 512 && e == (exm + 1) * d + x && 0 <= x <= exm && Found(exm, d)
    ensures !Offered(dir, j, name, exm, e)
  {
    var c := Numbered(dir[j]);
    assert NumberOk(dir[j]) && c < d;
    NoneEarlier(exm, e, d, x, c);
    assert dir[j].xh == 0 && dir[j].xl == c % 16 && c / 16 == 0;
  }

  // --- the record count

  // Record r of a file of `total` blocks is counted in its entry, if an entry is one extent.
  lemma CountCovers(p: Shape, r: int, d: int, total: int)
    requires p.spb > 0 && p.bps > 0 && p.bps * p.spb == 128 && 0 <= r && r / p.spb < total && d == r / 128
    ensures r % 128 < CountFor(p, d, total)
  {
    var q := r / p.spb - d * p.bps;
    InOneExtent(p.spb, p.bps, r, d, q);
    var n := InExtent(p, d, total);
    assert q + 1 <= n <= p.bps;
    Rises(p.spb, q + 1, n);
    Rises(p.spb, n, p.bps);
  }

  lemma InOneExtent(spb: int, bps: int, r: int, d: int, q: int)
    requires spb > 0 && bps > 0 && bps * spb == 128 && 0 <= r && d == r / 128 && q == r / spb - d * bps
    ensures q < bps && r % 128 < (q + 1) * spb
  {
    var k, s := r / spb, r % spb;
    assert r == k * spb + s;
    assert q * spb == k * spb - d * (bps * spb);
    assert (q + 1) * spb == q * spb + spb;
    if q >= bps {
      Rises(spb, bps, q);
    }
  }

  // A random read gets record r of a file of `total` blocks: extents and entries are the same, or the record is one
  // of the first extent and below the count of the first entry.
  predicate Works(p: Shape, exm: int, r: int, total: int) {
    exm == 0 || (r < 128 && r < CountFor(p, 0, total))
  }

  // With a mask above 0 no record of a file that fills an entry is read: its count is a multiple of 256.
  lemma FullEntryRefused(p: Shape, dpb: BdosOwnership.Dpb, r: int, total: int)
    requires Agreed(p, dpb) && dpb.exm > 0 && 0 <= r && total >= p.bps
    ensures !Works(p, dpb.exm, r, total)
  {
    assert InExtent(p, 0, total) == p.bps;
  }

  lemma NotFoundFails(p: Shape, exm: int, r: int, d: int, total: int)
    requires MaskOk(exm) && 0 <= r && d == r / 128 / (exm + 1) < 16 && !Found(exm, d)
    ensures !Works(p, exm, r, total)
  {
  }

  // The count that the BDOS takes from the entry d decides so.
  lemma CountDecides(p: Shape, dpb: BdosOwnership.Dpb, exm: int, e: BdosDirectory.Entry, r: int, d: int, total: int)
    requires dpb.exm == exm && Agreed(p, dpb) && 0 <= r < 0x10000 && r / p.spb < total
    requires d == r / 128 / (exm + 1) < 16 && Found(exm, d) && e.ext == d && e.rc == CountFor(p, d, total)
    ensures r % 128 < Bdos.Drive.CountIn(e, r / 128 % 32) <==> Works(p, exm, r, total)
  {
    if exm == 0 {
      assert r / 128 % 32 == d;
      CountCovers(p, r, d, total);
    } else {
      assert d == 0;
      FirstEntry(exm, r);
    }
  }

  lemma FirstEntry(exm: int, r: int)
    requires MaskOk(exm) && 0 <= r && r / 128 / (exm + 1) == 0
    ensures r / 128 % 32 == r / 128 && (r < 128 ==> r % 128 == r)
  {
    Parts(r / 128, exm + 1);
  }

  // --- the directory as the BDOS reads it

  type Letters = map<Name, BdosDirectory.Name>

  // The bytes of an extent.
  ghost predicate Shows(g: BdosDirectory.Entry, e: Extent, letters: Letters) {
    if e.used then
      && e.name in letters && g.name == letters[e.name]
      && g.ext == e.xl && g.s2 == e.xh && g.rc == e.rc && g.ptrs == e.ptrs
    else !BdosDirectory.Live(g)
  }

  ghost predicate Mirrors(image: seq<BdosDirectory.Entry>, dir: seq<Extent>, letters: Letters) {
    |image| == |dir| && forall i :: 0 <= i < |dir| ==> Shows(image[i], dir[i], letters)
  }

  // Imported names have no wild cards, and the BDOS tells them apart.
  ghost predicate Lettered(names: map<Name, Path>, letters: Letters) {
    && (forall n :: n in names ==> n in letters && BdosOwnership.NameOk(letters[n]))
    && (forall n, m :: n in names && m in names && BdosOwnership.FileId(letters[n]) == BdosOwnership.FileId(letters[m])
          ==> n == m)
  }

  // The control block asks for extent e of the file.
  predicate AsksFor(x: BdosDirectory.Entry, letter: BdosDirectory.Name, e: int) {
    0 <= e < 512 && x.name == letter && x.ext == e % 32 && x.s2 == e / 32
  }

  lemma ListedIsOffered(image: seq<BdosDirectory.Entry>, dir: seq<Extent>, letters: Letters, names: map<Name, Path>,
                        i: int, x: BdosDirectory.Entry, name: Name, exm: int, e: int)
    requires exm >= 0 && Mirrors(image, dir, letters) && Lettered(names, letters) && name in names && 0 <= i < |dir|
    requires AsksFor(x, letters[name], e) && (dir[i].used ==> dir[i].name in names && NumberOk(dir[i]))
    ensures BdosDirectory.Matches(x, image[i], 15, exm) <==> Offered(dir, i, name, exm, e)
  {
    var g := image[i];
    assert Shows(g, dir[i], letters);
    if BdosDirectory.Matches(x, g, 15, exm) {
      BdosOwnership.MatchSameFile(x, g, 15, exm);
    }
    if dir[i].used && dir[i].name == name {
      AcceptsIsMatch(x, g, exm, e);
    }
  }

  // What a random read of record r, asking for x, comes to: refused for want of an entry, or done with the first
  // entry that matches.
  ghost predicate ReadAs(dpb: BdosOwnership.Dpb, image: seq<BdosDirectory.Entry>, x: BdosDirectory.Entry, r: int,
                         sector: int, n: int)
    requires BdosOwnership.DpbOk(dpb) && 0 <= r
  {
    if 0 <= n < |image| then
      && BdosDirectory.Matches(x, image[n], 15, dpb.exm)
      && (forall i :: 0 <= i < n ==> !BdosDirectory.Matches(x, image[i], 15, dpb.exm))
      && Bdos.Drive.ReadOf(dpb, image[n], r / 128 % 32, r % 128, sector)
    else sector < 0 && forall i :: 0 <= i < |image| ==> !BdosDirectory.Matches(x, image[i], 15, dpb.exm)
  }

  // The entry it is done with is the first of the host's that is offered.
  lemma FirstOffered(image: seq<BdosDirectory.Entry>, dir: seq<Extent>, letters: Letters, names: map<Name, Path>,
                     x: BdosDirectory.Entry, name: Name, dpb: BdosOwnership.Dpb, r: int, e: int, sector: int, n: int)
    requires BdosOwnership.DpbOk(dpb) && Mirrors(image, dir, letters) && Lettered(names, letters) && name in names
    requires AsksFor(x, letters[name], e) && 0 <= r && ReadAs(dpb, image, x, r, sector, n)
    requires InOrder(dir) && forall i :: 0 <= i < |dir| && dir[i].used ==> dir[i].name in names
    ensures 0 <= n < |dir| ==> Offered(dir, n, name, dpb.exm, e)
    ensures 0 <= n < |dir| ==> forall i :: 0 <= i < n ==> !Offered(dir, i, name, dpb.exm, e)
    ensures n < 0 || |dir| <= n ==> sector < 0 && forall i :: 0 <= i < |dir| ==> !Offered(dir, i, name, dpb.exm, e)
  {
    forall i | 0 <= i < |dir|
      ensures BdosDirectory.Matches(x, image[i], 15, dpb.exm) <==> Offered(dir, i, name, dpb.exm, e)
    {
      ListedIsOffered(image, dir, letters, names, i, x, name, dpb.exm, e);
    }
  }

  // The sector stands for record r of the file.
  ghost predicate StandsFor(p: Shape, dir: seq<Extent>, names: map<Name, Path>, name: Name, r: int, sector: int)
    requires name in names
  {
    OfFile(p, dir, names, name, sector) && RecordAt(p, dir, sector) == r
  }

  // The sector is a data sector and belongs to the file.
  ghost predicate OfFile(p: Shape, dir: seq<Extent>, names: map<Name, Path>, name: Name, sector: int)
    requires name in names
  {
    && sector >= 0 && p.spb > 0 && p.first <= sector / p.spb && Owner(dir, sector / p.spb) >= 0
    && dir[Owner(dir, sector / p.spb)].name in names
    && PathAt(p, dir, names, sector) == names[name]
  }

  // The entry that holds record r, offered to the BDOS and read.
  lemma ReadFound(p: Shape, dir: seq<Extent>, free: int, names: map<Name, Path>, host: map<Path, seq<byte>>,
                  dpb: BdosOwnership.Dpb, g: BdosDirectory.Entry, letters: Letters, name: Name, r: int, sector: int,
                  k: int, d: int)
    requires ImportOk(p, dir, free, names, host) && name in names && HasPart(host[names[name]], r) && r < 0x10000
    requires BdosOwnership.DpbOk(dpb) && Agreed(p, dpb) && HasBlock(p, dir, k, name, r / p.spb)
    requires d == r / 128 / (dpb.exm + 1) && Found(dpb.exm, d) && Shows(g, dir[k], letters)
    requires Bdos.Drive.ReadOf(dpb, g, r / 128 % 32, r % 128, sector)
    ensures StandsFor(p, dir, names, name, r, sector) <==> Works(p, dpb.exm, r, BlocksOf(p, |host[names[name]]|))
    ensures sector >= 0 ==> StandsFor(p, dir, names, name, r, sector)
  {
    var total := BlocksOf(p, |host[names[name]]|);
    CountWorks(p, dir, names, host, dpb, g, letters, name, r, k, d);
    PlaceAgrees(dpb, dpb.bsh, dpb.exm, p.bps, r);
    RecordFound(p, dir, free, names, host, name, r, k);
    assert sector >= 0 <==> Works(p, dpb.exm, r, total);
    assert sector >= 0 ==> sector == SectorFor(p, dir, k, r);
  }

  lemma CountWorks(p: Shape, dir: seq<Extent>, names: map<Name, Path>, host: map<Path, seq<byte>>,
                   dpb: BdosOwnership.Dpb, g: BdosDirectory.Entry, letters: Letters, name: Name, r: int, k: int, d: int)
    requires InOrder(dir) && p.spb > 0 && Counted(p, dir, names, host) && name in names && names[name] in host
    requires HasPart(host[names[name]], r) && r < 0x10000 && Agreed(p, dpb) && HasBlock(p, dir, k, name, r / p.spb)
    requires d == r / 128 / (dpb.exm + 1) && Found(dpb.exm, d) && Shows(g, dir[k], letters)
    ensures r % 128 < Bdos.Drive.CountIn(g, r / 128 % 32) <==> Works(p, dpb.exm, r, BlocksOf(p, |host[names[name]]|))
  {
    RecordNumber(p, dir, dpb, dpb.exm, name, r, k, d);
    EnoughBlocks(p.spb, |host[names[name]]|, r);
    CountDecides(p, dpb, dpb.exm, g, r, d, BlocksOf(p, |host[names[name]]|));
  }

  // Another entry of the file, read in its place: the sector is one of the file, but not that of the record.
  lemma ReadOther(p: Shape, dir: seq<Extent>, free: int, names: map<Name, Path>, host: map<Path, seq<byte>>,
                  dpb: BdosOwnership.Dpb, g: BdosDirectory.Entry, letters: Letters, name: Name, r: int, sector: int,
                  k: int, n: int)
    requires ImportOk(p, dir, free, names, host) && name in names && 0 <= r
    requires BdosOwnership.DpbOk(dpb) && Agreed(p, dpb) && HasBlock(p, dir, k, name, r / p.spb)
    requires 0 <= n < |dir| && n != k && dir[n].used && dir[n].name == name && Shows(g, dir[n], letters)
    requires sector >= 0 && Bdos.Drive.ReadOf(dpb, g, r / 128 % 32, r % 128, sector)
    ensures OfFile(p, dir, names, name, sector) && !StandsFor(p, dir, names, name, r, sector)
  {
    PlaceAgrees(dpb, dpb.bsh, dpb.exm, p.bps, r);
    OtherPlace(p, dir, names, name, r, sector, k, n);
  }

  lemma OtherPlace(p: Shape, dir: seq<Extent>, names: map<Name, Path>, name: Name, r: int, sector: int, k: int, n: int)
    requires p.spb > 0 && p.bps > 0 && OneOwner(dir, p.first) && DistinctExtents(dir) && name in names
    requires HasBlock(p, dir, k, name, r / p.spb)
    requires 0 <= n < |dir| && n != k && dir[n].used && dir[n].name == name && |dir[n].ptrs| == p.bps
    requires p.first <= dir[n].ptrs[r / p.spb % p.bps] && sector == SectorFor(p, dir, n, r) && sector >= 0
    ensures OfFile(p, dir, names, name, sector) && !StandsFor(p, dir, names, name, r, sector)
  {
    RecordParts(p.spb, p.bps, r);
    OtherSector(p, dir, names, name, r, r / p.spb / p.bps, r / p.spb % p.bps, r % p.spb, sector, k, n);
  }

  lemma RecordParts(spb: int, bps: int, r: int)
    requires spb > 0 && bps > 0
    ensures r == Record(spb, Record(bps, r / spb / bps, r / spb % bps), r % spb)
    ensures 0 <= r / spb % bps < bps && 0 <= r % spb < spb
  {
    Parts(r, spb);
    Parts(r / spb, bps);
  }

  // Record r is sector s of block b of entry d, which is at place k.
  lemma OtherSector(p: Shape, dir: seq<Extent>, names: map<Name, Path>, name: Name, r: int, d: int, b: int, s: int,
                    sector: int, k: int, n: int)
    requires p.spb > 0 && p.bps > 0 && OneOwner(dir, p.first) && DistinctExtents(dir) && name in names
    requires 0 <= b < p.bps && 0 <= s < p.spb && r == Record(p.spb, Record(p.bps, d, b), s)
    requires 0 <= k < |dir| && dir[k].used && dir[k].name == name && ExtNumber(dir[k].xl, dir[k].xh) == d
    requires 0 <= n < |dir| && n != k && dir[n].used && dir[n].name == name && |dir[n].ptrs| == p.bps
    requires p.first <= dir[n].ptrs[b] && sector == Record(p.spb, dir[n].ptrs[b], s) && sector >= 0
    ensures OfFile(p, dir, names, name, sector) && !StandsFor(p, dir, names, name, r, sector)
  {
    SectorStands(p, dir, n, b, s);
    var c := ExtNumber(dir[n].xl, dir[n].xh);
    assert c != d;
    if RecordAt(p, dir, sector) == r {
      RecordUnique(p.spb, Record(p.bps, c, b), s, Record(p.bps, d, b), s);
      RecordUnique(p.bps, c, b, d, b);
    }
  }

  // A random read of an imported record ends at the sector that stands for it if and only if it Works; otherwise it
  // is refused or ends at another record of the file.
  lemma ReadExact(p: Shape, dir: seq<Extent>, free: int, names: map<Name, Path>, host: map<Path, seq<byte>>,
                  dpb: BdosOwnership.Dpb, image: seq<BdosDirectory.Entry>, letters: Letters, name: Name, r: int,
                  x: BdosDirectory.Entry, sector: int, n: int)
    requires ImportOk(p, dir, free, names, host) && name in names && HasPart(host[names[name]], r) && r < 0x10000
    requires BdosOwnership.DpbOk(dpb) && Agreed(p, dpb) && Mirrors(image, dir, letters) && Lettered(names, letters)
    requires AsksFor(x, letters[name], r / 128) && ReadAs(dpb, image, x, r, sector, n)
    ensures StandsFor(p, dir, names, name, r, sector) <==> Works(p, dpb.exm, r, BlocksOf(p, |host[names[name]]|))
    ensures sector >= 0 ==> OfFile(p, dir, names, name, sector)
  {
    RecordPresent(p, dir, free, names, host, name, r);
    var k :| HasBlock(p, dir, k, name, r / p.spb);
    var e, exm := r / 128, dpb.exm;
    var d := e / (exm + 1);
    BdosFinds(p, dir, dpb, exm, name, r, k, e, d);
    FirstOffered(image, dir, letters, names, x, name, dpb, r, e, sector, n);
    if Found(exm, d) {
      assert n == k;
      ReadFound(p, dir, free, names, host, dpb, image[n], letters, name, r, sector, k, d);
    } else {
      RecordNumber(p, dir, dpb, exm, name, r, k, d);
      NotFoundFails(p, exm, r, d, BlocksOf(p, |host[names[name]]|));
      if sector >= 0 {
        ReadOther(p, dir, free, names, host, dpb, image[n], letters, name, r, sector, k, n);
      }
    }
  }

  // --- the whole way

  // The parameter block of the BDOS describes the disk of the host.
  ghost predicate SameDisk(p: Shape, dpb: BdosOwnership.Dpb) {
    && BdosOwnership.DpbOk(dpb) && Agreed(p, dpb) && p.bps == BdosOwnership.Nptr(dpb) && p.last == dpb.dsm + 1
    && forall b :: BdosOwnership.Reserved(dpb, b) ==> b < p.first
  }

  // The file that owns each block.
  ghost function OwnersOf(p: Shape, dir: seq<Extent>, free: int, letters: Letters): map<int, BdosDirectory.Name> {
    map b | p.first <= b < free && Owner(dir, b) >= 0 && dir[Owner(dir, b)].name in letters
      :: BdosOwnership.FileId(letters[dir[Owner(dir, b)].name])
  }

  lemma EntriesOwn(p: Shape, dir: seq<Extent>, free: int, names: map<Name, Path>, host: map<Path, seq<byte>>,
                   dpb: BdosOwnership.Dpb, image: seq<BdosDirectory.Entry>, letters: Letters)
    requires ImportOk(p, dir, free, names, host) && free < p.last && SameDisk(p, dpb)
    requires Mirrors(image, dir, letters) && Lettered(names, letters)
    ensures BdosOwnership.EntriesHold(dpb, OwnersOf(p, dir, free, letters), image)
    ensures BdosOwnership.InRange(dpb, OwnersOf(p, dir, free, letters))
  {
    var owner := OwnersOf(p, dir, free, letters);
    forall i | 0 <= i < |image| && BdosDirectory.Live(image[i])
      ensures BdosOwnership.Holds(dpb, owner, image[i])
    {
      assert Shows(image[i], dir[i], letters);
      forall b | 0 <= b < |image[i].ptrs| && image[i].ptrs[b] != 0
        ensures BdosOwnership.Owned(owner, image[i].ptrs[b], BdosOwnership.FileId(image[i].name))
      {
        OnlyOwner(p, dir, dir[i].ptrs[b], i);
      }
    }
  }

  // The entry that the BDOS reads for an extent.
  method Bytes(p: Shape, e: Extent, ghost names: map<Name, Path>, letters: Letters, ghost free: int)
      returns (g: BdosDirectory.Entry)
    requires e.used ==> e.name in names && NumberOk(e) && 0 <= e.rc < 0x100
    requires Lettered(names, letters) && free <= 0x10000 && 0 <= p.first
    requires forall b :: 0 <= b < |e.ptrs| ==> e.ptrs[b] == 0 || p.first <= e.ptrs[b] < free
    ensures Shows(g, e, letters)
  {
    if e.used {
      g := BdosDirectory.Entry(letters[e.name], e.xl, 0, e.xh, e.rc, e.ptrs);
    } else {
      g := Bdos.EMPTYFCB.(ptrs := e.ptrs);
    }
  }

  // The BDOS logs in a disk of imported files.
  method LogIn(disk: Disk, dpb: BdosOwnership.Dpb, letters: Letters) returns (drive: Bdos.Drive)
    requires disk.Importing() && SameDisk(disk.shape, dpb) && Lettered(disk.names, letters)
    requires |disk.dir| == dpb.drm + 1
    ensures fresh(drive) && fresh(drive.alv) && drive.Valid() && drive.dpb == dpb
    ensures Mirrors(drive.dir, disk.dir, letters)
  {
    var image: seq<BdosDirectory.Entry> := [];
    while |image| < |disk.dir|
      invariant |image| <= |disk.dir|
      invariant forall i :: 0 <= i < |image| ==> Shows(image[i], disk.dir[i], letters)
    {
      CountIsByte(disk.shape, disk.dir, disk.names, disk.host, |image|);
      var g := Bytes(disk.shape, disk.dir[|image|], disk.names, letters, disk.freeblock);
      image := image + [g];
    }
    EntriesOwn(disk.shape, disk.dir, disk.freeblock, disk.names, disk.host, dpb, image, letters);
    drive := new Bdos.Drive(dpb, image, OwnersOf(disk.shape, disk.dir, disk.freeblock, letters));
  }

  lemma CountIsByte(p: Shape, dir: seq<Extent>, names: map<Name, Path>, host: map<Path, seq<byte>>, i: int)
    requires p.spb > 0 && Counted(p, dir, names, host) && Mapped(dir, names, host) && 0 <= i < |dir|
    ensures dir[i].used ==> 0 <= dir[i].rc < 0x100
  {
  }

  // The three bytes of a record number ask for its extent.
  lemma AskedFor(f: BdosOwnership.Fcb, r: int)
    requires 0 <= r < 0x10000 && f.r0 == r % 0x100 && f.r1 == r / 0x100
    ensures BdosRandom.RecordOf(f.r0) == r % 128 && BdosRandom.ExtentOf(f.r0, f.r1) == r / 128 % 32
    ensures AsksFor(Bdos.Drive.Asked(f), f.x.name, r / 128)
  {
  }

  // The control block of a file to be opened, up to the record number.
  function First(letter: BdosDirectory.Name): BdosDirectory.Entry { BdosDirectory.Entry(letter, 0, 0, 0, 0, []) }

  // The first extent of a file with a record is listed.
  lemma FirstListed(p: Shape, dir: seq<Extent>, free: int, names: map<Name, Path>, host: map<Path, seq<byte>>,
                    dpb: BdosOwnership.Dpb, image: seq<BdosDirectory.Entry>, letters: Letters, name: Name)
    requires ImportOk(p, dir, free, names, host) && name in names && HasPart(host[names[name]], 0)
    requires BdosOwnership.DpbOk(dpb) && Agreed(p, dpb) && Mirrors(image, dir, letters) && Lettered(names, letters)
    ensures exists i :: 0 <= i < |image| && BdosDirectory.Matches(First(letters[name]), image[i], 15, dpb.exm)
  {
    RecordPresent(p, dir, free, names, host, name, 0);
    var k :| HasBlock(p, dir, k, name, 0 / p.spb);
    var d := 0 / (dpb.exm + 1);
    BdosFinds(p, dir, dpb, dpb.exm, name, 0, k, 0, d);
    ListedIsOffered(image, dir, letters, names, k, First(letters[name]), name, dpb.exm, 0);
  }

  // The BDOS opens the file and reads the record; n is the entry it comes from.
  method ReadByBdos(drive: Bdos.Drive, h: int, letter: BdosDirectory.Name, r: int)
      returns (sector: int, ghost x: BdosDirectory.Entry, ghost n: int)
    requires drive.Valid() && BdosOwnership.NameOk(letter) && 0 <= r < 0x10000
    requires exists i :: 0 <= i < |drive.dir| && BdosDirectory.Matches(First(letter), drive.dir[i], 15, drive.dpb.exm)
    modifies drive
    ensures drive.Valid() && drive.dir == old(drive.dir) && sector < 0x10000
    ensures AsksFor(x, letter, r / 128) && ReadAs(drive.dpb, drive.dir, x, r, sector, n)
  {
    var f := BdosOwnership.Fcb(First(letter), 0, r % 0x100, r / 0x100, 0);
    AskedFor(f, r);
    x := Bdos.Drive.Asked(f);
    sector, n := drive.OpenAndRead(h, f);
    if drive.status == 4 {
      n := -1;
    }
  }

  // A record of an imported file, read by the BDOS from the host's directory: opened, positioned and tested against
  // the record count, the sector sent through the BIOS to the ports, and read by the host. The sector stands for the
  // record if and only if the read Works, and then the record comes back as the host file has it, if the track fits
  // its port. Otherwise the read is refused or gets another record of the file.
  method ReadRecord(disk: Disk, drive: Bdos.Drive, h: int, tracks: BdosTracks.TrackCache,
                    table: seq<BdosTracks.byte>, letters: Letters, name: Name, r: int, dma: seq<byte>)
      returns (sector: int, data: seq<byte>)
    requires disk.Importing() && disk.Valid() && |dma| == 128
    requires name in disk.names && HasPart(disk.host[disk.names[name]], r) && r < 0x10000
    requires drive.Valid() && SameDisk(disk.shape, drive.dpb)
    requires Mirrors(drive.dir, disk.dir, letters) && Lettered(disk.names, letters)
    requires tracks.Valid() && tracks.offset == disk.reserved
    requires BdosTracks.Inverts(disk.smap, table, tracks.spt)
    modifies drive, tracks
    ensures drive.Valid() && drive.dir == old(drive.dir) && tracks.Valid()
    ensures sector < 0 ==> data == dma
    ensures sector >= 0 ==> OfFile(disk.shape, disk.dir, disk.names, name, sector)
    ensures StandsFor(disk.shape, disk.dir, disk.names, name, r, sector) <==>
      Works(disk.shape, drive.dpb.exm, r, BlocksOf(disk.shape, |disk.host[disk.names[name]]|))
    ensures
      StandsFor(disk.shape, disk.dir, disk.names, name, r, sector) && sector / tracks.spt + tracks.offset < 0x100 ==>
      RecordRead(disk.host[disk.names[name]], r, dma, data)
  {
    sector := SectorByBdos(disk, drive, h, letters, name, r);
    data := dma;
    if sector >= 0 {
      data := ReadNumber(disk, tracks, table, sector, dma);
    }
  }

  // The part of the BDOS in it.
  method SectorByBdos(disk: Disk, drive: Bdos.Drive, h: int, letters: Letters, name: Name, r: int)
      returns (sector: int)
    requires disk.Importing() && name in disk.names && HasPart(disk.host[disk.names[name]], r) && r < 0x10000
    requires drive.Valid() && SameDisk(disk.shape, drive.dpb)
    requires Mirrors(drive.dir, disk.dir, letters) && Lettered(disk.names, letters)
    modifies drive
    ensures drive.Valid() && drive.dir == old(drive.dir) && sector < 0x10000
    ensures sector >= 0 ==> OfFile(disk.shape, disk.dir, disk.names, name, sector)
    ensures StandsFor(disk.shape, disk.dir, disk.names, name, r, sector) <==>
      Works(disk.shape, drive.dpb.exm, r, BlocksOf(disk.shape, |disk.host[disk.names[name]]|))
  {
    FirstListed(disk.shape, disk.dir, disk.freeblock, disk.names, disk.host, drive.dpb, drive.dir, letters, name);
    ghost var x, n;
    sector, x, n := ReadByBdos(drive, h, letters[name], r);
    ReadExact(disk.shape, disk.dir, disk.freeblock, disk.names, disk.host, drive.dpb, drive.dir, letters, name, r, x,
              sector, n);
  }

  // A sector number sent through the BIOS to the ports and read by the host.
  method ReadNumber(disk: Disk, tracks: BdosTracks.TrackCache, table: seq<BdosTracks.byte>, sid: BdosTracks.word,
                    dma: seq<byte>)
      returns (data: seq<byte>)
    requires disk.Valid() && |dma| == 128 && tracks.Valid() && tracks.offset == disk.reserved
    requires BdosTracks.Inverts(disk.smap, table, tracks.spt)
    modifies tracks
    ensures tracks.Valid()
    ensures
      (&& sid / tracks.spt + tracks.offset < 0x100 && disk.shape.first <= sid / disk.shape.spb
       && sid !in disk.cache && Owner(disk.dir, sid / disk.shape.spb) >= 0) ==>
      RecordRead(disk.host[PathAt(disk.shape, disk.dir, disk.names, sid)], RecordAt(disk.shape, disk.dir, sid), dma,
                 data)
  {
    var track, sector := BdosTracks.SeekPorts(tracks, table, sid);
    BdosTracks.HostMeets(disk.smap, table, tracks.spt, tracks.offset, sid);
    var isData;
    isData, data := disk.ReadAt(track, sector, dma);
  }

  // The two parameter blocks of the BIOS, the 8-inch disk and the hard disk, are agreed on.
  lemma ShippedDisks(floppy: BdosOwnership.Dpb, hard: BdosOwnership.Dpb)
    requires floppy.bsh == 3 && floppy.exm == 0 && floppy.dsm == 242
    requires hard.bsh == 4 && hard.exm == 0 && hard.dsm == 2039
    ensures Agreed(ShapeOf(3, 242, 2), floppy) && Agreed(ShapeOf(4, 2039, 16), hard)
  {
    PowValues();
  }
}
