/**
  What the directory, an open control block and the disk have of a file that is written in sequence: the records, over
  any number of entries, and how a write, a close and the step to the next extent keep them.
 */
module BdosContents {
  import opened Arithmetic
  import opened BdosDirectory
  import opened BdosOwnership
  import opened BdosRandom
  import opened BdosPlaces
  import opened Bdos

  // --- the records

  // No block stands at two places of the tables.
  ghost predicate OneUse(tabs: seq<seq<word>>) {
    forall g, j, a, c ::
      (&& 0 <= g < |tabs| && 0 <= j < |tabs[g]| && 0 <= a < |tabs| && 0 <= c < |tabs[a]|
       && tabs[g][j] != 0 && tabs[g][j] == tabs[a][c]) ==> g == a && j == c
  }

  ghost predicate Shaped(p: Dpb, tabs: seq<seq<word>>) {
    forall g :: 0 <= g < |tabs| ==> |tabs[g]| == Nptr(p)
  }

  // The tables have a block for record r, and there it is.
  ghost predicate Has(p: Dpb, tabs: seq<seq<word>>, disk: map<int, seq<byte>>, r: int, rec: seq<byte>)
    requires DpbOk(p) && 0 <= r
  {
    var g, j := GroupOf(p, r / 128), SlotOf(p, r);
    && 0 <= g < |tabs| && 0 <= j < |tabs[g]| && tabs[g][j] != 0
    && InSector(disk, tabs[g][j] * Pow2(p.bsh) + r % 128 % Pow2(p.bsh), rec)
  }

  ghost predicate InSector(disk: map<int, seq<byte>>, sector: int, rec: seq<byte>) {
    sector in disk && disk[sector] == rec
  }

  ghost predicate Contents(p: Dpb, tabs: seq<seq<word>>, disk: map<int, seq<byte>>, recs: seq<seq<byte>>)
    requires DpbOk(p)
  {
    && Shaped(p, tabs) && OneUse(tabs)
    && forall r :: 0 <= r < |recs| ==> Has(p, tabs, disk, r, recs[r])
  }

  // The block for the next record: the one it has, or one that no table names.
  ghost predicate NextBlock(tabs: seq<seq<word>>, g: int, j: int, b: word) {
    && 0 <= g < |tabs| && 0 <= j < |tabs[g]| && b != 0
    && (tabs[g][j] != 0 ==> b == tabs[g][j])
    && (tabs[g][j] == 0 ==> forall a, c :: 0 <= a < |tabs| && 0 <= c < |tabs[a]| ==> tabs[a][c] != b)
  }

  function Filled(tabs: seq<seq<word>>, g: int, j: int, b: word): (r: seq<seq<word>>)
    requires 0 <= g < |tabs| && 0 <= j < |tabs[g]|
    ensures |r| == |tabs| && r[g] == tabs[g][j := b] && forall a :: 0 <= a < |tabs| && a != g ==> r[a] == tabs[a]
  {
    var t: seq<word> := tabs[g][j := b];
    tabs[g := t]
  }

  lemma StillOneUse(tabs: seq<seq<word>>, g: int, j: int, b: word)
    requires OneUse(tabs) && NextBlock(tabs, g, j, b)
    ensures OneUse(Filled(tabs, g, j, b))
  {
  }

  // A record written keeps the ones before it.
  lemma KeepsRecord(p: Dpb, tabs: seq<seq<word>>, disk: map<int, seq<byte>>, w: int, g: int, j: int, b: word,
                    sector: int, rec: seq<byte>, r: int, kept: seq<byte>)
    requires DpbOk(p) && OneUse(tabs) && 0 <= r < w && g == GroupOf(p, w / 128) && j == SlotOf(p, w)
    requires NextBlock(tabs, g, j, b) && sector == b * Pow2(p.bsh) + w % 128 % Pow2(p.bsh)
    requires Has(p, tabs, disk, r, kept)
    ensures Has(p, Filled(tabs, g, j, b), disk[sector := rec], r, kept)
  {
    var a, c, s := GroupOf(p, r / 128), SlotOf(p, r), Pow2(p.bsh);
    var block := tabs[a][c];
    if block * s + r % 128 % s == sector {
      DivisionUnique(s, block, r % 128 % s, b, w % 128 % s);
      PlaceUnique(p, r, w);
    }
  }

  lemma WriteContents(p: Dpb, tabs: seq<seq<word>>, disk: map<int, seq<byte>>, recs: seq<seq<byte>>, g: int, j: int,
                      b: word, sector: int, rec: seq<byte>)
    requires DpbOk(p) && Contents(p, tabs, disk, recs)
    requires g == GroupOf(p, |recs| / 128) && j == SlotOf(p, |recs|) && NextBlock(tabs, g, j, b)
    requires sector == b * Pow2(p.bsh) + |recs| % 128 % Pow2(p.bsh)
    ensures Contents(p, Filled(tabs, g, j, b), disk[sector := rec], recs + [rec])
  {
    var more, after, w := Filled(tabs, g, j, b), disk[sector := rec], |recs|;
    StillOneUse(tabs, g, j, b);
    forall r | 0 <= r < w + 1
      ensures Has(p, more, after, r, (recs + [rec])[r])
    {
      if r < w {
        KeepsRecord(p, tabs, disk, w, g, j, b, sector, rec, r, recs[r]);
      }
    }
  }

  // An empty table more changes nothing.
  lemma GrowContents(p: Dpb, tabs: seq<seq<word>>, disk: map<int, seq<byte>>, recs: seq<seq<byte>>, t: seq<word>)
    requires DpbOk(p) && Contents(p, tabs, disk, recs) && |t| == Nptr(p) && forall j :: 0 <= j < |t| ==> t[j] == 0
    ensures Contents(p, tabs + [t], disk, recs)
  {
    forall r | 0 <= r < |recs|
      ensures Has(p, tabs + [t], disk, r, recs[r])
    {
      assert Has(p, tabs, disk, r, recs[r]);
    }
  }

  // --- the entries

  // The number of an entry's extent in the file, and of the record after its last.
  function ExtentNumber(e: Entry): int { e.ext + 32 * (e.s2 % 128) }

  function EndOf(e: Entry): int { e.rc + 128 * ExtentNumber(e) }

  ghost predicate EntryOk(p: Dpb, e: Entry, id: Name) {
    && Live(e) && NameOk(e.name) && FileId(e.name) == id && e.ext < 32 && e.s2 < 16 && e.rc <= 128
    && |e.ptrs| == Nptr(p)
  }

  function EntryGroup(p: Dpb, e: Entry): int
    requires p.exm >= 0
  {
    GroupOf(p, ExtentNumber(e))
  }

  // Entry g of the file stands at place pos[g], and the file has no others.
  ghost predicate Grouped(p: Dpb, dir: seq<Entry>, id: Name, pos: seq<int>)
    requires p.exm >= 0
  {
    && (forall g :: 0 <= g < |pos| ==>
          0 <= pos[g] < |dir| && EntryOk(p, dir[pos[g]], id) && EntryGroup(p, dir[pos[g]]) == g)
    && (forall i :: 0 <= i < |dir| && Live(dir[i]) && FileId(dir[i].name) == id ==>
          0 <= EntryGroup(p, dir[i]) < |pos| && pos[EntryGroup(p, dir[i])] == i)
  }

  // x asks for an extent of the file.
  ghost predicate AsksOf(x: Entry, id: Name) {
    NameOk(x.name) && FileId(x.name) == id && x.ext < 32 && x.s2 < 16
  }

  // It matches the entry that has the extent.
  lemma MatchIff(p: Dpb, x: Entry, e: Entry, id: Name)
    requires DpbOk(p) && AsksOf(x, id) && EntryOk(p, e, id)
    ensures Matches(x, e, 15, p.exm) <==> EntryGroup(p, x) == EntryGroup(p, e)
  {
    MaskOf(p);
    MatchParts(x, e, p.exm);
    NumberIs(x);
    NumberIs(e);
    SameEntry(p.exm, ExtentNumber(x), x.s2, x.ext, ExtentNumber(e), e.s2, e.ext);
  }

  lemma NumberIs(e: Entry)
    requires e.s2 < 128
    ensures ExtentNumber(e) == 32 * e.s2 + e.ext
  {
  }

  lemma NumberParts(e: Entry)
    requires e.ext < 32 && e.s2 < 128
    ensures ExtentNumber(e) % 32 == e.ext && ExtentNumber(e) / 32 == e.s2 && e.s2 % 128 == e.s2
  {
  }

  lemma MatchParts(x: Entry, e: Entry, exm: int)
    requires exm >= 0 && NameOk(x.name) && FileId(x.name) == FileId(e.name)
    requires x.ext < 32 && x.s2 < 16 && e.s2 < 16
    ensures Matches(x, e, 15, exm) <==> SameExt(x.ext, e.ext, exm) && x.s2 == e.s2
  {
    forall i | 0 <= i < 12
      ensures Agrees(x, e, i, exm)
    {
      assert FileId(x.name)[i] == FileId(e.name)[i];
      SameDifference(x.name[i], e.name[i], e.name[i]);
    }
    assert Agrees(x, e, 12, exm) <==> SameExt(x.ext, e.ext, exm);
    SmallDifference(x.s2, e.s2);
    assert Agrees(x, e, 14, exm) <==> x.s2 == e.s2;
  }

  lemma SmallDifference(a: int, b: int)
    requires 0 <= a < 16 && 0 <= b < 16
    ensures (a - b) % 128 == 0 <==> a == b
  {
  }

  // So the first entry listed for it is that of its group, and none is listed for a group the file has not.
  lemma ListedAt(d: Drive, dir: seq<Entry>, id: Name, pos: seq<int>, x: Entry)
    requires DpbOk(d.dpb) && Grouped(d.dpb, dir, id, pos) && AsksOf(x, id)
    ensures var g := EntryGroup(d.dpb, x);
      && (0 <= g < |pos| ==> d.FirstListed(x, dir, pos[g]) && forall n :: d.FirstListed(x, dir, n) ==> n == pos[g])
      && (|pos| <= g ==> d.NotListed(x, dir))
  {
    var p, g := d.dpb, EntryGroup(d.dpb, x);
    forall i | 0 <= i < |dir| && Matches(x, dir[i], 15, p.exm)
      ensures 0 <= g < |pos| && i == pos[g]
    {
      MatchSameFile(x, dir[i], 15, p.exm);
      assert pos[EntryGroup(p, dir[i])] == i;
      MatchIff(p, x, dir[i], id);
    }
    if 0 <= g < |pos| {
      MatchIff(p, x, dir[pos[g]], id);
    }
  }

  // --- a file in the directory

  // All records before w are in the entries: full ones, and a last one that ends at w.
  ghost predicate FileAt(p: Dpb, dir: seq<Entry>, id: Name, pos: seq<int>, tabs: seq<seq<word>>, w: int)
    requires p.exm >= 0
  {
    && Grouped(p, dir, id, pos) && 0 < |pos| == |tabs| && EndOf(dir[pos[|pos| - 1]]) == w
    && forall g :: 0 <= g < |pos| ==> tabs[g] == dir[pos[g]].ptrs && (g < |pos| - 1 ==> Full(p, dir[pos[g]], g))
  }

  // The entry g has all its records.
  ghost predicate Full(p: Dpb, e: Entry, g: int) { EndOf(e) == 128 * ((p.exm + 1) * (g + 1)) }

  // The table q is part of the table t.
  ghost predicate PartOf(q: seq<word>, t: seq<word>) {
    |q| == |t| && forall j :: 0 <= j < |q| ==> q[j] == 0 || q[j] == t[j]
  }

  // The extent x of a file of w records has the last of them; the entry of its group may be behind.
  ghost predicate Pending(p: Dpb, dir: seq<Entry>, x: Entry, id: Name, pos: seq<int>, tabs: seq<seq<word>>, w: int)
    requires p.exm >= 0
  {
    && AsksOf(x.(s2 := x.s2 % 128), id) && x.rc <= 128 && w == EndOf(x) && |x.ptrs| == Nptr(p)
    && Grouped(p, dir, id, pos) && |pos| == |tabs| == EntryGroup(p, x) + 1 && 0 < |pos|
    && (forall g :: 0 <= g < |pos| - 1 ==> tabs[g] == dir[pos[g]].ptrs && Full(p, dir[pos[g]], g))
    && tabs[|pos| - 1] == x.ptrs
    && var e := dir[pos[|pos| - 1]];
    && PartOf(e.ptrs, x.ptrs) && ExtentNumber(e) <= ExtentNumber(x)
    && (x.s2 >= 128 ==> EndOf(e) == w && e.ptrs == x.ptrs)
  }

  // The control block of a file that is being written.
  ghost predicate Underway(p: Dpb, dir: seq<Entry>, f: Fcb, id: Name, pos: seq<int>, tabs: seq<seq<word>>, w: int)
    requires p.exm >= 0
  {
    Pending(p, dir, f.x, id, pos, tabs, w) && f.cr == f.x.rc < 128
  }

  // A new file.
  lemma NewFile(p: Dpb, dir: seq<Entry>, dir1: seq<Entry>, f: Fcb, id: Name, n: int)
    requires DpbOk(p) && 0 <= n < |dir| && !Live(dir[n]) && AsksOf(f.x.(s2 := f.x.s2 % 128), id) && f.x.ext == 0
    requires f.x.s2 == 128 && f.cr == 0 && f.x.rc == 0 && |f.x.ptrs| == Nptr(p)
    requires dir1 == dir[n := f.x.(s2 := 0)]
    requires forall i :: 0 <= i < |dir| && Live(dir[i]) ==> FileId(dir[i].name) != id
    ensures Underway(p, dir1, f, id, [n], [f.x.ptrs], 0)
  {
    MaskOf(p);
    assert ExtentNumber(f.x) == 0 && ExtentNumber(dir1[n]) == 0;
    QuotientIs(0, p.exm + 1, 0, 0);
  }

  // --- a write

  // Where the next record goes.
  lemma WhereNext(d: Drive, f: Fcb, w: int)
    requires DpbOk(d.dpb) && f.x.ext < 32 && f.cr == f.x.rc < 128 && w == EndOf(f.x)
    ensures w / 128 == ExtentNumber(f.x) && w % 128 == f.cr && d.PlaceOf(f) == SlotOf(d.dpb, w)
    ensures 0 <= d.PlaceOf(f) < Nptr(d.dpb)
  {
    assert ExtentNumber(f.x) % 32 == f.x.ext;
    SlotFits(d.dpb, w);
  }

  // The record in its block: the tables have it, the entry of the group is further behind.
  lemma WriteStep(d: Drive, dir: seq<Entry>, f: Fcb, id: Name, pos: seq<int>, tabs: seq<seq<word>>, w: int, b: word)
    requires DpbOk(d.dpb) && Underway(d.dpb, dir, f, id, pos, tabs, w) && b != 0
    requires 0 <= d.PlaceOf(f) < |f.x.ptrs| && (f.x.ptrs[d.PlaceOf(f)] != 0 ==> b == f.x.ptrs[d.PlaceOf(f)])
    ensures var x := d.AfterWrite(f, b).x;
      && Pending(d.dpb, dir, x, id, pos, Filled(tabs, |pos| - 1, d.PlaceOf(f), b), w + 1)
      && x.s2 < 128 && x.rc == f.cr + 1
  {
    AfterFacts(d, f, b, d.AfterWrite(f, b).x);
  }

  lemma AfterFacts(d: Drive, f: Fcb, b: word, x: Entry)
    requires DpbOk(d.dpb) && 0 <= d.PlaceOf(f) < |f.x.ptrs| && f.cr == f.x.rc < 128 && x == d.AfterWrite(f, b).x
    ensures x.name == f.x.name && x.ext == f.x.ext && x.s2 == f.x.s2 % 128 == x.s2 % 128 && x.s2 < 128
    ensures x.rc == f.cr + 1 && x.ptrs == f.x.ptrs[d.PlaceOf(f) := b] && ExtentNumber(x) == ExtentNumber(f.x)
  {
  }

  // --- a close

  // The entry of a group has the module of its extents.
  lemma SameModule(p: Dpb, x: Entry, e: Entry)
    requires DpbOk(p) && x.ext < 32 && x.s2 < 16 && e.ext < 32 && e.s2 < 16 && EntryGroup(p, x) == EntryGroup(p, e)
    ensures x.s2 == e.s2
  {
    MaskOf(p);
    NumberIs(x);
    NumberIs(e);
    SameEntry(p.exm, ExtentNumber(x), x.s2, x.ext, ExtentNumber(e), e.s2, e.ext);
  }

  lemma MergePart(q: seq<word>, t: seq<word>)
    requires PartOf(q, t)
    ensures FirstClash(t, q, 0) == |t| && FilledUpTo(q, t, |t|) == t && FilledUpTo(t, q, |t|) == t
  {
  }

  // The entry that a close makes.
  lemma ClosedIs(p: Dpb, x: Entry, e: Entry, id: Name)
    requires DpbOk(p) && AsksOf(x, id) && EntryOk(p, e, id) && EntryGroup(p, x) == EntryGroup(p, e)
    requires ExtentNumber(e) <= ExtentNumber(x) && PartOf(e.ptrs, x.ptrs) && x.rc <= 128
    ensures var c := Drive.ClosedEntry(x, e, FilledUpTo(e.ptrs, x.ptrs, |x.ptrs|));
      && EntryOk(p, c, id) && EntryGroup(p, c) == EntryGroup(p, x) && EndOf(c) == EndOf(x) && c.ptrs == x.ptrs
      && c.ext == x.ext && c.s2 == x.s2 && c.rc == x.rc
  {
    SameModule(p, x, e);
    MergePart(e.ptrs, x.ptrs);
  }

  lemma CloseStep(d: Drive, dir: seq<Entry>, x: Entry, id: Name, pos: seq<int>, tabs: seq<seq<word>>, w: int, n: int,
                  dir1: seq<Entry>)
    requires DpbOk(d.dpb) && Pending(d.dpb, dir, x, id, pos, tabs, w) && x.s2 < 128
    requires d.FirstListed(x, dir, n) && Drive.ClosedInto(x, dir, dir1, n)
    ensures n == pos[|pos| - 1] && FileAt(d.dpb, dir1, id, pos, tabs, w)
    ensures dir1[n].ext == x.ext && dir1[n].s2 == x.s2 && dir1[n].rc == x.rc
  {
    ListedAt(d, dir, id, pos, x);
    ClosedIs(d.dpb, x, dir[n], id);
  }

  // A close goes through.
  lemma CloseWorks(d: Drive, dir: seq<Entry>, x: Entry, id: Name, pos: seq<int>, tabs: seq<seq<word>>, w: int)
    requires DpbOk(d.dpb) && Pending(d.dpb, dir, x, id, pos, tabs, w) && x.s2 < 128
    ensures d.FirstListed(x, dir, pos[|pos| - 1]) && !Drive.ClashesWith(x, dir[pos[|pos| - 1]])
    ensures forall n :: d.FirstListed(x, dir, n) ==> n == pos[|pos| - 1]
  {
    ListedAt(d, dir, id, pos, x);
    MergePart(dir[pos[|pos| - 1]].ptrs, x.ptrs);
  }

  // A control block without changes has nothing to close.
  lemma NothingToClose(p: Dpb, dir: seq<Entry>, x: Entry, id: Name, pos: seq<int>, tabs: seq<seq<word>>, w: int)
    requires p.exm >= 0 && Pending(p, dir, x, id, pos, tabs, w) && x.s2 >= 128
    ensures FileAt(p, dir, id, pos, tabs, w)
  {
  }

  // --- the next extent

  // It is in the entry just closed.
  lemma EnterSame(p: Dpb, dir: seq<Entry>, x: Entry, id: Name, pos: seq<int>, tabs: seq<seq<word>>, w: int, y: Entry,
                  n: int, g: Entry)
    requires DpbOk(p) && FileAt(p, dir, id, pos, tabs, w) && n == pos[|pos| - 1]
    requires x.ext < 32 && x.s2 < 16 && dir[n].ext == x.ext && dir[n].s2 == x.s2 && dir[n].rc == 128
    requires y.ext == (x.ext + 1) % 32 && y.ext % (p.exm + 1) != 0 && g == Drive.Opened(y, dir[n])
    ensures Pending(p, dir, g, id, pos, tabs, w) && g.rc == 0
  {
    SameGroup(p, x, y, g);
    assert ExtentNumber(x) == ExtentNumber(dir[n]);
  }

  lemma SameGroup(p: Dpb, x: Entry, y: Entry, g: Entry)
    requires DpbOk(p) && x.ext < 32 && x.s2 < 16 && y.ext == (x.ext + 1) % 32 && y.ext % (p.exm + 1) != 0
    requires g.ext == y.ext && g.s2 == x.s2 + 128
    ensures g.ext == x.ext + 1 && g.s2 % 128 == x.s2
    ensures ExtentNumber(g) == ExtentNumber(x) + 1 && EntryGroup(p, g) == EntryGroup(p, x)
  {
    MaskOf(p);
    ZeroRest(p.exm + 1);
    NextNumber(x, y, g);
    NextGroup(p, ExtentNumber(x));
  }

  lemma NextNumber(x: Entry, y: Entry, g: Entry)
    requires x.ext < 32 && x.s2 < 16 && y.ext == (x.ext + 1) % 32 && y.ext != 0 && g.ext == y.ext && g.s2 == x.s2 + 128
    ensures g.ext == x.ext + 1 && g.s2 % 128 == x.s2 && ExtentNumber(g) == ExtentNumber(x) + 1
    ensures (ExtentNumber(x) + 1) % 32 == y.ext
  {
  }

  lemma ZeroRest(m: int)
    requires m > 0
    ensures 0 % m == 0
  {
  }

  // It gets an entry of its own.
  lemma EnterNew(p: Dpb, dir: seq<Entry>, id: Name, pos: seq<int>, tabs: seq<seq<word>>, w: int, z: Entry, m: int,
                 dir1: seq<Entry>, g: Entry)
    requires DpbOk(p) && FileAt(p, dir, id, pos, tabs, w) && Full(p, dir[pos[|pos| - 1]], |pos| - 1)
    requires AsksOf(z, id) && w == 128 * ExtentNumber(z) && EntryGroup(p, z) == |pos|
    requires 0 <= m < |dir| && !Live(dir[m]) && dir1 == dir[m := Drive.Cleared(z, Nptr(p))]
    requires g == Drive.Unmodified(dir1[m])
    ensures Pending(p, dir1, g, id, pos + [m], tabs + [g.ptrs], w) && g.rc == 0
    ensures |g.ptrs| == Nptr(p) && forall j :: 0 <= j < |g.ptrs| ==> g.ptrs[j] == 0
  {
    NewNumbers(z, dir1[m], g, Nptr(p));
    MoreGrouped(p, dir, id, pos, m, dir1);
  }

  lemma NewNumbers(z: Entry, e: Entry, g: Entry, n: nat)
    requires z.s2 < 16 && e == Drive.Cleared(z, n) && g == Drive.Unmodified(e)
    ensures ExtentNumber(g) == ExtentNumber(z) == ExtentNumber(e) && g.s2 == z.s2 + 128 && g.s2 % 128 == z.s2
    ensures g.ptrs == e.ptrs && |g.ptrs| == n && (forall j :: 0 <= j < n ==> g.ptrs[j] == 0) && g.rc == e.rc == 0
    ensures g.name == z.name && g.ext == z.ext == e.ext && e.s2 == z.s2 && e.name == z.name
  {
  }

  // One entry more.
  lemma MoreGrouped(p: Dpb, dir: seq<Entry>, id: Name, pos: seq<int>, m: int, dir1: seq<Entry>)
    requires p.exm >= 0 && Grouped(p, dir, id, pos) && 0 <= m < |dir| == |dir1| && !Live(dir[m])
    requires dir1 == dir[m := dir1[m]] && EntryOk(p, dir1[m], id) && EntryGroup(p, dir1[m]) == |pos|
    ensures Grouped(p, dir1, id, pos + [m])
    ensures forall k :: 0 <= k < |pos| ==> dir1[pos[k]] == dir[pos[k]]
  {
    var more := pos + [m];
    forall k | 0 <= k < |more|
      ensures 0 <= more[k] < |dir1| && EntryOk(p, dir1[more[k]], id) && EntryGroup(p, dir1[more[k]]) == k
    {
      assert k < |pos| ==> pos[k] != m;
    }
  }

  // The step from a full extent to the next.
  lemma NextStep(d: Drive, dir: seq<Entry>, x: Entry, id: Name, pos: seq<int>, tabs: seq<seq<word>>, w: int,
                 g: Entry, dir2: seq<Entry>, n: int, m: int)
      returns (pos': seq<int>, tabs': seq<seq<word>>)
    requires DpbOk(d.dpb) && Pending(d.dpb, dir, x, id, pos, tabs, w) && x.s2 < 128 && x.rc == 128
    requires d.FirstListed(x, dir, n) && d.NextIn(x, dir, g, dir2, n, m)
    ensures Pending(d.dpb, dir2, g, id, pos', tabs', w) && g.rc == 0
    ensures tabs' == tabs || (tabs' == tabs + [g.ptrs] && |g.ptrs| == Nptr(d.dpb)
                              && forall j :: 0 <= j < |g.ptrs| ==> g.ptrs[j] == 0)
  {
    var y, dir1 :| Drive.Left(x, dir, y, dir1, n) && d.EnteredIn(Drive.Bumped(y), dir1, g, dir2, n, m, true);
    CloseStep(d, dir, x, id, pos, tabs, w, n, dir1);
    if Drive.Bumped(y).ext % (d.dpb.exm + 1) != 0 {
      pos', tabs' := pos, tabs;
      EnterSame(d.dpb, dir1, x, id, pos, tabs, w, Drive.Bumped(y), n, g);
    } else {
      pos', tabs' := pos + [m], tabs + [g.ptrs];
      NewGroup(d.dpb, dir1, x, id, pos, tabs, w, n, y);
      ListedAt(d, dir1, id, pos, Drive.Bumped(y));
      EnterNew(d.dpb, dir1, id, pos, tabs, w, Drive.Bumped(y), m, dir2, g);
    }
  }

  // The extent after the last of an entry begins another.
  lemma NewGroup(p: Dpb, dir: seq<Entry>, x: Entry, id: Name, pos: seq<int>, tabs: seq<seq<word>>, w: int, n: int,
                 y: Entry)
    requires DpbOk(p) && FileAt(p, dir, id, pos, tabs, w) && n == pos[|pos| - 1] && AsksOf(x, id)
    requires dir[n].ext == x.ext && dir[n].s2 == x.s2 && dir[n].rc == 128 && !Drive.LastExtent(x)
    requires y.name == x.name && y.s2 == x.s2 && y.ext == (x.ext + 1) % 32 && y.ext % (p.exm + 1) == 0
    ensures AsksOf(Drive.Bumped(y), id) && w == 128 * ExtentNumber(Drive.Bumped(y))
    ensures EntryGroup(p, Drive.Bumped(y)) == |pos| && Full(p, dir[n], |pos| - 1)
  {
    OtherGroup(p, x, y, Drive.Bumped(y));
    assert ExtentNumber(dir[n]) == ExtentNumber(x);
  }

  lemma OtherGroup(p: Dpb, x: Entry, y: Entry, z: Entry)
    requires DpbOk(p) && x.ext < 32 && x.s2 < 16 && !Drive.LastExtent(x) && z == Drive.Bumped(y)
    requires y.s2 == x.s2 && y.ext == (x.ext + 1) % 32 && y.ext % (p.exm + 1) == 0
    ensures z.ext < 32 && z.s2 < 16 && ExtentNumber(z) == ExtentNumber(x) + 1
    ensures EntryGroup(p, z) == EntryGroup(p, x) + 1
    ensures ExtentNumber(x) + 1 == (p.exm + 1) * (EntryGroup(p, x) + 1)
  {
    MaskOf(p);
    var e := ExtentNumber(x);
    BumpedNumber(x, y, z);
    NextGroup(p, e);
    assert (e + 1) % 32 == y.ext;
  }

  lemma BumpedNumber(x: Entry, y: Entry, z: Entry)
    requires x.ext < 32 && x.s2 < 16 && !Drive.LastExtent(x) && z == Drive.Bumped(y)
    requires y.s2 == x.s2 && y.ext == (x.ext + 1) % 32
    ensures z.ext < 32 && z.s2 < 16 && ExtentNumber(z) == ExtentNumber(x) + 1
    ensures (ExtentNumber(x) + 1) % 32 == y.ext
  {
    NumberParts(x);
  }

  // No table names a block that nobody owns.
  lemma FreshBlock(p: Dpb, dir: seq<Entry>, f: Fcb, id: Name, pos: seq<int>, tabs: seq<seq<word>>, w: int,
                   owner: map<int, Name>, b: word)
    requires p.exm >= 0 && Underway(p, dir, f, id, pos, tabs, w) && b != 0 && b !in owner
    requires EntriesHold(p, owner, dir) && Holds(p, owner, f.x)
    ensures forall a, c :: 0 <= a < |tabs| && 0 <= c < |tabs[a]| ==> tabs[a][c] != b
  {
    forall a, c | 0 <= a < |tabs| && 0 <= c < |tabs[a]|
      ensures tabs[a][c] != b
    {
      if a < |pos| - 1 {
        assert Holds(p, owner, dir[pos[a]]);
      }
      assert tabs[a][c] != 0 ==> Owned(owner, tabs[a][c], id);
    }
  }

  // --- reading

  // The count that an entry has for an extent of its group, against the end of the entry.
  lemma CountAt(p: Dpb, e: Entry, id: Name, r: int)
    requires DpbOk(p) && EntryOk(p, e, id) && 0 <= r < 0x10000 && GroupOf(p, r / 128) == EntryGroup(p, e)
    ensures r % 128 < Drive.CountIn(e, r / 128 % 32) <==> r < EndOf(e)
  {
    MaskOf(p);
    NumberIs(e);
    CountOfExtent(p.exm, e, r, r / 128, r % 128, ExtentNumber(e));
  }

  lemma CountOfExtent(exm: int, e: Entry, r: int, c: int, k: int, number: int)
    requires MaskOk(exm) && e.ext < 32 && e.s2 < 16 && e.rc <= 128 && number == ExtentNumber(e) == 32 * e.s2 + e.ext
    requires r == 128 * c + k && 0 <= k < 128 && 0 <= c && c / (exm + 1) == number / (exm + 1)
    ensures k < Drive.CountIn(e, c % 32) <==> r < EndOf(e)
  {
    SameEntry(exm, c, c / 32, c % 32, number, e.s2, e.ext);
    CountBefore(e, r, c, k);
  }

  lemma CountBefore(e: Entry, r: int, c: int, k: int)
    requires e.ext < 32 && e.s2 < 16 && e.rc <= 128 && 0 <= k < 128 && r == 128 * c + k && 0 <= c && c / 32 == e.s2
    ensures k < Drive.CountIn(e, c % 32) <==> r < EndOf(e)
  {
    assert c == 32 * e.s2 + c % 32;
  }

  // Entries before the last are full, and end before the file does.
  lemma FullBefore(p: Dpb, dir: seq<Entry>, id: Name, pos: seq<int>, tabs: seq<seq<word>>, w: int, r: int, g: int)
    requires DpbOk(p) && FileAt(p, dir, id, pos, tabs, w) && 0 <= r && g == GroupOf(p, r / 128) && 0 <= g < |pos|
    ensures r < EndOf(dir[pos[g]]) <==> r < w
    ensures EndOf(dir[pos[g]]) <= w
  {
    if g < |pos| - 1 {
      var e := ExtentNumber(dir[pos[|pos| - 1]]);
      BeforeLast(p.exm + 1, r / 128, e, g, |pos| - 1, (p.exm + 1) * (g + 1));
    }
  }

  // Extent c is in entry g, extent e in a later one, which begins at `end` or after it.
  lemma BeforeLast(m: int, c: int, e: int, g: int, last: int, end: int)
    requires m > 0 && g == c / m && last == e / m && g < last && end == m * (g + 1)
    ensures c + 1 <= end <= e
  {
    Parts(c, m);
    Parts(e, m);
    assert m * (g + 1) == m * g + m;
    Rises(m, g + 1, last);
    assert (g + 1) * m == m * (g + 1) && last * m == m * last;
  }

  // A record of the file is read as it was written, any other one refused.
  lemma ReadStep(p: Dpb, dir: seq<Entry>, id: Name, pos: seq<int>, tabs: seq<seq<word>>, disk: map<int, seq<byte>>,
                 recs: seq<seq<byte>>, r: int, n: int, sector: int)
    requires DpbOk(p) && FileAt(p, dir, id, pos, tabs, |recs|) && Contents(p, tabs, disk, recs) && 0 <= r < 0x10000
    requires 0 <= GroupOf(p, r / 128) < |pos| && n == pos[GroupOf(p, r / 128)]
    requires Drive.ReadOf(p, dir[n], r / 128 % 32, r % 128, sector)
    ensures if r < |recs| then sector >= 0 && InSector(disk, sector, recs[r]) else sector < 0
  {
    CountAt(p, dir[n], id, r);
    FullBefore(p, dir, id, pos, tabs, |recs|, r, GroupOf(p, r / 128));
    if r < |recs| {
      assert Has(p, tabs, disk, r, recs[r]);
    }
  }

  // --- the size

  lemma SizeOf(e: Entry)
    requires e.ext < 32 && e.s2 < 16 && e.rc <= 128
    ensures Size(e) == EndOf(e)
  {
    EndIsPosition(e);
    CombinedSmall(e.rc, e.ext, e.s2);
  }

  lemma EndIsPosition(e: Entry)
    requires e.ext < 32 && e.s2 < 16 && e.rc <= 128
    ensures Position(e.rc, e.ext, e.s2) == EndOf(e) < 0x20000
  {
  }

  lemma MatchesFile(f: Entry, e: Entry, exm: int)
    requires exm >= 0 && NameOk(f.name)
    ensures Matches(f, e, 12, exm) <==> Live(e) && FileId(e.name) == FileId(f.name)
  {
    if Matches(f, e, 12, exm) {
      MatchSameFile(f, e, 12, exm);
    }
    if FileId(e.name) == FileId(f.name) {
      forall i | 0 <= i < 12
        ensures Agrees(f, e, i, exm)
      {
        assert FileId(f.name)[i] == FileId(e.name)[i];
        SameDifference(f.name[i], e.name[i], e.name[i]);
      }
    }
  }

  // The largest record number over the entries of the file is the number of its records.
  lemma SizeIs(p: Dpb, dir: seq<Entry>, id: Name, pos: seq<int>, tabs: seq<seq<word>>, w: int, f: Entry, v: int)
    requires DpbOk(p) && FileAt(p, dir, id, pos, tabs, w) && NameOk(f.name) && FileId(f.name) == id
    requires IsLargest(dir, AllMatches(dir, f, 12, p.exm), v)
    ensures v == w
  {
    var places := AllMatches(dir, f, 12, p.exm);
    MatchesBeforeExact(dir, f, 12, p.exm, |dir|);
    var last := pos[|pos| - 1];
    MatchesFile(f, dir[last], p.exm);
    assert last in places;
    SizeOf(dir[last]);
    if v > w {
      var k :| 0 <= k < |places| && 0 <= places[k] < |dir| && Size(dir[places[k]]) == v;
      assert places[k] in places;
      MatchesFile(f, dir[places[k]], p.exm);
      NoLarger(p, dir, id, pos, tabs, w, places[k]);
    }
  }

  lemma NoLarger(p: Dpb, dir: seq<Entry>, id: Name, pos: seq<int>, tabs: seq<seq<word>>, w: int, i: int)
    requires DpbOk(p) && FileAt(p, dir, id, pos, tabs, w) && 0 <= i < |dir| && Live(dir[i])
    requires FileId(dir[i].name) == id
    ensures Size(dir[i]) <= w
  {
    var g := EntryGroup(p, dir[i]);
    assert pos[g] == i;
    SizeOf(dir[i]);
    var r := 128 * ExtentNumber(dir[i]);
    assert r / 128 == ExtentNumber(dir[i]);
    FullBefore(p, dir, id, pos, tabs, w, r, g);
  }
}
