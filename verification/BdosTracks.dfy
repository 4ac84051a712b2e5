/**
  From a logical sector number to a track and a sector, and back again on the host side.
  The BDOS finds the track by stepping from the track it used last (cpm22/bdos.asm), the BIOS skews the
  sector (cpm22/bios.asm) and the host undoes the skew (src/biosapi.cpp, src/biosapi.h).
 */
module BdosTracks {
  import opened Arithmetic

  type byte = x: int | 0 <= x < 0x100
  type word = x: int | 0 <= x < 0x10000

  // --- division by repeated steps

  lemma StepDown(track: int, base: int, spt: int)
    requires spt > 0 && base == First(track, spt) && base > 0
    ensures track >= 1 && base - spt == First(track - 1, spt) && base >= spt
  {
  }

  lemma StepUp(track: int, base: int, spt: int)
    requires spt > 0 && track >= 0 && base == First(track, spt)
    ensures base + spt == First(track + 1, spt) && track < base + spt
  {
  }

  lemma Quotient(n: int, track: int, base: int, spt: int)
    requires spt > 0 && base == First(track, spt) && base <= n < base + spt
    ensures track == n / spt && n - base == n % spt
  {
    QuotientIs(n, spt, track, n - base);
  }

  // A track number times the sectors of a track.
  function First(track: int, spt: int): int { track * spt }

  /** The track the BDOS used last and the number of its first sector (SCRATCH2 and SCRATCH3). */
  class TrackCache {
    var track: word
    var base: word
    const spt: word
    const offset: word

    ghost predicate Valid()
      reads this
    {
      spt > 0 && base == First(track, spt)
    }

    // TRKSEC2: back one track at a time while the wanted sector lies before this one.
    method StepBack(n: word)
      requires Valid()
      modifies `track, `base
      ensures Valid() && base <= n
    {
      while n < base
        invariant Valid()
        decreases base
      {
        StepDown(track, base, spt);
        base := base - spt;
        track := track - 1;
      }
    }

    // TRKSEC3: on one track at a time until the next one starts after the wanted sector;
    // a sum that leaves 16 bits starts after every sector number.
    method StepOn(n: word)
      requires Valid() && base <= n
      modifies `track, `base
      ensures Valid() && base <= n < base + spt
    {
      while base + spt < 0x10000 && n >= base + spt
        invariant Valid() && base <= n
        decreases n - base
      {
        StepUp(track, base, spt);
        base := base + spt;
        track := track + 1;
      }
    }

    // TRKSEC1: the track for SETTRK and the sector within it, whatever track was used last.
    method Trksec1(n: word) returns (settrk: word, sector: word)
      requires Valid()
      modifies `track, `base
      ensures Valid() && track == n / spt
      ensures settrk == (n / spt + offset) % 0x10000 && sector == n % spt
    {
      StepBack(n);
      StepOn(n);
      Quotient(n, track, base, spt);
      settrk := (track + offset) % 0x10000;
      sector := n - base;
    }

    // TRKSEC: the directory sector of an entry, four entries to a sector.
    method Trksec(filepos: word) returns (settrk: word, sector: word)
      requires Valid()
      modifies `track, `base
      ensures Valid()
      ensures settrk == (filepos / 4 / spt + offset) % 0x10000 && sector == filepos / 4 % spt
    {
      settrk, sector := Trksec1(filepos / 4);
    }

    constructor (spt: word, offset: word)
      requires spt > 0
      ensures Valid() && this.spt == spt && this.offset == offset && track == 0 && base == 0
    {
      this.spt, this.offset := spt, offset;
      track, base := 0, 0;
    }
  }

  // --- the skew

  // A skew table of bytes, as SECTRAN reads it, names each of the sectors 1 to spt once; so there are no more
  // than 255 of them, and the sector port takes every one.
  ghost predicate SkewTable(table: seq<byte>, spt: int) {
    && |table| == spt
    && (forall i :: 0 <= i < spt ==> 1 <= table[i] <= spt)
    && (forall i, j :: 0 <= i < j < spt ==> table[i] != table[j])
  }

  // The host's inverse table, filled by one pass over the sectors.
  method InverseMap(table: seq<byte>, spt: int) returns (smap: array<int>)
    requires spt > 0 && SkewTable(table, spt)
    ensures smap.Length == spt && fresh(smap) && Inverts(smap[..], table, spt)
  {
    smap := new int[spt];
    var i := 1;
    while i <= spt
      invariant 1 <= i <= spt + 1
      invariant forall k :: 0 <= k < i - 1 ==> smap[table[k] - 1] == k + 1
    {
      smap[table[i - 1] - 1] := i;
      i := i + 1;
    }
  }

  // GetAbsSector: the linear sector of a track and a sector as the host sees them.
  function GetAbsSector(smap: seq<int>, spt: int, reserved: int, track: int, sector: int): int
    requires 1 <= sector <= |smap|
  {
    First(track, spt) + (if track >= reserved then smap[sector - 1] else sector) - 1
  }

  // --- the whole way

  lemma FirstAdds(a: int, b: int, spt: int)
    ensures First(a + b, spt) == First(a, spt) + First(b, spt)
  {
  }

  lemma FirstRises(a: int, b: int, spt: int)
    requires a <= b && 0 <= spt
    ensures First(a, spt) <= First(b, spt)
  {
  }

  // A track number cut to a byte leads to a sector below the wanted one.
  lemma CutTrack(n: int, track: int, spt: int, reserved: int, cut: int, sector: int)
    requires spt > 0 && First(track, spt) <= n && cut < track + reserved && 1 <= sector <= spt
    ensures First(cut, spt) + sector - 1 - First(reserved, spt) < n
  {
    FirstRises(cut + 1, track + reserved, spt);
    FirstAdds(cut, 1, spt);
    FirstAdds(track, reserved, spt);
    assert First(1, spt) == spt;
  }

  // The host's table undoes the skew table.
  ghost predicate Inverts(smap: seq<int>, table: seq<byte>, spt: int) {
    SkewTable(table, spt) && |smap| == spt && forall i :: 0 <= i < spt ==> smap[table[i] - 1] == i + 1
  }

  // From a sector number through the BDOS and the BIOS to the track and sector ports of the disk controller.
  method SeekPorts(cache: TrackCache, table: seq<byte>, n: word) returns (track: byte, sector: byte)
    requires cache.Valid() && SkewTable(table, cache.spt)
    modifies cache
    ensures cache.Valid()
    ensures track == (n / cache.spt + cache.offset) % 0x100 && 0 <= n % cache.spt < cache.spt
    ensures sector == table[n % cache.spt]
  {
    var settrk, logical := cache.Trksec1(n);
    track, sector := settrk % 0x100, table[logical];
    LowByte(n / cache.spt + cache.offset);
  }

  lemma LowByte(x: int)
    requires x >= 0
    ensures x % 0x10000 % 0x100 == x % 0x100
  {
    var q, w := x / 0x10000, x % 0x10000;
    QuotientIs(x, 0x100, 0x100 * q + w / 0x100, w % 0x100);
  }

  // The host meets the very sector the BDOS meant exactly when the track number fits its port; otherwise one below.
  lemma HostMeets(smap: seq<int>, table: seq<byte>, spt: int, offset: int, n: int)
    requires spt > 0 && Inverts(smap, table, spt) && 0 <= offset && 0 <= n
    ensures 0 <= n % spt < spt && 1 <= table[n % spt] <= |smap|
    ensures var abs := GetAbsSector(smap, spt, offset, (n / spt + offset) % 0x100, table[n % spt]);
      && (abs - First(offset, spt) == n <==> n / spt + offset < 0x100) && abs - First(offset, spt) <= n
  {
    StepsBelow(n, spt);
    MeetsAt(smap, table, spt, offset, n, n / spt, n % spt);
  }

  lemma StepsBelow(n: int, spt: int)
    requires spt > 0 && 0 <= n
    ensures First(n / spt, spt) + n % spt == n && 0 <= n / spt && 0 <= n % spt < spt
  {
  }

  lemma MeetsAt(smap: seq<int>, table: seq<byte>, spt: int, offset: int, n: int, track: int, s: int)
    requires spt > 0 && Inverts(smap, table, spt) && 0 <= offset
    requires 0 <= track && 0 <= s < spt && n == First(track, spt) + s
    ensures var abs := GetAbsSector(smap, spt, offset, (track + offset) % 0x100, table[s]);
      && (abs - First(offset, spt) == n <==> track + offset < 0x100) && abs - First(offset, spt) <= n
  {
    var cut, physical := (track + offset) % 0x100, table[s];
    assert smap[physical - 1] == s + 1;
    if track + offset < 0x100 {
      FirstAdds(track, offset, spt);
    } else {
      CutTrack(n, track, spt, offset, cut, if cut >= offset then smap[physical - 1] else physical);
    }
  }

  // From a sector number through the BDOS, the BIOS and the disk controller's byte ports to the host.
  method SeekOnHost(cache: TrackCache, table: seq<byte>, smap: array<int>, n: word) returns (abs: int)
    requires cache.Valid() && Inverts(smap[..], table, cache.spt)
    modifies cache
    ensures cache.Valid()
    ensures abs - First(cache.offset, cache.spt) == n <==> n / cache.spt + cache.offset < 0x100
    ensures abs - First(cache.offset, cache.spt) <= n
  {
    var track, sector := SeekPorts(cache, table, n);
    HostMeets(smap[..], table, cache.spt, cache.offset, n);
    abs := GetAbsSector(smap[..], cache.spt, cache.offset, track, sector);
  }
}
