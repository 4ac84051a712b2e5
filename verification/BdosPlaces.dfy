/**
  Where the BDOS (cpm22/bdos.asm) keeps record r of a file: which entry, which place in its block table, and which
  sector of the block.
 */
module BdosPlaces {
  import opened Arithmetic
  import opened BdosDirectory
  import opened BdosOwnership

  predicate MaskOk(exm: int) { exm == 0 || exm == 1 || exm == 3 || exm == 7 || exm == 15 }

  // GETBLOCK finds block r / 2^bsh of a file at its place in an entry of bps blocks.
  lemma PlaceAgrees(dpb: Dpb, bsh: int, exm: int, bps: int, r: int)
    requires dpb.bsh == bsh && dpb.exm == exm
    requires 3 <= bsh <= 7 && MaskOk(exm) && 0 <= r && (bps == 8 || bps == 16) && (exm + 1) * 128 == bps * Pow2(bsh)
    ensures PlaceIn(dpb, r % 128, r / 128 % 32) == r / Pow2(bsh) % bps
    ensures r % 128 % Pow2(bsh) == r % Pow2(bsh) && r / Pow2(bsh) / bps == r / 128 / (exm + 1)
  {
    PowValues();
    var c, e := r % 128, r / 128;
    if bsh == 3 {
      ByParts(8, 16, exm, bps, r, c, e);
    } else if bsh == 4 {
      ByParts(16, 8, exm, bps, r, c, e);
    } else if bsh == 5 {
      ByParts(32, 4, exm, bps, r, c, e);
    } else if bsh == 6 {
      ByParts(64, 2, exm, bps, r, c, e);
    } else {
      ByParts(128, 1, exm, bps, r, c, e);
    }
  }

  // With s sectors in a block and t blocks in an extent.
  lemma ByParts(s: int, t: int, exm: int, bps: int, r: int, c: int, e: int)
    requires 0 < s && 0 < t && s * t == 128 && MaskOk(exm) && bps == (exm + 1) * t
    requires 0 <= e && r == 128 * e + c && 0 <= c < 128
    ensures c / s + e % 32 % (exm + 1) * t == r / s % bps && c % s == r % s && r / s / bps == e / (exm + 1)
  {
    var a, b := c / s, c % s;
    var q, x := e / (exm + 1), e % (exm + 1);
    InBlock(s, t, c, a, b);
    BlockOf(s, t, e, r, c, a, b);
    QuotientIs(r, s, e * t + a, b);
    SameRest(exm, e);
    EntryOf(exm + 1, t, e, q, x, a);
    QuotientIs(e * t + a, bps, q, x * t + a);
  }

  lemma InBlock(s: int, t: int, c: int, a: int, b: int)
    requires 0 < s && 0 < t && s * t == 128 && 0 <= c < 128 && a == c / s && b == c % s
    ensures 0 <= a < t && c == s * a + b && 0 <= b < s
  {
    assert c == s * a + b;
    assert a >= t ==> s * a >= s * t;
  }

  lemma BlockOf(s: int, t: int, e: int, r: int, c: int, a: int, b: int)
    requires s * t == 128 && r == 128 * e + c && c == s * a + b
    ensures r == (e * t + a) * s + b
  {
    assert (e * t + a) * s == e * (s * t) + s * a;
  }

  lemma SameRest(exm: int, e: int)
    requires MaskOk(exm) && 0 <= e
    ensures e % 32 % (exm + 1) == e % (exm + 1)
  {
    var n := if exm == 0 then 32 else if exm == 1 then 16 else if exm == 3 then 8 else if exm == 7 then 4 else 2;
    RestAt(e, exm + 1, n);
  }

  lemma RestAt(e: int, m: int, n: int)
    requires 0 < m && m * n == 32 && 0 <= e
    ensures e % 32 % m == e % m
  {
    var h, w := e / 32, e % 32;
    var q, x := w / m, w % m;
    assert w == q * m + x;
    assert (n * h + q) * m == h * (m * n) + q * m;
    QuotientIs(e, m, n * h + q, x);
  }

  lemma EntryOf(m: int, t: int, e: int, q: int, x: int, a: int)
    requires 0 < m && 0 < t && e == q * m + x && 0 <= x < m && 0 <= a < t
    ensures e * t + a == q * (m * t) + (x * t + a) && 0 <= x * t + a < m * t
  {
    Distribute(m, t, q, x);
    Rises(t, 0, x);
    Rises(t, x + 1, m);
    assert (x + 1) * t == x * t + t;
  }

  lemma Distribute(m: int, t: int, q: int, x: int)
    ensures (q * m + x) * t == q * (m * t) + x * t
  {
  }

  lemma Rises(t: int, a: int, b: int)
    requires 0 <= t && a <= b
    ensures a * t <= b * t
  {
  }

  lemma Parts(e: int, m: int)
    requires m > 0
    ensures e == m * (e / m) + e % m && 0 <= e % m < m
  {
  }

  // --- records and entries

  // The entry, counted from the first, that holds extent e of a file.
  function GroupOf(p: Dpb, e: int): int
    requires p.exm >= 0
  {
    e / (p.exm + 1)
  }

  // The place of record r in the block table of its entry.
  function SlotOf(p: Dpb, r: int): int
    requires 0 <= p.bsh <= 7 && p.exm >= 0 && 0 <= r
  {
    PlaceIn(p, r % 128, r / 128 % 32)
  }

  lemma MaskOf(p: Dpb)
    requires DpbOk(p)
    ensures MaskOk(p.exm) && (p.exm + 1) * 128 == Nptr(p) * Pow2(p.bsh)
  {
    assert Unfold(0);
  }

  lemma SlotFits(p: Dpb, r: int)
    requires DpbOk(p) && 0 <= r
    ensures 0 <= SlotOf(p, r) < Nptr(p)
  {
    Parts(r / 128 % 32, p.exm + 1);
    BlockIndexFits(p, r % 128, r / 128 % 32 % (p.exm + 1));
  }

  // Entry, place and sector tell the record.
  lemma PlaceUnique(p: Dpb, r: int, q: int)
    requires DpbOk(p) && 0 <= r && 0 <= q
    requires GroupOf(p, r / 128) == GroupOf(p, q / 128) && SlotOf(p, r) == SlotOf(p, q)
    requires r % 128 % Pow2(p.bsh) == q % 128 % Pow2(p.bsh)
    ensures r == q
  {
    MaskOf(p);
    PlaceAgrees(p, p.bsh, p.exm, Nptr(p), r);
    PlaceAgrees(p, p.bsh, p.exm, Nptr(p), q);
    Rebuilt(r, q, Pow2(p.bsh), Nptr(p));
  }

  lemma Rebuilt(r: int, q: int, s: int, n: int)
    requires 0 < s && 0 < n && r / s / n == q / s / n && r / s % n == q / s % n && r % s == q % s
    ensures r == q
  {
    Parts(r / s, n);
    Parts(q / s, n);
    Parts(r, s);
    Parts(q, s);
  }

  // The extent after the last of an entry is the first of the next.
  lemma NextGroup(p: Dpb, e: int)
    requires MaskOk(p.exm) && 0 <= e
    ensures (e + 1) % 32 % (p.exm + 1) == (e + 1) % (p.exm + 1)
    ensures (e + 1) % 32 % (p.exm + 1) != 0 ==> GroupOf(p, e + 1) == GroupOf(p, e)
    ensures (e + 1) % 32 % (p.exm + 1) == 0 ==>
      GroupOf(p, e + 1) == GroupOf(p, e) + 1 && e + 1 == (p.exm + 1) * (GroupOf(p, e) + 1)
  {
    SameRest(p.exm, e + 1);
    var m := p.exm + 1;
    var q, x := e / m, e % m;
    Parts(e, m);
    if x + 1 < m {
      QuotientIs(e + 1, m, q, x + 1);
    } else {
      assert m * (q + 1) == m * q + m;
      QuotientIs(e + 1, m, q + 1, 0);
    }
  }

  // SAMEXT and the module byte together: extents e and c, the extents a and b of modules u and v, are in one entry.
  lemma SameEntry(exm: int, e: int, u: int, a: byte, c: int, v: int, b: byte)
    requires MaskOk(exm) && e == 32 * u + a && c == 32 * v + b && a < 32 && b < 32 && 0 <= u && 0 <= v
    ensures SameExt(a, b, exm) && u == v <==> e / (exm + 1) == c / (exm + 1)
  {
    if exm == 0 {
      SameEntryAt(1, 32, e, c, u, a, v, b);
    } else if exm == 1 {
      SameEntryAt(2, 16, e, c, u, a, v, b);
    } else if exm == 3 {
      SameEntryAt(4, 8, e, c, u, a, v, b);
    } else if exm == 7 {
      SameEntryAt(8, 4, e, c, u, a, v, b);
    } else {
      SameEntryAt(16, 2, e, c, u, a, v, b);
    }
  }

  lemma SameEntryAt(m: int, n: int, e: int, c: int, u: int, a: byte, v: int, b: byte)
    requires 0 < m && m * n == 32 && e == 32 * u + a && c == 32 * v + b && a < 32 && b < 32 && 0 <= u && 0 <= v
    ensures SameExt(a, b, m - 1) && u == v <==> e / m == c / m
  {
    var i, x, j, y := a / m, a % m, b / m, b % m;
    Parts(a, m);
    Parts(b, m);
    InModule(m, n, u, a, i, x);
    InModule(m, n, v, b, j, y);
    QuotientIs(e, m, n * u + i, x);
    QuotientIs(c, m, n * v + j, y);
    if n * u + i == n * v + j {
      DivisionUnique(n, u, i, v, j);
    }
    Starts(m, n, i, j);
  }

  lemma InModule(m: int, n: int, u: int, a: int, i: int, x: int)
    requires 0 < m && m * n == 32 && 0 <= a < 32 && a == m * i + x && 0 <= x < m
    ensures 0 <= i < n && 32 * u + a == (n * u + i) * m + x
  {
    assert (n * u + i) * m == (m * n) * u + m * i;
    assert i < 0 ==> m * i <= -m;
    assert i >= n ==> m * i >= m * n;
  }

  // Starts of entries within a module.
  lemma Starts(m: int, n: int, i: int, j: int)
    requires 0 < m && m * n == 32 && 0 <= i < n && 0 <= j < n
    ensures (m * i - m * j) % 32 == 0 <==> i == j
  {
    assert m * i - m * j == m * (i - j);
    if i != j {
      assert i > j ==> m <= m * (i - j) <= m * (n - 1);
      assert i < j ==> -(m * (n - 1)) <= m * (i - j) <= -m;
      assert m * (n - 1) == m * n - m;
    }
  }
}
