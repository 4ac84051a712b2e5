/**
  Random record numbers: how POSITION splits one over record, extent and s2, and how COMPRAND puts the
  three together again.
 */
module BdosRandom {
  import opened BdosDirectory

  // --- POSITION

  function RecordOf(r0: byte): byte { r0 % 128 }
  function ExtentOf(r0: byte, r1: byte): byte { (2 * r1 + r0 / 128) % 32 }
  function ModuleOf(r1: byte): byte { r1 / 16 }

  // --- COMPRAND

  // The three bytes r0, r1 and r2 as one number.
  function Number(r0: int, r1: int, r2: int): int { r0 + 0x100 * (r1 + 0x100 * r2) }

  // The record that a count within an extent within a module of extents stands for.
  function Position(record: int, ext: int, s2: int): int { record + 128 * ext + 4096 * s2 }

  // What the three bytes come to: bits 4 of s2 and the carry out of r1 share the one bit of r2.
  function Combined(record: byte, ext: byte, s2: byte): int {
    var w := Position(record, ext % 32, s2 % 16);
    w % 0x10000 + (if w >= 0x10000 || s2 / 16 % 2 == 1 then 0x10000 else 0)
  }

  lemma Halves(ext: byte, s2: byte)
    ensures ext % 32 == ext % 2 + 2 * (ext / 2 % 16)
    ensures s2 * 16 % 0x100 == 16 * (s2 % 16) && s2 * 16 / 0x100 == s2 / 16
  {
  }

  lemma Carried(c: int, sum: int)
    requires 0 <= c < 0x100 && 0 <= sum < 0x200
    ensures (c + 0x100 * sum) % 0x10000 == c + 0x100 * (sum % 0x100)
    ensures c + 0x100 * sum >= 0x10000 <==> sum / 0x100 == 1
  {
    assert sum == sum % 0x100 + 0x100 * (sum / 0x100);
  }

  // COMPRAND, byte by byte with its two carries.
  method Comprand(record: byte, ext: byte, s2: byte) returns (c: byte, b: byte, a: byte)
    ensures Number(c, b, a) == Combined(record, ext, s2)
  {
    var low := record + ext % 2 * 128;
    c := low % 0x100;
    b := low / 0x100;
    b := b + ext / 2 % 16;
    var sum := s2 * 16 % 0x100 + b;
    b := sum % 0x100;
    a := if s2 * 16 / 0x100 % 2 == 1 || sum / 0x100 == 1 then 1 else 0;
    Halves(ext, s2);
    assert Position(record, ext % 32, s2 % 16) == c + 0x100 * sum;
    Carried(c, sum);
  }

  // Three bytes are enough exactly for five-bit extents and numbers below 131072; the carry into r2 is kept.
  lemma CombinedExact(record: byte, ext: byte, s2: byte)
    ensures Combined(record, ext, s2) == Position(record, ext, s2)
       <==> ext < 32 && Position(record, ext, s2) < 0x20000
  {
    var w := Position(record, ext % 32, s2 % 16);
    assert ext == ext % 32 + 32 * (ext / 32);
    assert s2 == s2 % 16 + 16 * (s2 / 16);
    assert Position(record, ext, s2) == w + 4096 * (ext / 32) + 0x10000 * (s2 / 16);
    assert w < 0x20000;
    assert s2 / 16 % 2 == 1 ==> s2 / 16 >= 1;
    assert s2 / 16 == 1 ==> s2 / 16 % 2 == 1;
  }

  lemma CombinedSmall(record: byte, ext: byte, s2: byte)
    requires ext < 32 && Position(record, ext, s2) < 0x20000
    ensures Combined(record, ext, s2) == Position(record, ext, s2)
  {
    CombinedExact(record, ext, s2);
  }

  // Splitting a record number and putting it together again is the identity; the flags that the BDOS
  // keeps in bits 5 to 7 of s2 do not disturb it.
  lemma SplitThenCombine(r0: byte, r1: byte, s2: byte)
    requires s2 % 32 == ModuleOf(r1)
    ensures Combined(RecordOf(r0), ExtentOf(r0, r1), s2) == Number(r0, r1, 0)
  {
    SplitParts(r0, r1);
    LowModule(s2, ModuleOf(r1));
    JoinParts(r0, r1, r0 / 128, r0 % 128, r1 / 16, r1 % 16);
    CombinedIs(RecordOf(r0), ExtentOf(r0, r1), s2, ModuleOf(r1));
  }

  lemma JoinParts(r0: byte, r1: byte, a: int, b: int, c: int, d: int)
    requires r0 == 128 * a + b && r1 == 16 * c + d
    ensures Position(b, 2 * d + a, c) == Number(r0, r1, 0) < 0x10000
  {
  }

  lemma CombinedIs(record: byte, ext: byte, s2: byte, m: int)
    requires ext < 32 && s2 % 16 == m && s2 / 16 % 2 == 0 && Position(record, ext, m) < 0x10000
    ensures Combined(record, ext, s2) == Position(record, ext, m)
  {
    SmallRest(ext, 32);
    SmallRest(Position(record, ext, m), 0x10000);
  }

  lemma SmallRest(x: int, m: int)
    requires 0 <= x < m
    ensures x % m == x
  {
  }

  lemma SplitParts(r0: byte, r1: byte)
    ensures ExtentOf(r0, r1) == 2 * (r1 % 16) + r0 / 128
  {
    assert 2 * r1 + r0 / 128 == 32 * (r1 / 16) + (2 * (r1 % 16) + r0 / 128);
  }

  lemma LowModule(s2: byte, m: int)
    requires s2 % 32 == m < 16
    ensures s2 % 16 == m && s2 / 16 % 2 == 0
  {
    assert s2 == 16 * (2 * (s2 / 32)) + m;
  }
}
