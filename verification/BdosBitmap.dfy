/**
  The BDOS allocation map: one bit for each block, first block in the top bit of the first byte.
  A byte is written as its eight bits, top bit first, since only rotations and bit 0 matter here.
 */
module BdosBitmap {

  type Octet = s: seq<bool> | |s| == 8 witness [false, false, false, false, false, false, false, false]

  function Bit(alv: seq<Octet>, b: int): bool
    requires 0 <= b < 8 * |alv|
  {
    alv[b / 8][b % 8]
  }

  // The map with the bit of block b set to v.
  function WithBit(alv: seq<Octet>, b: int, v: bool): (r: seq<Octet>)
    requires 0 <= b < 8 * |alv|
    ensures |r| == |alv|
  {
    alv[b / 8 := alv[b / 8][b % 8 := v]]
  }

  // Setting one bit changes no other.
  lemma BitOfWithBit(alv: seq<Octet>, b: int, v: bool, c: int)
    requires 0 <= b < 8 * |alv| && 0 <= c < 8 * |alv|
    ensures Bit(WithBit(alv, b, v), c) == if c == b then v else Bit(alv, c)
  {
    assert c / 8 == b / 8 && c % 8 == b % 8 ==> c == b;
  }

  // --- the byte as CKBITMAP and STBMAP1 rotate it

  // RLCA: the top bit comes round to the bottom.
  function RotateLeft(x: Octet): Octet { x[1..] + [x[0]] }

  // RRCA
  function RotateRight(x: Octet): Octet { [x[7]] + x[..7] }

  // x rotated left n places.
  function LeftBy(x: Octet, n: int): Octet
    requires 0 <= n <= 8
  {
    x[n..] + x[..n]
  }

  lemma LeftStep(x: Octet, n: int)
    requires 0 <= n < 8
    ensures RotateLeft(LeftBy(x, n)) == LeftBy(x, n + 1)
    ensures RotateRight(LeftBy(x, n + 1)) == LeftBy(x, n)
  {
  }

  // After k + 1 rotations bit k stands at the bottom, and what is put there comes back as bit k.
  lemma LeftBit(x: Octet, k: int, v: bool)
    requires 0 <= k < 8
    ensures LeftBy(x, k + 1)[7] == x[k]
    ensures LeftBy(x, k + 1)[7 := v] == LeftBy(x[k := v], k + 1)
  {
  }

  // CKBITMAP: the byte of block bc, rotated so that the block's bit is bit 0, with the count and the place.
  method CkBitmap(alv: array<Octet>, bc: int) returns (a: Octet, d: int, hl: int)
    requires 0 <= bc < 8 * alv.Length
    ensures hl == bc / 8 && d == bc % 8 + 1 && a == LeftBy(alv[hl], d)
    ensures a[7] == Bit(alv[..], bc)
  {
    d, hl := bc % 8 + 1, bc / 8;
    a := alv[hl];
    var e := d;
    while e != 0
      invariant 0 <= e <= d && a == LeftBy(alv[hl], d - e)
      decreases e
    {
      LeftStep(alv[hl], d - e);
      a := RotateLeft(a);
      e := e - 1;
    }
    LeftBit(alv[hl], bc % 8, true);
  }

  // STBMAP1: rotate the byte back and store it.
  method StBmap1(alv: array<Octet>, a0: Octet, d0: int, hl: int, ghost x: Octet)
    requires 0 <= hl < alv.Length && 1 <= d0 <= 8 && a0 == LeftBy(x, d0)
    modifies alv
    ensures alv[..] == old(alv[..])[hl := x]
  {
    var a, d := a0, d0;
    while d != 0
      invariant 0 <= d <= d0 && a == LeftBy(x, d) && alv[..] == old(alv[..])
      decreases d
    {
      LeftStep(x, d - 1);
      a := RotateRight(a);
      d := d - 1;
    }
    assert LeftBy(x, 0) == x;
    alv[hl] := a;
  }

  // STBITMAP: set or clear the bit of block bc.
  method StBitmap(alv: array<Octet>, bc: int, e: bool)
    requires 0 <= bc < 8 * alv.Length
    modifies alv
    ensures alv[..] == WithBit(old(alv[..]), bc, e)
  {
    var a, d, hl := CkBitmap(alv, bc);
    LeftBit(alv[hl], bc % 8, e);
    StBmap1(alv, a[7 := e], d, hl, alv[hl][bc % 8 := e]);
  }

  // --- the nearest free block

  function Distance(a: int, b: int): nat { if a < b then b - a else a - b }

  // b is free and no other free block but the target itself is nearer, or as near and lower.
  ghost predicate Nearest(alv: seq<Octet>, dsm: int, target: int, b: int)
    requires 0 <= dsm < 8 * |alv|
  {
    && 0 <= b <= dsm && b != target && !Bit(alv, b)
    && forall c :: 0 <= c <= dsm && c != target && !Bit(alv, c) ==>
         Distance(b, target) < Distance(c, target) || (Distance(b, target) == Distance(c, target) && b <= c)
  }

  // Every block from lo to hi but the target is in use.
  ghost predicate AllUsed(alv: seq<Octet>, lo: int, hi: int, target: int) {
    forall c :: 0 <= lo <= c <= hi < 8 * |alv| && c != target ==> Bit(alv, c)
  }

  // FNDSPA3: mark the block that CKBITMAP found free.
  method Mark(alv: array<Octet>, b: int, a: Octet, d: int, at: int)
    requires 0 <= b < 8 * alv.Length && at == b / 8 && d == b % 8 + 1 && a == LeftBy(alv[at], d)
    modifies alv
    ensures alv[..] == WithBit(old(alv[..]), b, true)
  {
    LeftBit(alv[at], b % 8, true);
    StBmap1(alv, a[7 := true], d, at, alv[at][b % 8 := true]);
  }

  // FNDSPACE: look alternately below and above the target, mark the block found.
  // Zero means that no block but the target is free.
  method FndSpace(alv: array<Octet>, dsm: int, target: int) returns (hl: int)
    requires 0 <= target <= dsm < 8 * alv.Length
    requires Bit(alv[..], 0)
    modifies alv
    ensures hl != 0 ==> Nearest(old(alv[..]), dsm, target, hl) && alv[..] == WithBit(old(alv[..]), hl, true)
    ensures hl == 0 ==> alv[..] == old(alv[..]) && AllUsed(alv[..], 0, dsm, target)
  {
    var bc, de := target, target;
    ghost var s := alv[..];
    while true
      invariant 0 <= bc <= target <= de <= dsm && alv[..] == s
      invariant AllUsed(s, bc, de, target)
      invariant target - bc == de - target
             || (bc == 0 && target <= de - target) || (de == dsm && de - target <= target - bc)
      decreases bc + (dsm - de)
    {
      if bc != 0 {
        bc := bc - 1;
        var a, d, at := CkBitmap(alv, bc);
        if !a[7] {
          Mark(alv, bc, a, d, at);
          return bc;
        }
      }
      if de < dsm {
        de := de + 1;
        var a, d, at := CkBitmap(alv, de);
        if !a[7] {
          Mark(alv, de, a, d, at);
          return de;
        }
      } else if bc == 0 {
        return 0;
      }
    }
  }

  // A block handed out was free, is in use afterwards, and is the only one whose bit changed.
  lemma OneBitChanges(before: seq<Octet>, dsm: int, target: int, b: int)
    requires 0 <= target <= dsm < 8 * |before| && Bit(before, 0) && Nearest(before, dsm, target, b)
    ensures b != 0
    ensures forall c :: 0 <= c < 8 * |before| ==> (Bit(WithBit(before, b, true), c) <==> Bit(before, c) || c == b)
  {
    forall c | 0 <= c < 8 * |before| {
      BitOfWithBit(before, b, true, c);
    }
  }
}
