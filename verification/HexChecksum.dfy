/**
  What LOAD makes of any text: it gets through exactly if every record it reads has its digits and a sum of zero and no
  byte falls behind the window; a printed text with one byte damaged is refused.
 */
module HexChecksum {
  import opened Arithmetic
  import opened HexFormat

  // --- any record of bytes

  // Length, address and type, as the record has them.
  function Head(n: byte, hi: byte, lo: byte, rt: byte): seq<byte> { [n, hi, lo, rt] }

  lemma SumOne(b: byte, t: seq<byte>)
    ensures Sum([b] + t) == b + Sum(t)
  {
    assert ([b] + t)[1..] == t;
  }

  lemma HeadSum(n: byte, hi: byte, lo: byte, rt: byte)
    ensures Sum(Head(n, hi, lo, rt)) == n + hi + lo + rt
  {
    SumOne(rt, []);
    SumOne(lo, [rt] + []);
    SumOne(hi, [lo] + ([rt] + []));
    SumOne(n, [hi] + ([lo] + ([rt] + [])));
    assert Head(n, hi, lo, rt) == [n] + ([hi] + ([lo] + ([rt] + [])));
  }

  lemma HeadText(n: byte, hi: byte, lo: byte, rt: byte, rest: seq<byte>)
    ensures HexAll(Head(n, hi, lo, rt)) + rest == Hex2(n) + (Hex2(hi) + (Hex2(lo) + (Hex2(rt) + rest)))
  {
    assert Head(n, hi, lo, rt) == [n] + ([hi] + ([lo] + ([rt] + [])));
    HexAllOne(n, [hi] + ([lo] + ([rt] + [])));
    HexAllOne(hi, [lo] + ([rt] + []));
    HexAllOne(lo, [rt] + []);
    HexAllOne(rt, []);
  }

  lemma ReadHead(n: byte, hi: byte, lo: byte, rt: byte, rest: seq<byte>)
    ensures ReadHeader(Hex2(hi) + (Hex2(lo) + (Hex2(rt) + rest)), n)
         == Header(256 * hi + lo, (n + hi + lo + rt) % 256, rest)
  {
    ReadHex2(hi, Hex2(lo) + (Hex2(rt) + rest));
    ReadHex2(lo, Hex2(rt) + rest);
    ReadHex2(rt, rest);
  }

  // What storing the data and the sum of a record, modulo 256, make of it.
  function Verdict(o: Outcome, sum: int, rest: seq<byte>): Line {
    if o.Failed? then Wrong(o.error) else if sum != 0 then Wrong(BadChecksum) else Next(o.st, rest)
  }

  // Sealed, so that the text is not read again.
  ghost predicate Reads(st: Image, s: seq<byte>, line: Line) {
    forall x {:trigger Unfold(x)} :: Unfold(x) ==> ReadRecord(st, s) == line
  }

  ghost predicate TailReads(st: Image, s: seq<byte>, n: nat, cs: byte, line: Line) {
    forall x {:trigger Unfold(x)} :: Unfold(x) ==> AfterData(ReadData(st, s, n, cs)) == line
  }

  lemma SameText(st: Image, s: seq<byte>, t: seq<byte>, line: Line)
    requires Reads(st, s, line) && s == t
    ensures Reads(st, t, line)
  {
  }

  // The data of a record, stored.
  ghost predicate Kept(st: Image, r: Record, o: Outcome) {
    forall x {:trigger Unfold(x)} :: Unfold(x) ==> StoreAll(st, Cells(r.addr, r.data)) == o
  }

  lemma StoredIs(st: Image, r: Record, tail: seq<byte>, cs: byte, sum: int, o: Outcome)
    requires r.data != [] && sum == (cs + Sum(r.data)) % 256 && Kept(st, r, o)
    ensures Stored(st.(la := r.addr), r.data, tail, cs) == AsData(o, tail, sum)
  {
    assert Unfold(0);
    assert StoreAll(st.(la := r.addr), Cells(r.addr, r.data)) == StoreAll(st, Cells(r.addr, r.data));
  }

  lemma StoredAt(st: Image, r: Record, tail: seq<byte>, cs: byte, sum: byte, o: Outcome)
    requires r.data != [] && sum == (cs + Sum(r.data)) % 256 && Kept(st, r, o)
    ensures DataRead(st.(la := r.addr), HexAll(r.data) + tail, |r.data|, cs, AsData(o, tail, sum))
  {
    StoredIs(st, r, tail, cs, sum, o);
    ReadPrintedData(st.(la := r.addr), r.data, tail, cs);
  }

  // The checksum byte c after data that sum to `sum`.
  lemma TailFrom(st: Image, s: seq<byte>, n: nat, cs: byte, o: Outcome, c: byte, rest: seq<byte>, sum: byte, total: int)
    requires DataRead(st, s, n, cs, AsData(o, Hex2(c) + rest, sum)) && total == (sum + c) % 256
    ensures TailReads(st, s, n, cs, Verdict(o, total, rest))
  {
    ReadHex2(c, rest);
  }

  // The record from its length on.
  lemma ReadToData(st: Image, n: byte, hi: byte, lo: byte, rt: byte, addr: word, cs: byte, tail: seq<byte>, line: Line)
    requires n != 0 && addr == 256 * (hi as int) + lo && cs == (n + hi + lo + rt) % 256
    requires TailReads(st.(la := addr), tail, n, cs, line)
    ensures Reads(st, HexAll(Head(n, hi, lo, rt)) + tail, line)
  {
    HeadText(n, hi, lo, rt, tail);
    var s1 := Hex2(hi) + (Hex2(lo) + (Hex2(rt) + tail));
    HeadReads(st, n, s1, addr, cs, tail, line) by {
      ReadHead(n, hi, lo, rt, tail);
    }
  }

  lemma HeadReads(st: Image, n: byte, s1: seq<byte>, addr: word, cs: byte, tail: seq<byte>, line: Line)
    requires n != 0 && ReadHeader(s1, n) == Header(addr, cs, tail) && TailReads(st.(la := addr), tail, n, cs, line)
    ensures Reads(st, Hex2(n) + s1, line)
  {
    assert Unfold(0);
    ReadHex2(n, s1);
  }

  lemma TextOfBytes(head: seq<byte>, data: seq<byte>, c: byte, rest: seq<byte>)
    ensures HexAll(head + data + [c]) + rest == HexAll(head) + (HexAll(data) + (Hex2(c) + rest))
  {
    HexAllAppend(head + data, [c]);
    HexAllAppend(head, data);
    HexAllOne(c, []);
    assert [c] + [] == [c];
  }

  lemma SumOfBytes(n: byte, hi: byte, lo: byte, rt: byte, data: seq<byte>, c: byte, cs: int)
    requires cs == (n + hi + lo + rt) % 256
    ensures Sum(Head(n, hi, lo, rt) + data + [c]) % 256 == (cs + Sum(data) + c) % 256
  {
    var head := Head(n, hi, lo, rt);
    SumAppend(head + data, [c]);
    SumAppend(head, data);
    HeadSum(n, hi, lo, rt);
    assert [c][1..] == [];
    SumStep(n + hi + lo + rt, 0, Sum(data) + c);
  }

  lemma ReadHeadAndTail(st: Image, text: seq<byte>, addr: word, n: byte, hi: byte, lo: byte, rt: byte, c: byte,
                        rest: seq<byte>, cs: int, sum: byte, total: int, o: Outcome)
    requires n != 0 && addr == 256 * (hi as int) + lo && cs == (n + hi + lo + rt) % 256 && total == (sum + c) % 256
    requires DataRead(st.(la := addr), text + (Hex2(c) + rest), n, cs, AsData(o, Hex2(c) + rest, sum))
    ensures Reads(st, HexAll(Head(n, hi, lo, rt)) + (text + (Hex2(c) + rest)), Verdict(o, total, rest))
  {
    TailFrom(st.(la := addr), text + (Hex2(c) + rest), n, cs, o, c, rest, sum, total);
    ReadToData(st, n, hi, lo, rt, addr, cs, text + (Hex2(c) + rest), Verdict(o, total, rest));
  }

  // A record of any bytes: refused exactly if they do not sum to zero, or if it cannot be stored.
  lemma ReadBytes(st: Image, all: seq<byte>, r: Record, hi: byte, lo: byte, rt: byte, c: byte, rest: seq<byte>,
                  total: int, o: Outcome)
    requires 1 <= |r.data| < 256 && r.addr == 256 * hi + lo && all == Head(|r.data|, hi, lo, rt) + r.data + [c]
    requires total == Sum(all) % 256 && Kept(st, r, o)
    ensures Reads(st, HexAll(all) + rest, Verdict(o, total, rest))
  {
    var n, cs, sum := SumsOf(all, r, hi, lo, rt, c, total);
    StoredAt(st, r, Hex2(c) + rest, cs, sum, o);
    ReadHeadAndTail(st, HexAll(r.data), r.addr, n, hi, lo, rt, c, rest, cs, sum, total, o);
    Retold(st, Head(n, hi, lo, rt), r.data, c, rest, Verdict(o, total, rest));
  }

  // The sum before the data, after them, and with the checksum.
  lemma SumsOf(all: seq<byte>, r: Record, hi: byte, lo: byte, rt: byte, c: byte, total: int)
      returns (n: byte, cs: byte, sum: byte)
    requires 1 <= |r.data| < 256 && all == Head(|r.data|, hi, lo, rt) + r.data + [c] && total == Sum(all) % 256
    ensures n == |r.data| && cs == (n + hi + lo + rt) % 256 && sum == (cs + Sum(r.data)) % 256
    ensures total == (sum + c) % 256
  {
    n := |r.data|;
    cs := (n + hi + lo + rt) % 256;
    sum := (cs + Sum(r.data)) % 256;
    SumOfBytes(n, hi, lo, rt, r.data, c, cs);
    SumStep(cs, Sum(r.data), c);
  }

  lemma Retold(st: Image, head: seq<byte>, data: seq<byte>, c: byte, rest: seq<byte>, line: Line)
    requires Reads(st, HexAll(head) + (HexAll(data) + (Hex2(c) + rest)), line)
    ensures Reads(st, HexAll(head + data + [c]) + rest, line)
  {
    TextOfBytes(head, data, c, rest);
  }

  // --- a printed text with one byte damaged

  // All bytes of a printed record.
  function Bytes(r: Record): seq<byte>
    requires |r.data| < 256
  {
    Body(r) + [Checksum(Body(r))]
  }

  lemma PrintedBytes(r: Record)
    requires |r.data| < 256
    ensures Render(r) == [COLON] + HexAll(Bytes(r)) + [CR, LF]
  {
    HexAllAppend(Body(r), [Checksum(Body(r))]);
    HexAllOne(Checksum(Body(r)), []);
    assert [Checksum(Body(r))] + [] == [Checksum(Body(r))];
  }

  // The printed record with the data byte k, or the checksum after the last, replaced by v.
  function Damaged(r: Record, k: nat, v: byte): seq<byte>
    requires |r.data| < 256 && k <= |r.data|
  {
    [COLON] + HexAll(Bytes(r)[4 + k := v]) + [CR, LF]
  }

  lemma {:induction false} SumOfChange(s: seq<byte>, i: nat, v: byte)
    requires i < |s|
    ensures Sum(s[i := v]) == Sum(s) - s[i] + v
  {
    if i == 0 {
      assert s[0 := v][1..] == s[1..];
    } else {
      SumOfChange(s[1..], i - 1, v);
      assert s[i := v][1..] == s[1..][i - 1 := v];
    }
  }

  // A byte changed makes a sum of zero another one.
  lemma SumDamaged(s: seq<byte>, i: nat, v: byte)
    requires i < |s| && v != s[i] && Sum(s) % 256 == 0
    ensures Sum(s[i := v]) % 256 != 0
  {
    SumOfChange(s, i, v);
    var k := Sum(s) / 256;
    assert Sum(s[i := v]) == 256 * k + (v - s[i]);
    NotMultiple(k, v - s[i]);
  }

  lemma NotMultiple(k: int, d: int)
    requires -256 < d < 256 && d != 0
    ensures (256 * k + d) % 256 != 0
  {
    MinusMultiple(256 * k + d, k);
  }

  lemma BytesSum(r: Record)
    requires |r.data| < 256
    ensures Sum(Bytes(r)) % 256 == 0
  {
    SumAppend(Body(r), [Checksum(Body(r))]);
    assert [Checksum(Body(r))][1..] == [];
    Cancels(Sum(Body(r)));
  }

  lemma Cancels(sum: int)
    ensures (sum + (0 - sum) % 256) % 256 == 0
  {
    var k, c := (0 - sum) / 256, (0 - sum) % 256;
    assert 0 - sum == 256 * k + c;
    QuotientIs(sum + c, 256, -k, 0);
  }

  // Cells at the same addresses, whatever their bytes, are stored or not alike.
  lemma {:induction false} SameAddresses(st: Image, mem: map<int, byte>, addr: word, data: seq<byte>, more: seq<byte>)
    requires |data| == |more|
    ensures StoreAll(st.(mem := mem), Cells(addr, more)).Done? == StoreAll(st, Cells(addr, data)).Done?
    decreases |data|
  {
    if data != [] {
      var a, b := st.(la := addr), st.(mem := mem).(la := addr);
      assert a.(mem := mem) == b;
      if addr >= st.l {
        var a1, b1 := Bump(SetMem(a, data[0]).st), Bump(SetMem(b, more[0]).st);
        assert b1 == a1.(mem := b1.mem);
        SameAddresses(a1, b1.mem, (addr + 1) % 0x1_0000, data[1..], more[1..]);
        StoreNext(st, addr, data);
        StoreNext(st.(mem := mem), addr, more);
      } else {
        StoreNext(st, addr, data);
        StoreNext(st.(mem := mem), addr, more);
      }
    }
  }

  lemma StoreNext(st: Image, addr: word, data: seq<byte>)
    requires data != []
    ensures var o := SetMem(st.(la := addr), data[0]);
      StoreAll(st, Cells(addr, data)) ==
        if o.Done? then StoreAll(Bump(o.st), Cells((addr + 1) % 0x1_0000, data[1..])) else o
  {
    var cells := Cells((addr + 1) % 0x1_0000, data[1..]);
    assert Cells(addr, data) == [Cell(addr, data[0])] + cells;
    assert ([Cell(addr, data[0])] + cells)[1..] == cells;
  }

  // The bytes of a damaged record, taken apart.
  lemma DamagedBytes(r: Record, k: nat, v: byte) returns (data: seq<byte>, c: byte)
    requires 1 <= |r.data| < 256 && k <= |r.data|
    ensures |data| == |r.data|
    ensures Bytes(r)[4 + k := v] == Head(|data|, r.addr / 256, r.addr % 256, 0) + data + [c]
  {
    data := if k < |r.data| then r.data[k := v] else r.data;
    c := if k < |r.data| then Checksum(Body(r)) else v;
  }

  lemma ReadDamaged(st: Image, r: Record, k: nat, v: byte, rest: seq<byte>)
    requires 1 <= |r.data| < 256 && k <= |r.data| && v != Bytes(r)[4 + k]
    requires StoreAll(st, Cells(r.addr, r.data)).Done?
    ensures ReadRecords(st, Damaged(r, k, v) + rest) == Failed(BadChecksum)
  {
    var all := Bytes(r)[4 + k := v];
    var data, c := DamagedBytes(r, k, v);
    BytesSum(r);
    SumDamaged(Bytes(r), 4 + k, v);
    assert st.(mem := st.mem) == st;
    SameAddresses(st, st.mem, r.addr, r.data, data);
    var o := StoreAll(st, Cells(r.addr, data));
    ReadBytes(st, all, Record(r.addr, data), r.addr / 256, r.addr % 256, 0, c, [CR, LF] + rest, Sum(all) % 256, o);
    AfterColon(st, HexAll(all), rest, BadChecksum);
  }

  lemma AfterColon(st: Image, line: seq<byte>, rest: seq<byte>, e: Error)
    requires Reads(st, line + ([CR, LF] + rest), Wrong(e))
    ensures ReadRecords(st, [COLON] + line + [CR, LF] + rest) == Failed(e)
  {
    assert Unfold(0);
    var t := [COLON] + line + [CR, LF] + rest;
    ColonText(line, rest);
    assert SkipToColon(t) == t;
  }

  lemma ColonText(line: seq<byte>, rest: seq<byte>)
    ensures var t := [COLON] + line + [CR, LF] + rest; t[0] == COLON && t[1..] == line + ([CR, LF] + rest)
  {
  }

  // Whatever comes after it: a printed text with one data or checksum byte replaced by another ends in a checksum
  // error.
  lemma DamageRefused(rs: seq<Record>, j: nat, k: nat, v: byte, rest: seq<byte>)
    requires Sized(rs) && j < |rs| && Increasing(AllCells(rs[..j + 1]))
    requires k <= |rs[j].data| && v != Bytes(rs[j])[4 + k]
    ensures Load(RenderAll(rs[..j]) + (Damaged(rs[j], k, v) + rest)) == Failed(BadChecksum)
  {
    var st, init, r := Image(map[], TPA, TPA), rs[..j], rs[j];
    assert rs[..j + 1][..j] == init && rs[..j + 1][j] == r;
    var before, cells := AllCells(init), Cells(r.addr, r.data);
    assert AllCells(rs[..j + 1]) == before + cells;
    StoreIncreasing(st, before + cells);
    StoreAppend(st, before, cells);
    ReadPrintedAll(st, init, Damaged(r, k, v) + rest);
    ReadDamaged(StoreAll(st, before).st, r, k, v, rest);
  }

  // --- any text

  // The first n characters are digits.
  predicate Digits(s: seq<byte>, n: int) {
    0 <= n <= |s| && forall i :: 0 <= i < n ==> HexVal(s[i]) >= 0
  }

  // Digit pair i as a byte.
  function PairAt(s: seq<byte>, i: nat): byte
    requires Digits(s, 2 * i + 2)
  {
    16 * HexVal(s[2 * i]) + HexVal(s[2 * i + 1])
  }

  // The first m digit pairs.
  function Pairs(s: seq<byte>, m: nat): seq<byte>
    requires Digits(s, 2 * m)
  {
    seq(m, i requires 0 <= i < m => PairAt(s, i))
  }

  // Digits say what is printed for them.
  lemma DigitText(c: byte)
    requires HexVal(c) >= 0
    ensures HexDigit(HexVal(c)) == c
  {
  }

  lemma {:induction false} PairsText(s: seq<byte>, m: nat)
    requires Digits(s, 2 * m)
    ensures HexAll(Pairs(s, m)) + s[2 * m..] == s
    decreases m
  {
    if m == 0 {
      assert Pairs(s, 0) == [];
    } else {
      var t := s[2..];
      FirstPair(s, m, t);
      PairsText(t, m - 1);
      HexAllOne(PairAt(s, 0), Pairs(t, m - 1));
      Rejoin(s, Hex2(PairAt(s, 0)), HexAll(Pairs(t, m - 1)), t, s[2 * m..]);
    }
  }

  lemma FirstPair(s: seq<byte>, m: nat, t: seq<byte>)
    requires m > 0 && Digits(s, 2 * m) && t == s[2..]
    ensures Digits(t, 2 * (m - 1)) && Pairs(s, m) == [PairAt(s, 0)] + Pairs(t, m - 1)
    ensures Hex2(PairAt(s, 0)) == s[..2] && t[2 * (m - 1)..] == s[2 * m..]
  {
    PairText(s);
    forall i | 0 < i < m
      ensures PairAt(s, i) == PairAt(t, i - 1)
    {
    }
  }

  lemma PairText(s: seq<byte>)
    requires Digits(s, 2)
    ensures Hex2(PairAt(s, 0)) == s[..2]
  {
    DigitText(s[0]);
    DigitText(s[1]);
  }

  lemma Rejoin(s: seq<byte>, a: seq<byte>, b: seq<byte>, t: seq<byte>, c: seq<byte>)
    requires |s| >= 2 && a == s[..2] && t == s[2..] && b + c == t
    ensures a + b + c == s
  {
  }

  // The text of a record, from its length on: the end of the tape, or as many digit pairs as its length asks for,
  // which sum to zero.
  predicate RecordText(s: seq<byte>) {
    Digits(s, 2) && (PairAt(s, 0) == 0 || (Digits(s, 2 * Length(s)) && Sum(Pairs(s, Length(s))) % 256 == 0))
  }

  // Digit pairs of a record: those of its data, and five others.
  function Length(s: seq<byte>): nat
    requires Digits(s, 2)
  {
    PairAt(s, 0) + 5
  }

  // Every record up to the end of the tape is right.
  predicate AllRight(s: seq<byte>)
    decreases |s|
  {
    var t := SkipToColon(s);
    && t != [] && RecordText(t[1..])
    && (PairAt(t[1..], 0) == 0 || AllRight(t[1..][2 * Length(t[1..])..]))
  }

  // The bytes of the data of a record, at their addresses.
  function CellsIn(s: seq<byte>): seq<Cell>
    requires Digits(s, 2) && Digits(s, 2 * Length(s))
  {
    Cells(256 * PairAt(s, 1) + PairAt(s, 2), Pairs(s, Length(s))[4..Length(s) - 1])
  }

  // The bytes of all records.
  function CellsOf(s: seq<byte>): seq<Cell>
    requires AllRight(s)
    decreases |s|
  {
    var u := SkipToColon(s)[1..];
    if PairAt(u, 0) == 0 then [] else CellsIn(u) + CellsOf(u[2 * Length(u)..])
  }

  lemma {:induction false} DataDigits(st: Image, s: seq<byte>, n: nat, cs: byte)
    requires ReadData(st, s, n, cs).Data?
    ensures Digits(s, 2 * n) && ReadData(st, s, n, cs).rest == s[2 * n..]
    decreases n
  {
    if n > 0 {
      var b, rest := ReadByte(s).b, s[2..];
      DataDigits(Bump(SetMem(st, b).st), rest, n - 1, (cs + b) % 256);
      forall i | 0 <= i < 2 * n
        ensures HexVal(s[i]) >= 0
      {
        assert i >= 2 ==> s[i] == rest[i - 2];
      }
    }
  }

  // What is accepted has its digits.
  lemma AcceptedDigits(st: Image, s: seq<byte>)
    requires ReadRecord(st, s).Next?
    ensures Digits(s, 2) && PairAt(s, 0) != 0 && Digits(s, 2 * Length(s))
  {
    var rl, h, d := NextRead(st, s);
    GotDigits(s);
    HeaderDigits(s[2..], rl);
    DataDigits(st.(la := h.addr), h.rest, rl, h.cs);
    GotDigits(d.rest);
    ExtendDigits(s, rl, h.rest, d.rest);
  }

  // The length, the header and the data of an accepted record.
  lemma NextRead(st: Image, s: seq<byte>) returns (rl: byte, h: Header, d: Data)
    requires ReadRecord(st, s).Next?
    ensures ReadByte(s) == Got(rl, s[2..]) && rl != 0 && h == ReadHeader(s[2..], rl) && h.Header?
    ensures d == ReadData(st.(la := h.addr), h.rest, rl, h.cs) && d.Data? && ReadByte(d.rest).Got?
  {
    rl := ReadByte(s).b;
    h := ReadHeader(s[2..], rl);
    d := ReadData(st.(la := h.addr), h.rest, rl, h.cs);
  }

  lemma GotDigits(s: seq<byte>)
    requires ReadByte(s).Got?
    ensures Digits(s, 2) && PairAt(s, 0) == ReadByte(s).b
  {
  }

  lemma ExtendDigits(s: seq<byte>, rl: byte, h: seq<byte>, d: seq<byte>)
    requires Digits(s, 2) && Digits(s[2..], 6) && h == s[2..][6..] && Digits(h, 2 * rl)
    requires d == h[2 * rl..] && Digits(d, 2)
    ensures Digits(s, 2 * (rl + 5))
  {
    MoreDigits(s, 2, 6);
    assert h == s[8..];
    MoreDigits(s, 8, 2 * rl);
    assert d == s[8 + 2 * rl..];
    MoreDigits(s, 8 + 2 * rl, 2);
  }

  lemma MoreDigits(s: seq<byte>, a: nat, b: nat)
    requires Digits(s, a) && Digits(s[a..], b)
    ensures Digits(s, a + b)
  {
    forall i | 0 <= i < a + b
      ensures HexVal(s[i]) >= 0
    {
      assert i >= a ==> s[i] == s[a..][i - a];
    }
  }

  lemma HeaderDigits(s: seq<byte>, rl: byte)
    requires ReadHeader(s, rl).Header?
    ensures Digits(s, 6) && ReadHeader(s, rl).rest == s[6..]
  {
    var s1, s2 := s[2..], s[4..];
    assert s1[2..] == s2 && s2[2..] == s[6..];
    assert s1[0] == s[2] && s1[1] == s[3] && s2[0] == s[4] && s2[1] == s[5];
  }

  // A record with its digits: refused exactly if it cannot be stored or its sum is not zero.
  lemma ReadDigits(st: Image, s: seq<byte>)
    requires Digits(s, 2) && PairAt(s, 0) != 0 && Digits(s, 2 * Length(s))
    ensures Reads(st, s, Verdict(StoreAll(st, CellsIn(s)), Sum(Pairs(s, Length(s))) % 256, s[2 * Length(s)..]))
  {
    var m := Length(s);
    var all := Pairs(s, m);
    var data, c := all[4..m - 1], all[m - 1];
    PairsText(s, m);
    Parts(all, m);
    assert all[0] == m - 5;
    var addr: word := 256 * (all[1] as int) + all[2];
    assert CellsIn(s) == Cells(addr, data);
    var o, total := StoreAll(st, CellsIn(s)), Sum(all) % 256;
    ReadBytes(st, all, Record(addr, data), all[1], all[2], all[3], c, s[2 * m..], total, o);
    SameText(st, HexAll(all) + s[2 * m..], s, Verdict(o, total, s[2 * m..]));
  }

  lemma Parts(all: seq<byte>, m: nat)
    requires |all| == m >= 6
    ensures all == Head(all[0], all[1], all[2], all[3]) + all[4..m - 1] + [all[m - 1]] && |all[4..m - 1]| == m - 5
  {
  }

  lemma LineIs(st: Image, s: seq<byte>)
    ensures ReadRecord(st, s).End? <==> Digits(s, 2) && PairAt(s, 0) == 0
    ensures ReadRecord(st, s).End? ==> ReadRecord(st, s).st == st
    ensures ReadRecord(st, s).Next? <==>
      && Digits(s, 2) && PairAt(s, 0) != 0 && Digits(s, 2 * Length(s))
      && Sum(Pairs(s, Length(s))) % 256 == 0 && StoreAll(st, CellsIn(s)).Done?
  {
    if ReadRecord(st, s).Next? {
      AcceptedDigits(st, s);
    }
    if Digits(s, 2) && PairAt(s, 0) != 0 && Digits(s, 2 * Length(s)) {
      ReadDigits(st, s);
      assert Unfold(0);
    }
  }

  // LOAD gets to the end of the tape if and only if every record has its digits and a sum of zero and all bytes can be
  // stored; what it has then is what storing them makes.
  lemma {:induction false} ReadRecordsExact(st: Image, s: seq<byte>)
    ensures ReadRecords(st, s).Done? <==> AllRight(s) && StoreAll(st, CellsOf(s)).Done?
    ensures ReadRecords(st, s).Done? ==> ReadRecords(st, s) == StoreAll(st, CellsOf(s))
    decreases |s|
  {
    var t := SkipToColon(s);
    if t != [] {
      var u := t[1..];
      LineIs(st, u);
      if RecordText(u) && PairAt(u, 0) != 0 {
        var rest := u[2 * Length(u)..];
        var o := StoreAll(st, CellsIn(u));
        if o.Done? {
          ReadDigits(st, u);
          assert Unfold(0);
          ReadRecordsExact(o.st, rest);
        }
        if AllRight(rest) {
          StoreAppend(st, CellsIn(u), CellsOf(rest));
        }
      }
    }
  }

  // So a text is loaded only if the bytes of every record read sum to zero.
  lemma LoadedSums(s: seq<byte>)
    requires Load(s).Done?
    ensures AllRight(s)
  {
    ReadRecordsExact(Image(map[], TPA, TPA), s);
  }

  // --- the characters

  // Digits are those of the ASCII text.
  lemma DigitsAreText(n: nat)
    requires n < 16
    ensures HexDigit(n) == "0123456789ABCDEF"[n] as int && HexVal(HexDigit(n)) == n
  {
  }

  // The byte 41H at 0100H.
  lemma PrintedSample()
    ensures HexAll(Bytes(Record(0x100, [0x41]))) == [48, 49, 48, 49, 48, 48, 48, 48, 52, 49, 66, 68]
  {
    var all := Bytes(Record(0x100, [0x41]));
    assert Sum([0x41]) == 0x41 by { assert [0x41][1..] == []; }
    BodySum(Record(0x100, [0x41]));
    assert all == [1] + ([1] + ([0] + ([0] + ([0x41] + [0xBD]))));
    HexAllOne(1, [1] + ([0] + ([0] + ([0x41] + [0xBD]))));
    HexAllOne(1, [0] + ([0] + ([0x41] + [0xBD])));
    HexAllOne(0, [0] + ([0x41] + [0xBD]));
    HexAllOne(0, [0x41] + [0xBD]);
    HexAllOne(0x41, [0xBD]);
    HexAllOne(0xBD, []);
    assert [0xBD] + [] == [0xBD];
  }
}
