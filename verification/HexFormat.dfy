/**
  Intel HEX text as the assembler prints it and as LOAD reads it: the two sides of the format,
  and the proof that reading what was printed stores every byte at its address.
 */
module HexFormat {
  import opened Arithmetic

  type byte = x: int | 0 <= x < 256
  type word = x: int | 0 <= x < 0x1_0000
  type positive = x: int | 0 < x witness 1

  const TPA := 0x100
  const COLON := 58
  const CR := 13
  const LF := 10
  const WINDOW := 256     // LENGTH(MBUFF)
  const PARAGRAPH := 128
  const TOP := 0xFF00     // the highest place the window can start from

  // --- printing

  function HexDigit(n: int): byte
    requires 0 <= n < 16
  {
    if n < 10 then 48 + n else 55 + n
  }

  function Hex2(b: byte): seq<byte> { [HexDigit(b / 16), HexDigit(b % 16)] }

  function HexAll(s: seq<byte>): seq<byte> {
    if s == [] then [] else Hex2(s[0]) + HexAll(s[1..])
  }

  function Sum(s: seq<byte>): int {
    if s == [] then 0 else s[0] + Sum(s[1..])
  }

  // A data record: up to 255 bytes at consecutive addresses.
  datatype Record = Record(addr: word, data: seq<byte>)

  // Everything the checksum covers.
  function Body(r: Record): seq<byte>
    requires |r.data| < 256
  {
    [|r.data|, r.addr / 256, r.addr % 256, 0] + r.data
  }

  function Checksum(s: seq<byte>): byte { (0 - Sum(s)) % 256 }

  function Render(r: Record): seq<byte>
    requires |r.data| < 256
  {
    [COLON] + HexAll(Body(r)) + Hex2(Checksum(Body(r))) + [CR, LF]
  }

  predicate Sized(rs: seq<Record>) {
    forall i :: 0 <= i < |rs| ==> 1 <= |rs[i].data| <= 16
  }

  // A record ends because it is full or because the next one does not continue it.
  predicate Ends(r: Record, next: int) { |r.data| == 16 || (r.addr + |r.data|) % 0x1_0000 != next }

  predicate EndsAt(rs: seq<Record>, i: int)
    requires 0 <= i < |rs| - 1
  {
    Ends(rs[i], rs[i + 1].addr)
  }

  ghost predicate AllEnd(rs: seq<Record>) { forall i :: 0 <= i < |rs| - 1 ==> EndsAt(rs, i) }

  // No two records could be one. (Opened by mentioning Unfold.)
  ghost predicate Tight(rs: seq<Record>) { forall x {:trigger Unfold(x)} :: Unfold(x) ==> AllEnd(rs) }

  function RenderAll(rs: seq<Record>): seq<byte>
    requires Sized(rs)
  {
    if rs == [] then [] else RenderAll(rs[..|rs| - 1]) + Render(rs[|rs| - 1])
  }

  // A byte and the address it is assembled at.
  datatype Cell = Cell(addr: word, b: byte)

  function Cells(addr: word, data: seq<byte>): seq<Cell>
    decreases |data|
  {
    if data == [] then [] else [Cell(addr, data[0])] + Cells((addr + 1) % 0x1_0000, data[1..])
  }

  function AllCells(rs: seq<Record>): seq<Cell> {
    if rs == [] then [] else AllCells(rs[..|rs| - 1]) + Cells(rs[|rs| - 1].addr, rs[|rs| - 1].data)
  }

  // --- reading

  datatype Error = InvertedAddress | InvalidDigit | BadChecksum | NoEndRecord

  // The loader's memory image so far, the lowest address not yet written to disk, and the load address.
  datatype Image = Image(mem: map<int, byte>, l: positive, la: word)

  datatype Outcome = Done(st: Image) | Failed(error: Error)

  // The window slides up by paragraphs until it holds la.
  function Slide(l: int, la: int): (r: int)
    ensures l <= r && la < r + WINDOW && (r - l) % PARAGRAPH == 0
    ensures r > l ==> r + PARAGRAPH <= la
    decreases la - l
  {
    if la > l + WINDOW - 1 then Slide(l + PARAGRAPH, la) else l
  }

  function SetMem(st: Image, b: byte): Outcome {
    if st.la < st.l then Failed(InvertedAddress)
    else Done(st.(l := Slide(st.l, st.la), mem := st.mem[st.la := b]))
  }

  function Bump(st: Image): Image { st.(la := (st.la + 1) % 0x1_0000) }

  function StoreAll(st: Image, cells: seq<Cell>): Outcome
    decreases |cells|
  {
    if cells == [] then Done(st)
    else match SetMem(st.(la := cells[0].addr), cells[0].b)
      case Failed(e) => Failed(e)
      case Done(st1) => StoreAll(Bump(st1), cells[1..])
  }

  // A digit's value; -1 for anything else.
  function HexVal(c: byte): (v: int)
    ensures v == -1 || 0 <= v < 16
  {
    if 48 <= c <= 57 then c - 48 else if 65 <= c <= 70 then c - 55 else -1
  }

  datatype Read = Got(b: byte, rest: seq<byte>) | Bad

  function ReadByte(s: seq<byte>): Read {
    if |s| >= 2 && HexVal(s[0]) >= 0 && HexVal(s[1]) >= 0 then Got(16 * HexVal(s[0]) + HexVal(s[1]), s[2..]) else Bad
  }

  datatype Data = Data(st: Image, rest: seq<byte>, cs: byte) | Stopped(error: Error)

  // n data bytes, each stored at the load address.
  function ReadData(st: Image, s: seq<byte>, n: nat, cs: byte): (d: Data)
    ensures d.Data? ==> |d.rest| <= |s|
    decreases n
  {
    if n == 0 then Data(st, s, cs)
    else match ReadByte(s)
      case Bad => Stopped(InvalidDigit)
      case Got(b, rest) =>
        match SetMem(st, b)
        case Failed(e) => Stopped(e)
        case Done(st1) => ReadData(Bump(st1), rest, n - 1, (cs + b) % 256)
  }

  function SkipToColon(s: seq<byte>): (r: seq<byte>)
    ensures |r| <= |s|
  {
    if s == [] then [] else if s[0] == COLON then s else SkipToColon(s[1..])
  }

  datatype Line = Next(st: Image, rest: seq<byte>) | End(st: Image) | Wrong(error: Error)

  datatype Header = Header(addr: word, cs: byte, rest: seq<byte>) | NoHeader

  // Address and record type after a record length of rl.
  function ReadHeader(s: seq<byte>, rl: byte): (h: Header)
    ensures h.Header? ==> |h.rest| <= |s|
  {
    match ReadByte(s)
    case Bad => NoHeader
    case Got(hi, s1) =>
      match ReadByte(s1)
      case Bad => NoHeader
      case Got(lo, s2) =>
        match ReadByte(s2)
        case Bad => NoHeader
        case Got(rt, s3) => Header(256 * hi + lo, (rl + hi + lo + rt) % 256, s3)
  }

  // The checksum byte, against the sum so far.
  function ReadChecksum(st: Image, s: seq<byte>, cs: byte): (r: Line)
    ensures r.Next? ==> |r.rest| <= |s|
  {
    match ReadByte(s)
    case Bad => Wrong(InvalidDigit)
    case Got(sum, rest) => if (cs + sum) % 256 != 0 then Wrong(BadChecksum) else Next(st, rest)
  }

  function AfterData(d: Data): (r: Line)
    ensures r.Next? ==> d.Data? && |r.rest| <= |d.rest|
  {
    if d.Data? then ReadChecksum(d.st, d.rest, d.cs) else Wrong(d.error)
  }

  // One record, from its length on.
  function ReadRecord(st: Image, s: seq<byte>): (r: Line)
    ensures r.Next? ==> |r.rest| <= |s|
  {
    match ReadByte(s)
    case Bad => Wrong(InvalidDigit)
    case Got(rl, s1) =>
      if rl == 0 then End(st)
      else match ReadHeader(s1, rl)
        case NoHeader => Wrong(InvalidDigit)
        case Header(addr, cs, s2) => AfterData(ReadData(st.(la := addr), s2, rl, cs))
  }

  // RELOC's record loop: records until one of length zero.
  function ReadRecords(st: Image, s: seq<byte>): Outcome
    decreases |s|
  {
    var t := SkipToColon(s);
    if t == [] then Failed(NoEndRecord)
    else
      match ReadRecord(st, t[1..])
      case Wrong(e) => Failed(e)
      case End(st1) => Done(st1)
      case Next(st1, rest) => ReadRecords(st1, rest)
  }

  // FIN: zeros from the last address on until every paragraph in use has been written.
  function Pad(st: Image, ta: int): Outcome
    decreases ta - st.l, if st.la < st.l then 0 else 0x1_0000 - st.la
  {
    if st.l >= ta then Done(st)
    else match SetMem(st, 0)
      case Failed(e) => Failed(e)
      case Done(st1) => Pad(Bump(st1), ta)
  }

  function Load(s: seq<byte>): Outcome {
    match ReadRecords(Image(map[], TPA, TPA), s)
    case Failed(e) => Failed(e)
    case Done(st) => Pad(st, st.la)
  }

  // --- reading what was printed

  function AsData(o: Outcome, rest: seq<byte>, cs: byte): Data {
    if o.Done? then Data(o.st, rest, cs) else Stopped(o.error)
  }

  function AsLine(o: Outcome, rest: seq<byte>): Line {
    if o.Done? then Next(o.st, rest) else Wrong(o.error)
  }

  function ThenRead(o: Outcome, rest: seq<byte>): Outcome {
    if o.Done? then ReadRecords(o.st, rest) else o
  }

  lemma ReadHex2(b: byte, rest: seq<byte>)
    ensures ReadByte(Hex2(b) + rest) == Got(b, rest)
  {
    var s := Hex2(b) + rest;
    assert s[2..] == rest;
    assert HexVal(HexDigit(b / 16)) == b / 16 && HexVal(HexDigit(b % 16)) == b % 16;
  }

  lemma {:induction false} HexAllAppend(s: seq<byte>, t: seq<byte>)
    ensures HexAll(s + t) == HexAll(s) + HexAll(t)
  {
    if s == [] {
      assert s + t == t;
    } else {
      assert (s + t)[1..] == s[1..] + t;
      HexAllAppend(s[1..], t);
    }
  }

  lemma HexAllOne(b: byte, t: seq<byte>)
    ensures HexAll([b] + t) == Hex2(b) + HexAll(t)
  {
    assert ([b] + t)[1..] == t;
  }

  ghost predicate DataRead(st: Image, s: seq<byte>, n: nat, cs: byte, d: Data) {
    forall x {:trigger Unfold(x)} :: Unfold(x) ==> ReadData(st, s, n, cs) == d
  }

  lemma ReadOneData(st: Image, b: byte, s: seq<byte>, n: nat, cs: byte, d: Data)
    requires var o := SetMem(st, b);
      if o.Done? then DataRead(Bump(o.st), s, n, (cs + b) % 256, d) else d == Stopped(o.error)
    ensures DataRead(st, Hex2(b) + s, n + 1, cs, d)
  {
    assert Unfold(0);
    ReadHex2(b, s);
  }

  lemma StoreOne(st: Image, b: byte, cells: seq<Cell>)
    ensures StoreAll(st, [Cell(st.la, b)] + cells) ==
              if SetMem(st, b).Done? then StoreAll(Bump(SetMem(st, b).st), cells) else SetMem(st, b)
  {
    assert st.(la := st.la) == st;
    assert ([Cell(st.la, b)] + cells)[1..] == cells;
  }

  // Data bytes come back and are stored one after the other.
  lemma {:induction false} ReadPrintedData(st: Image, data: seq<byte>, rest: seq<byte>, cs: byte)
    ensures DataRead(st, HexAll(data) + rest, |data|, cs, Stored(st, data, rest, cs))
    decreases |data|
  {
    if data == [] {
      assert HexAll(data) + rest == rest;
    } else {
      var b, data' := data[0], data[1..];
      FirstText(data, rest);
      StoreFirst(st, data, rest, cs);
      if SetMem(st, b).Done? {
        ReadPrintedData(Bump(SetMem(st, b).st), data', rest, (cs + b) % 256);
      }
      ReadOneData(st, b, HexAll(data') + rest, |data'|, cs, Stored(st, data, rest, cs));
    }
  }

  lemma FirstText(data: seq<byte>, rest: seq<byte>)
    requires data != []
    ensures HexAll(data) + rest == Hex2(data[0]) + (HexAll(data[1..]) + rest)
  {
  }

  // What reading the data of a record comes to.
  function Stored(st: Image, data: seq<byte>, rest: seq<byte>, cs: byte): Data {
    AsData(StoreAll(st, Cells(st.la, data)), rest, (cs + Sum(data)) % 256)
  }

  lemma StoreFirst(st: Image, data: seq<byte>, rest: seq<byte>, cs: byte)
    requires data != []
    ensures var o := SetMem(st, data[0]);
            Stored(st, data, rest, cs) ==
              if o.Done? then Stored(Bump(o.st), data[1..], rest, (cs + data[0]) % 256) else Stopped(o.error)
  {
    var cells := Cells((st.la + 1) % 0x1_0000, data[1..]);
    assert Cells(st.la, data) == [Cell(st.la, data[0])] + cells;
    StoreOne(st, data[0], cells);
    SumStep(cs, data[0], Sum(data[1..]));
  }

  lemma SumStep(cs: int, b: int, sum: int)
    ensures ((cs + b) % 256 + sum) % 256 == (cs + (b + sum)) % 256
  {
    MinusMultiple(cs + b + sum, (cs + b) / 256);
  }

  lemma MinusMultiple(z: int, q: int)
    ensures (z - 256 * q) % 256 == z % 256
  {
    assert z - 256 * q == 256 * (z / 256 - q) + z % 256;
  }

  lemma {:induction false} SumAppend(s: seq<byte>, t: seq<byte>)
    ensures Sum(s + t) == Sum(s) + Sum(t)
  {
    if s == [] {
      assert s + t == t;
    } else {
      assert (s + t)[1..] == s[1..] + t;
      SumAppend(s[1..], t);
    }
  }

  lemma BodySum(r: Record)
    requires |r.data| < 256
    ensures Sum(Body(r)) == |r.data| + r.addr / 256 + r.addr % 256 + 0 + Sum(r.data)
  {
    var h: seq<byte> := [|r.data|, r.addr / 256, r.addr % 256, 0];
    SumAppend(h, r.data);
    var h1: seq<byte>, h2: seq<byte>, h3: seq<byte> := [r.addr / 256, r.addr % 256, 0], [r.addr % 256, 0], [0];
    assert h[1..] == h1 && h1[1..] == h2 && h2[1..] == h3 && h3[1..] == [];
    assert Sum(h3) == 0 && Sum(h2) == r.addr % 256 && Sum(h1) == r.addr / 256 + r.addr % 256;
  }

  // The sum over length, address and record type.
  function HeaderSum(r: Record): byte { (|r.data| + r.addr / 256 + r.addr % 256 + 0) % 256 }

  // The text closes a record whose bytes so far sum to cs.
  ghost predicate Closes(text: seq<byte>, cs: byte, rest: seq<byte>) {
    forall st :: ReadChecksum(st, text, cs) == Next(st, rest)
  }

  lemma ReadPrintedHeader(r: Record, rest: seq<byte>)
    requires |r.data| < 256
    ensures ReadHeader(Hex2(r.addr / 256) + (Hex2(r.addr % 256) + (Hex2(0) + rest)), |r.data|)
         == Header(r.addr, HeaderSum(r), rest)
  {
    ReadHex2(r.addr / 256, Hex2(r.addr % 256) + (Hex2(0) + rest));
    ReadHex2(r.addr % 256, Hex2(0) + rest);
    ReadHex2(0, rest);
  }

  lemma HexBody(r: Record)
    requires |r.data| < 256
    ensures HexAll(Body(r)) == Hex2(|r.data|) + (Hex2(r.addr / 256) + (Hex2(r.addr % 256) + (Hex2(0) + HexAll(r.data))))
  {
    assert Body(r) == [|r.data|] + ([r.addr / 256] + ([r.addr % 256] + ([0] + r.data)));
    HexAllOne(|r.data|, [r.addr / 256] + ([r.addr % 256] + ([0] + r.data)));
    HexAllOne(r.addr / 256, [r.addr % 256] + ([0] + r.data));
    HexAllOne(r.addr % 256, [0] + r.data);
    HexAllOne(0, r.data);
  }

  lemma TextOfRecord(r: Record, tail: seq<byte>)
    requires |r.data| < 256
    ensures HexAll(Body(r)) + tail
         == Hex2(|r.data|) + (Hex2(r.addr / 256) + (Hex2(r.addr % 256) + (Hex2(0) + (HexAll(r.data) + tail))))
  {
    HexBody(r);
  }

  lemma ChecksumCloses(cs: int, sum: int)
    ensures (cs % 256 + (0 - sum) % 256) % 256 == (cs - sum) % 256
  {
    MinusMultiple(cs - sum, cs / 256 + (0 - sum) / 256);
  }

  // The sum over a record's body and its checksum byte is zero.
  lemma ChecksumPasses(r: Record)
    requires |r.data| < 256
    ensures ((HeaderSum(r) + Sum(r.data)) % 256 + Checksum(Body(r))) % 256 == 0
  {
    BodySum(r);
    PartsPass(|r.data| + r.addr / 256 + r.addr % 256 + 0, Sum(r.data), Sum(Body(r)));
  }

  lemma PartsPass(k: int, sum: int, total: int)
    requires total == k + sum
    ensures ((k % 256 + sum) % 256 + (0 - total) % 256) % 256 == 0
  {
    var a, b, c := k / 256, (k % 256 + sum) / 256, (0 - total) / 256;
    assert k == 256 * a + k % 256;
    assert k % 256 + sum == 256 * b + (k % 256 + sum) % 256;
    assert 0 - total == 256 * c + (0 - total) % 256;
    QuotientIs((k % 256 + sum) % 256 + (0 - total) % 256, 256, -a - b - c, 0);
  }

  // The data of a printed record, read at the record's address.
  lemma ReadRecordData(st: Image, r: Record, rest: seq<byte>, cs: byte)
    requires r.data != []
    ensures ReadData(st.(la := r.addr), HexAll(r.data) + rest, |r.data|, cs)
         == AsData(StoreAll(st, Cells(r.addr, r.data)), rest, (cs + Sum(r.data)) % 256)
  {
    ReadPrintedData(st.(la := r.addr), r.data, rest, cs);
    assert Unfold(0);
    assert StoreAll(st.(la := r.addr), Cells(r.addr, r.data)) == StoreAll(st, Cells(r.addr, r.data));
  }

  // A printed record from its data on, when what follows the data closes the checksum.
  lemma ReadPrintedRest(st: Image, r: Record, tail: seq<byte>, cs: byte, rest: seq<byte>)
    requires r.data != []
    requires Closes(tail, (cs + Sum(r.data)) % 256, rest)
    ensures AfterData(ReadData(st.(la := r.addr), HexAll(r.data) + tail, |r.data|, cs))
         == AsLine(StoreAll(st, Cells(r.addr, r.data)), rest)
  {
    ReadRecordData(st, r, tail, cs);
  }

  lemma PassChecksum(r: Record, rest: seq<byte>)
    requires |r.data| < 256
    ensures Closes(Hex2(Checksum(Body(r))) + rest, (HeaderSum(r) + Sum(r.data)) % 256, rest)
  {
    ChecksumPasses(r);
    ReadHex2(Checksum(Body(r)), rest);
  }

  // A printed record passes its checksum and stores its cells.
  lemma ReadPrintedRecord(st: Image, r: Record, rest: seq<byte>)
    requires |r.data| < 256
    ensures var line := ReadRecord(st, HexAll(Body(r)) + Hex2(Checksum(Body(r))) + rest);
            if r.data == [] then line == End(st)
            else line == AsLine(StoreAll(st, Cells(r.addr, r.data)), rest)
  {
    var sum := Checksum(Body(r));
    var s2 := HexAll(r.data) + (Hex2(sum) + rest);
    var s1 := Hex2(r.addr / 256) + (Hex2(r.addr % 256) + (Hex2(0) + s2));
    TextOfRecord(r, Hex2(sum) + rest);
    assert HexAll(Body(r)) + Hex2(sum) + rest == HexAll(Body(r)) + (Hex2(sum) + rest);
    ReadHex2(|r.data|, s1);
    if r.data != [] {
      ReadPrintedHeader(r, s2);
      PassChecksum(r, rest);
      ReadPrintedRest(st, r, Hex2(sum) + rest, HeaderSum(r), rest);
    }
  }

  lemma ReadPrinted(st: Image, r: Record, rest: seq<byte>)
    requires |r.data| < 256
    ensures ReadRecords(st, Render(r) + rest) ==
              if r.data == [] then Done(st)
              else ThenRead(StoreAll(st, Cells(r.addr, r.data)), rest)
  {
    var t := Render(r) + rest;
    var line := HexAll(Body(r)) + Hex2(Checksum(Body(r))) + ([CR, LF] + rest);
    assert t == [COLON] + line;
    assert SkipToColon(t) == t && t[1..] == line;
    ReadPrintedRecord(st, r, [CR, LF] + rest);
    if r.data != [] && StoreAll(st, Cells(r.addr, r.data)).Done? {
      SkipNewline(StoreAll(st, Cells(r.addr, r.data)).st, rest);
    }
  }

  lemma SkipNewline(st: Image, rest: seq<byte>)
    ensures ReadRecords(st, [CR, LF] + rest) == ReadRecords(st, rest)
  {
    var t := [CR, LF] + rest;
    assert t[1..] == [LF] + rest;
    assert t[1..][1..] == rest;
    assert SkipToColon(t) == SkipToColon(rest);
  }

  lemma {:induction false} StoreAppend(st: Image, c: seq<Cell>, d: seq<Cell>)
    ensures StoreAll(st, c + d) == if StoreAll(st, c).Done? then StoreAll(StoreAll(st, c).st, d) else StoreAll(st, c)
    decreases |c|
  {
    if c == [] {
      assert c + d == d;
    } else {
      assert (c + d)[1..] == c[1..] + d;
      var o := SetMem(st.(la := c[0].addr), c[0].b);
      if o.Done? {
        StoreAppend(Bump(o.st), c[1..], d);
      }
    }
  }

  // A whole printed text stores all its cells in order.
  lemma {:induction false} ReadPrintedAll(st: Image, rs: seq<Record>, rest: seq<byte>)
    requires Sized(rs)
    ensures ReadRecords(st, RenderAll(rs) + rest) == ThenRead(StoreAll(st, AllCells(rs)), rest)
    decreases |rs|
  {
    if rs == [] {
      assert RenderAll(rs) + rest == rest;
    } else {
      var init, last := rs[..|rs| - 1], rs[|rs| - 1];
      assert RenderAll(rs) + rest == RenderAll(init) + (Render(last) + rest);
      ReadPrintedAll(st, init, Render(last) + rest);
      StoreAppend(st, AllCells(init), Cells(last.addr, last.data));
      if StoreAll(st, AllCells(init)).Done? {
        ReadPrinted(StoreAll(st, AllCells(init)).st, last, rest);
      }
    }
  }

  // --- bytes at increasing addresses

  predicate Increasing(cells: seq<Cell>) {
    && (forall i :: 0 <= i < |cells| ==> TPA <= cells[i].addr)
    && (forall i, j :: 0 <= i < j < |cells| ==> cells[i].addr < cells[j].addr)
  }

  ghost predicate Holds(mem: map<int, byte>, cells: seq<Cell>) {
    forall i :: 0 <= i < |cells| ==> cells[i].addr in mem && mem[cells[i].addr] == cells[i].b
  }

  function MemAfter(mem: map<int, byte>, cells: seq<Cell>): map<int, byte>
    decreases |cells|
  {
    if cells == [] then mem else MemAfter(mem[cells[0].addr := cells[0].b], cells[1..])
  }

  // Bytes at increasing addresses are all stored; the window never passes the last of them.
  lemma {:induction false} StoreIncreasing(st: Image, cells: seq<Cell>)
    requires Increasing(cells) && (cells != [] ==> st.l <= cells[0].addr)
    ensures StoreAll(st, cells).Done?
    ensures var st' := StoreAll(st, cells).st;
            && st'.mem == MemAfter(st.mem, cells)
            && st.l <= st'.l && (st'.l - st.l) % PARAGRAPH == 0
            && (cells == [] ==> st' == st)
            && (cells != [] ==>
                  var last := cells[|cells| - 1].addr;
                  && st'.la == (last + 1) % 0x1_0000 && st'.l <= last < st'.l + WINDOW
                  && (st'.l == st.l || st'.l + PARAGRAPH <= last))
    decreases |cells|
  {
    if cells != [] {
      var c := cells[0];
      var st1 := SetMem(st.(la := c.addr), c.b).st;
      StoreLow(st, c);
      assert cells[1..] != [] ==> st1.l <= cells[1].addr;
      StoreIncreasing(Bump(st1), cells[1..]);
      MultiplesAdd(StoreAll(Bump(st1), cells[1..]).st.l - st1.l, st1.l - st.l);
    }
  }

  // One byte at or above the window's start: the window slides by paragraphs and stays at or below it.
  lemma StoreLow(st: Image, c: Cell)
    requires st.l <= c.addr
    ensures var o := SetMem(st.(la := c.addr), c.b);
            && o.Done? && o.st.mem == st.mem[c.addr := c.b] && o.st.la == c.addr
            && st.l <= o.st.l <= c.addr < o.st.l + WINDOW && (o.st.l - st.l) % PARAGRAPH == 0
            && (o.st.l == st.l || o.st.l + PARAGRAPH <= c.addr)
  {
  }

  lemma {:induction false} MemHolds(mem: map<int, byte>, cells: seq<Cell>)
    requires Increasing(cells)
    ensures Holds(MemAfter(mem, cells), cells)
    ensures forall a :: a in mem && (cells == [] || a < cells[0].addr) ==>
      a in MemAfter(mem, cells) && MemAfter(mem, cells)[a] == mem[a]
    ensures forall a :: a in MemAfter(mem, cells) ==> a in mem || IsCell(cells, a)
    decreases |cells|
  {
    if cells != [] {
      var c, rest := cells[0], cells[1..];
      var mem1, mem' := mem[c.addr := c.b], MemAfter(mem, cells);
      MemHolds(mem1, rest);
      assert c.addr in mem' && mem'[c.addr] == c.b;
      forall i | 0 <= i < |cells| ensures cells[i].addr in mem' && mem'[cells[i].addr] == cells[i].b {
        assert i > 0 ==> cells[i] == rest[i - 1];
      }
      forall a | a in mem' ensures a in mem || IsCell(cells, a) {
        if IsCell(rest, a) {
          var i :| 0 <= i < |rest| && rest[i].addr == a;
          assert cells[i + 1].addr == a;
        } else {
          assert a in mem1;
          assert cells[0] == c;
        }
      }
    }
  }

  ghost predicate IsCell(cells: seq<Cell>, a: int) {
    exists i :: 0 <= i < |cells| && cells[i].addr == a
  }

  // st' is st with zeros from ta to the end of the paragraph.
  ghost predicate Padded(st: Image, st': Image, ta: int) {
    && (forall a :: a in st.mem && a < ta ==> a in st'.mem && st'.mem[a] == st.mem[a])
    && (forall a :: ta <= a < st'.l ==> a in st'.mem && st'.mem[a] == 0)
    && (forall a :: a in st'.mem && a < ta ==> a in st.mem)
    && ta <= st'.l && (st'.l - st.l) % PARAGRAPH == 0
    && (st'.l == st.l || st'.l < ta + PARAGRAPH)
  }

  // Padding writes zeros from ta on and stops with the paragraph that holds the byte before ta.
  lemma {:induction false} PadZeros(st: Image, ta: int)
    requires st.l <= st.la <= st.l + WINDOW && st.l % PARAGRAPH == 0 && TPA <= ta <= st.la && ta <= TOP
    requires forall a :: ta <= a < st.la ==> a in st.mem && st.mem[a] == 0
    ensures Pad(st, ta).Done?
    ensures Padded(st, Pad(st, ta).st, ta)
    decreases ta - st.l, if st.la < st.l then 0 else 0x1_0000 - st.la
  {
    if st.l < ta {
      var st1 := Bump(SetMem(st, 0).st);
      if st.la > st.l + WINDOW - 1 {
        assert Slide(st.l, st.la) == st.l + PARAGRAPH;
      }
      PadZeros(st1, ta);
    }
  }

  // Above TOP the padding runs over the end of memory before it can write the last paragraph out.
  lemma {:induction false} PadFails(st: Image, ta: int)
    requires TPA <= st.l <= TOP && st.l % PARAGRAPH == 0 && TOP < ta
    ensures Pad(st, ta) == Failed(InvertedAddress)
    decreases ta - st.l, if st.la < st.l then 0 else 0x1_0000 - st.la
  {
    if st.la >= st.l {
      var l := Slide(st.l, st.la);
      MultiplesAdd(l - st.l, st.l);
      PadFails(Bump(SetMem(st, 0).st), ta);
    }
  }

  // First address after the last byte.
  function TopOf(cells: seq<Cell>): int { if cells == [] then TPA else cells[|cells| - 1].addr + 1 }

  // Every byte at its address, zeros after the last one, and no paragraph more than needed.
  ghost predicate GoodImage(st: Image, cells: seq<Cell>) {
    && Holds(st.mem, cells)
    && (forall a :: TopOf(cells) <= a < st.l ==> a in st.mem && st.mem[a] == 0)
    && (forall a :: a in st.mem && a < TopOf(cells) ==> IsCell(cells, a))
    && TopOf(cells) <= st.l < TopOf(cells) + PARAGRAPH && (st.l - TPA) % PARAGRAPH == 0
  }

  lemma MultiplesAdd(a: int, b: int)
    requires a % PARAGRAPH == 0 && b % PARAGRAPH == 0
    ensures (a + b) % PARAGRAPH == 0
  {
  }

  lemma PadIsGood(st: Image, cells: seq<Cell>)
    requires StoredAs(st, cells) && TopOf(cells) <= TOP
    ensures Pad(st, st.la).Done? && GoodImage(Pad(st, st.la).st, cells)
  {
    var top := TopOf(cells);
    assert st.la == top;
    PadZeros(st, top);
    MemHolds(map[], cells);
    PaddedIsGood(st, Pad(st, top).st, cells, top);
  }

  lemma PaddedIsGood(st: Image, st': Image, cells: seq<Cell>, top: int)
    requires Increasing(cells) && Holds(st.mem, cells) && forall a :: a in st.mem ==> IsCell(cells, a)
    requires top == TopOf(cells) && Padded(st, st', top) && st.l % PARAGRAPH == 0 && st.l <= top
    ensures GoodImage(st', cells)
  {
    MultiplesAdd(st'.l - st.l, st.l);
    StillHolds(st.mem, st'.mem, cells);
  }

  // Memory that keeps what lies below the top keeps all cells.
  lemma StillHolds(mem: map<int, byte>, after: map<int, byte>, cells: seq<Cell>)
    requires Increasing(cells) && Holds(mem, cells)
    requires forall a :: a in mem && a < TopOf(cells) ==> a in after && after[a] == mem[a]
    ensures Holds(after, cells)
  {
    forall i | 0 <= i < |cells| ensures cells[i].addr in after && after[cells[i].addr] == cells[i].b {
      assert cells[i].addr < TopOf(cells);
    }
  }

  // What becomes of cells under LOAD: a good image if they end by TOP; an error if they end above it; and if the
  // last one is at the very top of memory, the load address has wrapped to 0, nothing is padded, and the window
  // with the last 256 bytes is dropped without a word.
  ghost predicate Settled(o: Outcome, cells: seq<Cell>) {
    if TopOf(cells) <= TOP then o.Done? && GoodImage(o.st, cells)
    else if TopOf(cells) < 0x1_0000 then o == Failed(InvertedAddress)
    else o.Done? && Holds(o.st.mem, cells) && o.st.l == TOP
  }

  ghost predicate Loads(text: seq<byte>, cells: seq<Cell>) {
    forall x {:trigger Unfold(x)} :: Unfold(x) ==> Settled(Load(text), cells)
  }

  lemma PadSettles(st: Image, cells: seq<Cell>)
    requires StoredAs(st, cells)
    ensures Settled(Pad(st, st.la), cells)
  {
    if TopOf(cells) <= TOP {
      PadIsGood(st, cells);
    } else if TopOf(cells) < 0x1_0000 {
      PadFails(st, st.la);
    } else {
      MemHolds(map[], cells);
    }
  }

  lemma LoadSettles(text: seq<byte>, st: Image, cells: seq<Cell>)
    requires ReadRecords(Image(map[], TPA, TPA), text) == Done(st) && StoredAs(st, cells)
    ensures Loads(text, cells)
  {
    PadSettles(st, cells);
    assert Load(text) == Pad(st, st.la);
  }

  // The image LOAD builds for a text printed from bytes at increasing addresses.
  lemma LoadPrinted(rs: seq<Record>, end: word, tail: seq<byte>)
    requires Sized(rs) && Increasing(AllCells(rs))
    ensures Loads(RenderAll(rs) + (Render(Record(end, [])) + tail), AllCells(rs))
  {
    var cells := AllCells(rs);
    var st := StoredFromStart(cells);
    ReadToEnd(Image(map[], TPA, TPA), rs, end, tail, st);
    LoadSettles(RenderAll(rs) + (Render(Record(end, [])) + tail), st, cells);
  }

  // The image with the cells in it before the padding.
  ghost predicate StoredAs(st: Image, cells: seq<Cell>) {
    && Increasing(cells) && st.mem == MemAfter(map[], cells) && st.la == TopOf(cells) % 0x1_0000
    && TPA <= st.l <= TopOf(cells) <= st.l + WINDOW && st.l <= TOP && st.l % PARAGRAPH == 0
  }

  lemma StoredFromStart(cells: seq<Cell>) returns (st: Image)
    requires Increasing(cells)
    ensures StoreAll(Image(map[], TPA, TPA), cells) == Done(st) && StoredAs(st, cells)
  {
    StoreIncreasing(Image(map[], TPA, TPA), cells);
    st := StoreAll(Image(map[], TPA, TPA), cells).st;
    MultiplesAdd(st.l - TPA, TPA);
  }

  lemma ReadToEnd(start: Image, rs: seq<Record>, end: word, tail: seq<byte>, st: Image)
    requires Sized(rs) && StoreAll(start, AllCells(rs)) == Done(st)
    ensures ReadRecords(start, RenderAll(rs) + (Render(Record(end, [])) + tail)) == Done(st)
  {
    ReadPrintedAll(start, rs, Render(Record(end, [])) + tail);
    ReadPrinted(st, Record(end, []), tail);
  }
}
