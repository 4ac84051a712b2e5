/**
  The assembler's HEX output: DHEX collects up to 16 bytes at consecutive addresses, WHEX prints
  them as a record, EOR0 ends the file.
 */
module HexWriter {
  import opened Arithmetic
  import opened HexFormat

  const BUFFER := 16

  datatype Flags = Flags(a: byte, cy: bool, ac: bool)

  // ADI and ACI: add with carry and auxiliary carry.
  function AddWithCarry(a: byte, n: byte, carry: bool): Flags {
    var c := if carry then 1 else 0;
    Flags((a + n + c) % 256, a + n + c > 255, a % 16 + n % 16 + c > 15)
  }

  // DAA.
  function DecimalAdjust(f: Flags): Flags {
    var low := f.a % 16 > 9 || f.ac;
    var a1 := f.a + if low then 6 else 0;
    var high := f.cy || a1 / 16 > 9;
    var a2 := a1 + if high then 0x60 else 0;
    Flags(a2 % 256, f.cy || a2 > 255, low)
  }

  // HEXC's four instructions turn a nibble into its digit.
  function Nibble(n: int): byte
    requires 0 <= n < 16
  {
    var f := DecimalAdjust(AddWithCarry(n, 0x90, false));
    DecimalAdjust(AddWithCarry(f.a, 0x40, f.cy)).a
  }

  lemma NibbleIsDigit(n: int)
    requires 0 <= n < 16
    ensures Nibble(n) == HexDigit(n)
  {
    FirstAdjust(n);
    if n < 10 {
      SecondAdjustLow(n);
    } else {
      SecondAdjustHigh(n - 10);
    }
  }

  lemma FirstAdjust(n: int)
    requires 0 <= n < 16
    ensures DecimalAdjust(AddWithCarry(n, 0x90, false))
         == if n < 10 then Flags(0x90 + n, false, false) else Flags(n - 10, true, true)
  {
    var f := AddWithCarry(n, 0x90, false);
    assert f == Flags(0x90 + n, false, false);
    assert f.a % 16 == n;
  }

  lemma SecondAdjustLow(n: int)
    requires 0 <= n < 10
    ensures DecimalAdjust(AddWithCarry(0x90 + n, 0x40, false)).a == 48 + n
  {
    var f := AddWithCarry(0x90 + n, 0x40, false);
    assert f == Flags(0xD0 + n, false, false);
    assert f.a % 16 == n;
  }

  lemma SecondAdjustHigh(m: int)
    requires 0 <= m < 6
    ensures DecimalAdjust(AddWithCarry(m, 0x40, true)).a == 65 + m
  {
    var f := AddWithCarry(m, 0x40, true);
    assert f == Flags(0x41 + m, false, false);
    assert f.a % 16 == m + 1;
  }

  class Writer {
    const dbuff: array<byte>
    var dbl: int
    var bpc: word
    var out: seq<byte>             // the HEX file so far
    ghost var records: seq<Record> // the data records written
    ghost var cells: seq<Cell>     // every byte handed to DHEX, with its address

    ghost predicate Valid()
      reads this, dbuff
    {
      && dbuff.Length == BUFFER && 0 <= dbl <= BUFFER
      && Sized(records) && out == RenderAll(records)
      && cells == AllCells(records) + Cells(bpc, dbuff[..dbl])
    }

    // The records written are as long as they can be, and so is what is in the buffer.
    ghost predicate Packed()
      reads this
    {
      Tight(records) && (records != [] ==> dbl != 0 && Ends(records[|records| - 1], bpc))
    }

    constructor ()
      ensures Valid() && Packed() && cells == [] && out == [] && fresh(dbuff)
    {
      dbuff := new byte[BUFFER](_ => 0);
      dbl, bpc, out := 0, 0, [];
      records, cells := [], [];
    }

    // PNB.
    method PutByte(b: byte)
      modifies this`out
      ensures out == old(out) + [b]
    {
      out := out + [b];
    }

    // WRC: two digits, and the byte added to the checksum.
    method Wrc(a: byte, d: byte) returns (d': byte)
      modifies this`out
      ensures out == old(out) + Hex2(a) && d' == (d + a) % 256
    {
      NibbleIsDigit(a / 16);
      NibbleIsDigit(a % 16);
      PutByte(Nibble(a / 16));
      PutByte(Nibble(a % 16));
      d' := (a + d) % 256;
    }

    // WHEX up to the data: header character, length, address, record type.
    method WriteHead(e: byte, ghost body: seq<byte>) returns (d: byte)
      requires |body| >= 4 && body[0] == e && body[1] == bpc / 256 && body[2] == bpc % 256 && body[3] == 0
      modifies this`out
      ensures out == old(out) + [COLON] + HexAll(body[..4]) && d == Sum(body[..4]) % 256
    {
      BytePrinted(body, 0);
      BytePrinted(body, 1);
      BytePrinted(body, 2);
      BytePrinted(body, 3);
      PutByte(COLON);
      assert body[..0] == [];
      d := Wrc(e, 0);
      assert d == Sum(body[..1]) % 256;
      d := Wrc(bpc / 256, d);
      d := Wrc(bpc % 256, d);
      d := Wrc(0, d);
    }

    // WHEX0: the data bytes.
    method WriteData(e: byte, d0: byte, ghost body: seq<byte>, ghost start: seq<byte>) returns (d: byte)
      requires e <= BUFFER == dbuff.Length && |body| == 4 + e && body[4..] == dbuff[..e]
      requires out == start + HexAll(body[..4]) && d0 == Sum(body[..4]) % 256
      modifies this`out
      ensures out == start + HexAll(body) && d == Sum(body) % 256
    {
      d := d0;
      var i := 0;
      while i < e
        invariant 0 <= i <= e
        invariant out == start + HexAll(body[..4 + i]) && d == Sum(body[..4 + i]) % 256
      {
        BytePrinted(body, 4 + i);
        assert body[4 + i] == body[4..][i] == dbuff[i];
        d := Wrc(dbuff[i], d);
        i := i + 1;
      }
      assert body[..4 + e] == body;
    }

    // WHEX: the current buffer as one record.
    method Whex() returns (ghost r: Record)
      requires dbuff.Length == BUFFER && 0 <= dbl <= BUFFER
      modifies this`out, this`dbl
      ensures dbl == 0 && r == Record(bpc, dbuff[..old(dbl)])
      ensures out == old(out) + Render(r)
    {
      r := Record(bpc, dbuff[..dbl]);
      ghost var body := Body(r);
      var e := dbl;
      dbl := 0;
      var d := WriteHead(e, body);
      d := WriteData(e, d, body, old(out) + [COLON]);
      ChecksumOfSum(body, d);
      d := Wrc(if d == 0 then 0 else 256 - d, d);
      PutByte(CR);
      PutByte(LF);
      assert Render(r) == [COLON] + HexAll(body) + Hex2(Checksum(body)) + [CR, LF];
      assert out == old(out) + ([COLON] + HexAll(body) + Hex2(Checksum(body)) + [CR, LF]);
    }

    // DHEX4: the byte continues the buffer.
    method StoreByte(b: byte)
      requires Valid() && dbl < BUFFER
      modifies this`dbl, this`cells, dbuff
      ensures Valid() && cells == old(cells) + [Cell((bpc + old(dbl)) % 0x1_0000, b)]
    {
      ghost var data := dbuff[..dbl];
      AppendCell(bpc, data, b);
      dbuff[dbl] := b;
      dbl := dbl + 1;
      assert dbuff[..dbl] == data + [b];
      cells := cells + [Cell((bpc + |data|) % 0x1_0000, b)];
    }

    // DHEX: collect the byte, first writing out a full buffer or one it does not continue.
    method Dhex(b: byte, fpc: word)
      requires Valid() && Packed()
      modifies this, dbuff
      ensures Valid() && Packed() && cells == old(cells) + [Cell(fpc, b)]
    {
      MakeRoom(fpc);
      StoreByte(b);
    }

    // DHEX up to the store: the buffer has room, and the byte continues it.
    method MakeRoom(fpc: word)
      requires Valid() && Packed()
      modifies this`out, this`dbl, this`records, this`bpc
      ensures Valid() && dbl < BUFFER && (bpc + dbl) % 0x1_0000 == fpc
      ensures Tight(records) && (records != [] ==> Ends(records[|records| - 1], bpc))
    {
      if dbl != 0 && (dbl >= BUFFER || (bpc + dbl) % 0x1_0000 != fpc) {
        WriteOut();
      }
      if dbl == 0 {
        SetBase(fpc);
      }
    }

    // DHEX3
    method SetBase(fpc: word)
      requires Valid() && dbl == 0
      modifies this`bpc
      ensures Valid() && bpc == fpc
    {
      assert dbuff[..dbl] == [];
      bpc := fpc;
    }

    // A data record leaves the buffer.
    method WriteOut()
      requires Valid() && Packed() && dbl != 0
      modifies this`out, this`dbl, this`records
      ensures Valid() && dbl == 0 && Tight(records)
      ensures records != [] && records[|records| - 1].addr == bpc && |records[|records| - 1].data| == old(dbl)
    {
      var r := Whex();
      AddRecord(r, old(dbl));
    }

    // The record just written.
    ghost method AddRecord(r: Record, n: int)
      requires dbuff.Length == BUFFER && 1 <= n <= BUFFER && r == Record(bpc, dbuff[..n]) && dbl == 0
      requires Sized(records) && out == RenderAll(records) + Render(r)
      requires cells == AllCells(records) + Cells(bpc, dbuff[..n])
      requires Tight(records) && (records != [] ==> Ends(records[|records| - 1], bpc))
      modifies this`records
      ensures Valid() && Tight(records) && records == old(records) + [r]
    {
      records := records + [r];
      RecordDone(old(records), r, records, out, cells, bpc);
      assert dbuff[..dbl] == [];
    }

    // EOR0: the last data record and the end record.
    method Finish(fpc: word)
      requires Valid() && Packed()
      modifies this
      ensures Sized(records) && Tight(records) && AllCells(records) == cells == old(cells)
      ensures out == RenderAll(records) + Render(Record(fpc, []))
    {
      if dbl != 0 {
        WriteOut();
      }
      assert dbuff[..0] == [];
      bpc := fpc;
      var _ := Whex();
    }
  }

  // A record more at the end of the text.
  lemma OneRecordMore(rs: seq<Record>, r: Record)
    requires Sized(rs) && 1 <= |r.data| <= 16
    ensures Sized(rs + [r]) && RenderAll(rs + [r]) == RenderAll(rs) + Render(r)
    ensures AllCells(rs + [r]) == AllCells(rs) + Cells(r.addr, r.data)
  {
    assert (rs + [r])[..|rs|] == rs;
  }

  lemma RecordDone(rs: seq<Record>, r: Record, after: seq<Record>, out: seq<byte>, cells: seq<Cell>, bpc: word)
    requires Sized(rs) && 1 <= |r.data| <= 16 && after == rs + [r] && out == RenderAll(rs) + Render(r)
    requires cells == AllCells(rs) + Cells(r.addr, r.data)
    requires Tight(rs) && (rs != [] ==> Ends(rs[|rs| - 1], r.addr))
    ensures Sized(after) && out == RenderAll(after) && cells == AllCells(after) + Cells(bpc, []) && Tight(after)
  {
    OneRecordMore(rs, r);
    TightMore(rs, r);
  }

  lemma TightMore(rs: seq<Record>, r: Record)
    requires Tight(rs) && (rs != [] ==> Ends(rs[|rs| - 1], r.addr))
    ensures Tight(rs + [r])
  {
    assert Unfold(0);
    forall i | 0 <= i < |rs|
      ensures EndsAt(rs + [r], i)
    {
      assert i < |rs| - 1 ==> EndsAt(rs, i);
    }
  }

  // XRA A, SUB D on the running sum gives the checksum.
  lemma ChecksumOfSum(body: seq<byte>, d: byte)
    requires d == Sum(body) % 256
    ensures (if d == 0 then 0 else 256 - d) == Checksum(body)
  {
    var k := Sum(body) / 256;
    assert Sum(body) == 256 * k + d;
  }

  // A byte that continues the buffer extends its cells.
  lemma {:induction false} AppendCell(addr: word, data: seq<byte>, b: byte)
    ensures Cells(addr, data + [b]) == Cells(addr, data) + [Cell((addr + |data|) % 0x1_0000, b)]
    decreases |data|
  {
    if data == [] {
      assert [b][1..] == [];
      assert data + [b] == [b];
    } else {
      assert (data + [b])[1..] == data[1..] + [b];
      AppendCell((addr + 1) % 0x1_0000, data[1..], b);
    }
  }

  lemma BytePrinted(body: seq<byte>, i: int)
    requires 0 <= i < |body|
    ensures HexAll(body[..i + 1]) == HexAll(body[..i]) + Hex2(body[i])
    ensures Sum(body[..i + 1]) % 256 == (Sum(body[..i]) % 256 + body[i]) % 256
  {
    assert body[..i + 1] == body[..i] + [body[i]];
    HexAllAppend(body[..i], [body[i]]);
    HexAllOne(body[i], []);
    assert [body[i]] + [] == [body[i]];
    SumAppend(body[..i], [body[i]]);
    assert Sum([body[i]]) == body[i];
  }
}
