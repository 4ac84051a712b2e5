/**
  From the assembler's HEX file to LOAD's COM file.
 */
module HexRoundTrip {
  import opened Arithmetic
  import opened HexFormat
  import HexChecksum
  import HexWriter
  import ComLoader

  // DHEX for every byte, then EOR0.
  method Assemble(cells: seq<Cell>, fpc: word) returns (text: seq<byte>, ghost records: seq<Record>)
    ensures Sized(records) && Tight(records) && AllCells(records) == cells
    ensures text == RenderAll(records) + Render(Record(fpc, []))
    ensures Increasing(cells) ==> forall tail :: Loads(text + tail, cells)
  {
    var w := new HexWriter.Writer();
    for n := 0 to |cells|
      invariant w.Valid() && w.Packed() && w.cells == cells[..n] && fresh(w) && fresh(w.dbuff)
    {
      w.Dhex(cells[n].b, cells[n].addr);
    }
    assert cells[..|cells|] == cells;
    w.Finish(fpc);
    text, records := w.out, w.records;
    if Increasing(cells) {
      LoadsWhatever(records, fpc);
    }
  }

  // Whatever follows the end record in the HEX file does not matter.
  lemma LoadsWhatever(records: seq<Record>, fpc: word)
    requires Sized(records) && Increasing(AllCells(records))
    ensures forall tail :: Loads(RenderAll(records) + Render(Record(fpc, [])) + tail, AllCells(records))
  {
    forall tail: seq<byte>
      ensures Loads(RenderAll(records) + Render(Record(fpc, [])) + tail, AllCells(records))
    {
      LoadPrinted(records, fpc, tail);
      var end := Render(Record(fpc, []));
      assert RenderAll(records) + end + tail == RenderAll(records) + (end + tail);
    }
  }

  // The COM file has every byte at its address, zeros after the last one, and ends with its paragraph.
  ghost predicate GoodFile(file: seq<byte>, cells: seq<Cell>) {
    && |file| % PARAGRAPH == 0 && TopOf(cells) - TPA <= |file| < TopOf(cells) - TPA + PARAGRAPH
    && (forall i :: 0 <= i < |cells| ==> InFile(file, cells[i]))
    && (forall a :: TopOf(cells) - TPA <= a < |file| ==> file[a] == 0)
  }

  predicate InFile(file: seq<byte>, c: Cell) {
    TPA <= c.addr < TPA + |file| && file[c.addr - TPA] == c.b
  }

  // LOAD, for a text whose image is known.
  method LoadText(text: seq<byte>, ghost cells: seq<Cell>) returns (status: ComLoader.Status, file: seq<byte>)
    requires Loads(text, cells) && Increasing(cells)
    ensures status.Fine? && GoodFile(file, cells) <==> TopOf(cells) <= TOP
    ensures TOP < TopOf(cells) < 0x1_0000 ==> status == ComLoader.Failure(InvertedAddress)
    ensures TopOf(cells) == 0x1_0000 ==>
      && status.Fine? && |file| == TOP - TPA
      && forall i :: 0 <= i < |cells| ==> (InFile(file, cells[i]) <==> cells[i].addr < TOP)
  {
    assert Unfold(0);
    var loader := new ComLoader.Loader(text);
    status := loader.Reloc();
    file := loader.file;
    ghost var st := loader.State();
    forall i | 0 <= i < |cells| && status.Fine? && cells[i].addr < st.l
      ensures InFile(file, cells[i])
    {
      assert cells[i].addr in st.mem;
    }
    forall i | 0 <= i < |cells|
      ensures cells[i].addr < TopOf(cells)
    {
    }
    if TopOf(cells) <= TOP {
      forall a | TopOf(cells) - TPA <= a < |file| ensures file[a] == 0 {
        assert a + TPA in st.mem && st.mem[a + TPA] == 0;
      }
    }
  }

  // Bytes assembled at strictly increasing addresses from 0100H on, printed record by record and loaded again:
  // every checksum passes, every byte is in the COM file at its address less 0100H, and the file is padded with
  // zeros to the end of the last paragraph in use, if and only if the bytes end by 0FF00H. Above that LOAD
  // reports an inverted address; but with a byte at 0FFFFH it reports nothing and drops the last 256 bytes.
  method AssembleAndLoad(cells: seq<Cell>, fpc: word, tail: seq<byte>)
      returns (status: ComLoader.Status, file: seq<byte>)
    requires Increasing(cells)
    ensures status.Fine? && GoodFile(file, cells) <==> TopOf(cells) <= TOP
    ensures TOP < TopOf(cells) < 0x1_0000 ==> status == ComLoader.Failure(InvertedAddress)
    ensures TopOf(cells) == 0x1_0000 ==>
      && status.Fine? && |file| == TOP - TPA
      && forall i :: 0 <= i < |cells| ==> (InFile(file, cells[i]) <==> cells[i].addr < TOP)
  {
    var text;
    ghost var records;
    text, records := Assemble(cells, fpc);
    status, file := LoadText(text + tail, cells);
  }

  // LOAD on a printed text with one data or checksum byte replaced by another: a checksum error.
  method LoadDamaged(rs: seq<Record>, j: nat, k: nat, v: byte, rest: seq<byte>) returns (status: ComLoader.Status)
    requires Sized(rs) && j < |rs| && Increasing(AllCells(rs[..j + 1]))
    requires k <= |rs[j].data| && v != HexChecksum.Bytes(rs[j])[4 + k]
    ensures status == ComLoader.Failure(BadChecksum)
  {
    HexChecksum.DamageRefused(rs, j, k, v, rest);
    var loader := new ComLoader.Loader(RenderAll(rs[..j]) + (HexChecksum.Damaged(rs[j], k, v) + rest));
    status := loader.Reloc();
  }

  // LOAD on any text: it ends without an error only if the bytes of every record read sum to zero.
  method LoadAny(text: seq<byte>) returns (status: ComLoader.Status, file: seq<byte>)
    ensures status.Fine? ==> HexChecksum.AllRight(text)
  {
    var loader := new ComLoader.Loader(text);
    status := loader.Reloc();
    file := loader.file;
    if status.Fine? {
      HexChecksum.LoadedSums(text);
    }
  }
}
