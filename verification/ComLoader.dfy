/**
  LOAD: reads HEX records through a sliding 256-byte window and writes the memory image in
  paragraphs of 128 bytes.  The text read and the image kept are those of HexFormat.
 */
module ComLoader {
  import opened HexFormat

  class Loader {
    const mbuff: array<byte>
    var l: positive            // lowest address still in the window
    var la: word               // load address
    var file: seq<byte>        // the COM file written so far
    var input: seq<byte>       // the HEX text not yet read
    var cs: byte               // running checksum
    ghost var mem: map<int, byte>

    // The image as HexFormat sees it.
    ghost function State(): Image
      reads this
    {
      Image(mem, l, la)
    }

    // Written addresses are in the file, the others still in the window. The window ends within memory, so
    // that the 16-bit sum for its end never wraps.
    ghost predicate Valid()
      reads this, mbuff
    {
      && mbuff.Length == WINDOW && l == TPA + |file| && |file| % PARAGRAPH == 0 && l + WINDOW <= 0x1_0000
      && (forall a :: a in mem && TPA <= a < l ==> file[a - TPA] == mem[a])
      && (forall a :: a in mem && l <= a ==> a < l + WINDOW && mbuff[a % WINDOW] == mem[a])
    }

    // The load address starts at 0100H like the window: LOAD sets it before it calls RELOC.
    constructor (text: seq<byte>)
      ensures Valid() && State() == Image(map[], TPA, TPA) && input == text && file == [] && fresh(mbuff)
    {
      mbuff := new byte[WINDOW];
      l, la, file, input, cs, mem := TPA, TPA, [], text, 0, map[];
    }

    // Write a paragraph.
    method WriteParagraph()
      requires Valid() && l + PARAGRAPH + WINDOW <= 0x1_0000
      modifies this`l, this`file
      ensures Valid() && l == old(l) + PARAGRAPH && |file| == |old(file)| + PARAGRAPH
    {
      var buffer := seq(PARAGRAPH, i requires 0 <= i < PARAGRAPH => 0 as byte);
      var i := 0;
      while i < PARAGRAPH
        invariant 0 <= i <= PARAGRAPH == |buffer|
        invariant forall k :: 0 <= k < i ==> buffer[k] == mbuff[(l + k) % WINDOW]
      {
        buffer := buffer[i := mbuff[(l + i) % WINDOW]];
        i := i + 1;
      }
      file := file + buffer;
      l := l + PARAGRAPH;
    }

    // The window slides up until it holds the load address.
    method SlideUp()
      requires Valid() && l <= la
      modifies this`l, this`file
      ensures Valid() && l == Slide(old(l), la)
    {
      while la > (l + WINDOW - 1) % 0x1_0000
        invariant Valid() && l <= la
        invariant Slide(l, la) == Slide(old(l), la)
        decreases la - l
      {
        WriteParagraph();
      }
    }

    // SETMEM: slide the window up to the load address and store the byte in it.
    method StoreByte(b: byte) returns (ok: bool)
      requires Valid()
      modifies this`l, this`file, this`mem, mbuff
      ensures if ok then Valid() && SetMem(old(State()), b) == Done(State())
              else SetMem(old(State()), b) == Failed(InvertedAddress)
    {
      if la < l {
        return false;
      }
      SlideUp();
      ghost var keep := mem;
      mbuff[la % WINDOW] := b;
      mem := mem[la := b];
      forall a | a in keep && l <= a && a != la ensures a % WINDOW != la % WINDOW {
        SameSlot(a, la, l);
      }
      ok := true;
    }

    // READHEX twice: READBYTE.
    method GetByte() returns (ok: bool, b: byte)
      modifies this`input
      ensures ok <==> ReadByte(old(input)).Got?
      ensures ok ==> ReadByte(old(input)) == Got(b, input)
    {
      if |input| < 2 {
        return false, 0;
      }
      var h := DigitValue(input[0]);
      var d := DigitValue(input[1]);
      if h < 0 || d < 0 {
        return false, 0;
      }
      input := input[2..];
      ok, b := true, 16 * h + d;
    }

    // READCS: a byte, added to the checksum.
    method GetSummed() returns (ok: bool, b: byte)
      modifies this`input, this`cs
      ensures ok <==> ReadByte(old(input)).Got?
      ensures ok ==> ReadByte(old(input)) == Got(b, input) && cs == (old(cs) + b) % 256
    {
      ok, b := GetByte();
      if ok {
        cs := (cs + b) % 256;
      }
    }

    // The bytes of a record.
    method GetData(n: byte) returns (status: Status)
      requires Valid()
      modifies this, mbuff
      ensures var d := ReadData(old(State()), old(input), n, old(cs));
              if status.Fine? then Valid() && d == Data(State(), input, cs)
              else d == Stopped(status.error)
    {
      var rl: int := n;
      while rl != 0
        invariant 0 <= rl <= n && Valid()
        invariant ReadData(old(State()), old(input), n, old(cs)) == ReadData(State(), input, rl, cs)
        decreases rl
      {
        ghost var st, s, c := State(), input, cs;
        var ok, b := GetSummed();
        if !ok {
          return Failure(InvalidDigit);
        }
        assert State() == st;
        ok := StoreByte(b);
        if !ok {
          return Failure(InvertedAddress);
        }
        la := (la + 1) % 0x1_0000;
        rl := rl - 1;
      }
      status := Fine;
    }

    // Address and record type.
    method GetHeader(rl: byte) returns (ok: bool)
      requires cs == rl
      modifies this`input, this`cs, this`la
      ensures var h := ReadHeader(old(input), rl);
              if ok then h == Header(la, cs, input) else h == NoHeader
    {
      var hi, lo, rt;
      ok, hi := GetSummed();
      if !ok { return; }
      ok, lo := GetSummed();
      if !ok { return; }
      ok, rt := GetSummed();
      if !ok { return; }
      la := 256 * (hi as int) + lo;
      SumOfThree(rl, hi, lo, rt);
    }

    // The data and the checksum of a record.
    method GetRest(rl: byte) returns (status: Status)
      requires Valid()
      modifies this, mbuff
      ensures var d := ReadData(old(State()), old(input), rl, old(cs));
              var line := if d.Data? then ReadChecksum(d.st, d.rest, d.cs) else Wrong(d.error);
              match status
              case Failure(e) => line == Wrong(e)
              case Fine => Valid() && line == Next(State(), input)
    {
      status := GetData(rl);
      if status.Failure? { return; }
      var ok, sum := GetByte();
      if !ok { return Failure(InvalidDigit); }
      if (cs + sum) % 256 != 0 { return Failure(BadChecksum); }
    }

    // One record, from its length on.
    method GetRecord() returns (end: bool, status: Status)
      requires Valid()
      modifies this, mbuff
      ensures var line := ReadRecord(old(State()), old(input));
              match status
              case Failure(e) => line == Wrong(e)
              case Fine => Valid() && if end then line == End(State()) else line == Next(State(), input)
    {
      cs, end := 0, false;
      var ok, rl := GetSummed();
      if !ok { return false, Failure(InvalidDigit); }
      if rl == 0 { return true, Fine; }
      ok := GetHeader(rl);
      if !ok { return false, Failure(InvalidDigit); }
      status := GetRest(rl);
    }

    // FIN: empty the window.
    method Drain() returns (status: Status)
      requires Valid()
      modifies this, mbuff
      ensures var o := Pad(old(State()), old(la));
              match status
              case Failure(e) => o == Failed(e)
              case Fine => Valid() && o == Done(State())
    {
      var ta: int := la;
      while l < ta
        invariant Valid() && Pad(old(State()), ta) == Pad(State(), ta)
        decreases ta - l, if la < l then 0 else 0x1_0000 - la
      {
        var ok := StoreByte(0);
        if !ok { return Failure(InvertedAddress); }
        la := (la + 1) % 0x1_0000;
      }
      status := Fine;
    }

    // RELOC: the COM file holds the image LOAD builds, up to the last paragraph written.
    method Reloc() returns (status: Status)
      requires Valid() && State() == Image(map[], TPA, TPA)
      modifies this, mbuff
      ensures match status
              case Failure(e) => Load(old(input)) == Failed(e)
              case Fine => Valid() && Load(old(input)) == Done(State())
    {
      while true
        invariant Valid() && ReadRecords(old(State()), old(input)) == ReadRecords(State(), input)
        decreases |input|
      {
        while |input| > 0 && input[0] != COLON
          invariant Valid() && ReadRecords(old(State()), old(input)) == ReadRecords(State(), input)
          decreases |input|
        {
          SkipOne(State(), input);
          input := input[1..];
        }
        if |input| == 0 { return Failure(NoEndRecord); }
        ghost var st, s := State(), input;
        assert SkipToColon(s) == s;
        input := input[1..];
        var end;
        end, status := GetRecord();
        if status.Failure? { return; }
        if end { break; }
      }
      status := Drain();
    }
  }

  lemma SkipOne(st: Image, s: seq<byte>)
    requires s != [] && s[0] != COLON
    ensures ReadRecords(st, s) == ReadRecords(st, s[1..])
  {
    assert SkipToColon(s) == SkipToColon(s[1..]);
  }

  lemma SumOfThree(rl: byte, hi: byte, lo: byte, rt: byte)
    ensures (((rl + hi) % 256 + lo) % 256 + rt) % 256 == (rl + hi + lo + rt) % 256
  {
    AddReduced(rl + hi, lo);
    AddReduced(rl + hi + lo, rt);
  }

  lemma AddReduced(x: int, y: int)
    ensures (x % 256 + y) % 256 == (x + y) % 256
  {
    var q := x / 256;
    assert x % 256 + y == x + y - 256 * q;
    MinusMultiple(x + y, q);
  }

  datatype Status = Fine | Failure(error: Error)

  // Two addresses of one window share a slot only if they are equal.
  lemma SameSlot(a: int, b: int, l: int)
    requires l <= a < l + WINDOW && l <= b < l + WINDOW && a != b
    ensures a % WINDOW != b % WINDOW
  {
  }

  lemma ByteMinus(c: int, k: int)
    requires 0 <= c < 256 && 0 <= k < 256
    ensures (c - k) % 256 == if c >= k then c - k else c - k + 256
  {
  }

  // READHEX on one character, in byte arithmetic.
  method DigitValue(h: byte) returns (v: int)
    ensures v == HexVal(h)
  {
    var c: int := h;
    ByteMinus(c, 48);
    ByteMinus(c, 65);
    if (c - 48) % 256 <= 9 {
      v := (c - 48) % 256;
    } else if (c - 65) % 256 > 5 {
      v := -1;
    } else {
      v := (c - 65) % 256 + 10;
    }
  }
}
