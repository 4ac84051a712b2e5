/**
  The console's TELNET input filter (RFC 854 command structure, RFC 855 subnegotiation) and the
  byte queue behind it.
 */
module Telnet {

  type byte = x: int | 0 <= x < 256

  const NUL := 0
  const LF := 10
  const CR := 13
  const CONTROL_Q := 0x11
  const SE := 0xF0
  const SB := 0xFA
  const WILL := 0xFB
  const DONT := 0xFE
  const IAC := 0xFF

  // --- what the filter means

  // Input without TELNET commands; a doubled IAC is one data byte.
  function Strip(s: seq<byte>): seq<byte>
    decreases |s|
  {
    if s == [] then []
    else if s[0] != IAC then [s[0]] + Strip(s[1..])
    else if |s| == 1 then []
    else if s[1] == IAC then [s[1]] + Strip(s[2..])
    else if WILL <= s[1] <= DONT then Strip(if |s| >= 3 then s[3..] else [])
    else if s[1] == SB then Strip(AfterSubnegotiation(s[2..]))
    else Strip(s[2..])
  }

  // What follows the first IAC SE, pairing every IAC with the byte after it.
  function AfterSubnegotiation(s: seq<byte>): (r: seq<byte>)
    ensures |r| <= |s|
    decreases |s|
  {
    if s == [] then []
    else if s[0] != IAC then AfterSubnegotiation(s[1..])
    else if |s| == 1 then []
    else if s[1] == SE then s[2..]
    else AfterSubnegotiation(s[2..])
  }

  // CR LF, CR NUL, CR and LF each become one CR; other bytes lose their top bit.
  function Normalise(s: seq<byte>): seq<byte>
    decreases |s|
  {
    if s == [] then []
    else if s[0] == CR then
      [CR] + Normalise(if |s| >= 2 && (s[1] == LF || s[1] == NUL) then s[2..] else s[1..])
    else if s[0] == LF then [CR] + Normalise(s[1..])
    else [s[0] % 128] + Normalise(s[1..])
  }

  function Filter(s: seq<byte>): seq<byte> { Normalise(Strip(s)) }

  // A complete command: IAC x, a three-byte option negotiation, or a subnegotiation up to IAC SE.
  predicate IsCommand(c: seq<byte>) {
    && |c| >= 2 && c[0] == IAC && c[1] != IAC
    && (if WILL <= c[1] <= DONT then |c| == 3
        else if c[1] == SB then EndsSubnegotiation(c[2..])
        else |c| == 2)
  }

  predicate EndsSubnegotiation(s: seq<byte>)
    decreases |s|
  {
    if |s| < 2 then false
    else if s[0] != IAC then EndsSubnegotiation(s[1..])
    else if s[1] == SE then |s| == 2
    else EndsSubnegotiation(s[2..])
  }

  // No command is left open at the end of s.
  predicate Closed(s: seq<byte>)
    decreases |s|
  {
    if s == [] then true
    else if s[0] != IAC then Closed(s[1..])
    else if |s| == 1 then false
    else if WILL <= s[1] <= DONT then |s| >= 3 && Closed(s[3..])
    else if s[1] == SB then ClosedSubnegotiation(s[2..])
    else Closed(s[2..])
  }

  predicate ClosedSubnegotiation(s: seq<byte>)
    decreases |s|
  {
    if |s| < 2 then false
    else if s[0] != IAC then ClosedSubnegotiation(s[1..])
    else if s[1] == SE then Closed(s[2..])
    else ClosedSubnegotiation(s[2..])
  }

  // --- commands between data bytes do not show

  lemma {:induction false} StripCommand(c: seq<byte>, b: seq<byte>)
    requires IsCommand(c)
    ensures Strip(c + b) == Strip(b)
  {
    var s := c + b;
    if WILL <= c[1] <= DONT {
      assert s[3..] == b;
    } else if c[1] == SB {
      assert s[2..] == c[2..] + b;
      SkipSubnegotiation(c[2..], b);
    } else {
      assert s[2..] == b;
    }
  }

  lemma {:induction false} SkipSubnegotiation(c: seq<byte>, b: seq<byte>)
    requires EndsSubnegotiation(c)
    ensures AfterSubnegotiation(c + b) == b
    decreases |c|
  {
    if c[0] != IAC {
      assert (c + b)[1..] == c[1..] + b;
      SkipSubnegotiation(c[1..], b);
    } else if c[1] == SE {
      assert (c + b)[2..] == b;
    } else {
      assert (c + b)[2..] == c[2..] + b;
      SkipSubnegotiation(c[2..], b);
    }
  }

  lemma {:induction false} StripAppend(a: seq<byte>, b: seq<byte>)
    requires Closed(a)
    ensures Strip(a + b) == Strip(a) + Strip(b)
    decreases |a|
  {
    var s := a + b;
    if a == [] {
      assert s == b;
    } else if a[0] != IAC {
      assert s[1..] == a[1..] + b;
      StripAppend(a[1..], b);
    } else if WILL <= a[1] <= DONT {
      assert s[3..] == a[3..] + b;
      StripAppend(a[3..], b);
    } else if a[1] == SB {
      assert s[2..] == a[2..] + b;
      AfterAppend(a[2..], b);
      StripAppend(AfterSubnegotiation(a[2..]), b);
    } else {
      assert s[2..] == a[2..] + b;
      StripAppend(a[2..], b);
    }
  }

  lemma {:induction false} AfterAppend(a: seq<byte>, b: seq<byte>)
    requires ClosedSubnegotiation(a)
    ensures AfterSubnegotiation(a + b) == AfterSubnegotiation(a) + b
    ensures Closed(AfterSubnegotiation(a))
    decreases |a|
  {
    if a[0] != IAC {
      assert (a + b)[1..] == a[1..] + b;
      AfterAppend(a[1..], b);
    } else {
      assert (a + b)[2..] == a[2..] + b;
      if a[1] != SE {
        AfterAppend(a[2..], b);
      }
    }
  }

  // A complete command inserted where no command is open, even between CR and LF, changes nothing.
  lemma CommandInvisible(a: seq<byte>, c: seq<byte>, b: seq<byte>)
    requires Closed(a) && IsCommand(c)
    ensures Filter(a + c + b) == Filter(a + b)
  {
    StripInsert(a, c, b, c + b);
    assert a + c + b == a + (c + b);
  }

  lemma StripInsert(a: seq<byte>, c: seq<byte>, b: seq<byte>, more: seq<byte>)
    requires Closed(a) && IsCommand(c) && more == c + b
    ensures Strip(a + more) == Strip(a + b)
  {
    StripAppend(a, more);
    StripAppend(a, b);
    StripCommand(c, b);
  }

  // --- a session

  // What a terminal sends: text, the end of a line in one of its three forms, a data byte 255, or a command.
  datatype Piece = Text(t: seq<byte>) | LineEnd(e: seq<byte>) | Byte255 | Command(c: seq<byte>)

  predicate PieceOk(p: Piece) {
    match p
    case Text(t) => forall i :: 0 <= i < |t| ==> t[i] != IAC && t[i] != CR && t[i] != LF
    case LineEnd(e) => e == [CR, LF] || e == [CR, NUL] || e == [LF]
    case Byte255 => true
    case Command(c) => IsCommand(c)
  }

  function BytesOf(p: Piece): seq<byte> {
    match p case Text(t) => t case LineEnd(e) => e case Byte255 => [IAC, IAC] case Command(c) => c
  }

  function Low(t: seq<byte>): seq<byte> { seq(|t|, i requires 0 <= i < |t| => t[i] % 128) }

  // What the program should get.
  function TypedBy(p: Piece): seq<byte> {
    match p case Text(t) => Low(t) case LineEnd(_) => [CR] case Byte255 => [127] case Command(_) => []
  }

  function Sent(ps: seq<Piece>): seq<byte> { if ps == [] then [] else BytesOf(ps[0]) + Sent(ps[1..]) }

  function TypedAll(ps: seq<Piece>): seq<byte> { if ps == [] then [] else TypedBy(ps[0]) + TypedAll(ps[1..]) }

  lemma {:induction false} StripText(t: seq<byte>, b: seq<byte>)
    requires forall i :: 0 <= i < |t| ==> t[i] != IAC
    ensures Strip(t + b) == t + Strip(b)
    decreases |t|
  {
    if t == [] {
      assert t + b == b;
    } else {
      assert (t + b)[1..] == t[1..] + b;
      StripText(t[1..], b);
    }
  }

  lemma {:induction false} NormaliseText(t: seq<byte>, b: seq<byte>)
    requires forall i :: 0 <= i < |t| ==> t[i] != CR && t[i] != LF
    ensures Normalise(t + b) == Low(t) + Normalise(b)
    decreases |t|
  {
    if t == [] {
      assert t + b == b;
    } else {
      assert (t + b)[1..] == t[1..] + b;
      NormaliseText(t[1..], b);
      assert Low(t) == [t[0] % 128] + Low(t[1..]);
    }
  }

  lemma NormaliseEnd(e: seq<byte>, b: seq<byte>)
    requires e == [CR, LF] || e == [CR, NUL] || e == [LF]
    ensures Normalise(e + b) == [CR] + Normalise(b)
  {
    if |e| == 2 {
      assert (e + b)[2..] == b;
    } else {
      assert (e + b)[1..] == b;
    }
  }

  lemma StripDouble(b: seq<byte>)
    ensures Strip([IAC, IAC] + b) == [IAC] + Strip(b)
  {
    assert ([IAC, IAC] + b)[2..] == b;
  }

  lemma PieceTyped(p: Piece, b: seq<byte>)
    requires PieceOk(p)
    ensures Filter(BytesOf(p) + b) == TypedBy(p) + Filter(b)
  {
    match p
    case Text(t) =>
      StripText(t, b);
      NormaliseText(t, Strip(b));
    case LineEnd(e) =>
      StripText(e, b);
      NormaliseEnd(e, Strip(b));
    case Byte255 =>
      StripDouble(b);
      NormaliseText([IAC], Strip(b));
    case Command(c) => StripCommand(c, b);
  }

  // The program gets the text, one CR for each end of a line, and nothing of the commands.
  lemma {:induction false} SessionTyped(ps: seq<Piece>)
    requires forall i :: 0 <= i < |ps| ==> PieceOk(ps[i])
    ensures Filter(Sent(ps)) == TypedAll(ps)
  {
    if ps != [] {
      SessionTyped(ps[1..]);
      PieceTyped(ps[0], Sent(ps[1..]));
    }
  }

  // A CR that no LF or NUL follows is the end of a line too.
  lemma BareReturn(b: seq<byte>)
    requires b != [] ==> b[0] != LF && b[0] != NUL
    ensures Normalise([CR] + b) == [CR] + Normalise(b)
  {
    assert ([CR] + b)[1..] == b;
  }

  // --- the filter's state machine

  datatype TelnetState = Data | Iac | Option | Subnegotiation | SubnegotiationIac

  // What the rest of the input still yields from a given state.
  function Rest(state: TelnetState, s: seq<byte>): seq<byte> {
    match state
    case Data => Strip(s)
    case Iac => Strip([IAC] + s)
    case Option => Strip(if |s| >= 1 then s[1..] else [])
    case Subnegotiation => Strip(AfterSubnegotiation(s))
    case SubnegotiationIac => Strip(AfterSubnegotiation([IAC] + s))
  }

  // Line ends still to be normalised after a CR was passed on.
  function RestLines(previousWasCr: bool, s: seq<byte>): seq<byte> {
    Normalise(if previousWasCr && |s| >= 1 && (s[0] == LF || s[0] == NUL) then s[1..] else s)
  }

  class Console {
    var queue: seq<byte>         // consoleBuffer
    ghost var typed: seq<byte>   // everything ever enqueued
    ghost var taken: seq<byte>   // everything dequeued so far

    ghost predicate Valid()
      reads this
    {
      typed == taken + queue
    }

    constructor ()
      ensures Valid() && queue == [] && typed == [] && taken == []
    {
      queue, typed, taken := [], [], [];
    }

    method Enqueue(c: byte)
      requires Valid()
      modifies this
      ensures Valid() && queue == old(queue) + [c] && typed == old(typed) + [c] && taken == old(taken)
    {
      queue := queue + [c];
      typed := typed + [c];
    }

    // ConIn: the oldest byte, or 0 when there is none. A control-Q is taken and ends the thread.
    method ConIn() returns (c: byte, exits: bool)
      requires Valid()
      modifies this
      ensures Valid() && typed == old(typed)
      ensures if old(queue) == [] then c == 0 && taken == old(taken) else taken == old(taken) + [c]
      ensures exits <==> old(queue) != [] && c == CONTROL_Q
    {
      if queue == [] {
        return 0, false;
      }
      c := queue[0];
      queue := queue[1..];
      taken := taken + [c];
      exits := c == CONTROL_Q;
    }

    // The line-end part of the loop body, for one data byte.
    method PassOn(c: byte, previousWasCr: bool, ghost s: seq<byte>) returns (nowCr: bool)
      requires Valid()
      modifies this
      ensures Valid() && taken == old(taken)
      ensures old(typed) + RestLines(previousWasCr, [c] + s) == typed + RestLines(nowCr, s)
    {
      nowCr := false;
      OneByte(c, previousWasCr, s);
      if previousWasCr && (c == LF || c == NUL) {
      } else if c == CR {
        Enqueue(CR);
        nowCr := true;
      } else if c == LF {
        Enqueue(CR);
      } else {
        Enqueue(c % 128);
      }
    }

    // The loop body of console(), for one byte.
    method OnByte(c: byte, state: TelnetState, previousWasCr: bool, ghost s: seq<byte>)
        returns (next: TelnetState, nowCr: bool)
      requires Valid()
      modifies this
      ensures Valid() && taken == old(taken)
      ensures old(typed) + RestLines(previousWasCr, Rest(state, [c] + s)) == typed + RestLines(nowCr, Rest(next, s))
    {
      StateStep(state, c, s);
      var isData := (state == Data && c != IAC) || (state == Iac && c == IAC);
      match state {
        case Data => next := if c == IAC then Iac else Data;
        case Iac =>
          next :=
            if c == IAC then Data
            else if WILL <= c <= DONT then Option
            else if c == SB then Subnegotiation
            else Data;
        case Option => next := Data;
        case Subnegotiation => next := if c == IAC then SubnegotiationIac else Subnegotiation;
        case SubnegotiationIac => next := if c == SE then Data else Subnegotiation;
      }
      nowCr := previousWasCr;
      ghost var rest := Rest(next, s);
      if isData {
        nowCr := PassOn(c, previousWasCr, rest);
      } else {
        assert [] + rest == rest;
      }
    }

    // A session of a terminal.
    method ReceiveSession(ps: seq<Piece>)
      requires Valid() && forall i :: 0 <= i < |ps| ==> PieceOk(ps[i])
      modifies this
      ensures Valid() && taken == old(taken) && typed == old(typed) + TypedAll(ps)
    {
      SessionTyped(ps);
      Receive(Sent(ps));
    }

    // console(): one connection's input, byte by byte.
    method Receive(input: seq<byte>)
      requires Valid()
      modifies this
      ensures Valid() && taken == old(taken)
      ensures typed == old(typed) + Filter(input)
    {
      var state, previousWasCr := Data, false;
      for n := 0 to |input|
        invariant Valid() && taken == old(taken)
        invariant old(typed) + Filter(input) == typed + RestLines(previousWasCr, Rest(state, input[n..]))
      {
        ghost var s := input[n + 1..];
        assert input[n..] == [input[n]] + s;
        state, previousWasCr := OnByte(input[n], state, previousWasCr, s);
      }
      StateEnd(state);
      assert input[|input|..] == [];
    }
  }

  function NextState(state: TelnetState, c: byte): TelnetState {
    match state
    case Data => if c == IAC then Iac else Data
    case Iac =>
      if c == IAC then Data
      else if WILL <= c <= DONT then Option
      else if c == SB then Subnegotiation
      else Data
    case Option => Data
    case Subnegotiation => if c == IAC then SubnegotiationIac else Subnegotiation
    case SubnegotiationIac => if c == SE then Data else Subnegotiation
  }

  // One transition of the state machine follows the command grammar.
  lemma StateStep(state: TelnetState, c: byte, s: seq<byte>)
    ensures var isData := (state == Data && c != IAC) || (state == Iac && c == IAC);
            Rest(state, [c] + s) == (if isData then [c] else []) + Rest(NextState(state, c), s)
  {
    var t := [c] + s;
    assert t[1..] == s;
    var u := [IAC] + t;
    assert u[1..] == t && u[2..] == s;
    assert |s| >= 1 ==> u[3..] == s[1..];
    assert |s| == 0 ==> u[2..] == [];
    if state == Data && c == IAC {
      assert t == [IAC] + s;
    }
    if state == Subnegotiation && c == IAC {
      assert t == [IAC] + s;
    }
  }

  lemma StateEnd(state: TelnetState)
    ensures Rest(state, []) == []
  {
  }

  lemma OneByte(c: byte, previousWasCr: bool, s: seq<byte>)
    ensures RestLines(previousWasCr, [c] + s) ==
              if previousWasCr && (c == LF || c == NUL) then RestLines(false, s)
              else if c == CR then [CR] + RestLines(true, s)
              else if c == LF then [CR] + RestLines(false, s)
              else [c % 128] + RestLines(false, s)
  {
    var t := [c] + s;
    assert t[1..] == s;
    assert |s| >= 1 ==> t[2..] == s[1..];
  }
}
